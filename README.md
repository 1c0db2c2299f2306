# LoRA Catalogue: a Dafny model of the editor and the catalogue

LoRA Catalogue is a desktop tool that keeps one JSON record per character,
style or misc asset. Each category has its own folder. The project models
the two frames that do the work:

- **Add/Edit** (`add_edit_character.py`) holds a form with the entries, a
  list of tag rows, a list of extra-image rows and a chosen image. It saves
  the form as `<safe name>.json` and loads a record file back into the form.
- **Catalogue** (`character_catalogue.py`) lists the category's record
  files, shows the details of the selected one and deletes it.

The model is split into modules that follow the program:

| module | file | what it holds |
|---|---|---|
| `Strings` | strings.dfy | Python's `str.strip()` (the full `isspace` set), `str.lower()`, string `<=` and `os.path.splitext` |
| `Store` | store.dfy | the record a save writes (`Record`), a record file as read back (`Document`) and the `FileSystem` class |
| `Categories` | categories.dfy | `CATEGORY_FOLDERS` and the `last_category` preference |
| `Preview` | preview.dfy | the shortest-side-300 preview size and what an image label shows |
| `Listing` | listing.dfy | the sorted `.json` listing of `refresh_list` |
| `SaveRules` | save_rules.dfy | the sanitiser, the record a save builds, the rows a load produces, row removal by frame |
| `Editor` | editor.dfy | class `AddEditCharacter`, with one method per button |
| `Display` | display.dfy | the widgets of the catalogue's details panel |
| `Catalogue` | catalogue.dfy | class `CharacterCatalogue`: list, selection, details, delete |

The disk is a `FileSystem` object with three parts:

- `records` maps a `Path(folder, file)` to the parsed document, or to `None`
  when the file is not valid JSON. A path that is absent is a missing file.
- `images` maps an image path that exists to what PIL makes of it: a size,
  or `Undecodable`.
- `settings` is the preference file.

Several inputs are method parameters:

- what a file dialog returns;
- the answer to a yes/no prompt;
- whether a write or a removal succeeds;
- the names `os.listdir` returns. They agree with the folder: a `.json` name
  is listed exactly when the folder holds that file (`Catalogue.ListingOf`).

Typing into an entry is an assignment to its field. Each tag row and
extra-image row carries the number of the frame widget that holds it, so a
row's Remove button removes exactly its own row.

Some behaviour of the program shapes the model:

- A save is refused for one of two reasons. Either the stripped name is
  empty (`MissingName`), or nothing is left of it once sanitised
  (`InvalidName`).
- Preview sides are truncated to whole pixels by `int(...)`.
- After a failed preview check the editor's label shows the text "No image
  selected" with no image (`NoImage`). Only the catalogue falls back to the
  placeholder image.
- A saved file loads back into the form with these differences:
  - the name, notes, tags and extra images come back stripped;
  - blank rows are gone;
  - a file without a model type shows "1.5";
  - an image path that names no existing file is cleared.

## Model

| member | source | states |
|---|---|---|
| Strings.Strip | add_edit_character.py:255 | the stripped text has no whitespace (Python's `isspace` set) at either end |
| Strings.StripInfix | add_edit_character.py:255 | the stripped text is the infix of the input that starts right after its leading whitespace, and only whitespace follows it |
| Strings.StripEmpty | add_edit_character.py:255-256 | stripping gives the empty string exactly when the text is all whitespace |
| Strings.StripFixed | add_edit_character.py:274 | a text with no whitespace at its ends strips to itself |
| Strings.StripIdempotent | add_edit_character.py:274 | stripping twice is stripping once |
| Strings.LexLeTotal | character_catalogue.py:212-215 | any two strings are ordered one way or the other by Python's `<=` |
| Strings.LexLeTransitive | character_catalogue.py:212-215 | Python's `<=` on strings is transitive |
| Strings.StemOfJsonName | character_catalogue.py:235 | the stem of a `.json` name (any case) is the name without those five characters, unless only dots precede them |
| Store.ToDocument | add_edit_character.py:268-285 | a written record reads back with every key present and every text field as written: one tag object per tag and one image object per extra image, in order |
| Categories.CategoryFolder | add_edit_character.py:132 | a known category gets the folder `CATEGORY_FOLDERS` assigns it; any other gets the Characters folder |
| Categories.CategoryFoldersDistinct | add_edit_character.py:9-13 | two different known categories never share a folder |
| Categories.LoadLastCategory | add_edit_character.py:23-29 | the stored `last_category`, or the default for an unreadable file, a non-object or a missing key |
| Categories.SaveLastCategory | add_edit_character.py:31-37 | after a successful write the stored category is `cat`; a failed write changes nothing |
| Categories.LastCategoryRoundTrip | character_catalogue.py:22-36 | a category that was saved is the one the next start resumes in, whatever default that start passes |
| Preview.PreviewSize | character_catalogue.py:314-317 | both preview sides are at least 1 pixel |
| Preview.PreviewSizeFloor | character_catalogue.py:314-317 | each side is the floor of `side * 300 / min(w, h)`, and both sides are at least 300 |
| Preview.PreviewKeepsOrientation | add_edit_character.py:371-376 | a portrait image previews portrait and a landscape one landscape; a square stays square |
| Preview.PreviewShortSide | add_edit_character.py:371-376 | the shorter side of the preview is exactly 300 pixels, in exact arithmetic |
| Preview.ScaledPreviewSpec | character_catalogue.py:312-318 | an image is scaled exactly when the path is non-empty and names a decodable picture with non-zero sides; its shorter side is then 300 pixels (in exact arithmetic) and its orientation is the picture's |
| Preview.CataloguePreviewSpec | character_catalogue.py:305-328 | the catalogue never shows the bare text: the scaled image when possible, otherwise the placeholder |
| Listing.JsonNames | character_catalogue.py:213 | keeps every name ending in `.json` (any letter case) as often as it occurs, and no other name |
| Listing.InsertByKey | character_catalogue.py:212-215 | inserting into a list sorted by lower-cased name keeps it sorted and adds exactly that name |
| Listing.SortByKey | character_catalogue.py:212-215 | the result is sorted by lower-cased name and is a permutation of the input |
| Listing.InsertByKeyWithKey | character_catalogue.py:212-215 | an inserted name goes in front of the names with the same lower-cased key |
| Listing.SortByKeyStable | character_catalogue.py:212-215 | the sort is stable: names with the same lower-cased key keep the order they have in its input |
| Listing.JsonNamesWithKey | character_catalogue.py:213 | the filter keeps the names of each `.json` key in the folder listing's order and leaves no name of any other key |
| Listing.ListedNamesStable | character_catalogue.py:212-215 | names differing only in letter case are listed in the order the folder listing gives them |
| Listing.ListedNamesSpec | character_catalogue.py:212-215 | the listing is sorted and holds exactly the folder's `.json` names, with their multiplicities |
| Listing.NoJsonNamesListsNothing | character_catalogue.py:212-218 | a folder without `.json` names lists nothing |
| SaveRules.RemoveForbidden | add_edit_character.py:261 | the result has no forbidden character (one of the nine characters Windows reserves, or U+0000..U+001F) |
| SaveRules.RemoveForbiddenCounts | add_edit_character.py:261 | every other character is kept as often as it occurs, and every forbidden one is dropped |
| SaveRules.RemoveForbiddenAppend | add_edit_character.py:261 | characters are filtered one at a time, so the kept ones stay in order: filtering two joined texts joins their filtered parts |
| SaveRules.RemoveForbiddenAllSpace | add_edit_character.py:261-262 | what is left is all whitespace exactly when every character is forbidden or whitespace |
| SaveRules.Sanitize | add_edit_character.py:261-264 | the safe name has no forbidden character and no edge whitespace; it is empty exactly when the name has only forbidden and whitespace characters |
| SaveRules.RemoveForbiddenFixed | add_edit_character.py:261 | a text without forbidden characters is unchanged |
| SaveRules.SanitizeFixed | add_edit_character.py:261 | a name already safe and stripped is its own file name |
| SaveRules.SanitizeIdempotent | add_edit_character.py:261 | sanitising twice is sanitising once |
| SaveRules.Filled | add_edit_character.py:273-283 | the saved list never has more items than the form has rows |
| SaveRules.FilledNormal | add_edit_character.py:273-283 | every saved tag or image has non-empty stripped text and a stripped caption |
| SaveRules.FilledRow | add_edit_character.py:274-276 | a row with a blank value is dropped whatever its label; otherwise it is kept stripped, even with an empty label |
| SaveRules.FilledAppend | add_edit_character.py:273-277 | rows are filtered one by one, so the saved items keep the row order |
| SaveRules.PlanSave | add_edit_character.py:254-285 | refused with MissingName exactly when the stripped name is empty and with InvalidName exactly when it sanitises to nothing; otherwise writes to `<safe>.json` in the folder, storing the stripped name, the file name, source and model type as typed, the stripped notes, the filled rows and the image path |
| SaveRules.OnlyForbiddenNameRefused | add_edit_character.py:261-264 | a name made only of forbidden and whitespace characters (such as ":::") is always refused |
| SaveRules.PlannedRecordNormal | add_edit_character.py:268-285 | every record a save writes has a valid stripped name, stripped notes and only filled, stripped items |
| SaveRules.FilledOfSaved | add_edit_character.py:322-340 | rows whose captions and texts are those of saved items are saved as exactly those items, in order |
| SaveRules.ReloadedTags | add_edit_character.py:322-327 | saved tags, read back and saved again, are unchanged |
| SaveRules.ReloadedExtras | add_edit_character.py:337-340 | saved extra images, read back and saved again, are unchanged |
| SaveRules.ReloadedLists | add_edit_character.py:322-340 | both saved lists survive a load and a second save unchanged |
| SaveRules.RebuildSaved | add_edit_character.py:268-285 | a form loaded from a written record rebuilds exactly that record |
| SaveRules.SaveLoadRoundTrip | add_edit_character.py:254-356 | loading a saved file restores the text fields and the image path as saved, and saving again targets the same file with the same record |
| SaveRules.RemoveFrame | add_edit_character.py:223 | no remaining row is in the removed frame |
| SaveRules.RemoveFrameExact | add_edit_character.py:223 | with distinct frames, removing row k's frame deletes exactly row k and keeps the others in order |
| SaveRules.RemoveFrameAbsent | add_edit_character.py:223 | removing a frame no row has changes nothing |
| Editor.EditorPreviewSpec | add_edit_character.py:358-386 | the editor never shows the placeholder after a check; it shows an image exactly when the catalogue would, of the same size |
| Editor.ShownImageKept | add_edit_character.py:358-386 | a shown image keeps its path, and a cleared path shows the text |
| Editor.RemoveAppended | add_edit_character.py:414-415 | removing the row just added gives back the rows before it |
| Editor.RemovePreservesFrames | add_edit_character.py:221-228 | removal keeps frames distinct and handed out, and introduces no row |
| Editor.AddEditCharacter.constructor | add_edit_character.py:126-166 | an empty form with the placeholder, in the remembered category's folder; the category is written back |
| Editor.AddEditCharacter.SetCategory | add_edit_character.py:131-136 | the folder is the category's folder and the preference now holds the category |
| Editor.AddEditCharacter.AddTagEntry | add_edit_character.py:197-219 | one new row (label, value) at the end, in a fresh frame |
| Editor.AddEditCharacter.RemoveTagEntry | add_edit_character.py:221-228 | exactly the row in that frame disappears, the rest keep their order; an unknown frame changes nothing |
| Editor.AddEditCharacter.AddExtraImageRow | add_edit_character.py:388-425 | one new row (title, path) at the end, in a fresh frame |
| Editor.AddEditCharacter.RemoveExtraImageRow | add_edit_character.py:414-420 | exactly the row in that frame disappears, the rest keep their order |
| Editor.AddEditCharacter.BrowseExtraImage | add_edit_character.py:407-410 | a chosen file becomes that row's path; a cancelled dialog changes nothing |
| Editor.AddEditCharacter.ClearForm | add_edit_character.py:230-252 | every entry is empty, the model type is "Illustrious", there are no rows and no image, and the placeholder is shown |
| Editor.AddEditCharacter.LoadPreviewImage | add_edit_character.py:358-386 | the label shows the editor preview of the path; the path is dropped exactly when it is empty or missing |
| Editor.AddEditCharacter.SelectImage | add_edit_character.py:191-195 | a chosen file is previewed and kept if it exists; a cancelled dialog changes nothing |
| Editor.AddEditCharacter.Save | add_edit_character.py:254-302 | a refused save, a declined overwrite or a failed write leaves the folder as it was; otherwise the planned record is at the planned path and nothing else changes |
| Editor.AddEditCharacter.Load | add_edit_character.py:304-356 | a cancelled dialog or a missing or unparsable file leaves the form as it was; otherwise the form is the loaded form with the image path after the preview check |
| Editor.AddEditCharacter.FillFrom | add_edit_character.py:315-356 | the form becomes the loaded form, with the image path after the preview check, and shows the editor preview |
| Editor.AddEditCharacter.FillFields | add_edit_character.py:315-355 | after clearing, the entries, one row per tag, one row per extra image and the image path come from the file, and the label shows the placeholder |
| Editor.AddEditCharacter.SetLoadedEntries | add_edit_character.py:316-320 | the five entries hold the file's values, empty for a missing key and "1.5" for a missing model type |
| Editor.AddEditCharacter.AddLoadedTags | add_edit_character.py:322-327 | one row per tag is appended in file order, with fresh frames |
| Editor.AddEditCharacter.AddLoadedExtras | add_edit_character.py:337-340 | one row per extra image is appended in file order, with fresh frames |
| Display.ShownTag | character_catalogue.py:344-349 | label and value are stripped; a non-object tag has no label and its printed text as value |
| Display.ButtonText | character_catalogue.py:361 | a button is never blank: "(empty)" stands for an empty value |
| Display.TagCellsOf | character_catalogue.py:351-368 | a tag gives its label (when not empty) and then a button that copies its stripped value |
| Display.RenderedTags | character_catalogue.py:337-339 | an empty tag list shows only "(No tags)" |
| Display.OneButtonPerTag | character_catalogue.py:341-368 | there is exactly one copy button per tag, in tag order, copying that tag's stripped value |
| Display.TagCellsNotBlank | character_catalogue.py:351-361 | no tag label and no tag button is blank |
| Display.ShownItem | character_catalogue.py:428-429 | title and path are stripped |
| Display.ExtraCellsOf | character_catalogue.py:431-458 | an extra image gives its title (when not empty) and then its preview |
| Display.RenderedExtras | character_catalogue.py:422-424 | an empty extra-image list shows only "(None)" |
| Display.OnePreviewPerImage | character_catalogue.py:426-458 | exactly one preview per extra image, in list order, made from its stripped path |
| Display.ExtraPreviewsNotBare | character_catalogue.py:450-452 | an extra image that cannot be shown falls back to the placeholder |
| Display.DetailsOfSpec | character_catalogue.py:279-303 | a missing model type shows empty; the main preview is never the bare text; without tags or extra images the same notices as an empty panel are shown |
| Catalogue.EntryLabelNotBlank | character_catalogue.py:235 | a `.json` file's button is never blank: the stored name, or else a stem that is never empty |
| Catalogue.ItemsFor | character_catalogue.py:220-238 | one item per listed file, in listing order |
| Catalogue.EntriesOfItems | character_catalogue.py:220-233 | an entry is listed exactly when its file is listed in the folder and parses to its document, with `full_path` its own path |
| Catalogue.ListForSpec | character_catalogue.py:202-238 | an empty folder gives only the notice and no entry; otherwise one item per file, disabled exactly for files that do not parse |
| Catalogue.ListedEntries | character_catalogue.py:211-233 | with a listing of the folder, the entries are exactly the folder's `.json` files that parse, each with its own path |
| Catalogue.DeletedNotRelisted | character_catalogue.py:395-409 | in the listing taken after a deletion, no `.json` name is the deleted file, so no item of either kind stands for it |
| Catalogue.DeletedNotListed | character_catalogue.py:395-409 | after a deletion, no entry has the deleted path, whatever the folder listing says |
| Catalogue.CharacterCatalogue.constructor | character_catalogue.py:42-60 | starts in the remembered category (written back), its folder listed, nothing selected, the details empty |
| Catalogue.CharacterCatalogue.SetCategory | character_catalogue.py:54-60 | the category's folder, the preference saved, the list rebuilt, the selection and details cleared |
| Catalogue.CharacterCatalogue.RefreshList | character_catalogue.py:202-238 | the list is rebuilt from the folder; the entries are those of the enabled buttons; the selection and details are cleared |
| Catalogue.CharacterCatalogue.AddItems | character_catalogue.py:220-238 | one item per file in order, and the entries are those of the parsing files |
| Catalogue.CharacterCatalogue.SelectEntry | character_catalogue.py:240-259 | the clicked entry's path becomes the current file and the panel shows its details |
| Catalogue.CharacterCatalogue.ClearDetails | character_catalogue.py:261-277 | the panel is empty and no file is current |
| Catalogue.CharacterCatalogue.ShowDetails | character_catalogue.py:279-303 | the panel shows the details of the document |
| Catalogue.CharacterCatalogue.RenderTags | character_catalogue.py:330-368 | the tag widgets are the tag cells, numbered by grid row |
| Catalogue.CharacterCatalogue.PlaceTag | character_catalogue.py:341-368 | one pass of the tag loop adds that tag's widgets on the next free rows |
| Catalogue.CharacterCatalogue.RenderExtraImages | character_catalogue.py:414-458 | the extra-image widgets are the item cells, numbered by grid row |
| Catalogue.CharacterCatalogue.PlaceExtraImage | character_catalogue.py:426-458 | one pass of the extra-image loop adds that item's widgets on the next free rows |
| Catalogue.CharacterCatalogue.DeleteSelected | character_catalogue.py:382-412 | no selection, a declined prompt or a failed removal change nothing; otherwise exactly the current file is removed (nothing if already gone), the selection and details are cleared and the list is rebuilt from a listing in which the deleted name no longer appears |
| Catalogue.CharacterCatalogue.RemoveSelected | character_catalogue.py:395-409 | a failed removal changes nothing; otherwise the current file is gone, the selection and details are cleared and the list is rebuilt without it |

## Left out

- Window layout, theming colours, scrolling, clipboard writes, `after` timers and the "Copied!" flash are not modelled. They change no state the model keeps.
- `main.py` and `main_menu.py` (frame switching) are not part of this model.
- File dialogs, yes/no prompts and message boxes are inputs or outcomes of the methods. Their wording is not modelled.
- Image decoding is reduced to "a size, or cannot be decoded". Resampling (LANCZOS) and the drawing of the placeholder image are not modelled.
- Preview.PreviewShortSide: the shorter side is exactly 300 in exact arithmetic; the program's floating-point computation gives 299 for some shorter sides, such as 281.
- Preview.ScaledPreviewSpec: the shorter side is 300 in exact arithmetic; the program's floating-point computation gives 299 for some shorter sides, such as 281.
- Preview.PreviewSize: each side is the exact floor of `side * 300 / min(w, h)`. Python computes `side * (300 / min)` in floating point, which can land one pixel lower: a 7 x 21 picture gives a long side of 899, not 900, and a shorter side of 281 (also 291, 562, 582, 1109) gives 299, not 300.
- Strings.Lower: lowercases ASCII letters only. Python's full Unicode case mapping is not modelled.
- JSON values that are `null` are treated like missing keys. Non-string values in string fields are not modelled.
- A record file whose root is not an object, or whose extra images are not objects, makes the program raise part-way through a load or a listing; these files are not modelled.
- `os.makedirs` of the category folder is not modelled. The folder is the category's folder name, without the application's base directory in front.
- The trailing newline the notes box adds to its text is not modelled separately: the saved notes are stripped either way.
- Catalogue.CharacterCatalogue.ShowDetails: the program renders the tags a second time after the preview. That draws the same widgets again and is modelled once.
- Catalogue.CharacterCatalogue.ClearDetails: the program renders "(No tags)" twice, with the same result. It is modelled once.
- A write that fails part-way through leaving a partial file is not modelled: a failed write leaves the folder as it was.
- Editor.AddEditCharacter.Save: the overwrite prompt compares paths exactly. On Windows and macOS `os.path.exists` ignores letter case, so saving "alice" over an existing "Alice.json" asks first there; the model writes without asking.
- Catalogue.CharacterCatalogue.DeleteSelected: a removal can fail only when the file still exists. The removal of a file that is already gone always succeeds.
