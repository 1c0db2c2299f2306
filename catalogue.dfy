/** The catalogue frame (`CharacterCatalogue`): the list of the category's
    record files, the selected entry, its details and deletion.

    The folder listing `os.listdir` returns is a parameter (`listing`), in
    whatever order the system gives it; reading a listed file looks it up in
    the file system's record map, where a missing path or a file that is
    not JSON reads as unparsable. Confirmation prompts and the outcome of
    `os.remove` are parameters too. */
module Catalogue {
  import opened Strings
  import opened Store
  import opened Categories
  import opened Preview
  import opened Listing
  import opened Display

  /** A parsed record of the list, with the path it was read from and the
      `full_path` attached to it. */
  datatype Entry = Entry(path: Path, doc: Document, fullPath: Path)

  /** An item of the list: an enabled button selecting an entry, a disabled
      button for a file that does not parse, or the "(No JSONs found)"
      notice of an empty folder. */
  datatype ListItem =
    | EntryButton(text: string, entry: Entry)
    | InvalidItem(text: string)
    | NoJsonsNotice

  /** The text of an entry's button: the stored name when it is not empty,
      the file name without its extension otherwise. */
  function EntryLabel(doc: Document, fname: string): (text: string)
    ensures doc.name.Some? && doc.name.value != "" ==> text == doc.name.value
    ensures doc.name.None? || doc.name.value == "" ==> text == StemOf(fname)
  {
    if doc.name.Some? && doc.name.value != "" then doc.name.value else StemOf(fname)
  }

  /** A ".json" file's button is never blank: the stored name, or else the
      file name's stem, which is never empty for such a name. */
  lemma EntryLabelNotBlank(doc: Document, fname: string)
    requires IsJsonName(fname)
    ensures EntryLabel(doc, fname) != ""
  {
    if doc.name.None? || doc.name.value == "" {
      StemOfJsonName(fname);
    }
  }

  /** The item of one listed file. */
  function ItemFor(dir: string, fname: string, records: map<Path, Option<Document>>): (item: ListItem)
    ensures item.NoJsonsNotice? == false
    ensures item.EntryButton? <==> Path(dir, fname) in records && records[Path(dir, fname)].Some?
    ensures item.EntryButton? ==>
      item.entry == Entry(Path(dir, fname), records[Path(dir, fname)].value, Path(dir, fname))
    ensures item.InvalidItem? ==> item.text == fname + " (invalid)"
  {
    var p := Path(dir, fname);
    if p in records && records[p].Some? then
      EntryButton(EntryLabel(records[p].value, fname), Entry(p, records[p].value, p))
    else InvalidItem(fname + " (invalid)")
  }

  /** The items of the listed files, in listing order. */
  function ItemsFor(dir: string, files: seq<string>, records: map<Path, Option<Document>>): (items: seq<ListItem>)
    ensures |items| == |files|
    ensures forall i :: 0 <= i < |files| ==> items[i] == ItemFor(dir, files[i], records)
  {
    seq(|files|, i requires 0 <= i < |files| => ItemFor(dir, files[i], records))
  }

  /** The list `refresh_list` builds: the notice for a folder with no
      ".json" file, one item per ".json" file otherwise. */
  function ListFor(dir: string, listing: seq<string>, records: map<Path, Option<Document>>): seq<ListItem> {
    var files := ListedNames(listing);
    if files == [] then [NoJsonsNotice] else ItemsFor(dir, files, records)
  }

  /** The entries behind the enabled buttons, in list order. */
  function EntriesOf(items: seq<ListItem>): seq<Entry>
    decreases |items|
  {
    if items == [] then []
    else
      var last := items[|items| - 1];
      EntriesOf(items[..|items| - 1]) + (if last.EntryButton? then [last.entry] else [])
  }

  lemma EntriesOfSnoc(items: seq<ListItem>, item: ListItem)
    ensures EntriesOf(items + [item])
      == EntriesOf(items) + (if item.EntryButton? then [item.entry] else [])
  {
    assert (items + [item])[..|items|] == items;
  }

  lemma ItemsForSnoc(dir: string, files: seq<string>, i: nat, records: map<Path, Option<Document>>)
    requires i < |files|
    ensures ItemsFor(dir, files[..i + 1], records)
      == ItemsFor(dir, files[..i], records) + [ItemFor(dir, files[i], records)]
  {
  }

  /** An entry is listed exactly when its file is listed under the folder,
      parses to its document, and carries its own path as `full_path`. */
  lemma {:induction false} EntriesOfItems(dir: string, files: seq<string>, records: map<Path, Option<Document>>, e: Entry)
    ensures e in EntriesOf(ItemsFor(dir, files, records)) <==>
      && e.path.dir == dir && e.path.file in files
      && e.path in records && records[e.path] == Some(e.doc)
      && e.fullPath == e.path
    decreases |files|
  {
    if files != [] {
      var items := ItemsFor(dir, files, records);
      var init := files[..|files| - 1];
      var last := files[|files| - 1];
      assert items[..|items| - 1] == ItemsFor(dir, init, records);
      EntriesOfItems(dir, init, records, e);
      assert files == init + [last];
      assert e.path.file in files <==> e.path.file in init || e.path.file == last;
    }
  }

  /** Each listed file gives one item, in the sorted order, and a file that
      does not parse gives a disabled item while the files after it are
      still listed. */
  lemma ListForSpec(dir: string, listing: seq<string>, records: map<Path, Option<Document>>)
    ensures var files := ListedNames(listing);
      var items := ListFor(dir, listing, records);
      && (files == [] ==> items == [NoJsonsNotice] && EntriesOf(items) == [])
      && (files != [] ==>
            && |items| == |files|
            && forall i :: 0 <= i < |files| ==>
              (items[i].InvalidItem? <==> !(Path(dir, files[i]) in records && records[Path(dir, files[i])].Some?)))
  {
    var files := ListedNames(listing);
    if files == [] {
      assert EntriesOf([NoJsonsNotice]) == EntriesOf([]) + [];
    }
  }

  /** `listing` is what `os.listdir(dir)` returns: a ".json" name is listed
      exactly when the folder holds that file. */
  ghost predicate ListingOf(listing: seq<string>, dir: string, records: map<Path, Option<Document>>) {
    forall n :: IsJsonName(n) ==> (n in listing <==> Path(dir, n) in records)
  }

  /** With a listing of the folder, the list's entries are exactly the
      folder's ".json" files that parse, each with its own path. */
  lemma ListedEntries(dir: string, listing: seq<string>, records: map<Path, Option<Document>>, e: Entry)
    requires ListingOf(listing, dir, records)
    ensures e in EntriesOf(ListFor(dir, listing, records)) <==>
      && e.path.dir == dir && IsJsonName(e.path.file)
      && e.path in records && records[e.path] == Some(e.doc)
      && e.fullPath == e.path
  {
    var files := ListedNames(listing);
    ListedNamesSpec(listing);
    if e.path.dir == dir && IsJsonName(e.path.file) && e.path in records {
      assert Path(dir, e.path.file) == e.path;
      assert e.path.file in files;
    }
    if files == [] {
      NoticeHasNoEntries();
    } else {
      EntriesOfItems(dir, files, records, e);
    }
  }

  lemma NoticeHasNoEntries()
    ensures EntriesOf([NoJsonsNotice]) == []
  {
    assert [NoJsonsNotice][..0] == [];
  }

  /** How a press of DELETE ends. */
  datatype DeleteOutcome = NoSelection | Declined | DeleteFailed | Deleted(path: Path)

  class CharacterCatalogue {
    var category: string
    var saveDir: string
    var items: seq<ListItem>
    var entries: seq<Entry>
    var selectedButton: Option<nat>
    var currentFilePath: Option<Path>
    var name: string
    var fileName: string
    var source: string
    var modelType: string
    var tagWidgets: seq<Widget>
    var notes: string
    var preview: Preview
    var extraWidgets: seq<Widget>

    /** `entries` are the entries of the enabled buttons, and a selection is
        an enabled button whose entry's path is the current file. */
    ghost predicate Valid()
      reads this`items, this`entries, this`selectedButton, this`currentFilePath
    {
      && entries == EntriesOf(items)
      && (selectedButton.None? <==> currentFilePath.None?)
      && (selectedButton.Some? ==>
            && selectedButton.value < |items|
            && items[selectedButton.value].EntryButton?
            && currentFilePath == Some(items[selectedButton.value].entry.fullPath))
    }

    /** The details panel, as a value. */
    function Shown(): Details
      reads this`name, this`fileName, this`source, this`modelType, this`tagWidgets,
        this`notes, this`preview, this`extraWidgets
    {
      Details(name, fileName, source, modelType, tagWidgets, notes, preview, extraWidgets)
    }

    /** `__init__`: the remembered category (written back), its folder
        listed, nothing selected. */
    constructor (fs: FileSystem, writeOk: bool, listing: seq<string>)
      requires ListingOf(listing, CategoryFolder(LoadLastCategory(fs.settings, DefaultCategory)), fs.records)
      modifies fs`settings
      ensures Valid()
      ensures category == LoadLastCategory(old(fs.settings), DefaultCategory)
      ensures saveDir == CategoryFolder(category)
      ensures fs.settings == SaveLastCategory(category, writeOk, old(fs.settings))
      ensures items == ListFor(saveDir, listing, fs.records)
      ensures selectedButton.None? && currentFilePath.None? && Shown() == NoDetails
    {
      var cat := LoadLastCategory(fs.settings, DefaultCategory);
      category := cat;
      saveDir := CategoryFolder(cat);
      items, entries := [], [];
      selectedButton, currentFilePath := None, None;
      name, fileName, source, modelType, notes := "", "", "", "", "";
      tagWidgets, extraWidgets := [], [];
      preview := Placeholder;
      new;
      SetCategory(fs, cat, writeOk, listing);
      RefreshList(fs, listing);
    }

    /** `_set_category(cat)`: the category's folder, the choice saved, the
        list rebuilt from that folder. */
    method SetCategory(fs: FileSystem, cat: string, writeOk: bool, listing: seq<string>)
      requires ListingOf(listing, CategoryFolder(cat), fs.records)
      modifies this, fs`settings
      ensures Valid()
      ensures category == cat && saveDir == CategoryFolder(cat)
      ensures fs.settings == SaveLastCategory(cat, writeOk, old(fs.settings))
      ensures items == ListFor(saveDir, listing, fs.records)
      ensures selectedButton.None? && currentFilePath.None? && Shown() == NoDetails
    {
      category := cat;
      saveDir := CategoryFolder(cat);
      fs.settings := SaveLastCategory(cat, writeOk, fs.settings);
      RefreshList(fs, listing);
    }

    /** `refresh_list`: the selection and the details are cleared, then one
        item per ".json" file of the folder in lower-cased name order. */
    method RefreshList(fs: FileSystem, listing: seq<string>)
      requires ListingOf(listing, saveDir, fs.records)
      modifies this`items, this`entries, this`selectedButton, this`currentFilePath,
        this`name, this`fileName, this`source, this`modelType, this`tagWidgets,
        this`notes, this`preview, this`extraWidgets
      ensures Valid()
      ensures category == old(category) && saveDir == old(saveDir)
      ensures items == ListFor(saveDir, listing, fs.records)
      ensures selectedButton.None? && currentFilePath.None? && Shown() == NoDetails
    {
      items, entries := [], [];
      selectedButton := None;
      currentFilePath := None;
      ClearDetails();
      var files := ListedNames(listing);
      if files == [] {
        items := [NoJsonsNotice];
        NoticeHasNoEntries();
        return;
      }
      AddItems(fs, files);
    }

    /** The loop of `refresh_list`: each file is read; one that does not
        parse gets a disabled "(invalid)" button and the loop goes on, one
        that parses gets its button and is appended to `entries`. */
    method AddItems(fs: FileSystem, files: seq<string>)
      requires items == [] && entries == []
      modifies this`items, this`entries
      ensures items == ItemsFor(saveDir, files, fs.records)
      ensures entries == EntriesOf(items)
    {
      var i := 0;
      while i < |files|
        invariant 0 <= i <= |files|
        invariant items == ItemsFor(saveDir, files[..i], fs.records)
        invariant entries == EntriesOf(items)
      {
        var item := ItemFor(saveDir, files[i], fs.records);
        ItemsForSnoc(saveDir, files, i, fs.records);
        EntriesOfSnoc(items, item);
        if item.EntryButton? {
          entries := entries + [item.entry];
        }
        items := items + [item];
        i := i + 1;
      }
      assert files[..i] == files;
    }

    /** `_select_entry`: the clicked entry becomes the current file and its
        details are shown. Only an enabled button can be clicked. */
    method SelectEntry(fs: FileSystem, k: nat)
      requires Valid() && k < |items| && items[k].EntryButton?
      modifies this`selectedButton, this`currentFilePath,
        this`name, this`fileName, this`source, this`modelType, this`tagWidgets,
        this`notes, this`preview, this`extraWidgets
      ensures Valid()
      ensures selectedButton == Some(k) && currentFilePath == Some(items[k].entry.fullPath)
      ensures Shown() == DetailsOf(items[k].entry.doc, fs.images)
    {
      var entry := items[k].entry;
      currentFilePath := Some(entry.fullPath);
      selectedButton := Some(k);
      ShowDetails(fs, entry.doc);
    }

    /** `_clear_details`: empty texts, "(No tags)", the placeholder and
        "(None)"; the current file is forgotten. (The tags are cleared twice
        there, with the same result.) */
    method ClearDetails()
      modifies this`name, this`fileName, this`source, this`modelType, this`tagWidgets,
        this`notes, this`preview, this`extraWidgets, this`currentFilePath
      ensures Shown() == NoDetails && currentFilePath.None?
    {
      name, fileName, source, modelType := "", "", "", "";
      RenderTags([]);
      notes := "";
      preview := Placeholder;
      currentFilePath := None;
      RenderExtraImages(map[], []);
    }

    /** `_show_details(data)`. The tags are rendered a second time after the
        preview; that second rendering draws the same widgets again and is
        not repeated here. */
    method ShowDetails(fs: FileSystem, doc: Document)
      modifies this`name, this`fileName, this`source, this`modelType, this`tagWidgets,
        this`notes, this`preview, this`extraWidgets
      ensures Shown() == DetailsOf(doc, fs.images)
    {
      name := doc.name.GetOr("");
      fileName := doc.fileName.GetOr("");
      source := doc.source.GetOr("");
      modelType := doc.modelType.GetOr("");
      RenderTags(doc.tags);
      notes := doc.notes.GetOr("");
      preview := CataloguePreview(fs.images, doc.imagePath.GetOr(""));
      RenderExtraImages(fs.images, doc.extraImages);
    }

    /** `_render_tags(tags)`: the old widgets are destroyed; each tag places
        its label (when not empty) and its copy button on the next rows. */
    method RenderTags(tags: seq<RawTag>)
      modifies this`tagWidgets
      ensures tagWidgets == Numbered(RenderedTags(tags))
    {
      tagWidgets := [];
      if tags == [] {
        NumberedOne(Caption("(No tags)"));
        tagWidgets := [Widget(Caption("(No tags)"), 0)];
        return;
      }
      var row := 0;
      var i := 0;
      while i < |tags|
        invariant 0 <= i <= |tags|
        invariant row == |tagWidgets|
        invariant tagWidgets == Numbered(TagCells(tags[..i]))
      {
        TagCellsSnoc(tags, i);
        row := PlaceTag(tags[i], row, TagCells(tags[..i]));
        i := i + 1;
      }
      assert tags[..i] == tags;
    }

    /** One pass of the loop in `_render_tags`: the label when not empty,
        then the copy button, on the next free rows. */
    method PlaceTag(tag: RawTag, row: nat, ghost done: seq<Cell>) returns (next: nat)
      requires tagWidgets == Numbered(done) && row == |done|
      modifies this`tagWidgets
      ensures tagWidgets == Numbered(done + TagCellsOf(tag))
      ensures next == |tagWidgets|
    {
      var shown := ShownTag(tag);
      var button := CopyButton(ButtonText(shown.text), shown.text);
      next := row;
      if shown.caption != "" {
        NumberedSnoc(done, Caption(shown.caption));
        NumberedSnoc(done + [Caption(shown.caption)], button);
        assert done + [Caption(shown.caption)] + [button] == done + TagCellsOf(tag);
        tagWidgets := tagWidgets + [Widget(Caption(shown.caption), next)];
        next := next + 1;
      } else {
        NumberedSnoc(done, button);
      }
      tagWidgets := tagWidgets + [Widget(button, next)];
      next := next + 1;
    }

    /** `_render_extra_images(items)`: the old widgets are destroyed; each
        item places its title (when not empty) and its preview on the next
        rows. */
    method RenderExtraImages(images: map<string, Picture>, extras: seq<Fields>)
      modifies this`extraWidgets
      ensures extraWidgets == Numbered(RenderedExtras(extras, images))
    {
      extraWidgets := [];
      if extras == [] {
        NumberedOne(Caption("(None)"));
        extraWidgets := [Widget(Caption("(None)"), 0)];
        return;
      }
      var row := 0;
      var i := 0;
      while i < |extras|
        invariant 0 <= i <= |extras|
        invariant row == |extraWidgets|
        invariant extraWidgets == Numbered(ExtraCells(extras[..i], images))
      {
        ExtraCellsSnoc(extras, i, images);
        row := PlaceExtraImage(images, extras[i], row, ExtraCells(extras[..i], images));
        i := i + 1;
      }
      assert extras[..i] == extras;
    }

    /** One pass of the loop in `_render_extra_images`: the title when not
        empty, then the preview, on the next free rows. */
    method PlaceExtraImage(images: map<string, Picture>, item: Fields, row: nat, ghost done: seq<Cell>)
      returns (next: nat)
      requires extraWidgets == Numbered(done) && row == |done|
      modifies this`extraWidgets
      ensures extraWidgets == Numbered(done + ExtraCellsOf(item, images))
      ensures next == |extraWidgets|
    {
      var shown := ShownItem(item);
      var image := ImageCell(CataloguePreview(images, shown.text));
      next := row;
      if shown.caption != "" {
        NumberedSnoc(done, Caption(shown.caption));
        NumberedSnoc(done + [Caption(shown.caption)], image);
        assert done + [Caption(shown.caption)] + [image] == done + ExtraCellsOf(item, images);
        extraWidgets := extraWidgets + [Widget(Caption(shown.caption), next)];
        next := next + 1;
      } else {
        NumberedSnoc(done, image);
      }
      extraWidgets := extraWidgets + [Widget(image, next)];
      next := next + 1;
    }

    /** `delete_selected_character`: without a selection, or when the user
        declines, nothing happens; a failed removal changes nothing either.
        Otherwise the file is removed when it still exists, the selection
        and details are cleared and the list is rebuilt from the folder. */
    method DeleteSelected(fs: FileSystem, confirm: bool, removeOk: bool, listingAfter: seq<string>)
      returns (outcome: DeleteOutcome)
      requires Valid()
      requires currentFilePath.Some? ==> ListingOf(listingAfter, saveDir, fs.records - {currentFilePath.value})
      modifies this`items, this`entries, this`selectedButton, this`currentFilePath,
        this`name, this`fileName, this`source, this`modelType, this`tagWidgets,
        this`notes, this`preview, this`extraWidgets, fs`records
      ensures Valid()
      ensures old(currentFilePath).None? ==>
        outcome == NoSelection && fs.records == old(fs.records) && items == old(items)
        && selectedButton == old(selectedButton) && Shown() == old(Shown())
      ensures old(currentFilePath).Some? && !confirm ==>
        outcome == Declined && fs.records == old(fs.records) && items == old(items)
        && selectedButton == old(selectedButton) && Shown() == old(Shown())
      ensures old(currentFilePath).Some? && confirm && old(currentFilePath).value in old(fs.records) && !removeOk ==>
        outcome == DeleteFailed && fs.records == old(fs.records) && items == old(items)
        && selectedButton == old(selectedButton) && Shown() == old(Shown())
      ensures old(currentFilePath).Some? && confirm && (old(currentFilePath).value in old(fs.records) ==> removeOk) ==>
        var p := old(currentFilePath).value;
        && outcome == Deleted(p)
        && fs.records == old(fs.records) - {p}
        && items == ListFor(saveDir, listingAfter, fs.records)
        && (forall f :: f in ListedNames(listingAfter) ==> Path(saveDir, f) != p)
        && selectedButton.None? && currentFilePath.None? && Shown() == NoDetails
    {
      if currentFilePath.None? {
        return NoSelection;
      }
      if !confirm {
        return Declined;
      }
      outcome := RemoveSelected(fs, removeOk, listingAfter);
    }

    /** The confirmed part of `delete_selected_character`: `os.remove` when
        the file still exists, then the selection and details cleared and
        the list rebuilt. */
    method RemoveSelected(fs: FileSystem, removeOk: bool, listingAfter: seq<string>)
      returns (outcome: DeleteOutcome)
      requires Valid() && currentFilePath.Some?
      requires ListingOf(listingAfter, saveDir, fs.records - {currentFilePath.value})
      modifies this`items, this`entries, this`selectedButton, this`currentFilePath,
        this`name, this`fileName, this`source, this`modelType, this`tagWidgets,
        this`notes, this`preview, this`extraWidgets, fs`records
      ensures Valid()
      ensures old(currentFilePath).value in old(fs.records) && !removeOk ==>
        outcome == DeleteFailed && fs.records == old(fs.records) && items == old(items)
        && selectedButton == old(selectedButton) && Shown() == old(Shown())
      ensures (old(currentFilePath).value in old(fs.records) ==> removeOk) ==>
        var p := old(currentFilePath).value;
        && outcome == Deleted(p)
        && fs.records == old(fs.records) - {p}
        && items == ListFor(saveDir, listingAfter, fs.records)
        && (forall f :: f in ListedNames(listingAfter) ==> Path(saveDir, f) != p)
        && selectedButton.None? && currentFilePath.None? && Shown() == NoDetails
    {
      var p := currentFilePath.value;
      if p in fs.records {
        if !removeOk {
          return DeleteFailed;
        }
        fs.records := fs.records - {p};
      } else {
        assert fs.records - {p} == fs.records;
      }
      DeletedNotRelisted(saveDir, listingAfter, old(fs.records), p);
      currentFilePath := None;
      ClearDetails();
      selectedButton := None;
      RefreshList(fs, listingAfter);
      outcome := Deleted(p);
    }
  }

  /** A deleted file no longer has an entry, whatever the folder listing
      says afterwards: at most a disabled "(invalid)" item. */
  lemma DeletedNotListed(dir: string, listing: seq<string>, records: map<Path, Option<Document>>, p: Path)
    ensures forall e :: e in EntriesOf(ListFor(dir, listing, records - {p})) ==> e.path != p
  {
    var files := ListedNames(listing);
    NoticeHasNoEntries();
    forall e | e in EntriesOf(ListFor(dir, listing, records - {p})) ensures e.path != p {
      if files != [] {
        EntriesOfItems(dir, files, records - {p}, e);
      }
    }
  }

  /** Once the folder is listed again, the deleted file's name is not among
      the listed ".json" names, so no item, enabled or "(invalid)", stands
      for it; every listed name is a file the folder still holds. */
  lemma DeletedNotRelisted(dir: string, listing: seq<string>, records: map<Path, Option<Document>>, p: Path)
    requires ListingOf(listing, dir, records - {p})
    ensures forall f :: f in ListedNames(listing) ==> Path(dir, f) in records && Path(dir, f) != p
  {
    ListedNamesSpec(listing);
  }
}
