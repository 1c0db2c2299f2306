/** The Add/Edit frame (`AddEditCharacter`): a form whose entries, row lists,
    chosen image and preview change as the buttons are pressed, saving to
    and loading from the record files of the chosen category.

    The entry widgets are the fields `name`, `fileName`, `source`,
    `modelType` and `notes`; typing into one is an assignment to its field.
    Each tag row and extra-image row carries the number of the frame widget
    that holds it, drawn from `nextFrame`, so that a row's Remove button
    finds exactly its own row. File dialogs and confirmation prompts are the
    methods' parameters. */
module Editor {
  import opened Strings
  import opened Store
  import opened Categories
  import opened Preview
  import opened SaveRules

  /** Every row's frame was handed out before `next`. */
  ghost predicate FramesBelow(rows: seq<Row>, next: nat) {
    forall i :: 0 <= i < |rows| ==> rows[i].frame < next
  }

  /** `_load_preview_image(path)` on the label: the text "No image selected"
      for an empty or missing path and for a file that cannot be shown, the
      resized image otherwise. */
  function EditorPreview(images: map<string, Picture>, path: string): Preview {
    match ScaledPreview(images, path)
    case Some(size) => Scaled(size.0, size.1)
    case None => NoImage
  }

  /** The editor never shows the placeholder after a preview check: the
      resized image when it can, the text otherwise; it shows an image
      exactly when the catalogue would. */
  lemma EditorPreviewSpec(images: map<string, Picture>, path: string)
    ensures EditorPreview(images, path) != Placeholder
    ensures EditorPreview(images, path).Scaled? <==> ScaledPreview(images, path).Some?
    ensures EditorPreview(images, path).Scaled? ==> EditorPreview(images, path) == CataloguePreview(images, path)
  {
  }

  /** The image path left after the preview check: cleared when the path is
      empty or names no file, kept otherwise (even when the file cannot be
      decoded). */
  function KeptPath(images: map<string, Picture>, path: string): (kept: Option<string>)
    ensures kept.None? <==> path == "" || path !in images
    ensures kept.Some? ==> kept.value == path
  {
    if path == "" || path !in images then None else Some(path)
  }

  /** An image that is shown keeps its path; a path that is dropped shows no
      image. */
  lemma ShownImageKept(images: map<string, Picture>, path: string)
    ensures EditorPreview(images, path).Scaled? ==> KeptPath(images, path) == Some(path)
    ensures KeptPath(images, path).None? ==> EditorPreview(images, path) == NoImage
  {
  }

  /** `rows` with the text of the row in `frame` replaced. */
  function WithText(rows: seq<Row>, frame: nat, text: string): (r: seq<Row>)
    ensures |r| == |rows|
    ensures forall i :: 0 <= i < |rows| ==>
      r[i].caption == rows[i].caption && r[i].frame == rows[i].frame
      && r[i].text == (if rows[i].frame == frame then text else rows[i].text)
  {
    seq(|rows|, i requires 0 <= i < |rows| =>
      if rows[i].frame == frame then rows[i].(text := text) else rows[i])
  }

  /** Removing the row just appended gives back the rows before it. */
  lemma {:induction false} RemoveAppended(rows: seq<Row>, row: Row)
    requires forall i :: 0 <= i < |rows| ==> rows[i].frame != row.frame
    ensures RemoveFrame(rows + [row], row.frame) == rows
    decreases |rows|
  {
    if rows == [] {
      assert [row][1..] == [];
    } else {
      assert (rows + [row])[0] == rows[0];
      assert (rows + [row])[1..] == rows[1..] + [row];
      RemoveAppended(rows[1..], row);
      assert rows == [rows[0]] + rows[1..];
    }
  }

  lemma LoadedTagRowsSnoc(tags: seq<RawTag>, first: nat, i: nat)
    requires i < |tags|
    ensures LoadedTagRows(tags[..i + 1], first)
      == LoadedTagRows(tags[..i], first) + [LoadedTagRow(tags[i], first + i)]
  {
  }

  lemma LoadedExtraRowsSnoc(extras: seq<Fields>, first: nat, i: nat)
    requires i < |extras|
    ensures LoadedExtraRows(extras[..i + 1], first)
      == LoadedExtraRows(extras[..i], first)
         + [Row(extras[i].caption.GetOr(""), extras[i].text.GetOr(""), first + i)]
  {
  }

  /** How a press of Save ends. */
  datatype SaveOutcome =
    | Refused(reason: SaveError)
    | OverwriteDeclined
    | WriteFailed
    | Saved(path: Path)

  /** How a press of Load ends: no file chosen, a file that cannot be read
      or parsed (the exception leaves the form as it was), or loaded. */
  datatype LoadOutcome = Cancelled | LoadFailed | Loaded(path: Path)

  class AddEditCharacter {
    var category: string
    var saveDir: string
    var name: string
    var fileName: string
    var source: string
    var modelType: string
    var notes: string
    var imagePath: Option<string>
    var tagEntries: seq<Row>
    var extraImageRows: seq<Row>
    var preview: Preview
    var nextFrame: nat

    /** Each row has a frame of its own, and every frame was handed out. */
    ghost predicate Valid()
      reads this`tagEntries, this`extraImageRows, this`nextFrame
    {
      && DistinctFrames(tagEntries) && DistinctFrames(extraImageRows)
      && FramesBelow(tagEntries, nextFrame) && FramesBelow(extraImageRows, nextFrame)
    }

    /** What the form holds, as a value. */
    function CurrentForm(): Form
      reads this`name, this`fileName, this`source, this`modelType, this`tagEntries,
        this`notes, this`extraImageRows, this`imagePath
    {
      SaveRules.Form(name, fileName, source, modelType, tagEntries, notes, extraImageRows, imagePath)
    }

    /** `__init__`: an empty form showing the placeholder, in the category
        the preference file remembers, which is written back. */
    constructor (fs: FileSystem, writeOk: bool)
      modifies fs`settings
      ensures Valid()
      ensures CurrentForm() == ClearedForm && preview == Placeholder
      ensures category == LoadLastCategory(old(fs.settings), DefaultCategory)
      ensures saveDir == CategoryFolder(category)
      ensures fs.settings == SaveLastCategory(category, writeOk, old(fs.settings))
    {
      var cat := LoadLastCategory(fs.settings, DefaultCategory);
      category := cat;
      saveDir := CategoryFolder(cat);
      name, fileName, source := "", "", "";
      modelType := DefaultModelType;
      notes := "";
      imagePath := None;
      tagEntries, extraImageRows := [], [];
      preview := Placeholder;
      nextFrame := 0;
      new;
      SetCategory(fs, cat, writeOk);
    }

    /** `_set_category(cat)`: records go to the category's folder from now
        on, and the choice is saved as the last category. */
    method SetCategory(fs: FileSystem, cat: string, writeOk: bool)
      modifies this`category, this`saveDir, fs`settings
      ensures category == cat && saveDir == CategoryFolder(cat)
      ensures fs.settings == SaveLastCategory(cat, writeOk, old(fs.settings))
    {
      category := cat;
      saveDir := CategoryFolder(cat);
      fs.settings := SaveLastCategory(cat, writeOk, fs.settings);
    }

    /** `add_tag_entry(value, label)`: a new row at the end of the tag list
        in a new frame. */
    method AddTagEntry(value: string, tagLabel: string) returns (frame: nat)
      requires Valid()
      modifies this`tagEntries, this`nextFrame
      ensures Valid()
      ensures frame == old(nextFrame) && nextFrame == old(nextFrame) + 1
      ensures tagEntries == old(tagEntries) + [Row(tagLabel, value, frame)]
    {
      frame := nextFrame;
      tagEntries := tagEntries + [Row(tagLabel, value, frame)];
      nextFrame := nextFrame + 1;
    }

    /** `_remove_tag_entry(frame)`: the row in that frame disappears, the
        others stay in order. */
    method RemoveTagEntry(frame: nat)
      requires Valid()
      modifies this`tagEntries
      ensures Valid()
      ensures tagEntries == RemoveFrame(old(tagEntries), frame)
      ensures forall k :: 0 <= k < |old(tagEntries)| && old(tagEntries)[k].frame == frame ==>
        tagEntries == old(tagEntries)[..k] + old(tagEntries)[k + 1..]
      ensures (forall k :: 0 <= k < |old(tagEntries)| ==> old(tagEntries)[k].frame != frame) ==>
        tagEntries == old(tagEntries)
    {
      ghost var before := tagEntries;
      tagEntries := RemoveFrame(tagEntries, frame);
      RemovePreservesFrames(before, frame, nextFrame);
      forall k | 0 <= k < |before| && before[k].frame == frame
        ensures tagEntries == before[..k] + before[k + 1..]
      {
        RemoveFrameExact(before, k);
      }
      if forall k :: 0 <= k < |before| ==> before[k].frame != frame {
        RemoveFrameAbsent(before, frame);
      }
    }

    /** `add_extra_image_row(title, path)`: a new row at the end of the
        extra-image list in a new frame. */
    method AddExtraImageRow(title: string, path: string) returns (frame: nat)
      requires Valid()
      modifies this`extraImageRows, this`nextFrame
      ensures Valid()
      ensures frame == old(nextFrame) && nextFrame == old(nextFrame) + 1
      ensures extraImageRows == old(extraImageRows) + [Row(title, path, frame)]
    {
      frame := nextFrame;
      extraImageRows := extraImageRows + [Row(title, path, frame)];
      nextFrame := nextFrame + 1;
    }

    /** The row's Remove button: the row in that frame disappears, the
        others stay in order. */
    method RemoveExtraImageRow(frame: nat)
      requires Valid()
      modifies this`extraImageRows
      ensures Valid()
      ensures extraImageRows == RemoveFrame(old(extraImageRows), frame)
      ensures forall k :: 0 <= k < |old(extraImageRows)| && old(extraImageRows)[k].frame == frame ==>
        extraImageRows == old(extraImageRows)[..k] + old(extraImageRows)[k + 1..]
    {
      ghost var before := extraImageRows;
      extraImageRows := RemoveFrame(extraImageRows, frame);
      RemovePreservesFrames(before, frame, nextFrame);
      forall k | 0 <= k < |before| && before[k].frame == frame
        ensures extraImageRows == before[..k] + before[k + 1..]
      {
        RemoveFrameExact(before, k);
      }
    }

    /** The row's Browse button: a chosen file becomes the path of that row;
        a cancelled dialog (empty choice) changes nothing. */
    method BrowseExtraImage(frame: nat, chosen: string)
      requires Valid()
      modifies this`extraImageRows
      ensures Valid()
      ensures extraImageRows == if chosen == "" then old(extraImageRows)
        else WithText(old(extraImageRows), frame, chosen)
    {
      if chosen != "" {
        extraImageRows := WithText(extraImageRows, frame, chosen);
      }
    }

    /** `clear_form`: the placeholder preview, no image, empty entries, the
        default model type and no rows. The category stays. */
    method ClearForm()
      requires Valid()
      modifies this`name, this`fileName, this`source, this`modelType, this`tagEntries,
        this`notes, this`extraImageRows, this`imagePath, this`preview
      ensures Valid()
      ensures CurrentForm() == ClearedForm && preview == Placeholder
    {
      preview := Placeholder;
      imagePath := None;
      name, fileName, source := "", "", "";
      modelType := DefaultModelType;
      notes := "";
      tagEntries := [];
      extraImageRows := [];
    }

    /** `_load_preview_image(path)`: an empty or missing path is cleared and
        the label shows "No image selected"; otherwise the path stays and
        the label shows the resized image, or the text when it cannot be
        shown. */
    method LoadPreviewImage(images: map<string, Picture>, path: string)
      modifies this`preview, this`imagePath
      ensures preview == EditorPreview(images, path)
      ensures imagePath == if KeptPath(images, path).None? then None else old(imagePath)
    {
      if path == "" || path !in images {
        preview := Placeholder;
        imagePath := None;
        preview := NoImage;
        return;
      }
      match ScaledPreview(images, path)
      case Some(size) =>
        preview := Scaled(size.0, size.1);
      case None =>
        preview := NoImage;
    }

    /** `select_image`: a chosen file becomes the image and is previewed; a
        cancelled dialog changes nothing. */
    method SelectImage(images: map<string, Picture>, chosen: string)
      modifies this`preview, this`imagePath
      ensures chosen == "" ==> preview == old(preview) && imagePath == old(imagePath)
      ensures chosen != "" ==>
        preview == EditorPreview(images, chosen) && imagePath == KeptPath(images, chosen)
    {
      if chosen != "" {
        imagePath := Some(chosen);
        LoadPreviewImage(images, chosen);
      }
    }

    /** `save_character`: refused for a blank or unusable name; asks before
        replacing an existing file and stops when declined; otherwise writes
        the record to `<safe name>.json` in the category folder. A failed
        write leaves the folder as it was. The form never changes. */
    method Save(fs: FileSystem, confirmOverwrite: bool, writeOk: bool) returns (outcome: SaveOutcome)
      modifies fs`records
      ensures PlanSave(CurrentForm(), saveDir).Err? ==>
        outcome == Refused(PlanSave(CurrentForm(), saveDir).error) && fs.records == old(fs.records)
      ensures PlanSave(CurrentForm(), saveDir).Ok? ==>
        var plan := PlanSave(CurrentForm(), saveDir).value;
        if plan.path in old(fs.records) && !confirmOverwrite then
          outcome == OverwriteDeclined && fs.records == old(fs.records)
        else if !writeOk then
          outcome == WriteFailed && fs.records == old(fs.records)
        else
          outcome == Saved(plan.path)
          && fs.records == old(fs.records)[plan.path := Some(ToDocument(plan.record))]
    {
      match PlanSave(CurrentForm(), saveDir)
      case Err(e) =>
        outcome := Refused(e);
      case Ok(plan) =>
        if plan.path in fs.records && !confirmOverwrite {
          outcome := OverwriteDeclined;
        } else if !writeOk {
          outcome := WriteFailed;
        } else {
          fs.records := fs.records[plan.path := Some(ToDocument(plan.record))];
          outcome := Saved(plan.path);
        }
    }

    /** `load_character`: for a file that parses, the form is cleared, then
        filled from the file: entries, one tag row per tag and one image row
        per extra image in file order, and the image path after the preview
        check. A missing or unparsable file raises before anything changes. */
    method Load(fs: FileSystem, chosen: Option<Path>) returns (outcome: LoadOutcome)
      requires Valid()
      modifies this`name, this`fileName, this`source, this`modelType, this`tagEntries,
        this`notes, this`extraImageRows, this`imagePath, this`preview, this`nextFrame
      ensures Valid()
      ensures chosen.None? ==> outcome == Cancelled && CurrentForm() == old(CurrentForm()) && preview == old(preview)
      ensures chosen.Some? && (chosen.value !in fs.records || fs.records[chosen.value].None?) ==>
        outcome == LoadFailed && CurrentForm() == old(CurrentForm()) && preview == old(preview)
      ensures chosen.Some? && chosen.value in fs.records && fs.records[chosen.value].Some? ==>
        var doc := fs.records[chosen.value].value;
        var path := doc.imagePath.GetOr("");
        && outcome == Loaded(chosen.value)
        && CurrentForm() == LoadedForm(doc, old(nextFrame)).(imagePath := KeptPath(fs.images, path))
        && preview == EditorPreview(fs.images, path)
        && nextFrame == old(nextFrame) + |doc.tags| + |doc.extraImages|
    {
      if chosen.None? {
        return Cancelled;
      }
      var p := chosen.value;
      if p !in fs.records || fs.records[p].None? {
        return LoadFailed;
      }
      FillFrom(fs.records[p].value, fs.images);
      outcome := Loaded(p);
    }

    /** The part of `load_character` after the file is parsed. */
    method FillFrom(doc: Document, images: map<string, Picture>)
      requires Valid()
      modifies this`name, this`fileName, this`source, this`modelType, this`tagEntries,
        this`notes, this`extraImageRows, this`imagePath, this`preview, this`nextFrame
      ensures Valid()
      ensures var path := doc.imagePath.GetOr("");
        && CurrentForm() == LoadedForm(doc, old(nextFrame)).(imagePath := KeptPath(images, path))
        && preview == EditorPreview(images, path)
        && nextFrame == old(nextFrame) + |doc.tags| + |doc.extraImages|
    {
      FillFields(doc);
      LoadPreviewImage(images, doc.imagePath.GetOr(""));
    }

    /** `load_character` up to the preview check: the form cleared, then the
        entries, the tag rows, the image rows and the image path set. */
    method FillFields(doc: Document)
      requires Valid()
      modifies this`name, this`fileName, this`source, this`modelType, this`tagEntries,
        this`notes, this`extraImageRows, this`imagePath, this`preview, this`nextFrame
      ensures Valid()
      ensures CurrentForm() == LoadedForm(doc, old(nextFrame)) && preview == Placeholder
      ensures nextFrame == old(nextFrame) + |doc.tags| + |doc.extraImages|
    {
      ClearForm();
      SetLoadedEntries(doc);
      ghost var first := nextFrame;
      AddLoadedTags(doc.tags);
      AddLoadedExtras(doc.extraImages);
      imagePath := NonEmpty(doc.imagePath.GetOr(""));
      LoadedRowsAfterClear(tagEntries, extraImageRows, doc, first);
    }

    /** The five entries `load_character` sets from the file, missing keys
        giving empty text and a missing model type "1.5". */
    method SetLoadedEntries(doc: Document)
      modifies this`name, this`fileName, this`source, this`modelType, this`notes
      ensures name == doc.name.GetOr("") && fileName == doc.fileName.GetOr("")
      ensures source == doc.source.GetOr("") && notes == doc.notes.GetOr("")
      ensures modelType == doc.modelType.GetOr(LoadedModelTypeDefault)
    {
      name := doc.name.GetOr("");
      fileName := doc.fileName.GetOr("");
      source := doc.source.GetOr("");
      modelType := doc.modelType.GetOr(LoadedModelTypeDefault);
      notes := doc.notes.GetOr("");
    }

    /** The tag loop of `load_character`: one `add_tag_entry` per tag in file
        order; an object gives its value and label, any other value its
        printed text and no label. */
    method AddLoadedTags(tags: seq<RawTag>)
      requires Valid()
      modifies this`tagEntries, this`nextFrame
      ensures Valid()
      ensures tagEntries == old(tagEntries) + LoadedTagRows(tags, old(nextFrame))
      ensures nextFrame == old(nextFrame) + |tags|
    {
      var first := nextFrame;
      var i := 0;
      while i < |tags|
        invariant 0 <= i <= |tags|
        invariant Valid()
        invariant nextFrame == first + i
        invariant tagEntries == old(tagEntries) + LoadedTagRows(tags[..i], first)
      {
        var frame;
        match tags[i] {
          case TagObject(f) =>
            frame := AddTagEntry(f.text.GetOr(""), f.caption.GetOr(""));
          case Legacy(printed) =>
            frame := AddTagEntry(printed, "");
        }
        LoadedTagRowsSnoc(tags, first, i);
        i := i + 1;
      }
      assert tags[..i] == tags;
    }

    /** The extra-image loop of `load_character`: one
        `add_extra_image_row` per item in file order, with its title and
        path (missing ones empty). */
    method AddLoadedExtras(extras: seq<Fields>)
      requires Valid()
      modifies this`extraImageRows, this`nextFrame
      ensures Valid()
      ensures extraImageRows == old(extraImageRows) + LoadedExtraRows(extras, old(nextFrame))
      ensures nextFrame == old(nextFrame) + |extras|
    {
      var first := nextFrame;
      var j := 0;
      while j < |extras|
        invariant 0 <= j <= |extras|
        invariant Valid()
        invariant nextFrame == first + j
        invariant extraImageRows == old(extraImageRows) + LoadedExtraRows(extras[..j], first)
      {
        var item := extras[j];
        var frame := AddExtraImageRow(item.caption.GetOr(""), item.text.GetOr(""));
        LoadedExtraRowsSnoc(extras, first, j);
        j := j + 1;
      }
      assert extras[..j] == extras;
    }
  }

  lemma {:induction false} RemovePreservesFrames(rows: seq<Row>, frame: nat, next: nat)
    requires DistinctFrames(rows) && FramesBelow(rows, next)
    ensures DistinctFrames(RemoveFrame(rows, frame)) && FramesBelow(RemoveFrame(rows, frame), next)
    ensures forall r :: r in RemoveFrame(rows, frame) ==> r in rows
    decreases |rows|
  {
    if rows != [] {
      RemovePreservesFrames(rows[1..], frame, next);
      var rest := RemoveFrame(rows[1..], frame);
      if rows[0].frame != frame {
        var r := [rows[0]] + rest;
        forall i, j | 0 <= i < j < |r| ensures r[i].frame != r[j].frame {
          if i == 0 {
            assert r[j] in rows[1..];
          }
        }
      }
    }
  }

  /** Rows appended to the cleared form are the loaded rows themselves. */
  lemma LoadedRowsAfterClear(tagRows: seq<Row>, extraRows: seq<Row>, doc: Document, first: nat)
    requires tagRows == [] + LoadedTagRows(doc.tags, first)
    requires extraRows == [] + LoadedExtraRows(doc.extraImages, first + |doc.tags|)
    ensures tagRows == LoadedTagRows(doc.tags, first)
    ensures extraRows == LoadedExtraRows(doc.extraImages, first + |doc.tags|)
  {
  }
}
