/** The editor's rules for turning its form into a saved record and a saved
    file back into its form: name checks, the file-name sanitiser, the
    record built from the rows, and the rows a loaded file produces. */
module SaveRules {
  import opened Strings
  import opened Store

  /** The characters the sanitiser deletes: `<>:"/\|?*` and U+0000 to U+001F. */
  predicate Forbidden(c: char) {
    c in "<>:\"/\\|?*" || c < ' '
  }

  predicate NoForbidden(s: string) {
    forall i :: 0 <= i < |s| ==> !Forbidden(s[i])
  }

  /** `re.sub(r'[<>:"/\\|?*\x00-\x1F]+', "", s)`: the characters of `s` that
      are not forbidden, in their order. */
  function RemoveForbidden(s: string): (r: string)
    ensures NoForbidden(r)
    decreases |s|
  {
    if s == [] then [] else KeptChar(s[0]) + RemoveForbidden(s[1..])
  }

  /** Every character that is not forbidden is kept as often as it occurs;
      every forbidden one is gone. */
  lemma {:induction false} RemoveForbiddenCounts(s: string)
    ensures forall c :: multiset(RemoveForbidden(s))[c] == if Forbidden(c) then 0 else multiset(s)[c]
    decreases |s|
  {
    if s != [] {
      RemoveForbiddenCounts(s[1..]);
      assert s == [s[0]] + s[1..];
      assert multiset(RemoveForbidden(s)) == multiset(KeptChar(s[0])) + multiset(RemoveForbidden(s[1..]));
    }
  }

  /** What one character contributes: nothing when it is forbidden. */
  function KeptChar(c: char): (kept: string)
    ensures |kept| <= 1
  {
    if Forbidden(c) then [] else [c]
  }

  /** The characters are filtered one by one, so those kept stay in their
      order: removing from a concatenation is concatenating the removals. */
  lemma {:induction false} RemoveForbiddenAppend(a: string, b: string)
    ensures RemoveForbidden(a + b) == RemoveForbidden(a) + RemoveForbidden(b)
    decreases |a|
  {
    if a == [] {
      assert a + b == b;
    } else {
      var ab := a + b;
      assert ab[0] == a[0];
      assert ab[1..] == a[1..] + b;
      RemoveForbiddenAppend(a[1..], b);
      var head := KeptChar(a[0]);
      assert RemoveForbidden(ab) == head + RemoveForbidden(a[1..] + b);
      assert head + (RemoveForbidden(a[1..]) + RemoveForbidden(b))
        == (head + RemoveForbidden(a[1..])) + RemoveForbidden(b);
    }
  }

  /** The Windows-safe file name: forbidden characters deleted, then
      whitespace stripped from both ends. */
  function Sanitize(name: string): (safe: string)
    ensures NoForbidden(safe) && NoEdgeSpace(safe)
    ensures safe == "" <==> AllIgnorable(name)
  {
    SanitizeSpec(name);
    Strip(RemoveForbidden(name))
  }

  lemma SanitizeSpec(name: string)
    ensures var safe := Strip(RemoveForbidden(name));
      NoForbidden(safe) && (safe == "" <==> AllIgnorable(name))
  {
    var kept := RemoveForbidden(name);
    RemoveForbiddenAllSpace(name);
    StripEmpty(kept);
    StripKeepsNoForbidden(kept);
  }

  /** Stripping only removes characters from the ends. */
  lemma StripKeepsNoForbidden(kept: string)
    requires NoForbidden(kept)
    ensures NoForbidden(Strip(kept))
  {
    var safe := Strip(kept);
    StripInfix(kept);
    var lead := LeadingSpaces(kept);
    forall i | 0 <= i < |safe| ensures !Forbidden(safe[i]) {
      assert safe[i] == kept[lead + i];
    }
  }

  /** A character the sanitiser deletes or strips. */
  predicate Ignorable(c: char) {
    Forbidden(c) || IsSpace(c)
  }

  predicate AllIgnorable(s: string) {
    forall i :: 0 <= i < |s| ==> Ignorable(s[i])
  }

  lemma AllIgnorableHead(s: string)
    requires s != []
    ensures AllIgnorable(s) <==> Ignorable(s[0]) && AllIgnorable(s[1..])
  {
    assert forall i :: 0 <= i < |s[1..]| ==> s[1..][i] == s[i + 1];
  }

  lemma {:induction false} RemoveForbiddenAllSpace(s: string)
    ensures AllSpace(RemoveForbidden(s)) <==> AllIgnorable(s)
    decreases |s|
  {
    if s != [] {
      var rest := RemoveForbidden(s[1..]);
      RemoveForbiddenAllSpace(s[1..]);
      AllIgnorableHead(s);
      if Forbidden(s[0]) {
        assert RemoveForbidden(s) == rest;
      } else {
        assert RemoveForbidden(s) == [s[0]] + rest;
        AllSpaceCons(s[0], rest);
      }
    }
  }

  lemma {:induction false} RemoveForbiddenFixed(s: string)
    requires NoForbidden(s)
    ensures RemoveForbidden(s) == s
    decreases |s|
  {
    if s != [] {
      RemoveForbiddenFixed(s[1..]);
      assert s == [s[0]] + s[1..];
    }
  }

  /** A name made only of allowed characters, with no whitespace at its
      ends, is its own file name; in particular sanitising twice is the same
      as sanitising once. */
  lemma SanitizeFixed(name: string)
    requires NoForbidden(name) && NoEdgeSpace(name)
    ensures Sanitize(name) == name
  {
    RemoveForbiddenFixed(name);
    StripFixed(name);
  }

  lemma SanitizeIdempotent(name: string)
    ensures Sanitize(Sanitize(name)) == Sanitize(name)
  {
    SanitizeFixed(Sanitize(name));
  }

  /** A row of the tag list (caption = label entry, text = value entry) or
      of the extra-image list (caption = title entry, text = path variable),
      with the frame widget that identifies it. */
  datatype Row = Row(caption: string, text: string, frame: nat)

  /** Items as a save writes them: filled, stripped text and caption. */
  ghost predicate NormalItems(items: seq<Pair>) {
    forall i :: 0 <= i < |items| ==>
      items[i].text != "" && NoEdgeSpace(items[i].text) && NoEdgeSpace(items[i].caption)
  }

  /** The rows a save keeps: those whose stripped text is not empty, in row
      order, with caption and text stripped. */
  function Filled(rows: seq<Row>): (items: seq<Pair>)
    ensures |items| <= |rows|
    decreases |rows|
  {
    if rows == [] then [] else KeptRow(rows[0]) + Filled(rows[1..])
  }

  /** What one row contributes: nothing when its stripped text is empty. */
  function KeptRow(row: Row): (kept: seq<Pair>)
    ensures |kept| <= 1
  {
    if Strip(row.text) == "" then [] else [Pair(Strip(row.caption), Strip(row.text))]
  }

  /** Every kept item has a non-empty text, and text and caption carry no
      whitespace at their ends. */
  lemma {:induction false} FilledNormal(rows: seq<Row>)
    ensures NormalItems(Filled(rows))
    decreases |rows|
  {
    if rows != [] {
      FilledNormal(rows[1..]);
      var rest := Filled(rows[1..]);
      var row := rows[0];
      if Strip(row.text) != "" {
        var head := Pair(Strip(row.caption), Strip(row.text));
        assert Filled(rows) == [head] + rest;
        forall i | 0 <= i < |Filled(rows)|
          ensures Filled(rows)[i].text != "" && NoEdgeSpace(Filled(rows)[i].text)
            && NoEdgeSpace(Filled(rows)[i].caption)
        {
          if i > 0 {
            assert Filled(rows)[i] == rest[i - 1];
          }
        }
      }
    }
  }

  /** One row on its own: dropped when its text is blank whatever its
      caption, kept stripped otherwise (an empty caption is kept). */
  lemma FilledRow(row: Row)
    ensures Filled([row]) == if Strip(row.text) == "" then [] else [Pair(Strip(row.caption), Strip(row.text))]
  {
  }

  /** Row lists are filtered row by row, so order is kept. */
  lemma {:induction false} FilledAppend(a: seq<Row>, b: seq<Row>)
    ensures Filled(a + b) == Filled(a) + Filled(b)
    decreases |a|
  {
    if a == [] {
      assert a + b == b;
    } else {
      var ab := a + b;
      assert ab[0] == a[0];
      assert ab[1..] == a[1..] + b;
      FilledAppend(a[1..], b);
      var head := KeptRow(a[0]);
      assert head + (Filled(a[1..]) + Filled(b)) == (head + Filled(a[1..])) + Filled(b);
    }
  }

  /** What the editor holds: the entry texts, the model type, the notes,
      the two row lists and the chosen image. */
  datatype Form = Form(
    name: string,
    fileName: string,
    source: string,
    modelType: string,
    tags: seq<Row>,
    notes: string,
    extras: seq<Row>,
    imagePath: Option<string>)

  /** The model type a new or cleared form shows. */
  const DefaultModelType: string := "Illustrious"

  /** The model type assumed for a loaded file that has none. */
  const LoadedModelTypeDefault: string := "1.5"

  /** `clear_form`: every entry empty, no rows, no image. */
  const ClearedForm: Form := Form("", "", "", DefaultModelType, [], "", [], None)

  /** The object `save_character` writes. The notes box hands back its text
      with a trailing newline, which the strip removes: `Strip(notes)`. */
  function BuildRecord(form: Form): Record {
    Record(
      Strip(form.name), form.fileName, form.source, form.modelType,
      Filled(form.tags), Strip(form.notes), Filled(form.extras),
      form.imagePath.GetOr(""))
  }

  /** Why a save is refused before anything is written. */
  datatype SaveError = MissingName | InvalidName

  /** Where a save goes and what it writes. */
  datatype Plan = Plan(path: Path, record: Record)

  /** The file name of a sanitised name. */
  function JsonFileName(safe: string): string {
    safe + ".json"
  }

  /** The checks and computations of `save_character` before the overwrite
      prompt: refused when the stripped name is empty or sanitises to
      nothing; otherwise the record goes to `<safe>.json` in the save folder
      and stores the stripped name, not the sanitised one. */
  function PlanSave(form: Form, saveDir: string): (plan: Result<Plan, SaveError>)
    ensures plan == Err(MissingName) <==> Strip(form.name) == ""
    ensures plan == Err(InvalidName) <==> Strip(form.name) != "" && Sanitize(Strip(form.name)) == ""
    ensures plan.Ok? ==>
      var name := Strip(form.name);
      && plan.value.path == Path(saveDir, JsonFileName(Sanitize(name)))
      && Sanitize(name) != "" && NoForbidden(Sanitize(name))
      && plan.value.record.name == name
      && plan.value.record.fileName == form.fileName
      && plan.value.record.source == form.source
      && plan.value.record.modelType == form.modelType
      && plan.value.record.notes == Strip(form.notes)
      && plan.value.record.tags == Filled(form.tags)
      && plan.value.record.extraImages == Filled(form.extras)
      && plan.value.record.imagePath == (if form.imagePath.Some? then form.imagePath.value else "")
  {
    var name := Strip(form.name);
    if name == "" then Err(MissingName)
    else
      var safe := Sanitize(name);
      if safe == "" then Err(InvalidName)
      else Ok(Plan(Path(saveDir, JsonFileName(safe)), BuildRecord(form)))
  }

  /** A name made only of whitespace and forbidden characters (such as
      ":::") is refused. */
  lemma OnlyForbiddenNameRefused(form: Form, saveDir: string)
    requires AllIgnorable(form.name)
    ensures PlanSave(form, saveDir).Err?
  {
    var name := Strip(form.name);
    if name != "" {
      StripInfix(form.name);
      var lead := LeadingSpaces(form.name);
      forall i | 0 <= i < |name| ensures Ignorable(name[i]) {
        assert name[i] == form.name[lead + i];
      }
    }
  }

  /** The form rows `add_tag_entry` creates for one tag of a loaded file: an
      object gives its label and value (missing ones empty), any other value
      gives an empty label and its printed text. */
  function LoadedTagRow(tag: RawTag, frame: nat): Row {
    match tag
    case TagObject(f) => Row(f.caption.GetOr(""), f.text.GetOr(""), frame)
    case Legacy(printed) => Row("", printed, frame)
  }

  function LoadedTagRows(tags: seq<RawTag>, first: nat): (rows: seq<Row>)
    ensures |rows| == |tags|
  {
    seq(|tags|, i requires 0 <= i < |tags| => LoadedTagRow(tags[i], first + i))
  }

  function LoadedExtraRows(extras: seq<Fields>, first: nat): (rows: seq<Row>)
    ensures |rows| == |extras|
  {
    seq(|extras|, i requires 0 <= i < |extras| =>
      Row(extras[i].caption.GetOr(""), extras[i].text.GetOr(""), first + i))
  }

  /** `data.get("image_path", "") or None`. */
  function NonEmpty(path: string): Option<string> {
    if path == "" then None else Some(path)
  }

  /** The form `load_character` fills from a parsed file, before the preview
      check: missing entries empty, a missing model type "1.5", one row per
      tag and per extra image in file order, frames numbered from `first`. */
  function LoadedForm(doc: Document, first: nat): Form {
    Form(
      doc.name.GetOr(""), doc.fileName.GetOr(""), doc.source.GetOr(""),
      doc.modelType.GetOr(LoadedModelTypeDefault),
      LoadedTagRows(doc.tags, first),
      doc.notes.GetOr(""),
      LoadedExtraRows(doc.extraImages, first + |doc.tags|),
      NonEmpty(doc.imagePath.GetOr("")))
  }

  /** A missing model type loads as "1.5"; each tag gives one row in file
      order, a value that is not an object giving an empty label and its
      printed text; each extra image gives one row; a missing or empty image
      path loads as no image. */
  lemma LoadedFormSpec(doc: Document, first: nat)
    ensures var form := LoadedForm(doc, first);
      && form.modelType == (if doc.modelType.Some? then doc.modelType.value else LoadedModelTypeDefault)
      && |form.tags| == |doc.tags| && |form.extras| == |doc.extraImages|
      && (forall i :: 0 <= i < |doc.tags| && doc.tags[i].Legacy? ==>
            form.tags[i] == Row("", doc.tags[i].printed, first + i))
      && (forall i :: 0 <= i < |doc.tags| && doc.tags[i].TagObject? ==>
            form.tags[i] == Row(doc.tags[i].fields.caption.GetOr(""), doc.tags[i].fields.text.GetOr(""), first + i))
      && (form.imagePath.None? <==> (doc.imagePath.None? || doc.imagePath == Some("")))
  {
  }

  /** What a save always writes: a stripped, valid name, stripped notes,
      and only filled, stripped tags and extra images. */
  ghost predicate Normal(r: Record) {
    && r.name != "" && NoEdgeSpace(r.name) && Sanitize(r.name) != ""
    && NoEdgeSpace(r.notes)
    && NormalItems(r.tags) && NormalItems(r.extraImages)
  }

  lemma PlannedRecordNormal(form: Form, saveDir: string)
    requires PlanSave(form, saveDir).Ok?
    ensures Normal(PlanSave(form, saveDir).value.record)
  {
    FilledNormal(form.tags);
    FilledNormal(form.extras);
  }

  /** Rows loaded from saved items keep exactly those items when saved
      again, in their order. */
  lemma {:induction false} FilledOfSaved(items: seq<Pair>, rows: seq<Row>)
    requires |rows| == |items| && NormalItems(items)
    requires forall i :: 0 <= i < |items| ==>
      rows[i].caption == items[i].caption && rows[i].text == items[i].text
    ensures Filled(rows) == items
    decreases |items|
  {
    if items != [] {
      FilledOfSaved(items[1..], rows[1..]);
      StripFixed(items[0].text);
      StripFixed(items[0].caption);
      assert items == [items[0]] + items[1..];
    }
  }

  /** Saved tags, read back as objects and loaded into rows, are saved
      again as exactly those tags. */
  lemma ReloadedTags(items: seq<Pair>, tags: seq<RawTag>, first: nat)
    requires NormalItems(items) && tags == TagObjects(items)
    ensures Filled(LoadedTagRows(tags, first)) == items
  {
    FilledOfSaved(items, LoadedTagRows(tags, first));
  }

  /** Saved extra images, read back and loaded into rows, are saved again
      as exactly those images. */
  lemma ReloadedExtras(items: seq<Pair>, objects: seq<Fields>, first: nat)
    requires NormalItems(items) && objects == FieldsOf(items)
    ensures Filled(LoadedExtraRows(objects, first)) == items
  {
    FilledOfSaved(items, LoadedExtraRows(objects, first));
  }

  /** Saving, loading the saved file and saving again writes the same
      record: every field comes back, tags and extra images in their order.
      (The image path survives only when the preview check keeps it; see
      the editor.) */
  lemma SaveLoadRoundTrip(form: Form, saveDir: string, first: nat)
    requires PlanSave(form, saveDir).Ok?
    ensures var r := PlanSave(form, saveDir).value.record;
      var loaded := LoadedForm(ToDocument(r), first);
      && loaded.name == r.name && loaded.fileName == r.fileName && loaded.source == r.source
      && loaded.modelType == r.modelType && loaded.notes == r.notes
      && loaded.imagePath.GetOr("") == r.imagePath
      && PlanSave(loaded, saveDir) == PlanSave(form, saveDir)
  {
    var r := PlanSave(form, saveDir).value.record;
    PlannedRecordNormal(form, saveDir);
    RebuildSaved(r, first);
  }

  /** The record built from the form a normal record loads into is that
      record. */
  lemma RebuildSaved(r: Record, first: nat)
    requires NoEdgeSpace(r.name) && NoEdgeSpace(r.notes)
    requires NormalItems(r.tags) && NormalItems(r.extraImages)
    ensures var loaded := LoadedForm(ToDocument(r), first);
      && loaded.name == r.name && loaded.notes == r.notes
      && loaded.imagePath.GetOr("") == r.imagePath
      && BuildRecord(loaded) == r
  {
    var loaded := LoadedForm(ToDocument(r), first);
    ReloadedLists(r, first);
    StripFixed(r.name);
    StripFixed(r.notes);
    var b := BuildRecord(loaded);
    assert b.name == r.name && b.notes == r.notes;
  }

  lemma ReloadedLists(r: Record, first: nat)
    requires NormalItems(r.tags) && NormalItems(r.extraImages)
    ensures var loaded := LoadedForm(ToDocument(r), first);
      Filled(loaded.tags) == r.tags && Filled(loaded.extras) == r.extraImages
  {
    var d := ToDocument(r);
    var loaded := LoadedForm(d, first);
    var second := first + |d.tags|;
    assert loaded.tags == LoadedTagRows(d.tags, first);
    assert loaded.extras == LoadedExtraRows(d.extraImages, second);
    ReloadedTags(r.tags, d.tags, first);
    ReloadedExtras(r.extraImages, d.extraImages, second);
  }

  /** `[t for t in rows if t[2] is not frame]`. */
  function RemoveFrame(rows: seq<Row>, frame: nat): (r: seq<Row>)
    ensures forall i :: 0 <= i < |r| ==> r[i].frame != frame
    decreases |rows|
  {
    if rows == [] then []
    else (if rows[0].frame == frame then [] else [rows[0]]) + RemoveFrame(rows[1..], frame)
  }

  /** No two rows share a frame. */
  ghost predicate DistinctFrames(rows: seq<Row>) {
    forall i, j :: 0 <= i < j < |rows| ==> rows[i].frame != rows[j].frame
  }

  /** Removing the frame of row `k` deletes exactly that row and keeps the
      others in order. */
  lemma {:induction false} RemoveFrameExact(rows: seq<Row>, k: nat)
    requires DistinctFrames(rows) && k < |rows|
    ensures RemoveFrame(rows, rows[k].frame) == rows[..k] + rows[k + 1..]
    decreases |rows|
  {
    var f := rows[k].frame;
    if k == 0 {
      RemoveFrameAbsent(rows[1..], f);
    } else {
      RemoveFrameExact(rows[1..], k - 1);
      assert rows[1..][k - 1] == rows[k];
      assert rows[..k] == [rows[0]] + rows[1..][..k - 1];
      assert rows[k + 1..] == rows[1..][k..];
    }
  }

  /** Removing a frame no row has changes nothing. */
  lemma {:induction false} RemoveFrameAbsent(rows: seq<Row>, frame: nat)
    requires forall i :: 0 <= i < |rows| ==> rows[i].frame != frame
    ensures RemoveFrame(rows, frame) == rows
    decreases |rows|
  {
    if rows != [] {
      RemoveFrameAbsent(rows[1..], frame);
      assert rows == [rows[0]] + rows[1..];
    }
  }
}
