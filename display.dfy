/** What the catalogue's details panel shows for a record: the text rows,
    one copy button per tag (with its label above it when there is one),
    the notes, the main preview and one preview per extra image (with its
    title above it when there is one). Each widget sits in its own grid
    row, numbered from 0 in the order it is placed. */
module Display {
  import opened Strings
  import opened Store
  import opened Preview

  /** A widget of the panel: a text label, a button showing `text` that
      copies `copies` when clicked, or an image label. */
  datatype Cell =
    | Caption(text: string)
    | CopyButton(text: string, copies: string)
    | ImageCell(preview: Preview)

  /** A widget and the grid row it occupies. */
  datatype Widget = Widget(cell: Cell, row: nat)

  /** Places the cells one per row, from row 0. */
  function Numbered(cells: seq<Cell>): (ws: seq<Widget>)
    ensures |ws| == |cells|
  {
    seq(|cells|, k requires 0 <= k < |cells| => Widget(cells[k], k))
  }

  /** Cell `k` sits in row `k`. */
  lemma NumberedRows(cells: seq<Cell>)
    ensures forall k :: 0 <= k < |cells| ==> Numbered(cells)[k] == Widget(cells[k], k)
  {
  }

  lemma NumberedSnoc(cells: seq<Cell>, c: Cell)
    ensures Numbered(cells + [c]) == Numbered(cells) + [Widget(c, |cells|)]
  {
    NumberedRows(cells);
    NumberedRows(cells + [c]);
  }

  lemma NumberedOne(c: Cell)
    ensures Numbered([c]) == [Widget(c, 0)]
  {
    NumberedRows([c]);
  }

  /** A tag as the panel reads it: label and value, both stripped; a value
      that is not an object has no label and its printed text as value. */
  function ShownTag(tag: RawTag): (shown: Pair)
    ensures NoEdgeSpace(shown.caption) && NoEdgeSpace(shown.text)
    ensures tag.Legacy? ==> shown == Pair("", Strip(tag.printed))
  {
    match tag
    case TagObject(f) => Pair(Strip(f.caption.GetOr("")), Strip(f.text.GetOr("")))
    case Legacy(printed) => Pair("", Strip(printed))
  }

  /** The text on a tag button: its value, or "(empty)" for an empty one. */
  function ButtonText(value: string): (text: string)
    ensures text != ""
    ensures value != "" ==> text == value
    ensures value == "" ==> text == "(empty)"
  {
    if value != "" then value else "(empty)"
  }

  /** The widgets of one tag: its label when not empty, then its button,
      which copies the stripped value. */
  function TagCellsOf(tag: RawTag): (cells: seq<Cell>)
    ensures var shown := ShownTag(tag);
      && (|cells| == if shown.caption != "" then 2 else 1)
      && cells[|cells| - 1] == CopyButton(ButtonText(shown.text), shown.text)
      && (|cells| == 2 ==> cells[0] == Caption(shown.caption))
  {
    var shown := ShownTag(tag);
    (if shown.caption != "" then [Caption(shown.caption)] else [])
      + [CopyButton(ButtonText(shown.text), shown.text)]
  }

  /** The widgets of the tags, in tag order. */
  function TagCells(tags: seq<RawTag>): seq<Cell>
    decreases |tags|
  {
    if tags == [] then []
    else TagCells(tags[..|tags| - 1]) + TagCellsOf(tags[|tags| - 1])
  }

  lemma TagCellsSnoc(tags: seq<RawTag>, i: nat)
    requires i < |tags|
    ensures TagCells(tags[..i + 1]) == TagCells(tags[..i]) + TagCellsOf(tags[i])
  {
    assert tags[..i + 1][..i] == tags[..i];
  }

  /** `_render_tags(tags)`: "(No tags)" for an empty list. */
  function RenderedTags(tags: seq<RawTag>): (cells: seq<Cell>)
    ensures tags == [] ==> cells == [Caption("(No tags)")]
  {
    if tags == [] then [Caption("(No tags)")] else TagCells(tags)
  }

  /** What the buttons among `cells` copy, in order. */
  function Copies(cells: seq<Cell>): seq<string>
    decreases |cells|
  {
    if cells == [] then []
    else (if cells[0].CopyButton? then [cells[0].copies] else []) + Copies(cells[1..])
  }

  lemma {:induction false} CopiesAppend(a: seq<Cell>, b: seq<Cell>)
    ensures Copies(a + b) == Copies(a) + Copies(b)
    decreases |a|
  {
    if a == [] {
      assert a + b == b;
    } else {
      assert (a + b)[0] == a[0];
      assert (a + b)[1..] == a[1..] + b;
      CopiesAppend(a[1..], b);
    }
  }

  /** The stripped values of the tags, in order. */
  function TagValues(tags: seq<RawTag>): (values: seq<string>)
    ensures |values| == |tags|
    ensures forall i :: 0 <= i < |tags| ==> values[i] == ShownTag(tags[i]).text
  {
    seq(|tags|, i requires 0 <= i < |tags| => ShownTag(tags[i]).text)
  }

  lemma CopiesOne(c: Cell)
    ensures Copies([c]) == if c.CopyButton? then [c.copies] else []
  {
    assert [c][1..] == [];
  }

  lemma TagCellsOfCopies(tag: RawTag)
    ensures Copies(TagCellsOf(tag)) == [ShownTag(tag).text]
  {
    var shown := ShownTag(tag);
    var button := CopyButton(ButtonText(shown.text), shown.text);
    CopiesOne(button);
    if shown.caption != "" {
      CopiesOne(Caption(shown.caption));
      CopiesAppend([Caption(shown.caption)], [button]);
    }
  }

  /** Every tag gets exactly one copy button, in tag order, and it copies
      that tag's stripped value. */
  lemma {:induction false} OneButtonPerTag(tags: seq<RawTag>)
    ensures Copies(TagCells(tags)) == TagValues(tags)
    decreases |tags|
  {
    if tags != [] {
      var init := tags[..|tags| - 1];
      var last := tags[|tags| - 1];
      OneButtonPerTag(init);
      assert TagCells(tags) == TagCells(init) + TagCellsOf(last);
      CopiesAppend(TagCells(init), TagCellsOf(last));
      TagCellsOfCopies(last);
      TagValuesSnoc(init, last);
      assert tags == init + [last];
    }
  }

  lemma TagValuesSnoc(init: seq<RawTag>, last: RawTag)
    ensures TagValues(init + [last]) == TagValues(init) + [ShownTag(last).text]
  {
  }

  /** No label of the tag list is empty and no tag button is blank. */
  lemma {:induction false} TagCellsNotBlank(tags: seq<RawTag>)
    ensures forall k :: 0 <= k < |TagCells(tags)| ==>
      (TagCells(tags)[k].Caption? ==> TagCells(tags)[k].text != "")
      && (TagCells(tags)[k].CopyButton? ==> TagCells(tags)[k].text != "")
    decreases |tags|
  {
    if tags != [] {
      TagCellsNotBlank(tags[..|tags| - 1]);
    }
  }

  /** An extra image as the panel reads it: title and path, both stripped. */
  function ShownItem(item: Fields): (shown: Pair)
    ensures NoEdgeSpace(shown.caption) && NoEdgeSpace(shown.text)
  {
    Pair(Strip(item.caption.GetOr("")), Strip(item.text.GetOr("")))
  }

  /** The widgets of one extra image: its title when not empty, then its
      preview, the placeholder when the image cannot be shown. */
  function ExtraCellsOf(item: Fields, images: map<string, Picture>): (cells: seq<Cell>)
    ensures var shown := ShownItem(item);
      && (|cells| == if shown.caption != "" then 2 else 1)
      && (|cells| == 2 ==> cells[0] == Caption(shown.caption))
      && cells[|cells| - 1] == ImageCell(CataloguePreview(images, shown.text))
  {
    var shown := ShownItem(item);
    (if shown.caption != "" then [Caption(shown.caption)] else [])
      + [ImageCell(CataloguePreview(images, shown.text))]
  }

  function ExtraCells(items: seq<Fields>, images: map<string, Picture>): seq<Cell>
    decreases |items|
  {
    if items == [] then []
    else ExtraCells(items[..|items| - 1], images) + ExtraCellsOf(items[|items| - 1], images)
  }

  lemma ExtraCellsSnoc(items: seq<Fields>, i: nat, images: map<string, Picture>)
    requires i < |items|
    ensures ExtraCells(items[..i + 1], images) == ExtraCells(items[..i], images) + ExtraCellsOf(items[i], images)
  {
    assert items[..i + 1][..i] == items[..i];
  }

  /** `_render_extra_images(items)`: "(None)" for an empty list. */
  function RenderedExtras(items: seq<Fields>, images: map<string, Picture>): (cells: seq<Cell>)
    ensures items == [] ==> cells == [Caption("(None)")]
  {
    if items == [] then [Caption("(None)")] else ExtraCells(items, images)
  }

  /** The previews among `cells`, in order. */
  function Previews(cells: seq<Cell>): seq<Preview>
    decreases |cells|
  {
    if cells == [] then []
    else (if cells[0].ImageCell? then [cells[0].preview] else []) + Previews(cells[1..])
  }

  lemma {:induction false} PreviewsAppend(a: seq<Cell>, b: seq<Cell>)
    ensures Previews(a + b) == Previews(a) + Previews(b)
    decreases |a|
  {
    if a == [] {
      assert a + b == b;
    } else {
      assert (a + b)[0] == a[0];
      assert (a + b)[1..] == a[1..] + b;
      PreviewsAppend(a[1..], b);
    }
  }

  lemma PreviewsOne(c: Cell)
    ensures Previews([c]) == if c.ImageCell? then [c.preview] else []
  {
    assert [c][1..] == [];
  }

  lemma ExtraCellsOfPreviews(item: Fields, images: map<string, Picture>)
    ensures Previews(ExtraCellsOf(item, images)) == [CataloguePreview(images, ShownItem(item).text)]
  {
    var shown := ShownItem(item);
    var image := ImageCell(CataloguePreview(images, shown.text));
    PreviewsOne(image);
    if shown.caption != "" {
      PreviewsOne(Caption(shown.caption));
      PreviewsAppend([Caption(shown.caption)], [image]);
    }
  }

  /** The previews of the extra images, from their stripped paths. */
  function ItemPreviews(items: seq<Fields>, images: map<string, Picture>): (ps: seq<Preview>)
    ensures |ps| == |items|
    ensures forall i :: 0 <= i < |items| ==> ps[i] == CataloguePreview(images, ShownItem(items[i]).text)
  {
    seq(|items|, i requires 0 <= i < |items| => CataloguePreview(images, ShownItem(items[i]).text))
  }

  /** Every extra image gets exactly one preview, in list order, made from
      its stripped path. */
  lemma {:induction false} OnePreviewPerImage(items: seq<Fields>, images: map<string, Picture>)
    ensures Previews(ExtraCells(items, images)) == ItemPreviews(items, images)
    decreases |items|
  {
    if items != [] {
      var init := items[..|items| - 1];
      var last := items[|items| - 1];
      OnePreviewPerImage(init, images);
      PreviewsAppend(ExtraCells(init, images), ExtraCellsOf(last, images));
      ExtraCellsOfPreviews(last, images);
      ItemPreviewsSnoc(items, images);
    }
  }

  lemma ItemPreviewsSnoc(items: seq<Fields>, images: map<string, Picture>)
    requires items != []
    ensures var last := items[|items| - 1];
      ItemPreviews(items, images)
        == ItemPreviews(items[..|items| - 1], images) + [CataloguePreview(images, ShownItem(last).text)]
  {
    var ps := ItemPreviews(items, images);
    var qs := ItemPreviews(items[..|items| - 1], images) + [CataloguePreview(images, ShownItem(items[|items| - 1]).text)];
    forall i | 0 <= i < |ps| ensures ps[i] == qs[i] {
    }
  }

  /** None of the extra image previews is the bare "No image" text: an
      image that cannot be shown falls back to the placeholder. */
  lemma ExtraPreviewsNotBare(items: seq<Fields>, images: map<string, Picture>)
    ensures forall p :: p in Previews(ExtraCells(items, images)) ==> p != NoImage
  {
    OnePreviewPerImage(items, images);
    var ps := ItemPreviews(items, images);
    forall i | 0 <= i < |items| ensures ps[i] != NoImage {
      CataloguePreviewSpec(images, ShownItem(items[i]).text);
    }
  }

  /** The whole details panel. */
  datatype Details = Details(
    name: string,
    fileName: string,
    source: string,
    modelType: string,
    tags: seq<Widget>,
    notes: string,
    preview: Preview,
    extras: seq<Widget>)

  /** `_clear_details`: empty texts, "(No tags)", the placeholder and
      "(None)". */
  const NoDetails: Details := Details(
    "", "", "", "", Numbered([Caption("(No tags)")]), "", Placeholder, Numbered([Caption("(None)")]))

  /** `_show_details(data)`: the stored texts (missing ones empty), the
      tags, the notes, the main preview and the extra images. */
  function DetailsOf(doc: Document, images: map<string, Picture>): Details {
    Details(
      doc.name.GetOr(""), doc.fileName.GetOr(""), doc.source.GetOr(""), doc.modelType.GetOr(""),
      Numbered(RenderedTags(doc.tags)), doc.notes.GetOr(""),
      CataloguePreview(images, doc.imagePath.GetOr("")),
      Numbered(RenderedExtras(doc.extraImages, images)))
  }

  /** A record without a model type shows an empty one (the editor assumes
      "1.5" instead); the main preview is never the bare text, falling back
      to the placeholder; a record without tags or extra images shows the
      same notices as an empty panel. */
  lemma DetailsOfSpec(doc: Document, images: map<string, Picture>)
    ensures var d := DetailsOf(doc, images);
      && d.modelType == (if doc.modelType.Some? then doc.modelType.value else "")
      && d.preview != NoImage
      && (d.preview.Scaled? <==> ScaledPreview(images, doc.imagePath.GetOr("")).Some?)
      && (doc.tags == [] ==> d.tags == NoDetails.tags)
      && (doc.extraImages == [] ==> d.extras == NoDetails.extras)
  {
    CataloguePreviewSpec(images, doc.imagePath.GetOr(""));
  }
}
