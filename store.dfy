/** The saved record format and the files the two frames read and write.

    A record file holds one JSON object. `Record` is the object the editor
    writes; `Document` is what a reader gets back from any record file, where
    every key may be missing (a JSON `null` is treated the same way) and a tag
    may be a plain value left by older files. The file system itself is a
    `FileSystem` object whose maps stand for the folders on disk. */
module Store {

  datatype Option<T> = None | Some(value: T) {
    /** `value if present else default`. */
    function GetOr(default: T): T {
      match this
      case Some(v) => v
      case None => default
    }
  }

  datatype Result<T, E> = Ok(value: T) | Err(error: E)

  /** `os.path.join(dir, file)`: a file inside a category folder. */
  datatype Path = Path(dir: string, file: string)

  /** A saved tag `{"label", "value"}` (caption = label, text = value) or a
      saved extra image `{"title", "image_path"}` (caption = title,
      text = image path). */
  datatype Pair = Pair(caption: string, text: string)

  /** The JSON object the editor writes, one key per field. */
  datatype Record = Record(
    name: string,
    fileName: string,
    source: string,
    modelType: string,
    tags: seq<Pair>,
    notes: string,
    extraImages: seq<Pair>,
    imagePath: string)

  /** A JSON object with two optional string members: a tag object
      (`label`, `value`) or an extra-image object (`title`, `image_path`). */
  datatype Fields = Fields(caption: Option<string>, text: Option<string>)

  /** A tag as read back: an object, or any other JSON value, kept as the
      text Python's `str(tag)` gives for it. */
  datatype RawTag = TagObject(fields: Fields) | Legacy(printed: string)

  /** A record file as read back. A missing `tags` or `extra_images` key
      reads as the empty list. */
  datatype Document = Document(
    name: Option<string>,
    fileName: Option<string>,
    source: Option<string>,
    modelType: Option<string>,
    tags: seq<RawTag>,
    notes: Option<string>,
    extraImages: seq<Fields>,
    imagePath: Option<string>)

  /** A saved tag list as read back: one object per pair. */
  function TagObjects(items: seq<Pair>): (tags: seq<RawTag>)
    ensures |tags| == |items|
    ensures forall i :: 0 <= i < |items| ==>
      tags[i] == TagObject(Fields(Some(items[i].caption), Some(items[i].text)))
  {
    seq(|items|, i requires 0 <= i < |items| =>
      TagObject(Fields(Some(items[i].caption), Some(items[i].text))))
  }

  /** A saved extra-image list as read back: one object per pair. */
  function FieldsOf(items: seq<Pair>): (objects: seq<Fields>)
    ensures |objects| == |items|
    ensures forall i :: 0 <= i < |items| ==>
      objects[i] == Fields(Some(items[i].caption), Some(items[i].text))
  {
    seq(|items|, i requires 0 <= i < |items| =>
      Fields(Some(items[i].caption), Some(items[i].text)))
  }

  /** `json.dump(record)` followed by `json.load`: every key is present. */
  function ToDocument(r: Record): (d: Document)
    ensures d.name == Some(r.name) && d.fileName == Some(r.fileName) && d.source == Some(r.source)
    ensures d.modelType == Some(r.modelType) && d.notes == Some(r.notes) && d.imagePath == Some(r.imagePath)
    ensures d.tags == TagObjects(r.tags) && d.extraImages == FieldsOf(r.extraImages)
  {
    Document(
      Some(r.name), Some(r.fileName), Some(r.source), Some(r.modelType),
      TagObjects(r.tags), Some(r.notes), FieldsOf(r.extraImages), Some(r.imagePath))
  }

  /** An image file as PIL sees it: its pixel size, or a file it cannot
      decode. */
  datatype Picture = Picture(width: nat, height: nat) | Undecodable

  /** The preference file `app_settings.json`: missing or not JSON, JSON
      that is not an object, or an object with or without `last_category`. */
  datatype Settings = Unreadable | NotAnObject | Object(lastCategory: Option<string>)

  /** The part of the disk the two frames touch: record files by path
      (`None` for a file that is not valid JSON), image files by path, and
      the preference file. */
  class FileSystem {
    var records: map<Path, Option<Document>>
    var images: map<string, Picture>
    var settings: Settings

    constructor (records: map<Path, Option<Document>>, images: map<string, Picture>, settings: Settings)
      ensures this.records == records && this.images == images && this.settings == settings
    {
      this.records := records;
      this.images := images;
      this.settings := settings;
    }
  }
}
