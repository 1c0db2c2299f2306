/** The three categories, the folder each keeps its records in, and the
    remembered "last category" preference. Both frames carry identical
    copies of these rules. */
module Categories {
  import opened Store

  /** `CATEGORY_FOLDERS`. */
  const CategoryFolders: map<string, string> := map[
    "Characters" := "Character JSONs",
    "Styles" := "Style JSONs",
    "Misc" := "Misc JSONs"
  ]

  const DefaultCategory: string := "Characters"

  const FallbackFolder: string := "Character JSONs"

  /** `CATEGORY_FOLDERS.get(cat, "Character JSONs")`: the folder of a known
      category, the Characters folder for any other. */
  function CategoryFolder(cat: string): (folder: string)
    ensures folder in CategoryFolders.Values
    ensures cat in CategoryFolders ==> folder == CategoryFolders[cat]
    ensures cat !in CategoryFolders ==> folder == CategoryFolders[DefaultCategory]
  {
    assert CategoryFolders[DefaultCategory] == FallbackFolder;
    if cat in CategoryFolders then CategoryFolders[cat] else FallbackFolder
  }

  /** Each known category has a folder of its own. */
  lemma CategoryFoldersDistinct(a: string, b: string)
    requires a in CategoryFolders && b in CategoryFolders && a != b
    ensures CategoryFolder(a) != CategoryFolder(b)
  {
  }

  /** `_load_last_category(default)`: the stored `last_category`, or the
      default when the file cannot be read or parsed, is not an object, or
      lacks the key. */
  function LoadLastCategory(settings: Settings, default: string): (cat: string)
    ensures settings.Object? && settings.lastCategory.Some? ==> cat == settings.lastCategory.value
    ensures !(settings.Object? && settings.lastCategory.Some?) ==> cat == default
  {
    match settings
    case Object(Some(c)) => c
    case _ => default
  }

  /** `_save_last_category(cat)`: the file becomes `{"last_category": cat}`,
      or stays as it was when the write fails (the failure is only printed). */
  function SaveLastCategory(cat: string, writeOk: bool, previous: Settings): (settings: Settings)
    ensures LoadLastCategory(settings, DefaultCategory) == if writeOk then cat else LoadLastCategory(previous, DefaultCategory)
  {
    if writeOk then Object(Some(cat)) else previous
  }

  /** A category chosen and saved is the one the next start resumes in,
      whatever default that start passes. */
  lemma LastCategoryRoundTrip(cat: string, previous: Settings, default: string)
    ensures LoadLastCategory(SaveLastCategory(cat, true, previous), default) == cat
  {
  }
}
