/** The stored entity of the application. */
module Models {

  /** A bookmark: a titled link filed under a category. The `id` is assigned
      by the repository. */
  datatype Bookmark = Bookmark(id: int, title: string, url: string, category: string)

  /** The key of `OrderBy(c => c.Title)`. */
  function TitleKey(b: Bookmark): string {
    b.title
  }

  /** The key of `OrderBy(b => b.Category)`. */
  function CategoryKey(b: Bookmark): string {
    b.category
  }
}
