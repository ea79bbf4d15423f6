/** The records the book catalog works with: the creation request and the stored book. */
module Books {
  import opened Wrappers

  /** A calendar date. The service only checks that one is present; it never inspects it. */
  datatype Date = Date(year: int, month: int, day: int)

  /**
   * The fields of a creation request. Every reference-typed field may be null in
   * the request, so each is optional here; the rating is a plain integer.
   */
  datatype BookDraft = BookDraft(
    title: Option<string>,
    author: Option<string>,
    isbn: Option<string>,
    genre: Option<string>,
    rating: int,
    publicationDate: Option<Date>
  )

  /**
   * A stored book. `id` is the key the document store assigned; `uniqueId` is the
   * human-readable sequence id ("B-001", ...); `photoUrl` is absent until a photo
   * has been uploaded.
   */
  datatype Book = Book(
    id: string,
    uniqueId: string,
    title: string,
    author: string,
    isbn: string,
    genre: string,
    rating: int,
    publicationDate: Date,
    photoUrl: Option<string>
  )
}
