/** The persisted `Book` entity (api/model/entity/Book.java). */
module Entity {
  import opened Wrappers

  /** A Java `String` reference: `None` is null. */
  type Text = Option<string>

  /** The four columns of the entity. `id` is the IDENTITY column: null until
      the store assigns it on insert. Equality is structural over all four
      fields, as the generated `equals` is. The entity itself puts no
      constraint on `title`, `author` or `isbn`: any of them may be null or
      empty. */
  datatype Book = Book(id: Option<int>, title: Text, author: Text, isbn: Text)

  /** What `new Book()` builds: every field null, so not persisted. */
  const NoArgsBook: Book := Book(None, None, None, None)
}
