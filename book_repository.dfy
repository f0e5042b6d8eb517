/** The store behind `BookRepository` (model/repository/BookRepository.java):
    a Spring Data repository over `Book` keyed by `Integer` id, with the
    inherited `save`, `findById` and `delete` and the derived query
    `existsByIsbn`. */
module Repository {
  import opened Wrappers
  import opened Entity

  /** The rows of the book table keyed by id, and the next value the
      IDENTITY column hands out. */
  datatype Table = Table(rows: map<int, Book>, next: int) {

    /** Every row carries its own key as id, and no key has reached the
        identity counter. */
    predicate Valid() {
      forall k :: k in rows ==> rows[k].id == Some(k) && k < next
    }

    /** `existsByIsbn`: some row has exactly this isbn. A null argument
        becomes an IS NULL condition, so it matches a row whose isbn is null. */
    predicate ExistsByIsbn(isbn: Text)
      ensures ExistsByIsbn(isbn) <==> isbn in (set k | k in rows :: rows[k].isbn)
    {
      exists k :: k in rows && rows[k].isbn == isbn
    }

    /** ISBNs are pairwise distinct across the rows. */
    predicate UniqueIsbns() {
      forall j, k :: j in rows && k in rows && j != k ==> rows[j].isbn != rows[k].isbn
    }

    /** `findById`: the row with this id, or empty. */
    function FindById(id: int): (r: Option<Book>)
      requires Valid()
      ensures r.None? <==> id !in rows
      ensures r.Some? ==> r.value.id == Some(id) && r.value == rows[id]
    {
      if id in rows then Some(rows[id]) else None
    }

    /** The key `save` writes under: the book's own id, or, when it has none,
        a fresh IDENTITY value that no row holds yet. */
    function KeyFor(b: Book): (k: int)
      requires Valid()
      ensures b.id.None? ==> k !in rows
      ensures b.id.Some? ==> k == b.id.value
    {
      if b.id.Some? then b.id.value else next
    }

    /** What `save` returns: the book with its id filled in, and otherwise
        the same. */
    function Saved(b: Book): (s: Book)
      requires Valid()
      ensures s.id == Some(KeyFor(b))
      ensures s.title == b.title && s.author == b.author && s.isbn == b.isbn
      ensures b.id.Some? ==> s == b
    {
      b.(id := Some(KeyFor(b)))
    }

    /** The table after `save(b)`: an insert under a fresh id when `b` has
        none, otherwise an overwrite of the row with `b`'s id. Every other row
        is untouched, and the saved isbn is now found by `existsByIsbn`. */
    function AfterSave(b: Book): (t: Table)
      requires Valid()
      ensures t.Valid()
      ensures t.rows.Keys == rows.Keys + {KeyFor(b)}
      ensures t.FindById(KeyFor(b)) == Some(Saved(b))
      ensures forall k :: k in rows && k != KeyFor(b) ==> t.rows[k] == rows[k]
      ensures t.ExistsByIsbn(b.isbn)
    {
      var k := KeyFor(b);
      Table(rows[k := Saved(b)], if k < next then next else k + 1)
    }

    /** The table after `delete(b)`: the row with `b`'s id is gone and every
        other row is untouched; a book without id, or with an id no row has,
        changes nothing. */
    function AfterDelete(b: Book): (t: Table)
      requires Valid()
      ensures t.Valid()
      ensures b.id.Some? ==> t.rows.Keys == rows.Keys - {b.id.value}
      ensures forall k :: k in t.rows ==> k in rows && t.rows[k] == rows[k]
      ensures b.id.None? || b.id.value !in rows ==> t == this
    {
      if b.id.Some? then Table(rows - {b.id.value}, next) else this
    }
  }

  /** An empty table knows no isbn. */
  lemma EmptyTableHasNoIsbn(next: int, isbn: Text)
    ensures !Table(map[], next).ExistsByIsbn(isbn)
  {
  }

  /** Saving a book whose isbn no row has keeps the isbns unique. */
  lemma {:induction false} SaveFreshIsbnKeepsUnique(t: Table, b: Book)
    requires t.Valid() && t.UniqueIsbns()
    requires !t.ExistsByIsbn(b.isbn)
    ensures t.AfterSave(b).UniqueIsbns()
  {
    var after, key := t.AfterSave(b), t.KeyFor(b);
    forall j, k | j in after.rows && k in after.rows && j != k
      ensures after.rows[j].isbn != after.rows[k].isbn
    {
      if j == key {
        assert k in t.rows && after.rows[k] == t.rows[k];
      } else if k == key {
        assert j in t.rows && after.rows[j] == t.rows[j];
      }
    }
  }

  /** Overwriting the row with `b`'s id keeps the isbns unique exactly when
      no other row has `b`'s isbn. */
  lemma {:induction false} OverwriteKeepsUniqueIff(t: Table, b: Book)
    requires t.Valid() && t.UniqueIsbns() && b.id.Some?
    ensures t.AfterSave(b).UniqueIsbns() <==>
      forall k :: k in t.rows && k != b.id.value ==> t.rows[k].isbn != b.isbn
  {
    var after, key := t.AfterSave(b), b.id.value;
    if forall k :: k in t.rows && k != key ==> t.rows[k].isbn != b.isbn {
      forall j, k | j in after.rows && k in after.rows && j != k
        ensures after.rows[j].isbn != after.rows[k].isbn
      {
        if j == key {
          assert k in t.rows && after.rows[k] == t.rows[k];
        } else if k == key {
          assert j in t.rows && after.rows[j] == t.rows[j];
        }
      }
    } else {
      var k :| k in t.rows && k != key && t.rows[k].isbn == b.isbn;
      assert after.rows[k] == t.rows[k] && after.rows[key] == b;
    }
  }

  /** Deleting a row keeps the isbns unique. */
  lemma DeleteKeepsUnique(t: Table, b: Book)
    requires t.Valid() && t.UniqueIsbns()
    ensures t.AfterDelete(b).UniqueIsbns()
  {
  }

  /** The repository bean: the table it persists to, updated in place by
      `save` and `delete`. */
  class BookRepository {
    var rows: map<int, Book>
    var next: int

    /** The current table as a value. */
    function State(): Table
      reads this
    {
      Table(rows, next)
    }

    ghost predicate Valid()
      reads this
    {
      State().Valid()
    }

    /** An empty table whose IDENTITY column starts at 1. */
    constructor ()
      ensures Valid() && rows == map[] && next == 1
    {
      rows := map[];
      next := 1;
    }

    /** The derived query `existsByIsbn`; reads the table, changes nothing. */
    method ExistsByIsbn(isbn: Text) returns (r: bool)
      ensures r <==> State().ExistsByIsbn(isbn)
    {
      r := exists k :: k in rows && rows[k].isbn == isbn;
    }

    /** `findById`; reads the table, changes nothing. */
    method FindById(id: int) returns (r: Option<Book>)
      requires Valid()
      ensures r == State().FindById(id)
    {
      if id in rows {
        r := Some(rows[id]);
      } else {
        r := None;
      }
    }

    /** `save`: insert under the next IDENTITY value when the book has no id,
        otherwise write the book over the row with its id. */
    method Save(book: Book) returns (saved: Book)
      requires Valid()
      modifies this
      ensures Valid()
      ensures saved == old(State()).Saved(book)
      ensures State() == old(State()).AfterSave(book)
    {
      if book.id.None? {
        saved := book.(id := Some(next));
        rows := rows[next := saved];
        next := next + 1;
      } else {
        saved := book;
        var key := book.id.value;
        rows := rows[key := book];
        if next <= key {
          next := key + 1;
        }
      }
    }

    /** `delete`: remove the row with the book's id, if there is one. */
    method Delete(book: Book)
      requires Valid()
      modifies this
      ensures Valid()
      ensures State() == old(State()).AfterDelete(book)
    {
      if book.id.Some? {
        rows := rows - {book.id.value};
      }
    }
  }
}
