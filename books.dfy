/**
 * The one entity of the catalog, a stored book row, and the in-memory table that
 * holds the rows (the `Book` ActiveRecord model, reduced to what the core uses).
 */
module Books {

  /**
   * A row of the `books` table. `id` is assigned by the repository when the row is
   * created; the other four columns are NOT NULL.
   */
  datatype Book = Book(id: nat, title: string, author: string, genre: string, publicationYear: int)

  /** Two rows that the uniqueness rule treats as the same recommendation (genre plays no part). */
  predicate SameRecommendation(a: Book, b: Book) {
    a.title == b.title && a.author == b.author && a.publicationYear == b.publicationYear
  }

  /** The business invariant: no two rows share title, author and publication year. */
  predicate NoDuplicates(books: seq<Book>) {
    forall i, j :: 0 <= i < j < |books| ==> !SameRecommendation(books[i], books[j])
  }

  /** The table: its rows in insertion order and the id the next insert receives. */
  class Repository {
    var books: seq<Book>
    var nextId: nat

    /** Every id was handed out before `nextId`, and no id is used twice. */
    ghost predicate Valid()
      reads this
    {
      (forall i :: 0 <= i < |books| ==> books[i].id < nextId)
      && (forall i, j :: 0 <= i < j < |books| ==> books[i].id != books[j].id)
    }

    /** An empty table; ids start at 1. */
    constructor ()
      ensures Valid() && books == [] && nextId == 1
    {
      books := [];
      nextId := 1;
    }

    /** `Book.create(...)`: appends one row with a fresh id; no row already there changes. */
    method Create(title: string, genre: string, author: string, publicationYear: int) returns (b: Book)
      requires Valid()
      modifies this
      ensures Valid()
      ensures b == Book(old(nextId), title, author, genre, publicationYear)
      ensures forall i :: 0 <= i < |old(books)| ==> old(books)[i].id != b.id
      ensures books == old(books) + [b] && nextId == old(nextId) + 1
    {
      b := Book(nextId, title, author, genre, publicationYear);
      books := books + [b];
      nextId := nextId + 1;
    }
  }
}
