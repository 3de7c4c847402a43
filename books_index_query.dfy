/**
 * The listing filter (`BooksIndexQuery`, with the `BaseQuery.call` delegation folded in).
 *
 * A query is the permitted request parameters: a map from parameter name to string.
 * `call` returns the whole collection when the map is empty; otherwise
 * `execute_query` narrows the collection by exact equality on title, then author,
 * then genre, each step taken only when that parameter is present (not blank).
 * A collection is a sequence of rows in the repository's order, and `where` keeps
 * the rows that satisfy the condition, in that order.
 */
module BooksIndex {
  import opened Wrappers
  import opened RubyText
  import opened Books

  /** The request parameters handed to the query, keyed by name. */
  type Criteria = map<string, string>

  /** The three columns the query can narrow on. */
  datatype Field = Title | Author | Genre

  /** The parameter name that carries a criterion on `f`. */
  function Key(f: Field): string {
    match f
    case Title => "title"
    case Author => "author"
    case Genre => "genre"
  }

  function Get(b: Book, f: Field): string {
    match f
    case Title => b.title
    case Author => b.author
    case Genre => b.genre
  }

  /** `query[:title]` and the like: `nil` when the parameter is missing. */
  function Lookup(q: Criteria, f: Field): Option<string> {
    if Key(f) in q then Some(q[Key(f)]) else None
  }

  /** The order in which `execute_query` narrows. */
  const Fields: seq<Field> := [Title, Author, Genre]

  // ---------------------------------------------------------------------------
  // Reference definition: what a listing returns.

  /** The criterion on `f` constrains `b` only when it is present, and then by exact equality. */
  predicate Constrains(q: Criteria, f: Field, b: Book) {
    Present(Lookup(q, f)) ==> Get(b, f) == Lookup(q, f).value
  }

  /** `b` satisfies every present criterion of `q` (logical AND). */
  predicate Matches(b: Book, q: Criteria) {
    Constrains(q, Title, b) && Constrains(q, Author, b) && Constrains(q, Genre, b)
  }

  /** The books of `s` that match `q`, in the order of `s`. */
  function Selected(s: seq<Book>, q: Criteria): seq<Book> {
    if s == [] then []
    else (if Matches(s[0], q) then [s[0]] else []) + Selected(s[1..], q)
  }

  // ---------------------------------------------------------------------------
  // The operations.

  /** `collection.where(field => v)`: the rows whose column equals `v`, in order. */
  function Where(s: seq<Book>, f: Field, v: string): (r: seq<Book>)
    ensures |r| <= |s|
    ensures forall b :: b in r <==> b in s && Get(b, f) == v
    ensures forall b :: multiset(r)[b] == if Get(b, f) == v then multiset(s)[b] else 0
  {
    if s == [] then []
    else
      assert s == [s[0]] + s[1..];
      (if Get(s[0], f) == v then [s[0]] else []) + Where(s[1..], f, v)
  }

  /** The query object; `initialize(query:)` stores the parameters. */
  class BooksIndexQuery {
    const query: Criteria

    constructor (query: Criteria)
      ensures this.query == query
    {
      this.query := query;
    }

    /**
     * `call`: an empty parameter map short-circuits to the whole collection;
     * otherwise the narrowed collection. Either way, exactly the matching books.
     */
    method Call(collection: seq<Book>) returns (books: seq<Book>)
      ensures |query| == 0 ==> books == collection
      ensures books == Selected(collection, query)
    {
      if |query| == 0 {
        SelectedNoCriteria(collection, query);
        return collection;
      }
      books := ExecuteQuery(query, collection);
    }

    /** `execute_query`: three conditional narrowings of a local collection. */
    method ExecuteQuery(q: Criteria, collection: seq<Book>) returns (books: seq<Book>)
      ensures books == Selected(collection, q)
    {
      var c := collection;
      NarrowedByNothing(collection, q);
      if Present(Lookup(q, Title)) {
        c := Where(c, Title, Lookup(q, Title).value);
      }
      NarrowStep(collection, q, [], Title);
      assert [] + [Title] == [Title];
      if Present(Lookup(q, Author)) {
        c := Where(c, Author, Lookup(q, Author).value);
      }
      NarrowStep(collection, q, [Title], Author);
      assert [Title] + [Author] == [Title, Author];
      if Present(Lookup(q, Genre)) {
        c := Where(c, Genre, Lookup(q, Genre).value);
      }
      NarrowStep(collection, q, [Title, Author], Genre);
      NarrowedByAllFields(collection, q);
      books := c;
    }
  }

  /** `BaseQuery.call(query:)`: `new(query:).call` against the whole collection. */
  method Index(query: Criteria, all: seq<Book>) returns (books: seq<Book>)
    ensures books == Selected(all, query)
  {
    var q := new BooksIndexQuery(query);
    books := q.Call(all);
  }

  // ---------------------------------------------------------------------------
  // The fold behind execute_query: the collection after narrowing on a prefix of Fields.

  /** The narrowing step on `f` that `execute_query` takes, or no step when `f`'s criterion is blank. */
  function Step(s: seq<Book>, q: Criteria, f: Field): seq<Book> {
    if Present(Lookup(q, f)) then Where(s, f, Lookup(q, f).value) else s
  }

  predicate MatchesOn(b: Book, q: Criteria, fs: seq<Field>) {
    forall f :: f in fs ==> Constrains(q, f, b)
  }

  /** The books of `s` that satisfy the criteria on the fields `fs`. */
  function SelectedOn(s: seq<Book>, q: Criteria, fs: seq<Field>): seq<Book> {
    if s == [] then []
    else (if MatchesOn(s[0], q, fs) then [s[0]] else []) + SelectedOn(s[1..], q, fs)
  }

  /** Before any step, nothing is narrowed. */
  lemma {:induction false} NarrowedByNothing(s: seq<Book>, q: Criteria)
    ensures SelectedOn(s, q, []) == s
  {
    if s != [] {
      NarrowedByNothing(s[1..], q);
    }
  }

  /** One more step of execute_query adds the criterion on `f` to those already applied. */
  lemma {:induction false} NarrowStep(s: seq<Book>, q: Criteria, fs: seq<Field>, f: Field)
    ensures Step(SelectedOn(s, q, fs), q, f) == SelectedOn(s, q, fs + [f])
  {
    if s != [] {
      NarrowStep(s[1..], q, fs, f);
      var b := s[0];
      assert MatchesOn(b, q, fs + [f]) <==> MatchesOn(b, q, fs) && Constrains(q, f, b) by {
        assert forall g :: g in fs + [f] <==> g in fs || g == f;
      }
      if Present(Lookup(q, f)) {
        var rest := SelectedOn(s[1..], q, fs);
        if MatchesOn(b, q, fs) {
          var t, v := [b] + rest, Lookup(q, f).value;
          assert SelectedOn(s, q, fs) == t;
          assert t[0] == b && t[1..] == rest;
          assert Where(t, f, v) == (if Get(b, f) == v then [b] else []) + Where(rest, f, v);
        } else {
          assert SelectedOn(s, q, fs) == rest;
        }
      }
    }
  }

  /** After the three steps, the collection is exactly the reference selection. */
  lemma {:induction false} NarrowedByAllFields(s: seq<Book>, q: Criteria)
    ensures SelectedOn(s, q, [Title, Author] + [Genre]) == Selected(s, q)
  {
    if s != [] {
      NarrowedByAllFields(s[1..], q);
      assert MatchesOn(s[0], q, [Title, Author] + [Genre]) <==> Matches(s[0], q) by {
        assert [Title, Author] + [Genre] == Fields;
        assert Title in Fields && Author in Fields && Genre in Fields;
      }
    }
  }

  // ---------------------------------------------------------------------------
  // Properties of a listing.

  /** Exactly the books of the collection that satisfy every present criterion: none dropped, none added. */
  lemma {:induction false} SelectedMembership(s: seq<Book>, q: Criteria, b: Book)
    ensures b in Selected(s, q) <==> b in s && Matches(b, q)
  {
    if s != [] {
      SelectedMembership(s[1..], q, b);
      assert s == [s[0]] + s[1..];
    }
  }

  /** The query only narrows: the result is a sub-multiset of the collection. */
  lemma {:induction false} SelectedNarrows(s: seq<Book>, q: Criteria)
    ensures multiset(Selected(s, q)) <= multiset(s)
    ensures |Selected(s, q)| <= |s|
  {
    if s != [] {
      SelectedNarrows(s[1..], q);
      assert s == [s[0]] + s[1..];
    }
  }

  /** A present criterion holds of every book returned: the returned books carry exactly that value. */
  lemma PresentCriterionHolds(s: seq<Book>, q: Criteria, f: Field, b: Book)
    requires Present(Lookup(q, f))
    requires b in Selected(s, q)
    ensures Get(b, f) == q[Key(f)]
  {
  }

  /** An empty parameter map selects the whole collection. */
  lemma {:induction false} SelectedNoCriteria(s: seq<Book>, q: Criteria)
    requires |q| == 0
    ensures Selected(s, q) == s
  {
    if s != [] {
      SelectedNoCriteria(s[1..], q);
    }
  }

  /**
   * When title, author and genre are all blank or missing (the map may still hold
   * other keys), nothing is narrowed: the same result as the empty map.
   */
  lemma {:induction false} SelectedAllBlank(s: seq<Book>, q: Criteria)
    requires !Present(Lookup(q, Title)) && !Present(Lookup(q, Author)) && !Present(Lookup(q, Genre))
    ensures Selected(s, q) == s
  {
    if s != [] {
      SelectedAllBlank(s[1..], q);
    }
  }

  /**
   * A blank criterion is never "field equals the blank string": giving `f` a blank
   * value selects the same books as leaving the parameter out.
   */
  lemma {:induction false} BlankCriterionIgnored(s: seq<Book>, q: Criteria, f: Field, v: string)
    requires BlankString(v)
    ensures Selected(s, q[Key(f) := v]) == Selected(s, q - {Key(f)})
  {
    if s != [] {
      BlankCriterionIgnored(s[1..], q, f, v);
      var q1, q2 := q[Key(f) := v], q - {Key(f)};
      forall g: Field
        ensures Constrains(q1, g, s[0]) == Constrains(q2, g, s[0])
      {
        if g == f {
          assert Lookup(q1, g) == Some(v) && Lookup(q2, g) == None;
        } else {
          assert Key(g) != Key(f);
          assert Lookup(q1, g) == Lookup(q2, g);
        }
      }
    }
  }

  /** Parameters other than title, author and genre are ignored. */
  lemma {:induction false} OtherKeysIgnored(s: seq<Book>, q: Criteria, k: string, v: string)
    requires k != "title" && k != "author" && k != "genre"
    ensures Selected(s, q[k := v]) == Selected(s, q)
  {
    if s != [] {
      OtherKeysIgnored(s[1..], q, k, v);
      forall g: Field
        ensures Lookup(q[k := v], g) == Lookup(q, g)
      {
        assert Key(g) != k;
      }
    }
  }

  /** Criteria that no book satisfies give an empty list, not an error. */
  lemma {:induction false} NoMatchIsEmpty(s: seq<Book>, q: Criteria)
    requires forall i :: 0 <= i < |s| ==> !Matches(s[i], q)
    ensures Selected(s, q) == []
  {
    if s != [] {
      NoMatchIsEmpty(s[1..], q);
    }
  }

  /**
   * A single present criterion on `f` returns exactly the one book whose `f`
   * carries that value when every other book carries a different one.
   */
  lemma {:induction false} SingleCriterionFindsUniqueBook(s: seq<Book>, f: Field, v: string, i: nat)
    requires Present(Some(v))
    requires i < |s| && Get(s[i], f) == v
    requires forall j :: 0 <= j < |s| && j != i ==> Get(s[j], f) != v
    ensures Selected(s, map[Key(f) := v]) == [s[i]]
  {
    var q := map[Key(f) := v];
    forall g: Field
      ensures Lookup(q, g) == if g == f then Some(v) else None
    {
      if g != f {
        assert Key(g) != Key(f);
      }
    }
    assert Matches(s[i], q);
    if i == 0 {
      assert !Matches(s[0], q) ==> false;
      NoMatchIsEmpty(s[1..], q) by {
        forall j | 0 <= j < |s[1..]|
          ensures !Matches(s[1..][j], q)
        {
          assert s[1..][j] == s[j + 1];
        }
      }
    } else {
      assert Get(s[0], f) != v;
      assert !Matches(s[0], q);
      SingleCriterionFindsUniqueBook(s[1..], f, v, i - 1);
    }
  }
}
