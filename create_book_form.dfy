/**
 * The creation gate (`CreateBookForm`): four field rules and a uniqueness rule, all
 * run on every validation, their failures collected in one ordered error list; and
 * `persist`, which inserts the row only when that list is empty.
 *
 * The current year, which the source reads from the clock once when the class is
 * loaded, is a parameter here.
 */
module CreateBook {
  import opened Wrappers
  import opened RubyText
  import opened Books

  /** The keys an error can be filed under. */
  datatype Attribute = Title | Genre | Author | PublicationYear | Uniqueness

  /** The form's attributes as assigned from the request; `None` is `nil`. */
  datatype Candidate = Candidate(
    title: Option<string>,
    genre: Option<string>,
    author: Option<string>,
    publicationYear: Option<int>)

  /** One entry of `errors`: the attribute it is filed under and its full message. */
  datatype Error = Error(attribute: Attribute, message: string)

  const CantBeBlank: string := "can't be blank"
  const MinimumLength: nat := 2
  const TooShort: string := "is too short (minimum is 2 characters)"

  /** The comparison rule's message, naming the bound. */
  function MustNotExceed(currentYear: int): string {
    "must be less than or equal to " + IntToString(currentYear)
  }

  /** The uniqueness rule's message (the source's own spelling). */
  function AlreadyRecommended(title: string): string {
    title + " already been recomended before."
  }

  predicate IsText(a: Attribute) {
    a == Title || a == Genre || a == Author
  }

  function TextValue(c: Candidate, a: Attribute): Option<string>
    requires IsText(a)
  {
    match a
    case Title => c.title
    case Genre => c.genre
    case Author => c.author
  }

  /** `value.length` as the length rule measures it; `nil` measures 0. */
  function Length(v: Option<string>): nat {
    match v
    case None => 0
    case Some(s) => |s|
  }

  // ---------------------------------------------------------------------------
  // The rules, each giving the errors it adds, in the order it adds them.

  function PresenceError(c: Candidate, a: Attribute): seq<Error>
    requires IsText(a)
  {
    if Blank(TextValue(c, a)) then [Error(a, CantBeBlank)] else []
  }

  /** `validates :title, :genre, :author, presence: true`. */
  function PresenceErrors(c: Candidate): (r: seq<Error>)
    ensures |r| <= 3
    ensures r == [] <==> Present(c.title) && Present(c.genre) && Present(c.author)
  {
    PresenceError(c, Title) + PresenceError(c, Genre) + PresenceError(c, Author)
  }

  function LengthError(c: Candidate, a: Attribute): seq<Error>
    requires IsText(a)
  {
    if Length(TextValue(c, a)) < MinimumLength then [Error(a, TooShort)] else []
  }

  /** `validates :title, :genre, :author, length: { minimum: 2 }`. */
  function LengthErrors(c: Candidate): (r: seq<Error>)
    ensures |r| <= 3
    ensures r == [] <==> Length(c.title) >= MinimumLength && Length(c.genre) >= MinimumLength
                         && Length(c.author) >= MinimumLength
  {
    LengthError(c, Title) + LengthError(c, Genre) + LengthError(c, Author)
  }

  /**
   * `validates :publication_year, comparison: { less_than_or_equal_to: year }`:
   * a missing value is reported as blank and not compared.
   */
  function ComparisonErrors(c: Candidate, currentYear: int): (r: seq<Error>)
    ensures |r| <= 1 && forall i :: 0 <= i < |r| ==> r[i].attribute == PublicationYear
    ensures r == [] <==> c.publicationYear.Some? && c.publicationYear.value <= currentYear
    ensures c.publicationYear.None? ==> r == [Error(PublicationYear, CantBeBlank)]
  {
    match c.publicationYear
    case None => [Error(PublicationYear, CantBeBlank)]
    case Some(y) => if y <= currentYear then [] else [Error(PublicationYear, MustNotExceed(currentYear))]
  }

  /** A stored row equal to the candidate on title, publication year and author. */
  predicate SameAsRow(b: Book, c: Candidate) {
    c.title == Some(b.title) && c.publicationYear == Some(b.publicationYear) && c.author == Some(b.author)
  }

  /** `Book.where(title:, publication_year:, author:).any?`. */
  predicate Taken(books: seq<Book>, c: Candidate)
    ensures Taken(books, c) ==> c.title.Some? && c.author.Some? && c.publicationYear.Some?
  {
    exists i :: 0 <= i < |books| && SameAsRow(books[i], c)
  }

  /** `validate :uniqueness`; a `nil` title interpolates as the empty string. */
  function UniquenessErrors(c: Candidate, books: seq<Book>): (r: seq<Error>)
    ensures |r| <= 1 && forall i :: 0 <= i < |r| ==> r[i].attribute == Uniqueness
    ensures r != [] <==> Taken(books, c)
  {
    if Taken(books, c) then [Error(Uniqueness, AlreadyRecommended(c.title.GetOr("")))] else []
  }

  /** `valid?`: every validator, in declaration order, none skipped. */
  function Validate(c: Candidate, books: seq<Book>, currentYear: int): (r: seq<Error>)
    ensures r == [] ==> Complete(c) && !Taken(books, c)
  {
    PresenceErrors(c) + LengthErrors(c) + ComparisonErrors(c, currentYear) + UniquenessErrors(c, books)
  }

  // ---------------------------------------------------------------------------
  // The report: `errors.messages`, the messages grouped by attribute.

  /** Attribute keys with their messages, keys in the order they were first added to. */
  type ErrorMessages = seq<(Attribute, seq<string>)>

  /** `messages[a]`: the messages under `a`, or none. */
  function Lookup(r: ErrorMessages, a: Attribute): seq<string> {
    if r == [] then [] else if r[0].0 == a then r[0].1 else Lookup(r[1..], a)
  }

  predicate HasKey(r: ErrorMessages, a: Attribute) {
    exists i :: 0 <= i < |r| && r[i].0 == a
  }

  /** No key twice, and no key without a message. */
  predicate WellFormed(r: ErrorMessages) {
    (forall i, j :: 0 <= i < j < |r| ==> r[i].0 != r[j].0)
    && (forall i :: 0 <= i < |r| ==> r[i].1 != [])
  }

  /** Filing one error: appended to its attribute's list, which is opened at the end if new. */
  function Add(r: ErrorMessages, e: Error): ErrorMessages {
    if r == [] then [(e.attribute, [e.message])]
    else if r[0].0 == e.attribute then [(r[0].0, r[0].1 + [e.message])] + r[1..]
    else [r[0]] + Add(r[1..], e)
  }

  /** The errors filed one after the other (`group_by(&:attribute)`). */
  function Group(errors: seq<Error>): (r: ErrorMessages)
    ensures r == [] <==> errors == []
  {
    if errors == [] then [] else Add(Group(errors[..|errors| - 1]), errors[|errors| - 1])
  }

  /** Reference: the messages filed under `a`, in the order they were added. */
  function MessagesFor(errors: seq<Error>, a: Attribute): seq<string> {
    if errors == [] then []
    else (if errors[0].attribute == a then [errors[0].message] else []) + MessagesFor(errors[1..], a)
  }

  /** A single error gives a one-entry report; Dafny sees this by unfolding `Group` and `Add`. */
  lemma GroupOne(e: Error)
    ensures Group([e]) == [(e.attribute, [e.message])]
  {
  }

  /** Some error was filed under `a`. */
  predicate Filed(errors: seq<Error>, a: Attribute) {
    exists i :: 0 <= i < |errors| && errors[i].attribute == a
  }

  /**
   * Reference for the order of the report's keys: the position of the first error
   * filed under `a`, or `|errors|` when there is none.
   */
  function FirstFiling(errors: seq<Error>, a: Attribute): (k: nat)
    ensures k <= |errors|
    ensures k < |errors| ==> errors[k].attribute == a
    ensures forall m :: 0 <= m < k ==> errors[m].attribute != a
  {
    if errors == [] then 0
    else if errors[0].attribute == a then 0
    else FirstFiling(errors[1..], a) + 1
  }

  /** The report a validation yields. */
  function Report(c: Candidate, books: seq<Book>, currentYear: int): (r: ErrorMessages)
    ensures r == [] <==> Validate(c, books, currentYear) == []
  {
    Group(Validate(c, books, currentYear))
  }

  // ---------------------------------------------------------------------------
  // The form object and its persist step.

  /** The values a valid candidate carries into the new row. */
  predicate Complete(c: Candidate) {
    c.title.Some? && c.genre.Some? && c.author.Some? && c.publicationYear.Some?
  }

  /** The row `Book.create` stores for a complete candidate under `id`. */
  function Row(c: Candidate, id: nat): Book
    requires Complete(c)
  {
    Book(id, c.title.value, c.author.value, c.genre.value, c.publicationYear.value)
  }

  class CreateBookForm {
    const title: Option<string>
    const genre: Option<string>
    const author: Option<string>
    const publicationYear: Option<int>
    var errors: seq<Error>

    /** `CreateBookForm.new(title:, genre:, author:, publication_year:)`. */
    constructor (title: Option<string>, genre: Option<string>, author: Option<string>, publicationYear: Option<int>)
      ensures this.title == title && this.genre == genre && this.author == author
      ensures this.publicationYear == publicationYear && errors == []
    {
      this.title, this.genre, this.author := title, genre, author;
      this.publicationYear := publicationYear;
      errors := [];
    }

    function Values(): Candidate {
      Candidate(title, genre, author, publicationYear)
    }

    /** `errors.messages`. */
    function Messages(): (r: ErrorMessages)
      reads this
    {
      Group(errors)
    }

    /**
     * `valid?`: clears the errors, then every validator appends its own in turn;
     * valid exactly when nothing was appended.
     */
    method IsValid(repo: Repository, currentYear: int) returns (ok: bool)
      modifies this
      ensures errors == Validate(Values(), repo.books, currentYear)
      ensures Messages() == Report(Values(), repo.books, currentYear)
      ensures ok <==> Messages() == []
    {
      var c := Values();
      ghost var p, l := PresenceErrors(c), LengthErrors(c);
      ghost var cmp, u := ComparisonErrors(c, currentYear), UniquenessErrors(c, repo.books);
      errors := [];
      errors := errors + PresenceErrors(c);
      errors := errors + LengthErrors(c);
      errors := errors + ComparisonErrors(c, currentYear);
      errors := errors + UniquenessErrors(c, repo.books);
      assert errors == p + l + cmp + u;
      ok := errors == [];
    }

    /**
     * `persist`: `false` (here `None`) and no write when validation fails;
     * otherwise the one row `Book.create` appends with the form's four values.
     */
    method Persist(repo: Repository, currentYear: int) returns (created: Option<Book>)
      requires repo.Valid()
      modifies this, repo
      ensures repo.Valid()
      ensures Messages() == Report(Values(), old(repo.books), currentYear)
      ensures created.None? <==> Messages() != []
      ensures created.None? ==> repo.books == old(repo.books) && repo.nextId == old(repo.nextId)
      ensures created.Some? ==> Complete(Values()) && created.value == Row(Values(), old(repo.nextId))
      ensures created.Some? ==> repo.books == old(repo.books) + [created.value] && repo.nextId == old(repo.nextId) + 1
      ensures created.Some? ==> Taken(repo.books, Values())
      ensures NoDuplicates(old(repo.books)) ==> NoDuplicates(repo.books)
    {
      var ok := IsValid(repo, currentYear);
      if !ok {
        return None;
      }
      var b := repo.Create(title.value, genre.value, author.value, publicationYear.value);
      created := Some(b);
      if NoDuplicates(old(repo.books)) {
        InsertKeepsNoDuplicates(Values(), old(repo.books), currentYear, b.id);
      }
      assert SameAsRow(repo.books[|repo.books| - 1], Values());
    }
  }

  /**
   * Two requests creating the same book, each through a fresh form: when the first
   * is stored, the second is refused with the uniqueness error alone, and the table
   * holds one such row.
   */
  method CreateTwice(repo: Repository, c: Candidate, currentYear: int) returns (first: Option<Book>, second: Option<Book>)
    requires repo.Valid()
    modifies repo
    ensures repo.Valid()
    ensures NoDuplicates(old(repo.books)) ==> NoDuplicates(repo.books)
    ensures first.Some? ==> second.None? && repo.books == old(repo.books) + [first.value]
    ensures first.Some? ==> (c.title.Some?
      && Report(c, repo.books, currentYear) == [(Uniqueness, [AlreadyRecommended(c.title.value)])])
  {
    var f1 := new CreateBookForm(c.title, c.genre, c.author, c.publicationYear);
    first := f1.Persist(repo, currentYear);
    var f2 := new CreateBookForm(c.title, c.genre, c.author, c.publicationYear);
    second := f2.Persist(repo, currentYear);
    if first.Some? {
      SecondAttemptRejected(c, old(repo.books), currentYear, first.value.id);
    }
  }

  // ---------------------------------------------------------------------------
  // The report records exactly the messages filed.

  lemma {:induction false} MessagesForAppend(x: seq<Error>, y: seq<Error>, a: Attribute)
    ensures MessagesFor(x + y, a) == MessagesFor(x, a) + MessagesFor(y, a)
  {
    if x != [] {
      MessagesForAppend(x[1..], y, a);
      var head := if x[0].attribute == a then [x[0].message] else [];
      assert (x + y)[0] == x[0] && (x + y)[1..] == x[1..] + y;
      assert MessagesFor(x + y, a) == head + MessagesFor(x[1..] + y, a);
      assert MessagesFor(x, a) == head + MessagesFor(x[1..], a);
    } else {
      assert x + y == y;
    }
  }

  lemma {:induction false} LookupAdd(r: ErrorMessages, e: Error, a: Attribute)
    ensures Lookup(Add(r, e), a) == Lookup(r, a) + (if e.attribute == a then [e.message] else [])
  {
    if r != [] && r[0].0 != e.attribute {
      LookupAdd(r[1..], e, a);
      assert ([r[0]] + Add(r[1..], e))[1..] == Add(r[1..], e);
    }
  }

  lemma HasKeyCons(h: (Attribute, seq<string>), t: ErrorMessages, k: Attribute)
    ensures HasKey([h] + t, k) <==> h.0 == k || HasKey(t, k)
  {
    if h.0 == k {
      assert ([h] + t)[0].0 == k;
    }
    if HasKey([h] + t, k) && h.0 != k {
      var i :| 0 <= i < |[h] + t| && ([h] + t)[i].0 == k;
      assert t[i - 1].0 == k;
    }
    if HasKey(t, k) {
      var i :| 0 <= i < |t| && t[i].0 == k;
      assert ([h] + t)[i + 1].0 == k;
    }
  }

  lemma {:induction false} AddWellFormed(r: ErrorMessages, e: Error)
    requires WellFormed(r)
    ensures WellFormed(Add(r, e))
    ensures forall k :: HasKey(Add(r, e), k) <==> HasKey(r, k) || k == e.attribute
  {
    if r == [] {
      assert Add(r, e)[0].0 == e.attribute;
    } else if r[0].0 == e.attribute {
      var r' := Add(r, e);
      assert forall i :: 0 <= i < |r| ==> r'[i].0 == r[i].0;
    } else {
      AddWellFormed(r[1..], e);
      var tail := Add(r[1..], e);
      assert Add(r, e) == [r[0]] + tail;
      assert r == [r[0]] + r[1..];
      forall k
        ensures HasKey(Add(r, e), k) <==> HasKey(r, k) || k == e.attribute
      {
        HasKeyCons(r[0], tail, k);
        HasKeyCons(r[0], r[1..], k);
      }
      forall j | 0 <= j < |tail|
        ensures tail[j].0 != r[0].0
      {
        assert HasKey(tail, tail[j].0);
      }
    }
  }

  /** Grouping keeps every message, under its attribute, in the order it was filed. */
  lemma {:induction false} GroupLookup(errors: seq<Error>, a: Attribute)
    ensures Lookup(Group(errors), a) == MessagesFor(errors, a)
  {
    if errors != [] {
      var init, last := errors[..|errors| - 1], errors[|errors| - 1];
      GroupLookup(init, a);
      LookupAdd(Group(init), last, a);
      assert errors == init + [last];
      MessagesForAppend(init, [last], a);
    }
  }

  /** Grouping lists each attribute once, only if something was filed under it. */
  lemma {:induction false} GroupWellFormed(errors: seq<Error>)
    ensures WellFormed(Group(errors))
    ensures forall k :: HasKey(Group(errors), k) <==> Filed(errors, k)
  {
    if errors != [] {
      var init, last := errors[..|errors| - 1], errors[|errors| - 1];
      GroupWellFormed(init);
      AddWellFormed(Group(init), last);
      forall k
        ensures Filed(errors, k) <==> Filed(init, k) || k == last.attribute
      {
        if Filed(init, k) {
          var i :| 0 <= i < |init| && init[i].attribute == k;
          assert errors[i].attribute == k;
        }
        if Filed(errors, k) && k != last.attribute {
          var i :| 0 <= i < |errors| && errors[i].attribute == k;
          assert init[i].attribute == k;
        }
      }
    }
  }

  /** In a well-formed report, an attribute is a key exactly when it has messages. */
  lemma {:induction false} KeyIffMessages(r: ErrorMessages, a: Attribute)
    requires WellFormed(r)
    ensures HasKey(r, a) <==> Lookup(r, a) != []
  {
    if r != [] && r[0].0 != a {
      KeyIffMessages(r[1..], a);
      if HasKey(r, a) {
        var i :| 0 <= i < |r| && r[i].0 == a;
        assert r[1..][i - 1].0 == a;
      }
      if HasKey(r[1..], a) {
        var i :| 0 <= i < |r[1..]| && r[1..][i].0 == a;
        assert r[i + 1].0 == a;
      }
    }
  }

  /** Filing an error keeps the keys in place, and opens a new key only at the end. */
  lemma {:induction false} AddKeys(r: ErrorMessages, e: Error)
    ensures HasKey(r, e.attribute) ==> |Add(r, e)| == |r| && forall i :: 0 <= i < |r| ==> Add(r, e)[i].0 == r[i].0
    ensures !HasKey(r, e.attribute) ==> Add(r, e) == r + [(e.attribute, [e.message])]
  {
    if r != [] && r[0].0 != e.attribute {
      AddKeys(r[1..], e);
      HasKeyCons(r[0], r[1..], e.attribute);
      assert r == [r[0]] + r[1..];
    }
  }

  /** Adding one error moves no attribute's first filing, except to give a new one its first. */
  lemma FirstFilingAppend(init: seq<Error>, e: Error, a: Attribute)
    ensures FirstFiling(init + [e], a)
         == if FirstFiling(init, a) < |init| then FirstFiling(init, a)
            else if e.attribute == a then |init| else |init| + 1
  {
    var errors := init + [e];
    var k, k' := FirstFiling(init, a), FirstFiling(errors, a);
    if k < |init| {
      assert errors[k] == init[k];
    } else {
      assert errors[|init|] == e;
    }
  }

  /** Something was filed under `a` exactly when its first filing is a position of the list. */
  lemma FiledBefore(errors: seq<Error>, a: Attribute)
    ensures Filed(errors, a) <==> FirstFiling(errors, a) < |errors|
  {
  }

  /**
   * The report lists its keys in the order their attributes first got an error
   * (`group_by` keeps the order of first occurrence).
   */
  lemma {:induction false} GroupKeyOrder(errors: seq<Error>)
    ensures forall i, j :: 0 <= i < j < |Group(errors)|
              ==> FirstFiling(errors, Group(errors)[i].0) < FirstFiling(errors, Group(errors)[j].0)
  {
    if errors != [] {
      var init, last := errors[..|errors| - 1], errors[|errors| - 1];
      assert errors == init + [last];
      var r0, r := Group(init), Group(errors);
      assert r == Add(r0, last);
      GroupKeyOrder(init);
      GroupWellFormed(init);
      AddKeys(r0, last);
      forall i | 0 <= i < |r0|
        ensures FirstFiling(errors, r0[i].0) == FirstFiling(init, r0[i].0) < |init|
      {
        assert HasKey(r0, r0[i].0);
        FiledBefore(init, r0[i].0);
        FirstFilingAppend(init, last, r0[i].0);
      }
      if !HasKey(r0, last.attribute) {
        FiledBefore(init, last.attribute);
        FirstFilingAppend(init, last, last.attribute);
        assert FirstFiling(errors, last.attribute) == |init|;
      }
    }
  }

  // ---------------------------------------------------------------------------
  // What each attribute's entry holds: every rule runs, and each attribute's
  // messages come from its own rules only.

  /** The messages the rules on `a` produce, presence before length. */
  function FieldMessages(c: Candidate, books: seq<Book>, currentYear: int, a: Attribute): seq<string> {
    match a
    case Title | Genre | Author =>
      (if Blank(TextValue(c, a)) then [CantBeBlank] else [])
      + (if Length(TextValue(c, a)) < MinimumLength then [TooShort] else [])
    case PublicationYear =>
      if c.publicationYear.None? then [CantBeBlank]
      else if c.publicationYear.value <= currentYear then []
      else [MustNotExceed(currentYear)]
    case Uniqueness =>
      if Taken(books, c) then [AlreadyRecommended(c.title.GetOr(""))] else []
  }

  /** A rule on `a` fails. */
  predicate Violates(c: Candidate, books: seq<Book>, currentYear: int, a: Attribute) {
    match a
    case Title | Genre | Author => Blank(TextValue(c, a)) || Length(TextValue(c, a)) < MinimumLength
    case PublicationYear => c.publicationYear.None? || c.publicationYear.value > currentYear
    case Uniqueness => Taken(books, c)
  }

  /** What a rule that files at most one error contributes under `a`; follows by unfolding `MessagesFor`. */
  lemma MessagesForRule(e: seq<Error>, a: Attribute, b: Attribute, m: string)
    requires e == [] || e == [Error(b, m)]
    ensures MessagesFor(e, a) == if e != [] && a == b then [m] else []
  {
  }

  lemma PresenceMessages(c: Candidate, a: Attribute)
    ensures MessagesFor(PresenceErrors(c), a) == if IsText(a) && Blank(TextValue(c, a)) then [CantBeBlank] else []
  {
    var p1, p2, p3 := PresenceError(c, Title), PresenceError(c, Genre), PresenceError(c, Author);
    MessagesForAppend(p1 + p2, p3, a);
    MessagesForAppend(p1, p2, a);
    assert MessagesFor(PresenceErrors(c), a) == MessagesFor(p1, a) + MessagesFor(p2, a) + MessagesFor(p3, a);
    MessagesForRule(p1, a, Title, CantBeBlank);
    MessagesForRule(p2, a, Genre, CantBeBlank);
    MessagesForRule(p3, a, Author, CantBeBlank);
  }

  lemma LengthMessages(c: Candidate, a: Attribute)
    ensures MessagesFor(LengthErrors(c), a)
         == if IsText(a) && Length(TextValue(c, a)) < MinimumLength then [TooShort] else []
  {
    var l1, l2, l3 := LengthError(c, Title), LengthError(c, Genre), LengthError(c, Author);
    MessagesForAppend(l1 + l2, l3, a);
    MessagesForAppend(l1, l2, a);
    assert MessagesFor(LengthErrors(c), a) == MessagesFor(l1, a) + MessagesFor(l2, a) + MessagesFor(l3, a);
    MessagesForRule(l1, a, Title, TooShort);
    MessagesForRule(l2, a, Genre, TooShort);
    MessagesForRule(l3, a, Author, TooShort);
  }

  /** Follows from the contract of `ComparisonErrors`. */
  lemma ComparisonMessages(c: Candidate, currentYear: int, a: Attribute)
    ensures MessagesFor(ComparisonErrors(c, currentYear), a)
         == if a == PublicationYear then FieldMessages(c, [], currentYear, a) else []
  {
  }

  /** Follows from the contract of `UniquenessErrors`. */
  lemma UniquenessMessages(c: Candidate, books: seq<Book>, a: Attribute)
    ensures MessagesFor(UniquenessErrors(c, books), a)
         == if a == Uniqueness && Taken(books, c) then [AlreadyRecommended(c.title.GetOr(""))] else []
  {
  }

  lemma ValidateMessages(c: Candidate, books: seq<Book>, currentYear: int, a: Attribute)
    ensures MessagesFor(Validate(c, books, currentYear), a)
         == MessagesFor(PresenceErrors(c), a) + MessagesFor(LengthErrors(c), a)
          + MessagesFor(ComparisonErrors(c, currentYear), a) + MessagesFor(UniquenessErrors(c, books), a)
  {
    var p, l := PresenceErrors(c), LengthErrors(c);
    var cmp, u := ComparisonErrors(c, currentYear), UniquenessErrors(c, books);
    MessagesForAppend(p + l + cmp, u, a);
    MessagesForAppend(p + l, cmp, a);
    MessagesForAppend(p, l, a);
  }

  /** The four rules' contributions under `a` add up to `a`'s own messages. */
  lemma FieldMessagesFromRules(c: Candidate, books: seq<Book>, currentYear: int, a: Attribute,
                               mp: seq<string>, ml: seq<string>, mc: seq<string>, mu: seq<string>)
    requires mp == if IsText(a) && Blank(TextValue(c, a)) then [CantBeBlank] else []
    requires ml == if IsText(a) && Length(TextValue(c, a)) < MinimumLength then [TooShort] else []
    requires mc == if a == PublicationYear then FieldMessages(c, [], currentYear, a) else []
    requires mu == if a == Uniqueness && Taken(books, c) then [AlreadyRecommended(c.title.GetOr(""))] else []
    ensures mp + ml + mc + mu == FieldMessages(c, books, currentYear, a)
  {
  }

  /** The report under `a` is exactly what `a`'s own rules say. */
  lemma ReportMessages(c: Candidate, books: seq<Book>, currentYear: int, a: Attribute)
    ensures Lookup(Report(c, books, currentYear), a) == FieldMessages(c, books, currentYear, a)
  {
    var errors := Validate(c, books, currentYear);
    assert Report(c, books, currentYear) == Group(errors);
    GroupLookup(errors, a);
    ValidateMessages(c, books, currentYear, a);
    PresenceMessages(c, a);
    LengthMessages(c, a);
    ComparisonMessages(c, currentYear, a);
    UniquenessMessages(c, books, a);
    FieldMessagesFromRules(c, books, currentYear, a,
      MessagesFor(PresenceErrors(c), a), MessagesFor(LengthErrors(c), a),
      MessagesFor(ComparisonErrors(c, currentYear), a), MessagesFor(UniquenessErrors(c, books), a));
  }

  /**
   * No short-circuit: the report has an entry for every attribute whose rule fails,
   * however many fail, and for no other.
   */
  lemma ReportKeys(c: Candidate, books: seq<Book>, currentYear: int, a: Attribute)
    ensures HasKey(Report(c, books, currentYear), a) <==> Violates(c, books, currentYear, a)
  {
    GroupWellFormed(Validate(c, books, currentYear));
    KeyIffMessages(Report(c, books, currentYear), a);
    ReportMessages(c, books, currentYear, a);
  }

  /** The report is empty exactly when no rule fails. */
  lemma ValidIffNoViolation(c: Candidate, books: seq<Book>, currentYear: int)
    ensures Report(c, books, currentYear) == [] <==> forall a :: !Violates(c, books, currentYear, a)
  {
    var r := Report(c, books, currentYear);
    forall a
      ensures HasKey(r, a) <==> Violates(c, books, currentYear, a)
    {
      ReportKeys(c, books, currentYear, a);
    }
    if r != [] {
      assert HasKey(r, r[0].0);
    }
  }

  /** An empty (or missing) title, genre or author gets both messages, blank first. */
  lemma EmptyFieldMessages(c: Candidate, books: seq<Book>, currentYear: int, a: Attribute)
    requires IsText(a) && (TextValue(c, a) == Some("") || TextValue(c, a) == None)
    ensures Lookup(Report(c, books, currentYear), a) == ["can't be blank", "is too short (minimum is 2 characters)"]
  {
    ReportMessages(c, books, currentYear, a);
  }

  /** A one-character value that is not white space is too short but not blank. */
  lemma OneCharFieldMessages(c: Candidate, books: seq<Book>, currentYear: int, a: Attribute, ch: char)
    requires IsText(a) && TextValue(c, a) == Some([ch]) && !IsSpace(ch)
    ensures Lookup(Report(c, books, currentYear), a) == ["is too short (minimum is 2 characters)"]
  {
    ReportMessages(c, books, currentYear, a);
    assert !BlankString([ch]) by {
      assert [ch][0] == ch;
    }
  }

  /** A year after the current one gets the one range message, naming the current year. */
  lemma LateYearMessage(c: Candidate, books: seq<Book>, currentYear: int)
    requires c.publicationYear.Some? && c.publicationYear.value > currentYear
    ensures Lookup(Report(c, books, currentYear), PublicationYear)
         == ["must be less than or equal to " + IntToString(currentYear)]
  {
    ReportMessages(c, books, currentYear, PublicationYear);
  }

  /** A missing year is blank only; it is never compared. */
  lemma MissingYearMessage(c: Candidate, books: seq<Book>, currentYear: int)
    requires c.publicationYear.None?
    ensures Lookup(Report(c, books, currentYear), PublicationYear) == ["can't be blank"]
  {
    ReportMessages(c, books, currentYear, PublicationYear);
  }

  /**
   * A stored row with the same title, author and year (whatever its genre) files
   * the uniqueness message naming the title; without one, nothing is filed there.
   */
  lemma DuplicateMessage(c: Candidate, books: seq<Book>, currentYear: int)
    ensures Taken(books, c) ==>
      Lookup(Report(c, books, currentYear), Uniqueness) == [c.title.value + " already been recomended before."]
    ensures !Taken(books, c) ==> Lookup(Report(c, books, currentYear), Uniqueness) == []
  {
    ReportMessages(c, books, currentYear, Uniqueness);
  }

  /** Storing a candidate that passed validation keeps the table free of duplicates. */
  lemma InsertKeepsNoDuplicates(c: Candidate, books: seq<Book>, currentYear: int, id: nat)
    requires NoDuplicates(books)
    requires Validate(c, books, currentYear) == []
    ensures Complete(c) && NoDuplicates(books + [Row(c, id)])
  {
    var all := books + [Row(c, id)];
    forall i, j | 0 <= i < j < |all|
      ensures !SameRecommendation(all[i], all[j])
    {
      if j == |books| {
        assert !SameAsRow(books[i], c);
      }
    }
  }

  /**
   * Right after a candidate is stored, the same candidate is refused, and with the
   * uniqueness message alone: its other rules passed before and do not depend on the table.
   */
  lemma SecondAttemptRejected(c: Candidate, books: seq<Book>, currentYear: int, id: nat)
    requires Validate(c, books, currentYear) == []
    ensures Complete(c)
    ensures Report(c, books + [Row(c, id)], currentYear) == [(Uniqueness, [AlreadyRecommended(c.title.value)])]
  {
    var after := books + [Row(c, id)];
    assert SameAsRow(after[|books|], c);
    var e := Error(Uniqueness, AlreadyRecommended(c.title.value));
    assert Validate(c, after, currentYear) == [e] by {
      assert PresenceErrors(c) == [] && LengthErrors(c) == [] && ComparisonErrors(c, currentYear) == [];
    }
    GroupOne(e);
  }

  // ---------------------------------------------------------------------------
  // Concrete reports.

  /** A title too short and a blank genre: the genre key comes first, as presence runs before length. */
  lemma KeysFollowFilingOrder()
    ensures Report(Candidate(Some("X"), Some(""), Some("ab"), Some(2000)), [], 2023)
         == [(Genre, [CantBeBlank, TooShort]), (Title, [TooShort])]
  {
    var c := Candidate(Some("X"), Some(""), Some("ab"), Some(2000));
    assert !BlankString("X") by { assert "X"[0] == 'X'; }
    assert !BlankString("ab") by { assert "ab"[0] == 'a'; }
    assert !Taken([], c);
    var e1, e2, e3 := Error(Genre, CantBeBlank), Error(Title, TooShort), Error(Genre, TooShort);
    assert Validate(c, [], 2023) == [e1, e2, e3];
    GroupOne(e1);
    var g1 := [(Genre, [CantBeBlank])];
    assert [e1, e2][..1] == [e1];
    assert Group([e1, e2]) == Add(g1, e2);
    assert Add(g1, e2) == [g1[0]] + Add([], e2);
    var g2 := [(Genre, [CantBeBlank]), (Title, [TooShort])];
    assert [e1, e2, e3][..2] == [e1, e2];
    assert Group([e1, e2, e3]) == Add(g2, e3);
    assert Add(g2, e3) == [(Genre, [CantBeBlank] + [TooShort])] + g2[1..];
    assert [CantBeBlank] + [TooShort] == [CantBeBlank, TooShort];
    assert Report(c, [], 2023) == Group([e1, e2, e3]);
  }

  /** The default request values with next year's date: only the range message. */
  lemma NextYearScenario()
    ensures Report(Candidate(Some("MyString"), Some("MyString"), Some("MyString"), Some(2024)), [], 2023)
         == [(PublicationYear, ["must be less than or equal to 2023"])]
  {
    var c := Candidate(Some("MyString"), Some("MyString"), Some("MyString"), Some(2024));
    assert !BlankString("MyString") by { assert "MyString"[0] == 'M'; }
    assert !Taken([], c);
    assert NatToString(2023) == "2023";
    var e := Error(PublicationYear, MustNotExceed(2023));
    assert Validate(c, [], 2023) == [e];
    GroupOne(e);
    assert MustNotExceed(2023) == "must be less than or equal to 2023";
    assert Report(c, [], 2023) == Group([e]);
  }
}
