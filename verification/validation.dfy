/**
 * The field checks `createBook` runs before anything is stored. They run in a fixed
 * order and the first one that fails decides the single error the caller sees.
 */
module Validation {
  import opened Wrappers
  import opened Digits
  import opened Books

  datatype ValidationError =
    | InvalidTitle
    | InvalidAuthor
    | MissingDate
    | InvalidIsbn
    | InvalidGenre
    | InvalidRating

  const MaxTitleLength: nat := 100
  const MaxAuthorLength: nat := 50
  const IsbnLength: nat := 13
  const MinRating: int := 1
  const MaxRating: int := 5

  /** The dropdown options, compared by exact, case-sensitive string equality. */
  const Genres: seq<string> := ["Fiction", "Non-Fiction", "Mystery", "Fantasy", "Romance", "Sci-Fi", "Others"]

  /**
   * Whole-string match of the regular expression `\d+`: a non-empty run of ASCII
   * digits, scanned from the left.
   */
  function MatchesDigitRun(s: string): (r: bool)
    ensures r <==> |s| >= 1 && AllDigits(s)
  {
    if |s| == 0 then false
    else IsDigit(s[0]) && (|s| == 1 || MatchesDigitRun(s[1..]))
  }

  predicate TitleOk(title: Option<string>) {
    title.Some? && |title.value| != 0 && |title.value| <= MaxTitleLength
  }

  predicate AuthorOk(author: Option<string>) {
    author.Some? && |author.value| != 0 && |author.value| <= MaxAuthorLength
  }

  predicate DateOk(date: Option<Date>) {
    date.Some?
  }

  predicate IsbnOk(isbn: Option<string>) {
    isbn.Some? && |isbn.value| == IsbnLength && MatchesDigitRun(isbn.value)
  }

  predicate GenreOk(genre: Option<string>) {
    genre.Some? && genre.value in Genres
  }

  predicate RatingOk(rating: int) {
    MinRating <= rating <= MaxRating
  }

  /** The creation checks, in the order `createBook` performs them. */
  function Validate(d: BookDraft): Outcome<ValidationError> {
    if !TitleOk(d.title) then Fail(InvalidTitle)
    else if !AuthorOk(d.author) then Fail(InvalidAuthor)
    else if !DateOk(d.publicationDate) then Fail(MissingDate)
    else if !IsbnOk(d.isbn) then Fail(InvalidIsbn)
    else if !GenreOk(d.genre) then Fail(InvalidGenre)
    else if !RatingOk(d.rating) then Fail(InvalidRating)
    else Pass
  }

  // An independent, declarative statement of the same rules: a list of rules in
  // check order and the error each one reports.

  datatype Rule = TitleRule | AuthorRule | DateRule | IsbnRule | GenreRule | RatingRule

  const CheckOrder: seq<Rule> := [TitleRule, AuthorRule, DateRule, IsbnRule, GenreRule, RatingRule]

  function ErrorOf(rule: Rule): ValidationError {
    match rule
    case TitleRule => InvalidTitle
    case AuthorRule => InvalidAuthor
    case DateRule => MissingDate
    case IsbnRule => InvalidIsbn
    case GenreRule => InvalidGenre
    case RatingRule => InvalidRating
  }

  predicate Satisfies(d: BookDraft, rule: Rule) {
    match rule
    case TitleRule => TitleOk(d.title)
    case AuthorRule => AuthorOk(d.author)
    case DateRule => DateOk(d.publicationDate)
    case IsbnRule => IsbnOk(d.isbn)
    case GenreRule => GenreOk(d.genre)
    case RatingRule => RatingOk(d.rating)
  }

  /** The reference reading of the rules: walk the list and report the first rule that fails. */
  function FirstFailure(rules: seq<Rule>, d: BookDraft): Outcome<ValidationError> {
    if |rules| == 0 then Pass
    else if !Satisfies(d, rules[0]) then Fail(ErrorOf(rules[0]))
    else FirstFailure(rules[1..], d)
  }

  /** Rule `i` of `rules` is the first one that `d` violates. */
  predicate IsFirstViolation(rules: seq<Rule>, d: BookDraft, i: int) {
    && 0 <= i < |rules|
    && !Satisfies(d, rules[i])
    && forall j :: 0 <= j < i ==> Satisfies(d, rules[j])
  }

  lemma {:induction false} FirstFailureReportsFirstViolation(rules: seq<Rule>, d: BookDraft, i: int)
    requires IsFirstViolation(rules, d, i)
    ensures FirstFailure(rules, d) == Fail(ErrorOf(rules[i]))
  {
    if i > 0 {
      assert Satisfies(d, rules[0]);
      assert IsFirstViolation(rules[1..], d, i - 1) by {
        forall j | 0 <= j < i - 1
          ensures Satisfies(d, rules[1..][j])
        {
          assert rules[1..][j] == rules[j + 1];
        }
      }
      FirstFailureReportsFirstViolation(rules[1..], d, i - 1);
    }
  }

  lemma {:induction false} FirstFailureHasWitness(rules: seq<Rule>, d: BookDraft)
    requires FirstFailure(rules, d).Fail?
    ensures exists i :: IsFirstViolation(rules, d, i) && ErrorOf(rules[i]) == FirstFailure(rules, d).error
  {
    if Satisfies(d, rules[0]) {
      FirstFailureHasWitness(rules[1..], d);
      var i :| IsFirstViolation(rules[1..], d, i) && ErrorOf(rules[1..][i]) == FirstFailure(rules, d).error;
      assert IsFirstViolation(rules, d, i + 1);
    } else {
      assert IsFirstViolation(rules, d, 0);
    }
  }

  lemma {:induction false} FirstFailurePassesIffAllHold(rules: seq<Rule>, d: BookDraft)
    ensures FirstFailure(rules, d) == Pass <==> forall i :: 0 <= i < |rules| ==> Satisfies(d, rules[i])
  {
    if |rules| > 0 {
      FirstFailurePassesIffAllHold(rules[1..], d);
      if Satisfies(d, rules[0]) {
        assert forall i :: 1 <= i < |rules| ==> rules[i] == rules[1..][i - 1];
      }
    }
  }

  /** The chain of checks in `Validate` is the rule list read in check order. */
  lemma ValidateFollowsCheckOrder(d: BookDraft)
    ensures Validate(d) == FirstFailure(CheckOrder, d)
  {
    var l1 := [AuthorRule, DateRule, IsbnRule, GenreRule, RatingRule];
    var l2 := [DateRule, IsbnRule, GenreRule, RatingRule];
    var l3 := [IsbnRule, GenreRule, RatingRule];
    var l4 := [GenreRule, RatingRule];
    var l5 := [RatingRule];
    assert CheckOrder[1..] == l1 && l1[1..] == l2 && l2[1..] == l3;
    assert l3[1..] == l4 && l4[1..] == l5 && l5[1..] == [];
    assert FirstFailure(l5, d) == if !RatingOk(d.rating) then Fail(InvalidRating) else Pass;
    assert FirstFailure(l4, d) == if !GenreOk(d.genre) then Fail(InvalidGenre) else FirstFailure(l5, d);
    assert FirstFailure(l3, d) == if !IsbnOk(d.isbn) then Fail(InvalidIsbn) else FirstFailure(l4, d);
    assert FirstFailure(l2, d) == if !DateOk(d.publicationDate) then Fail(MissingDate) else FirstFailure(l3, d);
    assert FirstFailure(l1, d) == if !AuthorOk(d.author) then Fail(InvalidAuthor) else FirstFailure(l2, d);
  }

  /** Validation passes exactly when the draft satisfies every rule. */
  lemma ValidatePassesIffAllRulesHold(d: BookDraft)
    ensures Validate(d) == Pass <==> forall i :: 0 <= i < |CheckOrder| ==> Satisfies(d, CheckOrder[i])
  {
    ValidateFollowsCheckOrder(d);
    FirstFailurePassesIffAllHold(CheckOrder, d);
  }

  /** Validation fails with `e` exactly when `e` is the error of the first violated rule. */
  lemma ValidateReportsFirstViolation(d: BookDraft, e: ValidationError)
    ensures Validate(d) == Fail(e) <==> exists i :: IsFirstViolation(CheckOrder, d, i) && ErrorOf(CheckOrder[i]) == e
  {
    ValidateFollowsCheckOrder(d);
    if Validate(d) == Fail(e) {
      FirstFailureHasWitness(CheckOrder, d);
    }
    if exists i :: IsFirstViolation(CheckOrder, d, i) && ErrorOf(CheckOrder[i]) == e {
      var i :| IsFirstViolation(CheckOrder, d, i) && ErrorOf(CheckOrder[i]) == e;
      FirstFailureReportsFirstViolation(CheckOrder, d, i);
    }
  }

  /** A draft that breaks several rules is reported only under the earliest one. */
  lemma OnlyEarliestViolationReported(d: BookDraft, i: int, j: int)
    requires 0 <= i < j < |CheckOrder|
    requires !Satisfies(d, CheckOrder[i]) && !Satisfies(d, CheckOrder[j])
    ensures Validate(d) != Fail(ErrorOf(CheckOrder[j]))
  {
    ValidateFollowsCheckOrder(d);
    var k :| 0 <= k <= i && IsFirstViolation(CheckOrder, d, k) by {
      FirstFailurePassesIffAllHold(CheckOrder, d);
      FirstFailureHasWitness(CheckOrder, d);
    }
    FirstFailureReportsFirstViolation(CheckOrder, d, k);
  }

  /** A draft that breaks exactly one rule is reported under that rule. */
  lemma SingleViolationReported(d: BookDraft, i: int)
    requires 0 <= i < |CheckOrder| && !Satisfies(d, CheckOrder[i])
    requires forall j :: 0 <= j < |CheckOrder| && j != i ==> Satisfies(d, CheckOrder[j])
    ensures Validate(d) == Fail(ErrorOf(CheckOrder[i]))
  {
    ValidateFollowsCheckOrder(d);
    FirstFailureReportsFirstViolation(CheckOrder, d, i);
  }
  /** A draft that passes has every field present, so a complete book can be assembled from it. */
  lemma PassingDraftIsComplete(d: BookDraft)
    requires Validate(d) == Pass
    ensures d.title.Some? && d.author.Some? && d.publicationDate.Some? && d.isbn.Some? && d.genre.Some?
    ensures 1 <= d.rating <= 5
  {
  }

  /** The ISBN is accepted exactly when present, 13 characters long and made of ASCII digits only. */
  lemma IsbnAcceptedIff(isbn: Option<string>)
    ensures IsbnOk(isbn) <==> isbn.Some? && |isbn.value| == 13 && forall i :: 0 <= i < |isbn.value| ==> '0' <= isbn.value[i] <= '9'
  {
  }

  /**
   * Title, author and rating are accepted exactly on their stated ranges, and validation
   * reports each of their errors exactly when that range is missed and every earlier
   * check passed.
   */
  lemma RangesAcceptedIff(d: BookDraft)
    ensures TitleOk(d.title) <==> d.title.Some? && 1 <= |d.title.value| <= 100
    ensures AuthorOk(d.author) <==> d.author.Some? && 1 <= |d.author.value| <= 50
    ensures RatingOk(d.rating) <==> 1 <= d.rating <= 5
    ensures Validate(d) == Fail(InvalidTitle) <==> !(d.title.Some? && 1 <= |d.title.value| <= 100)
    ensures Validate(d) == Fail(InvalidAuthor) <==>
      (d.title.Some? && 1 <= |d.title.value| <= 100) && !(d.author.Some? && 1 <= |d.author.value| <= 50)
    ensures Validate(d) == Fail(InvalidRating) <==>
      TitleOk(d.title) && AuthorOk(d.author) && DateOk(d.publicationDate) && IsbnOk(d.isbn) && GenreOk(d.genre)
      && !(1 <= d.rating <= 5)
  {
  }

  /** The genre is accepted exactly when it is one of the seven listed names, spelled exactly. */
  lemma GenreAcceptedIff(genre: Option<string>)
    ensures GenreOk(genre) <==>
      || genre == Some("Fiction") || genre == Some("Non-Fiction") || genre == Some("Mystery")
      || genre == Some("Fantasy") || genre == Some("Romance") || genre == Some("Sci-Fi")
      || genre == Some("Others")
  {
  }

  /** The genre comparison does not fold case. */
  lemma GenreIsCaseSensitive()
    ensures !GenreOk(Some("fiction")) && !GenreOk(Some("Sci-fi")) && !GenreOk(Some("OTHERS"))
    ensures GenreOk(Some("Sci-Fi"))
  {
  }

  const Dune: BookDraft := BookDraft(
    Some("Dune"), Some("Herbert"), Some("1234567890123"), Some("Sci-Fi"), 5, Some(Date(1965, 1, 1)))

  lemma DuneIsbnIsDigits()
    ensures IsbnOk(Dune.isbn)
  {
    var isbn := "1234567890123";
    assert AllDigits(isbn) by {
      forall i | 0 <= i < |isbn|
        ensures IsDigit(isbn[i])
      {
      }
    }
  }

  lemma DuneGenreIsListed()
    ensures GenreOk(Dune.genre)
  {
    assert Dune.genre.value == Genres[5];
  }

  /** A complete, well-formed draft passes validation. */
  lemma DunePasses()
    ensures Validate(Dune) == Pass
  {
    DuneIsbnIsDigits();
    DuneGenreIsListed();
  }

  /** A five-digit ISBN is reported as an ISBN error. */
  lemma ShortIsbnRejected()
    ensures Validate(Dune.(isbn := Some("12345"))) == Fail(InvalidIsbn)
  {
  }

  /** A rating of six is reported as a rating error once every earlier check passes. */
  lemma RatingSixRejected()
    ensures Validate(Dune.(rating := 6)) == Fail(InvalidRating)
  {
    DunePasses();
  }
}
