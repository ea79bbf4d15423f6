/**
 * The book service: creation (validation, sequence-id assignment, save), deletion,
 * listing, lookup and photo attachment over a keyed document store.
 *
 * The process-wide counter of the Java service is explicit state here, threaded through
 * every operation beside the store's contents. Whatever the store, the filesystem or
 * the random-number generator decide is a parameter: the key the store assigns on
 * insert, whether a save, delete or file write succeeds, and the random token that
 * prefixes an uploaded file's name.
 */
module BookService {
  import opened Wrappers
  import opened Books
  import opened Validation
  import opened UniqueIds
  import opened IdGenerator

  datatype ServiceError =
    | ValidationFailed(reason: ValidationError)
    | NotFound(id: string)
    | PersistenceFailed
    | DeletionFailed(id: string)
    | UploadFailed

  /** The store's contents, keyed by store-assigned id, and the next sequence number to try. */
  datatype Service = Service(books: map<string, Book>, counter: nat)

  /** The new state of an operation together with what it returns to the caller. */
  datatype Step<+T> = Step(state: Service, result: T)

  const InitialCounter: nat := 1

  /** A freshly started process over an empty store. */
  const Initial: Service := Service(map[], InitialCounter)

  /** The uniqueIds the store holds: what `existsByUniqueId` answers `true` for. */
  function TakenIds(books: map<string, Book>): set<string> {
    set k | k in books :: books[k].uniqueId
  }

  /** The draft a stored book would have been created from. */
  function DraftOf(b: Book): BookDraft {
    BookDraft(Some(b.title), Some(b.author), Some(b.isbn), Some(b.genre), b.rating, Some(b.publicationDate))
  }

  /**
   * What holds of the store between operations: each book sits under its own id,
   * satisfies every creation rule, and no two books share a uniqueId.
   */
  predicate Valid(s: Service) {
    && s.counter >= InitialCounter
    && (forall k :: k in s.books ==> s.books[k].id == k && Validate(DraftOf(s.books[k])) == Pass)
    && (forall k1, k2 :: k1 in s.books && k2 in s.books && k1 != k2 ==> s.books[k1].uniqueId != s.books[k2].uniqueId)
  }

  lemma InitialValid()
    ensures Valid(Initial) && |Initial.books| == 0
  {
  }

  /** The record `createBook` assembles from a passing draft: no photo yet. */
  function NewBook(d: BookDraft, key: string, uniqueId: string): (b: Book)
    requires d.title.Some? && d.author.Some? && d.publicationDate.Some? && d.isbn.Some? && d.genre.Some?
    ensures DraftOf(b) == d && b.id == key && b.uniqueId == uniqueId && b.photoUrl == None
  {
    Book(key, uniqueId, d.title.value, d.author.value, d.isbn.value, d.genre.value,
         d.rating, d.publicationDate.value, None)
  }

  /**
   * Saving a book that passes every rule, under its own id, with a uniqueId the store
   * does not hold yet, keeps the store invariant, whether or not the key was in use.
   */
  lemma SavePreservesValid(s: Service, book: Book, counter: nat)
    requires Valid(s) && counter >= s.counter
    requires Validate(DraftOf(book)) == Pass
    requires book.uniqueId !in TakenIds(s.books)
    ensures Valid(Service(s.books[book.id := book], counter))
  {
    var books := s.books[book.id := book];
    forall k1, k2 | k1 in books && k2 in books && k1 != k2
      ensures books[k1].uniqueId != books[k2].uniqueId
    {
      if k1 == book.id {
        assert s.books[k2].uniqueId in TakenIds(s.books);
      } else if k2 == book.id {
        assert s.books[k1].uniqueId in TakenIds(s.books);
      }
    }
  }

  /**
   * Creates a book: validate, assign the next free sequence id, then save under the
   * key the store assigns. Validation happens entirely before the counter moves; a
   * failed save happens after it, so the counter stays advanced.
   */
  method CreateBook(s: Service, d: BookDraft, key: string, saveOk: bool) returns (s': Service, r: Result<Book, ServiceError>)
    ensures Validate(d).Fail? ==> s' == s && r == Failure(ValidationFailed(Validate(d).error))
    ensures Validate(d) == Pass ==> s.counter < s'.counter && FormatId(s'.counter - 1) !in TakenIds(s.books)
    ensures Validate(d) == Pass ==> forall n :: s.counter <= n < s'.counter - 1 ==> FormatId(n) in TakenIds(s.books)
    ensures Validate(d) == Pass && !saveOk ==> s'.books == s.books && r == Failure(PersistenceFailed)
    ensures r.Success? <==> Validate(d) == Pass && saveOk
    ensures r.Success? ==>
      && DraftOf(r.value) == d
      && r.value.id == key
      && r.value.uniqueId == FormatId(s'.counter - 1)
      && r.value.uniqueId !in TakenIds(s.books)
      && r.value.photoUrl == None
      && s'.books == s.books[key := r.value]
    ensures r.Success? && key !in s.books ==>
      && s'.books.Keys == s.books.Keys + {key}
      && |s'.books| == |s.books| + 1
      && forall k :: k in s.books ==> s'.books[k] == s.books[k]
    ensures Valid(s) ==> Valid(s')
  {
    var check := Validate(d);
    if check.Fail? {
      return s, Failure(ValidationFailed(check.error));
    }
    PassingDraftIsComplete(d);
    var uniqueId, next := CreateUniqueId(TakenIds(s.books), s.counter);
    var book := NewBook(d, key, uniqueId);
    if !saveOk {
      return Service(s.books, next), Failure(PersistenceFailed);
    }
    s' := Service(s.books[key := book], next);
    r := Success(book);
    if Valid(s) {
      SavePreservesValid(s, book, next);
    }
  }

  /** Looks a book up by store id. */
  function FindBookById(s: Service, id: string): (r: Result<Book, ServiceError>)
    ensures r.Success? <==> id in s.books
    ensures r.Success? ==> r.value == s.books[id]
    ensures r.Failure? ==> r.error == NotFound(id)
    ensures Valid(s) && r.Success? ==> r.value.id == id && Validate(DraftOf(r.value)) == Pass
  {
    if id in s.books then Success(s.books[id]) else Failure(NotFound(id))
  }

  /** Deletes a book by store id; the store may refuse the delete. */
  function DeleteBookWithId(s: Service, id: string, deleteOk: bool): (r: Step<Outcome<ServiceError>>)
    ensures id !in s.books ==> r == Step(s, Fail(NotFound(id)))
    ensures id in s.books && !deleteOk ==> r == Step(s, Fail(DeletionFailed(id)))
    ensures r.result == Pass <==> id in s.books && deleteOk
    ensures r.result == Pass ==>
      && r.state.counter == s.counter
      && r.state.books.Keys == s.books.Keys - {id}
      && |r.state.books| == |s.books| - 1
      && forall k :: k in r.state.books ==> r.state.books[k] == s.books[k]
  {
    if id !in s.books then Step(s, Fail(NotFound(id)))
    else if !deleteOk then Step(s, Fail(DeletionFailed(id)))
    else Step(s.(books := s.books - {id}), Pass)
  }

  /** `list` holds the books stored under `keys`, in order, and `keys` names every key once. */
  ghost predicate Enumerates(books: map<string, Book>, keys: seq<string>, list: seq<Book>) {
    && |keys| == |list|
    && (forall i :: 0 <= i < |keys| ==> keys[i] in books && list[i] == books[keys[i]])
    && (forall i, j :: 0 <= i < j < |keys| ==> keys[i] != keys[j])
    && (forall k :: k in books ==> k in keys)
  }

  /**
   * Lists every stored book once, in an order the store chooses (here: whatever order
   * the keys are picked in). The ghost `keys` records which key each entry came from.
   */
  method BookList(s: Service) returns (list: seq<Book>, ghost keys: seq<string>)
    // The first three clauses are the non-ghost consequences of `Enumerates` below.
    ensures |list| == |s.books|
    ensures forall i :: 0 <= i < |list| ==> list[i] in s.books.Values
    ensures forall k :: k in s.books ==> s.books[k] in list
    ensures Valid(s) ==> forall i, j :: 0 <= i < j < |list| ==> list[i].id != list[j].id
    ensures Enumerates(s.books, keys, list)
  {
    list := [];
    var remaining := s.books.Keys;
    keys := [];
    while remaining != {}
      invariant remaining <= s.books.Keys
      invariant |keys| == |list|
      invariant forall i :: 0 <= i < |keys| ==> keys[i] in s.books && keys[i] !in remaining && list[i] == s.books[keys[i]]
      invariant forall i, j :: 0 <= i < j < |keys| ==> keys[i] != keys[j]
      invariant forall k :: k in s.books && k !in remaining ==> k in keys
      invariant |remaining| + |list| == |s.books|
      decreases |remaining|
    {
      var k :| k in remaining;
      list := list + [s.books[k]];
      keys := keys + [k];
      remaining := remaining - {k};
    }
    forall k | k in s.books
      ensures s.books[k] in list
    {
      var i :| 0 <= i < |keys| && keys[i] == k;
      assert list[i] == s.books[k];
    }
  }

  /** The URL path prefix under which uploaded photos are served. */
  const PhotoUrlPrefix: string := "/uploads/photos/"

  /** How Java's string concatenation renders a possibly-null string. */
  function Rendered(s: Option<string>): string {
    match s
    case Some(v) => v
    case None => "null"
  }

  /** The stored file's name: the random token, an underscore, then the client's file name. */
  function PhotoFileName(token: string, originalName: Option<string>): string {
    token + "_" + Rendered(originalName)
  }

  /**
   * Attaches an uploaded photo to a book: build the file name from the random token
   * and the client's name, write the file, point the book's `photoUrl` at it and
   * save the book. Fails without touching the store when the book is missing, the
   * write fails, or the save fails.
   */
  function UploadPhoto(s: Service, bookId: string, token: string, originalName: Option<string>, writeOk: bool, saveOk: bool)
    : (r: Step<Result<string, ServiceError>>)
    ensures bookId !in s.books ==> r == Step(s, Failure(NotFound(bookId)))
    ensures bookId in s.books && !writeOk ==> r == Step(s, Failure(UploadFailed))
    ensures bookId in s.books && writeOk && !saveOk ==> r == Step(s, Failure(PersistenceFailed))
    ensures r.result.Success? <==> bookId in s.books && writeOk && saveOk
    ensures r.result.Success? ==>
      && r.result.value == "/uploads/photos/" + token + "_" + Rendered(originalName)
      && r.state.counter == s.counter
      && r.state.books.Keys == s.books.Keys
      && r.state.books[bookId] == s.books[bookId].(photoUrl := Some(r.result.value))
      && forall k :: k in s.books && k != bookId ==> r.state.books[k] == s.books[k]
  {
    if bookId !in s.books then Step(s, Failure(NotFound(bookId)))
    else if !writeOk then Step(s, Failure(UploadFailed))
    else if !saveOk then Step(s, Failure(PersistenceFailed))
    else
      var url := PhotoUrlPrefix + PhotoFileName(token, originalName);
      var book := s.books[bookId].(photoUrl := Some(url));
      Step(s.(books := s.books[bookId := book]), Success(url))
  }

  /** Deletion keeps the store invariant, and afterwards no stored book has the deleted id. */
  lemma DeletePreservesValid(s: Service, id: string, deleteOk: bool)
    requires Valid(s)
    ensures Valid(DeleteBookWithId(s, id, deleteOk).state)
    ensures deleteOk ==> FindBookById(DeleteBookWithId(s, id, deleteOk).state, id) == Failure(NotFound(id))
    ensures deleteOk ==> forall b :: b in DeleteBookWithId(s, id, deleteOk).state.books.Values ==> b.id != id
  {
  }

  /** Attaching a photo keeps the store invariant: only `photoUrl`, which no rule inspects, changes. */
  lemma UploadPreservesValid(s: Service, bookId: string, token: string, originalName: Option<string>, writeOk: bool, saveOk: bool)
    requires Valid(s)
    ensures Valid(UploadPhoto(s, bookId, token, originalName, writeOk, saveOk).state)
  {
    if bookId in s.books && writeOk && saveOk {
      var s' := UploadPhoto(s, bookId, token, originalName, writeOk, saveOk).state;
      assert DraftOf(s'.books[bookId]) == DraftOf(s.books[bookId]);
      assert forall k :: k in s'.books && k != bookId ==> s'.books[k] == s.books[k];
    }
  }

  /** A second upload to the same book replaces the first URL instead of adding to it. */
  lemma SecondUploadOverwrites(s: Service, bookId: string, t1: string, n1: Option<string>, t2: string, n2: Option<string>)
    requires bookId in s.books
    ensures
      var first := UploadPhoto(s, bookId, t1, n1, true, true);
      var second := UploadPhoto(first.state, bookId, t2, n2, true, true);
      && second.result == Success(PhotoUrlPrefix + PhotoFileName(t2, n2))
      && FindBookById(second.state, bookId) == Success(s.books[bookId].(photoUrl := Some(PhotoUrlPrefix + PhotoFileName(t2, n2))))
  {
  }

  /** Two uploads of files with the same client name get different names when their tokens differ. */
  lemma DistinctTokensGiveDistinctUrls(t1: string, t2: string, originalName: Option<string>)
    ensures PhotoUrlPrefix + PhotoFileName(t1, originalName) == PhotoUrlPrefix + PhotoFileName(t2, originalName) <==> t1 == t2
  {
    var u1 := PhotoUrlPrefix + PhotoFileName(t1, originalName);
    var u2 := PhotoUrlPrefix + PhotoFileName(t2, originalName);
    if u1 == u2 {
      var p := |PhotoUrlPrefix|;
      assert |t1| == |t2|;
      assert t1 == u1[p..p + |t1|];
      assert t2 == u2[p..p + |t2|];
    }
  }

  /** Creating the first book on an empty store, with a fresh process, assigns "B-001". */
  method FirstBookOnEmptyStore(d: BookDraft, key: string) returns (s': Service, r: Result<Book, ServiceError>)
    requires Validate(d) == Pass
    ensures r.Success? && r.value.uniqueId == FormatId(1) && DraftOf(r.value) == d
    ensures s'.books == map[key := r.value] && s'.counter == 2
  {
    assert FormatId(1) !in TakenIds(Initial.books);
    s', r := CreateBook(Initial, d, key, true);
  }

  /**
   * After a restart the counter is back at 1 while the store still holds "B-001" and
   * "B-002"; the existence check skips both and the new book gets "B-003".
   */
  method CreateAfterRestart(s: Service, d: BookDraft, key: string) returns (s': Service, r: Result<Book, ServiceError>)
    requires Validate(d) == Pass && s.counter == InitialCounter
    requires TakenIds(s.books) == {FormatId(1), FormatId(2)}
    ensures r.Success? && r.value.uniqueId == FormatId(3) && s'.counter == 4
  {
    var taken := TakenIds(s.books);
    FormatIdInjective(3, 1);
    FormatIdInjective(3, 2);
    assert FormatId(3) !in taken;
    s', r := CreateBook(s, d, key, true);
  }
}
