/**
 The author-facing manuscript operations: submitting a manuscript, listing one's own
 submissions, and reading one manuscript subject to the access rule.
 */
module ManuscriptController {

  import opened Model
  import opened Keywords
  import opened Database

  // ---------------------------------------------------------------- charges

  /** Publication charges for a file of `pages` pages: free up to six pages, otherwise a
      base fee of 50 and 10 for every page beyond the sixth. */
  function PublicationCharges(pages: nat): (c: Charges)
    ensures c.baseAmount == if pages <= 6 then 0 else 50
    ensures c.extraPages == if pages > 6 then pages - 6 else 0
    ensures c.totalAmount == c.baseAmount + 10 * c.extraPages
    ensures c.totalAmount == if pages <= 6 then 0 else 10 * pages - 10
    ensures c.baseAmount == 0 <==> c.totalAmount == 0
  {
    var baseAmount := if pages <= 6 then 0 else 50;
    var extraPages := if pages > 6 then pages - 6 else 0;
    Charges(baseAmount, extraPages, baseAmount + extraPages * 10)
  }

  /** A longer manuscript never costs less. */
  lemma ChargesMonotonic(p: nat, q: nat)
    requires p <= q
    ensures PublicationCharges(p).totalAmount <= PublicationCharges(q).totalAmount
  {
  }

  /** What one more page costs: nothing up to the sixth, 60 for the seventh (the base fee
      plus its own 10), 10 for every later one. */
  lemma ChargesStep(p: nat)
    ensures PublicationCharges(p + 1).totalAmount - PublicationCharges(p).totalAmount
            == if p < 6 then 0 else if p == 6 then 60 else 10
  {
  }

  lemma ChargesExamples()
    ensures PublicationCharges(1).totalAmount == 0
    ensures PublicationCharges(6).totalAmount == 0
    ensures PublicationCharges(7) == Charges(50, 1, 60)
    ensures PublicationCharges(20) == Charges(50, 14, 190)
  {
  }

  // ---------------------------------------------------------------- submission

  /** The record a successful submission inserts. Status and creation time are the values
      the schema fills in: `submitted`, and the moment of the insert. */
  function NewManuscript(submitter: UserId, title: string, summary: string, keywords: Option<string>,
                         domain: string, file: FileDescriptor, now: int): (m: Manuscript)
    ensures WellFormed(m)
    ensures m.authors == [Author(submitter, true, 1)] && m.correspondingAuthor == submitter
    ensures m.status == Submitted && m.createdAt == now
    ensures m.charges == PublicationCharges(file.pages) && m.keywords == KeywordList(keywords)
  {
    var m := Manuscript(title, summary, KeywordList(keywords), domain, [Author(submitter, true, 1)],
                        submitter, file, PublicationCharges(file.pages), Submitted, now);
    assert m.authors[0].user == m.correspondingAuthor;
    m
  }

  predicate HasEditorInChief(users: map<UserId, User>) {
    exists u :: u in users && users[u].roles.editorInChief
  }

  /** Submits a manuscript. `validationPassed` is the verdict of the request validator,
      `file` the uploaded file if there is one, `now` the clock, and `notifyOk` whether the
      e-mail to the editor-in-chief goes out; the outcome of that e-mail never changes the
      answer. The new manuscript receives the next free identifier. */
  method SubmitManuscript(store: Store, actor: Actor, validationPassed: bool, file: Option<FileDescriptor>,
                          title: string, summary: string, keywords: Option<string>, domain: string,
                          now: int, notifyOk: bool)
    returns (r: Response<(ManuscriptId, Manuscript)>, notice: Notice)
    requires store.Valid()
    modifies store
    ensures store.Valid()
    ensures store.users == old(store.users) && store.assignments == old(store.assignments)
    ensures !validationPassed ==> r == BadRequest(ValidationFailed)
    ensures validationPassed && file.None? ==> r == BadRequest(FileRequired)
    ensures r.BadRequest? ==>
              && store.manuscripts == old(store.manuscripts)
              && store.nextManuscriptId == old(store.nextManuscriptId)
              && notice == NoRecipient
    ensures validationPassed && file.Some? ==>
              var id := old(store.nextManuscriptId);
              var m := NewManuscript(actor.id, title, summary, keywords, domain, file.value, now);
              && r == Created((id, m))
              && id !in old(store.manuscripts)
              && store.manuscripts == old(store.manuscripts)[id := m]
              && |store.manuscripts| == |old(store.manuscripts)| + 1
              && store.nextManuscriptId == id + 1
    ensures r.Created? ==>
              && (notice == NoRecipient <==> !HasEditorInChief(store.users))
              && (notice.Sent? <==> HasEditorInChief(store.users) && notifyOk)
    ensures notice.Sent? || notice.SendFailed? ==>
              exists u :: u in store.users && store.users[u].roles.editorInChief
                          && store.users[u].email == notice.to
  {
    notice := NoRecipient;
    if !validationPassed {
      return BadRequest(ValidationFailed), notice;
    }
    if file.None? {
      return BadRequest(FileRequired), notice;
    }
    var m := NewManuscript(actor.id, title, summary, keywords, domain, file.value, now);
    var id := store.nextManuscriptId;
    store.manuscripts := store.manuscripts[id := m];
    store.nextManuscriptId := id + 1;
    // Best-effort notice to some editor-in-chief; a failure is swallowed.
    if HasEditorInChief(store.users) {
      var chief :| chief in store.users && store.users[chief].roles.editorInChief;
      var email := store.users[chief].email;
      notice := if notifyOk then Sent(email) else SendFailed(email);
    }
    r := Created((id, m));
  }

  // ---------------------------------------------------------------- listing

  /** The listing order: newer first; manuscripts created at the same moment in ascending
      identifier order. */
  predicate ListedBefore(ms: map<ManuscriptId, Manuscript>, a: ManuscriptId, b: ManuscriptId) {
    && a in ms && b in ms
    && (ms[a].createdAt > ms[b].createdAt || (ms[a].createdAt == ms[b].createdAt && a < b))
  }

  lemma {:induction false} FirstExists(ms: map<ManuscriptId, Manuscript>, keys: set<ManuscriptId>)
    requires keys <= ms.Keys && keys != {}
    ensures exists k :: k in keys && forall j :: j in keys && j != k ==> ListedBefore(ms, k, j)
    decreases |keys|
  {
    var x :| x in keys;
    var rest := keys - {x};
    if rest == {} {
      assert forall j :: j in keys ==> j == x by {
        forall j | j in keys ensures j == x { assert j !in rest; }
      }
    } else {
      FirstExists(ms, rest);
      var k :| k in rest && forall j :: j in rest && j != k ==> ListedBefore(ms, k, j);
      if ListedBefore(ms, k, x) {
        forall j | j in keys && j != k ensures ListedBefore(ms, k, j) {
          if j != x { assert j in rest; }
        }
      } else {
        forall j | j in keys && j != x ensures ListedBefore(ms, x, j) {
          if j != k { assert j in rest && ListedBefore(ms, k, j); }
        }
      }
    }
  }

  /** Putting the first identifier of `keys` in front of a listing of the others lists `keys`. */
  lemma PrependFirst(ms: map<ManuscriptId, Manuscript>, keys: set<ManuscriptId>, k: ManuscriptId, rest: seq<ManuscriptId>)
    requires keys <= ms.Keys && k in keys
    requires forall j :: j in keys && j != k ==> ListedBefore(ms, k, j)
    requires |rest| == |keys - {k}| && forall id :: id in rest <==> id in keys - {k}
    requires forall i, j :: 0 <= i < j < |rest| ==> ListedBefore(ms, rest[i], rest[j])
    ensures |[k] + rest| == |keys|
    ensures forall id :: id in [k] + rest <==> id in keys
    ensures forall i, j :: 0 <= i < j < |[k] + rest| ==> ListedBefore(ms, ([k] + rest)[i], ([k] + rest)[j])
  {
    var r := [k] + rest;
    forall i, j | 0 <= i < j < |r| ensures ListedBefore(ms, r[i], r[j]) {
      if i == 0 {
        assert r[j] == rest[j - 1] && r[j] in rest;
      } else {
        assert r[i] == rest[i - 1] && r[j] == rest[j - 1];
      }
    }
  }

  /** The identifiers in `keys`, each once, in listing order. */
  function InListingOrder(ms: map<ManuscriptId, Manuscript>, keys: set<ManuscriptId>): (r: seq<ManuscriptId>)
    requires keys <= ms.Keys
    ensures |r| == |keys|
    ensures forall id :: id in r <==> id in keys
    ensures forall i, j :: 0 <= i < j < |r| ==> ListedBefore(ms, r[i], r[j])
    decreases |keys|
  {
    if keys == {} then []
    else
      FirstExists(ms, keys);
      var k :| k in keys && forall j :: j in keys && j != k ==> ListedBefore(ms, k, j);
      var rest := InListingOrder(ms, keys - {k});
      PrependFirst(ms, keys, k, rest);
      [k] + rest
  }

  /** The manuscripts whose corresponding author is `who`, newest first. */
  function MyManuscripts(ms: map<ManuscriptId, Manuscript>, who: UserId): (r: seq<ManuscriptId>)
    ensures forall id :: id in r <==> id in ms && ms[id].correspondingAuthor == who
    ensures forall i, j :: 0 <= i < j < |r| ==> ListedBefore(ms, r[i], r[j])
    ensures forall i, j :: 0 <= i < j < |r| ==> r[i] != r[j]
  {
    InListingOrder(ms, set id | id in ms && ms[id].correspondingAuthor == who)
  }

  // ---------------------------------------------------------------- reading one manuscript

  /** The outcome of scanning the populated author list for the caller. */
  datatype Scan = Match | NoMatch | Throws

  /** Whether `who` is among the authors, scanning left to right and stopping at the first
      hit. An author whose user record no longer exists populates to null, and reading its
      identifier throws. */
  function AuthorScan(authors: seq<Author>, users: map<UserId, User>, who: UserId): (r: Scan)
    ensures r == Match ==> exists i :: 0 <= i < |authors| && authors[i].user == who
    ensures r == Throws ==> exists i :: 0 <= i < |authors| && authors[i].user !in users
    ensures r == NoMatch ==> forall i :: 0 <= i < |authors| ==> authors[i].user in users && authors[i].user != who
    ensures (forall i :: 0 <= i < |authors| ==> authors[i].user in users) ==>
              r != Throws && (r == Match <==> exists i :: 0 <= i < |authors| && authors[i].user == who)
  {
    if authors == [] then NoMatch
    else if authors[0].user !in users then Throws
    else if authors[0].user == who then Match
    else
      var r := AuthorScan(authors[1..], users, who);
      assert forall i :: 1 <= i < |authors| ==> authors[i] == authors[1..][i - 1];
      r
  }

  predicate IsListedAuthor(m: Manuscript, who: UserId) {
    exists i :: 0 <= i < |m.authors| && m.authors[i].user == who
  }

  predicate AuthorsResolve(users: map<UserId, User>, m: Manuscript) {
    forall i :: 0 <= i < |m.authors| ==> m.authors[i].user in users
  }

  predicate IsEditor(actor: Actor) {
    actor.roles.editor || actor.roles.editorInChief
  }

  /** Reads manuscript `id` for `actor`: 404 when it does not exist; otherwise the record
      when the actor is one of its authors or an editor, and 403 when neither. */
  function GetManuscript(users: map<UserId, User>, ms: map<ManuscriptId, Manuscript>,
                         id: ManuscriptId, actor: Actor): (r: Response<Manuscript>)
    ensures r == NotFound <==> id !in ms
    ensures r.Ok? ==> id in ms && r.data == ms[id] && (IsListedAuthor(ms[id], actor.id) || IsEditor(actor))
    ensures r == Forbidden ==> id in ms && !IsListedAuthor(ms[id], actor.id) && !IsEditor(actor)
    ensures r == ServerError ==> id in ms && !AuthorsResolve(users, ms[id])
    ensures id in ms && AuthorsResolve(users, ms[id]) ==>
              r == if IsListedAuthor(ms[id], actor.id) || IsEditor(actor) then Ok(ms[id]) else Forbidden
    ensures r.Ok? || r == NotFound || r == Forbidden || r == ServerError
  {
    if id !in ms then NotFound
    else
      match AuthorScan(ms[id].authors, users, actor.id)
      case Throws => ServerError
      case Match => Ok(ms[id])
      case NoMatch => if IsEditor(actor) then Ok(ms[id]) else Forbidden
  }

  /** Right after a submission by a registered user, that user can read the new manuscript
      and finds it in its own listing. */
  lemma SubmitterCanRead(users: map<UserId, User>, ms: map<ManuscriptId, Manuscript>, id: ManuscriptId,
                         actor: Actor, title: string, summary: string, keywords: Option<string>,
                         domain: string, file: FileDescriptor, now: int)
    requires actor.id in users
    ensures var m := NewManuscript(actor.id, title, summary, keywords, domain, file, now);
            && GetManuscript(users, ms[id := m], id, actor) == Ok(m)
            && id in MyManuscripts(ms[id := m], actor.id)
  {
    var m := NewManuscript(actor.id, title, summary, keywords, domain, file, now);
    assert m.authors[0].user == actor.id;
  }
}
