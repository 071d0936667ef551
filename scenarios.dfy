/**
 The workflow as a client sees it, proved from the operations' contracts alone: a one-page
 submission with no editor-in-chief registered, the access rule for the author and for an
 outsider, and a reviewer assigned once and refused the second time.
 */
module Scenarios {

  import opened Model
  import opened Database
  import opened ManuscriptController
  import opened AdminController

  const NoRoles := Roles(false, false, false, false)

  function Registered(): map<UserId, User> {
    map[1 := User("author@example.org", NoRoles.(author := true)),
        2 := User("reviewer@example.org", NoRoles.(reviewer := true)),
        4 := User("outsider@example.org", NoRoles)]
  }

  /** No editor-in-chief exists and the e-mail may fail: the submission still succeeds,
      free of charge for one page. */
  method SubmitWithoutChief(now: int, mailWorks: bool)
  {
    var store := new Store(Registered());
    var author := Actor(1, NoRoles.(author := true));
    var file := FileDescriptor("local_upload", "/uploads/paper.pdf", 1, 2048);
    assert !HasEditorInChief(store.users);
    var submitted, notice := SubmitManuscript(store, author, true, Some(file), "Title", "Summary",
                                              Some(" graphs , proofs"), "CS", now, mailWorks);
    assert notice == NoRecipient && submitted.Created?;
    var m := submitted.data.1;
    assert m.status == Submitted && m.charges == Charges(0, 0, 0);
    assert m.correspondingAuthor == 1 && submitted.data.0 in store.manuscripts;
  }

  /** The author of a manuscript may read it; a registered user who is neither an author
      nor an editor is refused. */
  lemma AuthorReadsOutsiderRefused(ms: map<ManuscriptId, Manuscript>, id: ManuscriptId, m: Manuscript)
    requires m.authors == [Author(1, true, 1)]
    ensures GetManuscript(Registered(), ms[id := m], id, Actor(1, NoRoles.(author := true))) == Ok(m)
    ensures GetManuscript(Registered(), ms[id := m], id, Actor(4, NoRoles)) == Forbidden
  {
    assert m.authors[0].user == 1;
    assert AuthorsResolve(Registered(), m);
    assert !IsListedAuthor(m, 4);
  }

  /** Assigning a reviewer once succeeds and puts the manuscript under review; a second
      attempt for the same pair is refused and changes nothing. */
  method AssignTwice(store: Store, id: ManuscriptId, reviewer: UserId)
    requires store.Valid()
    requires id in store.manuscripts && reviewer in store.users && store.users[reviewer].roles.reviewer
    requires !HasActive(store.assignments, id, reviewer)
    modifies store
  {
    var chief := Actor(3, NoRoles.(editorInChief := true));
    var first := AssignReviewer(store, chief, true, id, reviewer, "2026-12-01", true);
    assert first.Created? && first.data.status == Pending;
    assert store.manuscripts[id].status == UnderReview;
    var last := |store.assignments| - 1;
    assert BindsPair(store.assignments[last], id, reviewer);
    var before := store.assignments;
    var second := AssignReviewer(store, chief, true, id, reviewer, "2026-12-15", true);
    assert second == BadRequest(AlreadyAssigned);
    assert store.assignments == before && store.manuscripts[id].status == UnderReview;
  }
}
