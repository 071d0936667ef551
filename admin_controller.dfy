/**
 The editor-in-chief's operations: dashboard counts, assigning a reviewer to a manuscript,
 and changing a user's role flags. The route guard admits only an editor-in-chief to all
 three; the operations carry that as a precondition on the actor.
 */
module AdminController {

  import opened Model
  import opened Database

  // ---------------------------------------------------------------- dashboard

  datatype Stats = Stats(
    totalUsers: nat,
    totalAuthors: nat,
    totalReviewers: nat,
    totalEditors: nat,
    totalManuscripts: nat,
    pendingManuscripts: nat,
    underReviewManuscripts: nat)

  function UsersWhere(users: map<UserId, User>, flag: Roles -> bool): set<UserId> {
    set u | u in users && flag(users[u].roles)
  }

  function WithStatus(ms: map<ManuscriptId, Manuscript>, status: ManuscriptStatus): set<ManuscriptId> {
    set id | id in ms && ms[id].status == status
  }

  lemma {:induction false} SubsetCardinality<T>(a: set<T>, b: set<T>)
    requires a <= b
    ensures |a| <= |b|
  {
    assert b == a + (b - a);
    assert a * (b - a) == {};
  }

  /** The counts shown on the dashboard. Users are counted per flag, so one user may be
      counted under several roles; "pending" means status `submitted`. */
  function DashboardStats(actor: Actor, users: map<UserId, User>, ms: map<ManuscriptId, Manuscript>): (s: Stats)
    requires actor.roles.editorInChief
    ensures s.totalUsers == |users| && s.totalManuscripts == |ms|
    ensures s.totalAuthors == |set u | u in users && users[u].roles.author|
    ensures s.totalReviewers == |set u | u in users && users[u].roles.reviewer|
    ensures s.totalEditors == |set u | u in users && users[u].roles.editor|
    ensures s.pendingManuscripts == |WithStatus(ms, Submitted)|
    ensures s.underReviewManuscripts == |WithStatus(ms, UnderReview)|
    ensures s.totalAuthors <= s.totalUsers && s.totalReviewers <= s.totalUsers && s.totalEditors <= s.totalUsers
    ensures s.pendingManuscripts + s.underReviewManuscripts <= s.totalManuscripts
  {
    var authors := UsersWhere(users, (r: Roles) => r.author);
    var reviewers := UsersWhere(users, (r: Roles) => r.reviewer);
    var editors := UsersWhere(users, (r: Roles) => r.editor);
    var pending := WithStatus(ms, Submitted);
    var underReview := WithStatus(ms, UnderReview);
    assert authors == set u | u in users && users[u].roles.author;
    assert reviewers == set u | u in users && users[u].roles.reviewer;
    assert editors == set u | u in users && users[u].roles.editor;
    SubsetCardinality(authors, users.Keys);
    SubsetCardinality(reviewers, users.Keys);
    SubsetCardinality(editors, users.Keys);
    assert pending * underReview == {};
    SubsetCardinality(pending + underReview, ms.Keys);
    Stats(|users|, |authors|, |reviewers|, |editors|, |ms|, |pending|, |underReview|)
  }

  /** Writing one record changes the set of manuscripts with a given status at that id only. */
  lemma WithStatusUpdate(ms: map<ManuscriptId, Manuscript>, id: ManuscriptId, m: Manuscript, status: ManuscriptStatus)
    ensures WithStatus(ms[id := m], status)
            == (WithStatus(ms, status) - {id}) + (if m.status == status then {id} else {})
  {
    var after := ms[id := m];
    forall x | x in WithStatus(after, status)
      ensures x in (WithStatus(ms, status) - {id}) + (if m.status == status then {id} else {})
    {
      if x != id { assert after[x] == ms[x]; }
    }
    forall x | x in (WithStatus(ms, status) - {id}) + (if m.status == status then {id} else {})
      ensures x in WithStatus(after, status)
    {
      if x != id { assert after[x] == ms[x]; }
    }
  }

  /** The count of a status after writing one record: the old record leaves it, the new joins it. */
  lemma CountAfterUpdate(ms: map<ManuscriptId, Manuscript>, id: ManuscriptId, m: Manuscript, status: ManuscriptStatus)
    ensures |WithStatus(ms[id := m], status)|
            == |WithStatus(ms, status)| - (if id in ms && ms[id].status == status then 1 else 0)
               + (if m.status == status then 1 else 0)
  {
    WithStatusUpdate(ms, id, m, status);
    var before := WithStatus(ms, status);
    var rest := before - {id};
    if id in before {
      assert |rest| == |before| - 1;
    } else {
      assert rest == before;
    }
    if m.status == status {
      assert id !in rest;
      assert |rest + {id}| == |rest| + 1;
    } else {
      assert rest + {} == rest;
    }
  }

  /** How a successful assignment moves the manuscript counts: the total stays, and the
      manuscript leaves "pending" if it was submitted and joins "under review" unless it
      was there already. */
  lemma AssignmentMovesCounts(ms: map<ManuscriptId, Manuscript>, id: ManuscriptId)
    requires id in ms
    ensures var after := ms[id := ms[id].(status := UnderReview)];
            && |after| == |ms|
            && |WithStatus(after, Submitted)|
               == |WithStatus(ms, Submitted)| - (if ms[id].status == Submitted then 1 else 0)
            && |WithStatus(after, UnderReview)|
               == |WithStatus(ms, UnderReview)| + (if ms[id].status == UnderReview then 0 else 1)
  {
    var m := ms[id].(status := UnderReview);
    assert ms[id := m].Keys == ms.Keys;
    CountAfterUpdate(ms, id, m, Submitted);
    CountAfterUpdate(ms, id, m, UnderReview);
  }

  /** A submission adds one manuscript to the total and to "pending". */
  lemma SubmissionMovesCounts(ms: map<ManuscriptId, Manuscript>, id: ManuscriptId, m: Manuscript)
    requires id !in ms && m.status == Submitted
    ensures var after := ms[id := m];
            && |after| == |ms| + 1
            && |WithStatus(after, Submitted)| == |WithStatus(ms, Submitted)| + 1
            && |WithStatus(after, UnderReview)| == |WithStatus(ms, UnderReview)|
  {
    assert ms[id := m].Keys == ms.Keys + {id};
    CountAfterUpdate(ms, id, m, Submitted);
    CountAfterUpdate(ms, id, m, UnderReview);
  }

  // ---------------------------------------------------------------- reviewer assignment

  /** The status a new assignment gets from its schema default. */
  const NewAssignmentStatus: AssignmentStatus := Pending

  /** Assigns `reviewerId` to manuscript `manuscriptId` on behalf of `actor`. The guards run
      in order: request validation, manuscript exists (404), target is a user with the
      reviewer flag (400), no pending or accepted assignment for the pair (400). Past them the
      assignment is stored and the manuscript put under review; only then is the reviewer
      e-mailed, and a failed e-mail (`notifyOk` false) turns the answer into 500 without
      undoing either write. */
  method AssignReviewer(store: Store, actor: Actor, validationPassed: bool, manuscriptId: ManuscriptId,
                        reviewerId: UserId, dueDate: string, notifyOk: bool)
    returns (r: Response<Assignment>)
    requires store.Valid()
    requires actor.roles.editorInChief
    modifies store
    ensures store.Valid()
    ensures store.users == old(store.users) && store.nextManuscriptId == old(store.nextManuscriptId)
    ensures !validationPassed ==> r == BadRequest(ValidationFailed)
    ensures validationPassed && manuscriptId !in old(store.manuscripts) ==> r == NotFound
    ensures validationPassed && manuscriptId in old(store.manuscripts)
            && (reviewerId !in store.users || !store.users[reviewerId].roles.reviewer) ==>
              r == BadRequest(NotAReviewer)
    ensures validationPassed && manuscriptId in old(store.manuscripts)
            && reviewerId in store.users && store.users[reviewerId].roles.reviewer
            && HasActive(old(store.assignments), manuscriptId, reviewerId) ==>
              r == BadRequest(AlreadyAssigned)
    ensures r.NotFound? || r.BadRequest? ==>
              store.assignments == old(store.assignments) && store.manuscripts == old(store.manuscripts)
    ensures validationPassed && manuscriptId in old(store.manuscripts)
            && reviewerId in store.users && store.users[reviewerId].roles.reviewer
            && !HasActive(old(store.assignments), manuscriptId, reviewerId) ==>
              var a := Assignment(manuscriptId, reviewerId, actor.id, actor.id, dueDate, NewAssignmentStatus);
              && store.assignments == old(store.assignments) + [a]
              && store.manuscripts
                 == old(store.manuscripts)[manuscriptId := old(store.manuscripts)[manuscriptId].(status := UnderReview)]
              && r == if notifyOk then Created(a) else ServerError
  {
    if !validationPassed {
      return BadRequest(ValidationFailed);
    }
    if manuscriptId !in store.manuscripts {
      return NotFound;
    }
    if reviewerId !in store.users || !store.users[reviewerId].roles.reviewer {
      return BadRequest(NotAReviewer);
    }
    if HasActive(store.assignments, manuscriptId, reviewerId) {
      return BadRequest(AlreadyAssigned);
    }
    var a := Assignment(manuscriptId, reviewerId, actor.id, actor.id, dueDate, NewAssignmentStatus);
    ExclusiveAppend(store.assignments, a);
    store.assignments := store.assignments + [a];
    var m := store.manuscripts[manuscriptId];
    store.manuscripts := store.manuscripts[manuscriptId := m.(status := UnderReview)];
    r := if notifyOk then Created(a) else ServerError;
  }

  // ---------------------------------------------------------------- role update

  /** The role flags named in the request body; an absent flag is None. */
  datatype RoleUpdate = RoleUpdate(author: Option<bool>, reviewer: Option<bool>,
                                   editor: Option<bool>, editorInChief: Option<bool>)

  const NoRoleChange := RoleUpdate(None, None, None, None)

  function Pick(given: Option<bool>, current: bool): bool {
    if given.Some? then given.value else current
  }

  /** `{ ...current, ...update }`: every flag the update names wins, the others stay. */
  function MergeRoles(current: Roles, update: RoleUpdate): (r: Roles)
    ensures update.author.Some? ==> r.author == update.author.value
    ensures update.author.None? ==> r.author == current.author
    ensures update.reviewer.Some? ==> r.reviewer == update.reviewer.value
    ensures update.reviewer.None? ==> r.reviewer == current.reviewer
    ensures update.editor.Some? ==> r.editor == update.editor.value
    ensures update.editor.None? ==> r.editor == current.editor
    ensures update.editorInChief.Some? ==> r.editorInChief == update.editorInChief.value
    ensures update.editorInChief.None? ==> r.editorInChief == current.editorInChief
  {
    Roles(Pick(update.author, current.author), Pick(update.reviewer, current.reviewer),
          Pick(update.editor, current.editor), Pick(update.editorInChief, current.editorInChief))
  }

  /** `{ ...b, ...a }` on the request side: flags of the later update win. */
  function Overlay(earlier: RoleUpdate, later: RoleUpdate): RoleUpdate {
    RoleUpdate(if later.author.Some? then later.author else earlier.author,
               if later.reviewer.Some? then later.reviewer else earlier.reviewer,
               if later.editor.Some? then later.editor else earlier.editor,
               if later.editorInChief.Some? then later.editorInChief else earlier.editorInChief)
  }

  lemma MergeLaws(current: Roles, u: RoleUpdate, v: RoleUpdate)
    ensures MergeRoles(current, NoRoleChange) == current
    ensures MergeRoles(MergeRoles(current, u), u) == MergeRoles(current, u)
    ensures MergeRoles(MergeRoles(current, u), v) == MergeRoles(current, Overlay(u, v))
  {
  }

  /** Merges `update` into the role flags of user `userId`; 404 when there is no such user. */
  method UpdateUserRoles(store: Store, actor: Actor, userId: UserId, update: RoleUpdate)
    returns (r: Response<User>)
    requires store.Valid()
    requires actor.roles.editorInChief
    modifies store
    ensures store.Valid()
    ensures store.manuscripts == old(store.manuscripts) && store.assignments == old(store.assignments)
    ensures store.nextManuscriptId == old(store.nextManuscriptId)
    ensures userId !in old(store.users) ==> r == NotFound && store.users == old(store.users)
    ensures userId in old(store.users) ==>
              var u := old(store.users)[userId];
              var updated := u.(roles := MergeRoles(u.roles, update));
              && store.users == old(store.users)[userId := updated]
              && r == Ok(updated)
  {
    if userId !in store.users {
      return NotFound;
    }
    var u := store.users[userId];
    var updated := u.(roles := MergeRoles(u.roles, update));
    store.users := store.users[userId := updated];
    r := Ok(updated);
  }
}
