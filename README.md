# Manuscript and reviewer-assignment workflow

A Dafny model of the two controllers at the heart of a scholarly-journal backend. Authors
submit manuscripts. The editor-in-chief assigns reviewers to them, changes users' role flags
and reads dashboard counts. The model works over an in-memory database (`Database.Store`)
with three collections:

- `users`: a map from user id to e-mail and the four role flags author, reviewer, editor and
  editorInChief;
- `manuscripts`: a map from manuscript id to the manuscript record (authors, corresponding
  author, keywords, file descriptor, publication charges, status, creation time);
- `assignments`: the sequence of reviewer assignments in insertion order.

`Store.Valid()` is the invariant that every operation keeps:

- manuscript ids are below the next id to be handed out;
- every manuscript is well formed: authors numbered 1, 2, … with the corresponding author
  among them;
- every assignment refers to an existing manuscript and user;
- no (manuscript, reviewer) pair has more than one pending or accepted assignment.

Files:

- `model.dfy`: the records and the response type (`Ok` 200, `Created` 201, `NotFound` 404,
  `Forbidden` 403, `BadRequest` 400 with its reason, `ServerError` 500).
- `keywords.dfy`: JavaScript's `split(',')` and `trim()` as used on the keyword field, with
  the split/join round trip in both directions and the uniqueness of trimming.
- `store.dfy`: the database class, the duplicate-assignment query and the one-active-assignment
  invariant with its append lemma.
- `manuscript_controller.dfy`: publication charges, submission, the "my manuscripts" listing
  and the access decision for reading one manuscript.
- `admin_controller.dfy`: dashboard counts, reviewer assignment and role update.
- `scenarios.dfy`: client walk-throughs proved from the contracts alone. One submits a
  one-page file with no editor-in-chief registered. One shows who may read the result. The other assigns the same reviewer twice.

State-changing operations are methods that take the `Store` and `modifies` it: submission,
assignment and role update. Their postconditions give the entire new state in terms of the
old one. Read-only operations are functions over the store's maps: listing, reading one
manuscript and the dashboard. A function cannot change the store, so these are read-only by
construction.

Points where the code's behaviour is easy to misread (the model follows the code in each):

- The listing `getMyManuscripts` returns only manuscripts whose *corresponding author* is the
  caller. It does not include manuscripts where the caller is merely a listed author, nor
  does an editor role widen it.
- `assignReviewer` sets the status to `under_review` whatever the status was before, including
  one outside the submitted/under-review pair. Nothing stops a decided manuscript from
  going back under review.
- The reviewer e-mail in `assignReviewer` is awaited and not caught. When it fails the caller
  gets 500, yet the assignment and the status change have already been saved.
- In `getManuscript`, an author entry whose user record no longer exists populates to null.
  Reading its id then throws, and the caller gets 500. This happens only if the scan reaches
  that entry before it finds the caller. When every author resolves, the decision is exactly
  404 / 403 / 200.
- The keyword field yields no keywords when it is absent and also when it is the empty string,
  because both are falsy in JavaScript.

## Model

| member | source | states |
|---|---|---|
| `Keywords.Split` | controllers/manuscriptController.js:69 | the field splits into exactly (number of commas + 1) pieces, none of which contains a comma |
| `Keywords.JoinSplit` | controllers/manuscriptController.js:69 | gluing the pieces back together with commas gives the original field, so no character is lost or moved |
| `Keywords.SplitJoin` | controllers/manuscriptController.js:69 | splitting a comma join of comma-free pieces gives back exactly those pieces, so the pieces are the comma-separated parts |
| `Keywords.SplitPrefix` | controllers/manuscriptController.js:69 | a comma-free prefix extends the first piece and leaves the other pieces alone |
| `Keywords.SkipLeading` | controllers/manuscriptController.js:69 | the first position at or after the start that holds no white space, with only white space skipped on the way |
| `Keywords.SkipTrailing` | controllers/manuscriptController.js:69 | the end position after which only white space follows, stopping at the last non-white character but never before the start |
| `Keywords.Trim` | controllers/manuscriptController.js:69 | the result is an infix of the input with only JavaScript white space before and after it, and it neither starts nor ends with white space |
| `Keywords.TrimUnique` | controllers/manuscriptController.js:69 | any trimmed infix surrounded only by white space is what Trim returns, so Trim's contract determines it |
| `Keywords.TrimIdempotent` | controllers/manuscriptController.js:69 | trimming twice is trimming once |
| `Keywords.KeywordList` | controllers/manuscriptController.js:69 | an absent or empty field gives []; otherwise one entry per comma-separated piece, each that piece trimmed; no entry contains a comma or surrounding white space |
| `ManuscriptController.PublicationCharges` | controllers/manuscriptController.js:61-64 | the base fee is 0 up to six pages and 50 beyond; extra pages are max(pages - 6, 0); the total is the base fee plus 10 per extra page, which is 0 up to six pages and 10·pages - 10 beyond; the base fee is zero exactly when the total is |
| `ManuscriptController.ChargesMonotonic` | controllers/manuscriptController.js:62-64 | more pages never cost less |
| `ManuscriptController.ChargesStep` | controllers/manuscriptController.js:62-64 | one more page costs 0 up to the sixth page, 60 for the seventh and 10 for each page after that |
| `ManuscriptController.ChargesExamples` | controllers/manuscriptController.js:62-64 | 1 and 6 pages cost 0, 7 pages cost 60 (50 + 1·10), 20 pages cost 190 (50 + 14·10) |
| `ManuscriptController.NewManuscript` | controllers/manuscriptController.js:66-85 | the inserted record is well formed: the submitter is the sole author, corresponding, at order 1, and is the corresponding author; its status is submitted; its charges come from the file's page count and its keywords from the keyword field |
| `ManuscriptController.SubmitManuscript` | controllers/manuscriptController.js:7-102 | a failed validation, then a missing file, gives 400 and inserts nothing. Otherwise exactly one manuscript is inserted under a fresh id and the answer is 201 with it. Users and assignments never change. Whether there is an editor-in-chief to notify, and whether that e-mail fails, affects only the notice and never the answer |
| `ManuscriptController.InListingOrder` | controllers/manuscriptController.js:120 | returns every given id once, newest first, with ties in ascending id order |
| `ManuscriptController.MyManuscripts` | controllers/manuscriptController.js:114-120 | returns exactly the ids of manuscripts whose corresponding author is the caller, with no repeats, ordered by creation time descending |
| `ManuscriptController.AuthorScan` | controllers/manuscriptController.js:150-152 | a match means the caller is in the author list, and a throw means some author's user record is missing; when every author resolves there is no throw, and a match happens exactly when the caller is listed |
| `ManuscriptController.GetManuscript` | controllers/manuscriptController.js:135-165 | 404 exactly when the id is unknown. 200 only with the stored record, for a listed author or an editor / editor-in-chief. 403 only for a caller who is neither. 500 only when some author record is missing. When all authors resolve it is exactly 200 for author-or-editor and 403 otherwise |
| `ManuscriptController.SubmitterCanRead` | controllers/manuscriptController.js:150-160 | right after submitting, a registered submitter can read the new manuscript and finds it in its own listing |
| `Scenarios.AuthorReadsOutsiderRefused` | controllers/manuscriptController.js:149-160 | for a manuscript whose sole author is user 1, user 1 reads it and a registered user without author or editor role gets 403 |
| `Database.CountActiveAppend` | controllers/adminController.js:96-104 | appending one assignment raises a pair's active count by one exactly when the new assignment is active for that pair |
| `Database.HasActiveIffCounted` | controllers/adminController.js:83-89 | the duplicate query (same manuscript, same reviewer, status pending or accepted) finds something exactly when the pair's active count is positive |
| `Database.ExclusiveAppend` | controllers/adminController.js:83-104 | from a history with at most one active assignment per pair, appending keeps that property exactly when the new assignment is inactive or its pair has no active one yet, so the duplicate guard is both sufficient and necessary |
| `AdminController.DashboardStats` | controllers/adminController.js:8-26 | the totals are the collection sizes. The author, reviewer and editor counts are the numbers of users with that flag set, each at most the user count. The pending and under-review counts are the numbers of manuscripts with status submitted and under_review, together at most the manuscript total |
| `AdminController.WithStatusUpdate` | controllers/adminController.js:24-25 | after writing one record, the manuscripts with a given status are the old ones except that id, plus that id if the new record has the status |
| `AdminController.CountAfterUpdate` | controllers/adminController.js:24-25 | after writing one record, a status count loses one if the old record had the status and gains one if the new record has it |
| `AdminController.AssignmentMovesCounts` | controllers/adminController.js:106-108 | putting a manuscript under review keeps the total. The submitted count drops by one if it was submitted, and the under-review count rises by one unless it was already under review |
| `AdminController.SubmissionMovesCounts` | controllers/manuscriptController.js:85 | inserting a submitted manuscript raises the total and the submitted count by one and leaves the under-review count alone |
| `AdminController.AssignReviewer` | controllers/adminController.js:51-123 | guards in order: validation 400, unknown manuscript 404, missing or non-reviewer target 400, active duplicate 400. Each failure leaves assignments and manuscripts unchanged. Past the guards, exactly one assignment (manuscript, reviewer, editor = assignedBy = caller, pending) is appended, and only that manuscript changes, to under_review. The answer is 201, or 500 if the reviewer e-mail fails, with both writes kept. The store invariant, including one active assignment per pair, is preserved |
| `AdminController.MergeRoles` | controllers/adminController.js:140 | every flag the update names takes the given value, and every other flag keeps its old value |
| `AdminController.MergeLaws` | controllers/adminController.js:140 | an empty update changes nothing, repeating an update changes nothing more, and two updates in a row equal one update in which the later flags win |
| `AdminController.UpdateUserRoles` | controllers/adminController.js:127-147 | an unknown user gives 404 and changes nothing. Otherwise only that user's roles change, to the merge, and the answer is 200 with the updated user. Manuscripts and assignments are untouched |

## Left out

- The file upload: the Cloudinary upload and its local fallback descriptor are foreign
  library calls. The file descriptor is an opaque input that carries a page count. The code
  always sets that count to 1, while the model takes it from the descriptor.
- E-mail sending: the notification services are foreign I/O. Their success or failure is a
  boolean input (`notifyOk`). The submission's notice records who would have been e-mailed.
- Request validation: the validator's rules (ids well formed, due date ISO 8601, required
  fields) are library code. Their verdict is a boolean input. The due date stays an opaque
  string.
- The clock: the creation time is an input (`now`).
- Database failures: a failing `find`, `save` or `countDocuments` would give 500. The only
  500s modelled are a failed reviewer e-mail and a missing author record during
  `getManuscript`.
- Populate and response envelope: `populate` of the assigned editors, `Promise.all` and the
  JSON envelope are plumbing. The listing returns manuscript ids; each id's document is
  `manuscripts[id]`.
- The `assignedEditors` field: nothing in these two controllers writes it.
- Concurrency: two concurrent `assignReviewer` calls for the same pair can both pass the
  duplicate check before either inserts. A sequential model cannot express that race, so the
  exclusivity invariant holds for sequential calls only.
- Authentication and the route guard: `auth`, `authorize('editorInChief')`, JWTs, passwords
  and registration are not shown. The three admin operations instead require
  `actor.roles.editorInChief`.
- Mongoose schema defaults: the schema files are not part of this model. New manuscripts are
  assumed to get status `submitted`. New assignments are assumed to get status `pending`
  (`AdminController.NewAssignmentStatus`), so a new assignment counts as active.
- Role update request body: a `roles` object holding keys other than the four flags, or
  non-boolean values, is not modelled. The update is four optional booleans.
- MyManuscripts: the order among manuscripts created at the same instant is left to the
  database by the code. The model fixes it as ascending id.
- Process startup, signal handling and the in-memory test database: these are pure I/O.
