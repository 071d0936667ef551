/**
 The records of the journal backend: users with their role flags, manuscripts with their
 author list and publication charges, reviewer assignments, and the outcome of a request.
 Identifiers are opaque in the database; here they are natural numbers.
 */
module Model {

  datatype Option<T> = None | Some(value: T)

  type UserId = nat
  type ManuscriptId = nat

  /** The four independent role flags a user carries; a user may hold several at once. */
  datatype Roles = Roles(author: bool, reviewer: bool, editor: bool, editorInChief: bool)

  datatype User = User(email: string, roles: Roles)

  /** The authenticated caller: its identity and the snapshot of its roles taken when the request began. */
  datatype Actor = Actor(id: UserId, roles: Roles)

  /** Manuscript status. Only the first two are set by this core; the others are
      reached through paths outside it and are kept opaque. */
  datatype ManuscriptStatus = Submitted | UnderReview | OtherStatus(name: string)

  datatype AssignmentStatus = Pending | Accepted | Declined | Completed | Cancelled

  /** An active assignment is one that still binds the reviewer to the manuscript. */
  predicate IsActiveStatus(s: AssignmentStatus) {
    s == Pending || s == Accepted
  }

  datatype Author = Author(user: UserId, isCorresponding: bool, order: nat)

  datatype Charges = Charges(baseAmount: nat, extraPages: nat, totalAmount: nat)

  /** The stored file descriptor; where the blob lives is opaque, only the page count matters here. */
  datatype FileDescriptor = FileDescriptor(publicId: string, url: string, pages: nat, size: nat)

  datatype Manuscript = Manuscript(
    title: string,
    summary: string,
    keywords: seq<string>,
    domain: string,
    authors: seq<Author>,
    correspondingAuthor: UserId,
    file: FileDescriptor,
    charges: Charges,
    status: ManuscriptStatus,
    createdAt: int)

  datatype Assignment = Assignment(
    manuscript: ManuscriptId,
    reviewer: UserId,
    editor: UserId,
    assignedBy: UserId,
    dueDate: string,
    status: AssignmentStatus)

  /** The invariant every store operation sets up and keeps for a stored manuscript: a
      non-empty author list numbered 1, 2, ... in order, with the corresponding author among
      them and flagged as such. */
  predicate WellFormed(m: Manuscript) {
    && |m.authors| >= 1
    && (forall i :: 0 <= i < |m.authors| ==> m.authors[i].order == i + 1)
    && exists i :: 0 <= i < |m.authors| && m.authors[i].user == m.correspondingAuthor
                   && m.authors[i].isCorresponding
  }

  /** Why a request was answered with 400. */
  datatype Reason = ValidationFailed | FileRequired | NotAReviewer | AlreadyAssigned

  /** The answer of a controller: 200, 201, 404, 403, 400 or 500. */
  datatype Response<T> =
    | Ok(data: T)
    | Created(data: T)
    | NotFound
    | Forbidden
    | BadRequest(reason: Reason)
    | ServerError

  /** What became of a best-effort notification e-mail. */
  datatype Notice = NoRecipient | Sent(to: string) | SendFailed(to: string)
}
