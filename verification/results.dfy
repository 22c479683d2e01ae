/** Failure-compatible result type and the errors the use cases raise. */
module Results {

  /** The value a use case resolves with, or the error it rejects with. */
  datatype Result<+T, +E> = Success(value: T) | Failure(error: E) {

    predicate IsFailure() {
      Failure?
    }

    function PropagateFailure<U>(): Result<U, E>
      requires Failure?
    {
      Failure(error)
    }

    function Extract(): T
      requires Success?
    {
      value
    }
  }

  /** A repository answer that may be missing (a lookup that finds no row). */
  datatype Option<+T> = None | Some(value: T)
}

module Errors {

  /** Every way the two use cases can reject. */
  datatype Error =
    | ThreadNotFound   // NotFoundError from verifyThreadExists / getThreadById
    | CommentNotFound  // NotFoundError from verifyCommentExists
    | MissingProperty  // NEW_LIKE.NOT_CONTAIN_NEEDED_PROPERTY
    | WrongDataType    // NEW_LIKE.NOT_MEET_DATA_TYPE_SPECIFICATION
    | UniqueViolation  // the storage's UNIQUE(comment_id, owner) constraint
  {
    /** The errors thrown by the NewLike entity. */
    predicate IsValidation() {
      MissingProperty? || WrongDataType?
    }
  }
}
