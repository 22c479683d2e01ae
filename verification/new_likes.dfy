/**
 The NewLike entity: the payload check run before any write to the likes
 table. Its source file is not part of this model; its behaviour is taken
 from its tests and from the AddLikeUseCase call site.
 */
module NewLikes {
  import opened Results
  import opened Errors

  /** A JavaScript property value as seen by the entity: missing, a string, or any other value. */
  datatype Field = Absent | Text(value: string) | NonText

  /** A validated like request. */
  datatype NewLike = NewLike(commentId: string, owner: string)

  /**
   new NewLike({ commentId, owner }): a missing property is reported before
   a property of the wrong type.
   */
  function Validate(commentId: Field, owner: Field): (r: Result<NewLike, Error>)
    ensures r.Success? <==> commentId.Text? && owner.Text?
    ensures r.Success? ==> r.value.commentId == commentId.value && r.value.owner == owner.value
    ensures r.Failure? ==> r.error.IsValidation()
    ensures r.Failure? ==> (r.error == MissingProperty <==> commentId.Absent? || owner.Absent?)
  {
    if commentId.Absent? || owner.Absent? then Failure(MissingProperty)
    else if !commentId.Text? || !owner.Text? then Failure(WrongDataType)
    else Success(NewLike(commentId.value, owner.value))
  }

  /** The entity's own test cases: owner missing, both of the wrong type, both strings. */
  lemma ValidateExamples()
    ensures Validate(Text("comment-123"), Absent) == Failure(MissingProperty)
    ensures Validate(NonText, NonText) == Failure(WrongDataType)
    ensures Validate(Text("comment-123"), Text("user-123")) == Success(NewLike("comment-123", "user-123"))
  {
  }
}
