/**
 The repository's own test cases for the two use cases, restated over
 the model. Dates are the millisecond timestamps of the ISO strings the
 examples use.
 */
module Scenarios {
  import opened Results
  import opened Errors
  import opened Records
  import opened NewLikes
  import opened LikeTable
  import Sorting
  import GetThread
  import AddLike

  const thread := Thread("thread-123", "sebuah thread", "sebuah body thread", 1628407149775, "dicoding")

  /** Two replies to one comment form its whole group, in input order. */
  lemma GroupOfTwo(r1: Reply, r2: Reply)
    requires r1.commentId == r2.commentId
    ensures Sorting.MapSeq(GetThread.ProjectReply, GetThread.RepliesOf([r1, r2], r1.commentId))
            == [GetThread.ProjectReply(r1), GetThread.ProjectReply(r2)]
  {
    assert [r1, r2][1..] == [r2];
    assert [r2][1..] == [];
    assert GetThread.RepliesOf([r2], r1.commentId) == [r2];
    assert GetThread.RepliesOf([r1, r2], r1.commentId) == [r1] + [r2];
  }

  /** Sorting two elements by a key. */
  lemma SortTwo<T>(a: T, b: T, key: T -> int)
    ensures Sorting.SortBy([a, b], key) == if key(a) <= key(b) then [a, b] else [b, a]
  {
    assert [a, b][1..] == [b];
    assert [b][1..] == [];
  }

  /** Two replies to another comment leave this one without replies. */
  lemma NoGroup(r1: Reply, r2: Reply, commentId: string)
    requires r1.commentId != commentId && r2.commentId != commentId
    ensures GetThread.RepliesOf([r1, r2], commentId) == []
  {
    assert [r1, r2][1..] == [r2];
  }

  /** The details of two comments, in input order. */
  lemma DetailsOfTwo(c1: Comment, c2: Comment, replies: seq<Reply>, likeCountOf: string -> nat)
    ensures GetThread.Details([c1, c2], replies, likeCountOf)
            == [GetThread.CommentDetail(c1, replies, likeCountOf), GetThread.CommentDetail(c2, replies, likeCountOf)]
  {
  }

  /** Example 1: two comments, the second deleted; two replies to the first, the earlier one deleted. */
  const comments1 := [
    Comment("comment-123", "johndoe", 1628407353555, "sebuah comment", false),
    Comment("comment-456", "dicoding", 1628407581338, "komentar yang dihapus", true)]

  const replies1 := [
    Reply("reply-123", "comment-123", "dicoding", 1628409588766, "balasan yang dihapus", true),
    Reply("reply-456", "comment-123", "johndoe", 1628410021522, "sebuah balasan", false)]

  /** Two likes on the first comment. */
  const likes1: Table := [("comment-123", "user-123"), ("comment-123", "user-456")]

  const expected1 := [
    CommentView("comment-123", "johndoe", 1628407353555,
      [ ReplyView("reply-123", DeletedReplyMarker, 1628409588766, "dicoding"),
        ReplyView("reply-456", "sebuah balasan", 1628410021522, "johndoe") ],
      "sebuah comment", 2),
    CommentView("comment-456", "dicoding", 1628407581338, [], DeletedCommentMarker, 0)]

  lemma Example1Counts()
    ensures CountPort(likes1)("comment-123") == 2 && CountPort(likes1)("comment-456") == 0
  {
    assert likes1[1..][1..] == [];
  }

  lemma Example1First()
    ensures GetThread.CommentDetail(comments1[0], replies1, CountPort(likes1)) == expected1[0]
  {
    Example1Counts();
    assert replies1 == [replies1[0], replies1[1]];
    GroupOfTwo(replies1[0], replies1[1]);
    SortTwo(GetThread.ProjectReply(replies1[0]), GetThread.ProjectReply(replies1[1]), GetThread.ReplyDate);
  }

  lemma Example1Second()
    ensures GetThread.CommentDetail(comments1[1], replies1, CountPort(likes1)) == expected1[1]
  {
    Example1Counts();
    assert replies1 == [replies1[0], replies1[1]];
    NoGroup(replies1[0], replies1[1], "comment-456");
  }

  lemma Example1Details()
    ensures GetThread.Details(comments1, replies1, CountPort(likes1)) == expected1
  {
    DetailsOfTwo(comments1[0], comments1[1], replies1, CountPort(likes1));
    Example1First();
    Example1Second();
    assert comments1 == [comments1[0], comments1[1]];
  }

  lemma OrchestratedThread()
    ensures GetThread.ExecuteOnTable(Some(thread), comments1, replies1, likes1)
            == Success(ThreadView("thread-123", "sebuah thread", "sebuah body thread", 1628407149775, "dicoding",
                                  expected1))
  {
    Example1Details();
    SortTwo(expected1[0], expected1[1], GetThread.CommentDate);
    assert expected1 == [expected1[0], expected1[1]];
  }

  /** Example 2: comments and replies given latest first. */
  const comments2 := [
    Comment("comment-456", "dicoding", 1628409600000, "comment kedua", false),
    Comment("comment-123", "johndoe", 1628407353555, "comment pertama", false)]

  const replies2 := [
    Reply("reply-456", "comment-123", "johndoe", 1628410021522, "balasan kedua", false),
    Reply("reply-123", "comment-123", "dicoding", 1628409588766, "balasan pertama", false)]

  /** The details in input order: the later comment first, its replies earliest first. */
  const details2 := [
    CommentView("comment-456", "dicoding", 1628409600000, [], "comment kedua", 0),
    CommentView("comment-123", "johndoe", 1628407353555,
      [ ReplyView("reply-123", "balasan pertama", 1628409588766, "dicoding"),
        ReplyView("reply-456", "balasan kedua", 1628410021522, "johndoe") ],
      "comment pertama", 0)]

  lemma Example2First()
    ensures GetThread.CommentDetail(comments2[0], replies2, CountPort([])) == details2[0]
  {
    assert replies2 == [replies2[0], replies2[1]];
    NoGroup(replies2[0], replies2[1], "comment-456");
  }

  lemma Example2Second()
    ensures GetThread.CommentDetail(comments2[1], replies2, CountPort([])) == details2[1]
  {
    assert replies2 == [replies2[0], replies2[1]];
    GroupOfTwo(replies2[0], replies2[1]);
    SortTwo(GetThread.ProjectReply(replies2[0]), GetThread.ProjectReply(replies2[1]), GetThread.ReplyDate);
  }

  lemma Example2Details()
    ensures GetThread.Details(comments2, replies2, CountPort([])) == details2
  {
    DetailsOfTwo(comments2[0], comments2[1], replies2, CountPort([]));
    Example2First();
    Example2Second();
    assert comments2 == [comments2[0], comments2[1]];
  }

  /** The comments come back earliest first. */
  lemma SortedThread()
    ensures GetThread.ExecuteOnTable(Some(thread), comments2, replies2, [])
            == Success(ThreadView("thread-123", "sebuah thread", "sebuah body thread", 1628407149775, "dicoding",
                                  [details2[1], details2[0]]))
  {
    Example2Details();
    SortTwo(details2[0], details2[1], GetThread.CommentDate);
    assert details2 == [details2[0], details2[1]];
  }

  const dir := AddLike.Directory({Text("thread-123")}, {(Text("thread-123"), Text("comment-123"))})

  /** Liking, then unliking, a comment in an existing thread; and the two rejected payloads. */
  lemma ToggleRuns()
    ensures AddLike.Execute(dir, [], AddLike.Payload(Text("thread-123"), Text("comment-123"), Text("user-123")))
            == Success(AddLike.Toggled(AddLike.Added(("comment-123", "user-123")), [("comment-123", "user-123")]))
    ensures AddLike.Execute(dir, [("comment-123", "user-123")],
                            AddLike.Payload(Text("thread-123"), Text("comment-123"), Text("user-123")))
            == Success(AddLike.Toggled(AddLike.Removed(("comment-123", "user-123")), []))
    ensures AddLike.Execute(dir, [], AddLike.Payload(Text("thread-123"), Text("comment-123"), Absent))
            == Failure(MissingProperty)
    ensures AddLike.Execute(dir, [], AddLike.Payload(Text("thread-123"), Text("comment-123"), NonText))
            == Failure(WrongDataType)
  {
    var k := ("comment-123", "user-123");
    assert [] + [k] == [k];
    assert [k][1..] == [];
  }

  /** A like request naming an unknown thread, or an unknown comment in a known thread. */
  lemma ToggleNotFound()
    ensures AddLike.Execute(dir, [], AddLike.Payload(Text("xxx"), Text("comment-123"), Text("user-123")))
            == Failure(ThreadNotFound)
    ensures AddLike.Execute(dir, [], AddLike.Payload(Text("thread-123"), Text("xxx"), Text("user-123")))
            == Failure(CommentNotFound)
  {
  }
}
