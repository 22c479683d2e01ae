/**
 GetThreadUseCase: the thread detail read-model. The four repository
 answers are inputs; the like port is a function from comment id to count.
 */
module GetThread {
  import opened Results
  import opened Errors
  import opened Records
  import opened Sorting
  import LikeTable

  function ReplyDate(v: ReplyView): int { v.date }

  function CommentDate(v: CommentView): int { v.date }

  /** The reply projection, with the soft-delete redaction. */
  function ProjectReply(r: Reply): (v: ReplyView)
    ensures r.isDeleted ==> v.content == DeletedReplyMarker
    ensures !r.isDeleted ==> v.content == r.content
    ensures v.id == r.id && v.date == r.date && v.username == r.username
  {
    ReplyView(r.id, if r.isDeleted then DeletedReplyMarker else r.content, r.date, r.username)
  }

  /** replies.filter((reply) => reply.comment_id === commentId). */
  function RepliesOf(replies: seq<Reply>, commentId: string): (g: seq<Reply>)
    ensures forall x :: multiset(g)[x] == if x.commentId == commentId then multiset(replies)[x] else 0
    ensures forall x :: x in g <==> x in replies && x.commentId == commentId
  {
    if replies == [] then []
    else
      assert replies == [replies[0]] + replies[1..];
      (if replies[0].commentId == commentId then [replies[0]] else []) + RepliesOf(replies[1..], commentId)
  }

  /** One comment with its replies, content and like count. */
  function CommentDetail(c: Comment, replies: seq<Reply>, likeCountOf: string -> nat): (v: CommentView)
    ensures c.isDeleted ==> v.content == DeletedCommentMarker
    ensures !c.isDeleted ==> v.content == c.content
    ensures v.id == c.id && v.username == c.username && v.date == c.date
    ensures v.likeCount == likeCountOf(c.id)
    ensures SortedBy(v.replies, ReplyDate)
    ensures multiset(v.replies) == multiset(MapSeq(ProjectReply, RepliesOf(replies, c.id)))
  {
    CommentView(
      c.id,
      c.username,
      c.date,
      SortBy(MapSeq(ProjectReply, RepliesOf(replies, c.id)), ReplyDate),
      if c.isDeleted then DeletedCommentMarker else c.content,
      likeCountOf(c.id))
  }

  /** comments.map(...), before the final sort. */
  function Details(comments: seq<Comment>, replies: seq<Reply>, likeCountOf: string -> nat): seq<CommentView> {
    MapSeq((c: Comment) => CommentDetail(c, replies, likeCountOf), comments)
  }

  /** execute(threadId), given what getThreadById, getCommentsByThreadId and getRepliesByThreadId return. */
  function Execute(found: Option<Thread>, comments: seq<Comment>, replies: seq<Reply>, likeCountOf: string -> nat)
    : (r: Result<ThreadView, Error>)
    ensures r.Failure? <==> found.None?
    ensures r.Failure? ==> r.error == ThreadNotFound
    ensures r.Success? ==> SortedBy(r.value.comments, CommentDate)
    ensures r.Success? ==> multiset(r.value.comments) == multiset(Details(comments, replies, likeCountOf))
    ensures r.Success? ==> |r.value.comments| == |comments|
  {
    match found
    case None => Failure(ThreadNotFound)
    case Some(th) =>
      Success(ThreadView(
        th.id, th.title, th.body, th.date, th.username,
        SortBy(Details(comments, replies, likeCountOf), CommentDate)))
  }

  /** Execute with the like port answered by the likes table. */
  function ExecuteOnTable(found: Option<Thread>, comments: seq<Comment>, replies: seq<Reply>, t: LikeTable.Table)
    : Result<ThreadView, Error>
  {
    Execute(found, comments, replies, LikeTable.CountPort(t))
  }

  // ---------------------------------------------------------------- replies

  /** A deleted reply shows the reply marker; any other reply shows its content. Other fields pass through. */
  lemma ReplyRedaction(r: Reply)
    ensures r.isDeleted ==> ProjectReply(r).content == DeletedReplyMarker
    ensures !r.isDeleted ==> ProjectReply(r).content == r.content
    ensures ProjectReply(r).id == r.id && ProjectReply(r).date == r.date
    ensures ProjectReply(r).username == r.username
  {
  }

  /** Once a reply is deleted, nothing of its content reaches the output. */
  lemma DeletedReplyHidesContent(r: Reply, other: string)
    requires r.isDeleted
    ensures ProjectReply(r) == ProjectReply(r.(content := other))
  {
  }

  /**
   A comment's replies are exactly the projections of the input replies
   carrying its id, each as often as it occurs, in date order.
   */
  lemma ReplyGrouping(c: Comment, replies: seq<Reply>, likeCountOf: string -> nat)
    ensures SortedBy(CommentDetail(c, replies, likeCountOf).replies, ReplyDate)
    ensures multiset(CommentDetail(c, replies, likeCountOf).replies)
            == multiset(MapSeq(ProjectReply, RepliesOf(replies, c.id)))
    ensures forall v :: v in CommentDetail(c, replies, likeCountOf).replies
              <==> exists r :: r in replies && r.commentId == c.id && v == ProjectReply(r)
  {
    var g := RepliesOf(replies, c.id);
    var projected := MapSeq(ProjectReply, g);
    var shown := CommentDetail(c, replies, likeCountOf).replies;
    assert shown == SortBy(projected, ReplyDate);
    PermutationMembers(shown, projected);
    MapMembers(ProjectReply, g);
    forall v ensures v in shown <==> exists r :: r in replies && r.commentId == c.id && v == ProjectReply(r) {
      assert v in shown <==> v in projected;
      assert v in projected <==> exists r :: r in g && v == ProjectReply(r);
    }
  }

  /** A comment no reply points at gets an empty reply list. */
  lemma NoMatchingReplies(c: Comment, replies: seq<Reply>, likeCountOf: string -> nat)
    requires forall r :: r in replies ==> r.commentId != c.id
    ensures CommentDetail(c, replies, likeCountOf).replies == []
  {
  }

  // --------------------------------------------------------------- comments

  /** A deleted comment shows the comment marker; the rest of the comment and its like count come through. */
  lemma CommentRedaction(c: Comment, replies: seq<Reply>, likeCountOf: string -> nat)
    ensures c.isDeleted ==> CommentDetail(c, replies, likeCountOf).content == DeletedCommentMarker
    ensures !c.isDeleted ==> CommentDetail(c, replies, likeCountOf).content == c.content
    ensures CommentDetail(c, replies, likeCountOf).id == c.id
    ensures CommentDetail(c, replies, likeCountOf).username == c.username
    ensures CommentDetail(c, replies, likeCountOf).date == c.date
    ensures CommentDetail(c, replies, likeCountOf).likeCount == likeCountOf(c.id)
  {
  }

  /** Once a comment is deleted, nothing of its content reaches the output. */
  lemma DeletedCommentHidesContent(c: Comment, other: string, replies: seq<Reply>, likeCountOf: string -> nat)
    requires c.isDeleted
    ensures CommentDetail(c, replies, likeCountOf) == CommentDetail(c.(content := other), replies, likeCountOf)
  {
  }

  /** The thread's own fields come through unchanged. */
  lemma ThreadFieldsKept(th: Thread, comments: seq<Comment>, replies: seq<Reply>, likeCountOf: string -> nat)
    ensures Execute(Some(th), comments, replies, likeCountOf).Success?
    ensures var v := Execute(Some(th), comments, replies, likeCountOf).value;
            v.id == th.id && v.title == th.title && v.body == th.body
            && v.date == th.date && v.username == th.username
  {
  }

  /**
   The output comments are the details of the input comments, one for one:
   every input comment's detail appears and nothing else does.
   */
  lemma CommentsCorrespond(th: Thread, comments: seq<Comment>, replies: seq<Reply>, likeCountOf: string -> nat)
    ensures var out := Execute(Some(th), comments, replies, likeCountOf).value.comments;
            forall v :: v in out <==> exists c :: c in comments && v == CommentDetail(c, replies, likeCountOf)
  {
    var out := Execute(Some(th), comments, replies, likeCountOf).value.comments;
    var detail := (c: Comment) => CommentDetail(c, replies, likeCountOf);
    PermutationMembers(out, Details(comments, replies, likeCountOf));
    MapMembers(detail, comments);
  }

  function CommentIds(cs: seq<Comment>): seq<string> {
    MapSeq((c: Comment) => c.id, cs)
  }

  function ViewIds(vs: seq<CommentView>): seq<string> {
    MapSeq((v: CommentView) => v.id, vs)
  }

  /** Each comment id occurs in the output exactly as often as in the input. */
  lemma OneOutputPerComment(th: Thread, comments: seq<Comment>, replies: seq<Reply>, likeCountOf: string -> nat)
    ensures multiset(ViewIds(Execute(Some(th), comments, replies, likeCountOf).value.comments))
            == multiset(CommentIds(comments))
  {
    var out := Execute(Some(th), comments, replies, likeCountOf).value.comments;
    var ds := Details(comments, replies, likeCountOf);
    MapPermutation((v: CommentView) => v.id, out, ds);
    assert ViewIds(ds) == CommentIds(comments);
  }

  /** Every reply shown sits under the comment it points at; replies to no input comment are dropped. */
  lemma RepliesUnderTheirComment(th: Thread, comments: seq<Comment>, replies: seq<Reply>, likeCountOf: string -> nat)
    ensures var out := Execute(Some(th), comments, replies, likeCountOf).value.comments;
            forall v, rv :: v in out && rv in v.replies ==>
              exists r :: r in replies && r.commentId == v.id && rv == ProjectReply(r)
                && exists c :: c in comments && c.id == r.commentId
  {
    var out := Execute(Some(th), comments, replies, likeCountOf).value.comments;
    CommentsCorrespond(th, comments, replies, likeCountOf);
    forall v, rv | v in out && rv in v.replies
      ensures exists r :: r in replies && r.commentId == v.id && rv == ProjectReply(r)
                && exists c :: c in comments && c.id == r.commentId
    {
      var c :| c in comments && v == CommentDetail(c, replies, likeCountOf);
      ReplyGrouping(c, replies, likeCountOf);
      var r :| r in replies && r.commentId == c.id && rv == ProjectReply(r);
      assert c.id == r.commentId;
    }
  }

  /** Every like count shown is the port's answer for that comment id. */
  lemma LikeCountsFromPort(th: Thread, comments: seq<Comment>, replies: seq<Reply>, likeCountOf: string -> nat)
    ensures var out := Execute(Some(th), comments, replies, likeCountOf).value.comments;
            forall v :: v in out ==> v.likeCount == likeCountOf(v.id)
  {
    CommentsCorrespond(th, comments, replies, likeCountOf);
  }

  /**
   Backed by the likes table, a comment's like count is its number of
   likes, 0 when it has none.
   */
  lemma LikeCountsFromTable(th: Thread, comments: seq<Comment>, replies: seq<Reply>, t: LikeTable.Table)
    requires LikeTable.Unique(t)
    ensures var out := ExecuteOnTable(Some(th), comments, replies, t).value.comments;
            forall v :: v in out ==> v.likeCount == |LikeTable.LikesOn(t, v.id)|
  {
    var f := LikeTable.CountPort(t);
    LikeCountsFromPort(th, comments, replies, f);
    forall id: string ensures f(id) == |LikeTable.LikesOn(t, id)| {
      LikeTable.CountIsDistinctLikes(t, id);
    }
  }

  /** A thread without comments comes back with an empty comment list. */
  lemma NoComments(th: Thread, replies: seq<Reply>, likeCountOf: string -> nat)
    ensures Execute(Some(th), [], replies, likeCountOf).value.comments == []
  {
  }
}
