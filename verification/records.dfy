/**
 The rows the thread, comment and reply repositories return, and the
 read-model GetThreadUseCase builds from them. Dates are the timestamps
 `new Date(date)` yields, as integers.
 */
module Records {

  /** Shown in place of a soft-deleted comment's content. */
  const DeletedCommentMarker: string := "**komentar telah dihapus**"

  /** Shown in place of a soft-deleted reply's content. */
  const DeletedReplyMarker: string := "**balasan telah dihapus**"

  datatype Thread = Thread(id: string, title: string, body: string, date: int, username: string)

  datatype Comment = Comment(id: string, username: string, date: int, content: string, isDeleted: bool)

  datatype Reply = Reply(
    id: string, commentId: string, username: string, date: int, content: string, isDeleted: bool)

  /** A reply as it appears under its comment. */
  datatype ReplyView = ReplyView(id: string, content: string, date: int, username: string)

  /** A comment as it appears in the thread detail. */
  datatype CommentView = CommentView(
    id: string, username: string, date: int, replies: seq<ReplyView>, content: string, likeCount: nat)

  /** The thread's own fields followed by its comments. */
  datatype ThreadView = ThreadView(
    id: string, title: string, body: string, date: int, username: string, comments: seq<CommentView>)
}
