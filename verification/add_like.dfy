/**
 AddLikeUseCase: the like toggle. Thread and comment existence are checked
 first, then the payload is validated, then one read of the likes table
 decides between one delete and one insert.
 */
module AddLike {
  import opened Results
  import opened Errors
  import opened NewLikes
  import opened LikeTable

  /** The use case payload { threadId, commentId, owner }; any property may be missing or mistyped. */
  datatype Payload = Payload(threadId: Field, commentId: Field, owner: Field)

  /**
   The thread and comment ports, as the argument values for which
   verifyThreadExists and verifyCommentExists({ threadId, commentId }) resolve.
   */
  datatype Directory = Directory(threads: set<Field>, comments: set<(Field, Field)>)

  /** The single write a successful toggle performs. */
  datatype Write = Added(key: Key) | Removed(key: Key)

  /** A successful toggle: the write it made and the table after it. */
  datatype Toggled = Toggled(write: Write, table: Table)

  /** The table after a write: an appended row, or every row with the key deleted. */
  function Apply(t: Table, w: Write): Table {
    match w
    case Added(k) => t + [k]
    case Removed(k) => Delete(t, k.0, k.1)
  }

  /** Both existence checks pass and both NewLike properties are strings. */
  predicate Admitted(dir: Directory, p: Payload) {
    && p.threadId in dir.threads
    && (p.threadId, p.commentId) in dir.comments
    && p.commentId.Text?
    && p.owner.Text?
  }

  /** The (commentId, owner) pair a payload toggles. */
  function KeyOf(p: Payload): Key
    requires p.commentId.Text? && p.owner.Text?
  {
    (p.commentId.value, p.owner.value)
  }

  /** execute(useCasePayload). */
  function Execute(dir: Directory, t: Table, p: Payload): (r: Result<Toggled, Error>)
    // the thread check comes first, then the comment check, then validation
    ensures p.threadId !in dir.threads ==> r == Failure(ThreadNotFound)
    ensures p.threadId in dir.threads && (p.threadId, p.commentId) !in dir.comments
            ==> r == Failure(CommentNotFound)
    ensures p.threadId in dir.threads && (p.threadId, p.commentId) in dir.comments
            ==> (r.Failure? ==> r.error.IsValidation())
    ensures p.threadId in dir.threads && (p.threadId, p.commentId) in dir.comments
            && (p.commentId.Absent? || p.owner.Absent?)
            ==> r == Failure(MissingProperty)
    ensures p.threadId in dir.threads && (p.threadId, p.commentId) in dir.comments
            && !p.commentId.Absent? && !p.owner.Absent? && (p.commentId.NonText? || p.owner.NonText?)
            ==> r == Failure(WrongDataType)
    ensures r.Success? <==> Admitted(dir, p)
    // exactly one write, on the payload's own pair, chosen by the read
    ensures r.Success? ==> r.value.write.key == KeyOf(p)
    ensures r.Success? ==> (r.value.write.Removed? <==> KeyOf(p) in Liked(t))
    ensures r.Success? ==> r.value.table == Apply(t, r.value.write)
  {
    if p.threadId !in dir.threads then Failure(ThreadNotFound)
    else if (p.threadId, p.commentId) !in dir.comments then Failure(CommentNotFound)
    else
      var like :- Validate(p.commentId, p.owner);
      if Exists(t, like.commentId, like.owner) then
        Success(Toggled(Removed((like.commentId, like.owner)), Delete(t, like.commentId, like.owner)))
      else
        match Insert(t, like.commentId, like.owner)
        case Success(t') => Success(Toggled(Added((like.commentId, like.owner)), t'))
        case Failure(e) => Failure(e)
  }

  /** The table the caller observes afterwards: unchanged when execute rejects. */
  function After(dir: Directory, t: Table, p: Payload): Table {
    var r := Execute(dir, t, p);
    if r.Success? then r.value.table else t
  }

  /** A toggle flips the payload's pair in the like relation and touches no other pair. */
  lemma ToggleFlips(dir: Directory, t: Table, p: Payload)
    requires Admitted(dir, p)
    ensures KeyOf(p) in Liked(After(dir, t, p)) <==> KeyOf(p) !in Liked(t)
    ensures forall k :: k != KeyOf(p) ==> (k in Liked(After(dir, t, p)) <==> k in Liked(t))
  {
  }

  /** A rejected toggle leaves the table as it was, whatever the reason. */
  lemma RejectionHasNoEffect(dir: Directory, t: Table, p: Payload)
    requires !Admitted(dir, p)
    ensures Execute(dir, t, p).Failure?
    ensures After(dir, t, p) == t
  {
  }

  /** The toggle never reaches the uniqueness constraint: its insert happens only after a miss. */
  lemma NoUniqueViolation(dir: Directory, t: Table, p: Payload)
    ensures Execute(dir, t, p) != Failure(UniqueViolation)
  {
  }

  /** Two successful toggles of the same pair give back the like relation they started from. */
  lemma ToggleTwiceRestores(dir: Directory, t: Table, p: Payload)
    requires Admitted(dir, p)
    ensures Liked(After(dir, After(dir, t, p), p)) == Liked(t)
  {
    var k := KeyOf(p);
    var t1 := After(dir, t, p);
    var t2 := After(dir, t1, p);
    if k in Liked(t) {
      assert Liked(t1) == Liked(t) - {k};
      assert Liked(t2) == Liked(t1) + {k};
    } else {
      assert Liked(t1) == Liked(t) + {k};
      assert Liked(t2) == Liked(t1) - {k};
    }
  }

  /** Starting from no like, two toggles give back the very same rows. */
  lemma LikeThenUnlikeRestoresRows(dir: Directory, t: Table, p: Payload)
    requires Admitted(dir, p) && KeyOf(p) !in Liked(t)
    ensures After(dir, After(dir, t, p), p) == t
  {
    var k := KeyOf(p);
    var t1 := After(dir, t, p);
    assert t1 == t + [k];
    WithoutAppended(t, k);
  }

  /** Deleting a key just appended to a table that lacked it removes exactly that row. */
  lemma {:induction false} WithoutAppended(t: Table, k: Key)
    requires k !in t
    ensures Without(t + [k], k) == t
  {
    if t == [] {
      assert [] + [k] == [k];
    } else {
      assert (t + [k])[1..] == t[1..] + [k];
      WithoutAppended(t[1..], k);
      assert t == [t[0]] + t[1..];
    }
  }

  /** Any toggle, successful or not, keeps the uniqueness invariant. */
  lemma TogglePreservesUnique(dir: Directory, t: Table, p: Payload)
    requires Unique(t)
    ensures Unique(After(dir, t, p))
  {
  }

  /** The table after a sequence of toggle requests, each seeing the result of the one before. */
  function Run(dir: Directory, t: Table, ps: seq<Payload>): Table
    decreases |ps|
  {
    if ps == [] then t else Run(dir, After(dir, t, ps[0]), ps[1..])
  }

  /** Sequential toggles never put two rows with the same (comment_id, owner). */
  lemma {:induction false} RunPreservesUnique(dir: Directory, t: Table, ps: seq<Payload>)
    requires Unique(t)
    ensures Unique(Run(dir, t, ps))
    decreases |ps|
  {
    if ps != [] {
      TogglePreservesUnique(dir, t, ps[0]);
      RunPreservesUnique(dir, After(dir, t, ps[0]), ps[1..]);
    }
  }

  /** Three toggles on a comment nobody liked: like, unlike, like again. */
  lemma ToggleSequence(dir: Directory, t: Table, p: Payload)
    requires Admitted(dir, p) && KeyOf(p) !in Liked(t)
    ensures KeyOf(p) in Liked(Run(dir, t, [p]))
    ensures KeyOf(p) !in Liked(Run(dir, t, [p, p]))
    ensures KeyOf(p) in Liked(Run(dir, t, [p, p, p]))
  {
    var t1 := After(dir, t, p);
    var t2 := After(dir, t1, p);
    var t3 := After(dir, t2, p);
    assert [p][1..] == [] && [p, p][1..] == [p] && [p, p, p][1..] == [p, p];
    assert Run(dir, t2, [p]) == t3;
    assert Run(dir, t1, [p]) == t2;
    assert Run(dir, t1, [p, p]) == t3;
    assert Run(dir, t, [p]) == t1;
  }
}
