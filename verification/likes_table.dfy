/**
 The likes table behind LikesRepositoryPostgres, reduced to the
 (comment_id, owner) key of each row, in insertion order. Row ids and
 timestamps are not modelled. The like relation seen by the use cases is
 the set of keys present in the table.
 */
module LikeTable {
  import opened Results
  import opened Errors

  /** The (comment_id, owner) key of one row. */
  type Key = (string, string)

  /** The rows of the likes table. */
  type Table = seq<Key>

  /** The UNIQUE(comment_id, owner) constraint: no key sits in two rows. */
  predicate Unique(t: Table) {
    forall i, j :: 0 <= i < j < |t| ==> t[i] != t[j]
  }

  /** The like relation the table stores. */
  function Liked(t: Table): set<Key> {
    set k | k in t
  }

  /** The likes a comment has received, one key per liking owner. */
  function LikesOn(t: Table, commentId: string): set<Key> {
    set k | k in t && k.0 == commentId
  }

  /** SELECT * FROM likes WHERE comment_id = c AND owner = o. */
  function Select(t: Table, k: Key): (rows: Table)
    ensures |rows| == multiset(t)[k]
    ensures forall i :: 0 <= i < |rows| ==> rows[i] == k
  {
    if t == [] then []
    else
      assert t == [t[0]] + t[1..];
      (if t[0] == k then [t[0]] else []) + Select(t[1..], k)
  }

  /** verifyLikeExists: the select above returned at least one row. */
  function Exists(t: Table, commentId: string, owner: string): (b: bool)
    ensures b <==> (commentId, owner) in Liked(t)
  {
    |Select(t, (commentId, owner))| > 0
  }

  /** addLike: INSERT one row, refused by the uniqueness constraint when the key is already there. */
  function Insert(t: Table, commentId: string, owner: string): (r: Result<Table, Error>)
    ensures r.Failure? <==> (commentId, owner) in Liked(t)
    ensures r.Failure? ==> r.error == UniqueViolation
    ensures r.Success? ==> Liked(r.value) == Liked(t) + {(commentId, owner)}
    ensures r.Success? ==> multiset(r.value) == multiset(t) + multiset{(commentId, owner)}
    ensures r.Success? && Unique(t) ==> Unique(r.value)
  {
    if (commentId, owner) in t then Failure(UniqueViolation)
    else Success(t + [(commentId, owner)])
  }

  /** DELETE FROM likes WHERE key = k: every row with that key goes, the others stay in order. */
  function Without(t: Table, k: Key): (r: Table)
    ensures multiset(r) == multiset(t)[k := 0]
    ensures forall x :: x in r <==> x in t && x != k
    ensures Unique(t) ==> Unique(r)
  {
    if t == [] then []
    else
      assert t == [t[0]] + t[1..];
      var rest := Without(t[1..], k);
      if t[0] == k then rest
      else
        assert t[0] !in t[1..] ==> t[0] !in rest;
        [t[0]] + rest
  }

  /** deleteLikeByCommentIdAndOwner. */
  function Delete(t: Table, commentId: string, owner: string): (r: Table)
    ensures Liked(r) == Liked(t) - {(commentId, owner)}
    ensures Unique(t) ==> Unique(r)
    ensures (commentId, owner) !in Liked(t) ==> r == t
  {
    WithoutAbsent(t, (commentId, owner));
    Without(t, (commentId, owner))
  }

  /** Deleting a key that is not there leaves the table as it was. */
  lemma {:induction false} WithoutAbsent(t: Table, k: Key)
    ensures k !in t ==> Without(t, k) == t
  {
    if t != [] {
      WithoutAbsent(t[1..], k);
    }
  }

  /** getLikeCountByCommentId: SELECT COUNT(*) FROM likes WHERE comment_id = c. */
  function CountFor(t: Table, commentId: string): (n: nat)
    ensures n <= |t|
    ensures n == 0 <==> LikesOn(t, commentId) == {}
  {
    if t == [] then 0
    else
      var n := CountFor(t[1..], commentId);
      assert t == [t[0]] + t[1..];
      assert LikesOn(t, commentId)
          == LikesOn(t[1..], commentId) + (if t[0].0 == commentId then {t[0]} else {});
      (if t[0].0 == commentId then 1 else 0) + n
  }

  /** The like-count port as the table answers it. */
  function CountPort(t: Table): string -> nat {
    (commentId: string) => CountFor(t, commentId)
  }

  /**
   Under the uniqueness constraint the row count of a comment is the number
   of distinct (comment, owner) likes it has.
   */
  lemma {:induction false} CountIsDistinctLikes(t: Table, commentId: string)
    requires Unique(t)
    ensures CountFor(t, commentId) == |LikesOn(t, commentId)|
  {
    if t != [] {
      var rest := t[1..];
      UniqueTail(t);
      CountIsDistinctLikes(rest, commentId);
      assert t == [t[0]] + rest;
      if t[0].0 == commentId {
        assert LikesOn(t, commentId) == LikesOn(rest, commentId) + {t[0]};
      } else {
        assert LikesOn(t, commentId) == LikesOn(rest, commentId);
      }
    }
  }

  /** The rows after the first are unique and do not repeat the first. */
  lemma UniqueTail(t: Table)
    requires Unique(t) && t != []
    ensures Unique(t[1..]) && t[0] !in t[1..]
  {
    var rest := t[1..];
    forall i, j | 0 <= i < j < |rest| ensures rest[i] != rest[j] {
      assert rest[i] == t[i + 1] && rest[j] == t[j + 1];
    }
    forall i | 0 <= i < |rest| ensures rest[i] != t[0] {
      assert rest[i] == t[i + 1];
    }
  }
}
