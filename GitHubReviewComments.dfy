/**
 * Review comments of a GitHub pull request: parseReviewComment and the
 * threading that getReviewComments does while it walks the forge's listing.
 */
module GitHubReviewComments {
  import opened Wrappers
  import opened GitHubReviews

  /**
   * One element of the forge's review-comment listing. `inReplyTo` is the
   * optional in_reply_to_id; timestamps are kept as the forge's text.
   */
  datatype CommentRecord = CommentRecord(
    id: string,
    inReplyTo: Option<string>,
    user: User,
    commitId: string,
    path: string,
    originalPosition: int,
    body: string,
    createdAt: string,
    updatedAt: string)

  datatype ReviewComment = ReviewComment(
    parent: Option<ReviewComment>,
    threadId: string,
    hash: string,
    path: string,
    line: int,
    id: string,
    body: string,
    author: User,
    createdAt: string,
    updatedAt: string)

  /**
   * parseReviewComment: the record's fields, the given parent, and the
   * parent's thread id, or the comment's own id when there is no parent.
   */
  function ParseReviewComment(parent: Option<ReviewComment>, rec: CommentRecord): (c: ReviewComment)
    ensures c.parent == parent && c.id == rec.id && c.body == rec.body && c.author == rec.user
    ensures c.hash == rec.commitId && c.path == rec.path && c.line == rec.originalPosition
    ensures c.createdAt == rec.createdAt && c.updatedAt == rec.updatedAt
    ensures parent.None? ==> c.threadId == rec.id
    ensures parent.Some? ==> c.threadId == parent.value.threadId
  {
    var threadId := if parent.None? then rec.id else parent.value.threadId;
    ReviewComment(parent, threadId, rec.commitId, rec.path, rec.originalPosition,
                  rec.id, rec.body, rec.user, rec.createdAt, rec.updatedAt)
  }

  /** The position of the last record in s whose id is `id`, if any. */
  function LastWithId(s: seq<CommentRecord>, id: string): (r: Option<nat>)
    ensures r.Some? ==> r.value < |s| && s[r.value].id == id &&
                        forall k :: r.value < k < |s| ==> s[k].id != id
    ensures r.None? ==> forall k :: 0 <= k < |s| ==> s[k].id != id
    decreases |s|
  {
    if s == [] then None
    else if s[|s| - 1].id == id then Some(|s| - 1)
    else LastWithId(s[..|s| - 1], id)
  }

  /**
   * The parent of records[i]: the latest earlier comment whose id is the
   * record's in_reply_to_id. None when the record is no reply, or replies to
   * a comment not listed before it.
   */
  function ParentIndex(records: seq<CommentRecord>, i: nat): (p: Option<nat>)
    requires i < |records|
    ensures p.Some? ==> p.value < i
  {
    match records[i].inReplyTo
    case None => None
    case Some(target) => LastWithId(records[..i], target)
  }

  /** out[i] is records[i] parsed with the parent ParentIndex names. */
  predicate ThreadedAt(records: seq<CommentRecord>, out: seq<ReviewComment>, i: nat)
    requires i < |records| && i < |out|
  {
    match ParentIndex(records, i)
    case None => out[i] == ParseReviewComment(None, records[i])
    case Some(j) => out[i] == ParseReviewComment(Some(out[j]), records[i])
  }

  /** out is the threaded form of records: same length, same order. */
  predicate Threaded(records: seq<CommentRecord>, out: seq<ReviewComment>) {
    |out| == |records| && forall i :: 0 <= i < |records| ==> ThreadedAt(records, out, i)
  }

  /** GitHubPullRequest.getReviewComments, given the forge's listing. */
  method GetReviewComments(records: seq<CommentRecord>) returns (ret: seq<ReviewComment>)
    ensures Threaded(records, ret)
  {
    ret := [];
    var idToComment: map<string, ReviewComment> := map[];
    for i := 0 to |records|
      invariant |ret| == i
      invariant forall k :: 0 <= k < i ==> ThreadedAt(records, ret, k)
      invariant Indexed(records, ret, idToComment)
    {
      var rec := records[i];
      var parent: Option<ReviewComment> := None;
      if rec.inReplyTo.Some? && rec.inReplyTo.value in idToComment {
        parent := Some(idToComment[rec.inReplyTo.value]);
      }
      ParentFromIndex(records, ret, idToComment, parent);
      var comment := ParseReviewComment(parent, rec);
      ThreadStep(records, ret, comment, parent);
      IndexStep(records, ret, idToComment, comment);
      idToComment := idToComment[comment.id := comment];
      ret := ret + [comment];
    }
  }

  /**
   * The map getReviewComments keeps while walking: every id listed so far,
   * mapped to the output of the last record with that id.
   */
  ghost predicate Indexed(records: seq<CommentRecord>, ret: seq<ReviewComment>, idToComment: map<string, ReviewComment>)
    requires |ret| <= |records|
  {
    && (forall id :: id in idToComment <==> LastWithId(records[..|ret|], id).Some?)
    && (forall id :: id in idToComment ==> idToComment[id] == ret[LastWithId(records[..|ret|], id).value])
  }

  /** The parent the map lookup finds is the one ParentIndex names. */
  lemma ParentFromIndex(records: seq<CommentRecord>, ret: seq<ReviewComment>,
                        idToComment: map<string, ReviewComment>, parent: Option<ReviewComment>)
    requires |ret| < |records| && Indexed(records, ret, idToComment)
    requires var rec := records[|ret|];
             parent == if rec.inReplyTo.Some? && rec.inReplyTo.value in idToComment
                       then Some(idToComment[rec.inReplyTo.value]) else None
    ensures match ParentIndex(records, |ret|)
            case None => parent.None?
            case Some(j) => parent == Some(ret[j])
  {
  }

  /** Appending the next comment keeps every position threaded and threads the new one. */
  lemma ThreadStep(records: seq<CommentRecord>, ret: seq<ReviewComment>, comment: ReviewComment, parent: Option<ReviewComment>)
    requires |ret| < |records|
    requires forall k :: 0 <= k < |ret| ==> ThreadedAt(records, ret, k)
    requires match ParentIndex(records, |ret|)
             case None => parent.None?
             case Some(j) => parent == Some(ret[j])
    requires comment == ParseReviewComment(parent, records[|ret|])
    ensures forall k :: 0 <= k < |ret| + 1 ==> ThreadedAt(records, ret + [comment], k)
  {
    var i := |ret|;
    assert ThreadedAt(records, ret + [comment], i) by {
      assert (ret + [comment])[i] == comment;
      match ParentIndex(records, i)
      case None =>
      case Some(j) => assert (ret + [comment])[j] == ret[j];
    }
    AppendKeepsThreaded(records, ret, comment);
  }

  /** Recording the new comment under its id keeps the map in step with the output. */
  lemma IndexStep(records: seq<CommentRecord>, ret: seq<ReviewComment>,
                  idToComment: map<string, ReviewComment>, comment: ReviewComment)
    requires |ret| < |records| && Indexed(records, ret, idToComment)
    requires comment.id == records[|ret|].id
    ensures Indexed(records, ret + [comment], idToComment[comment.id := comment])
  {
    var i := |ret|;
    PrefixStep(records, i);
    var m := idToComment[comment.id := comment];
    var out := ret + [comment];
    forall id | id in m ensures m[id] == out[LastWithId(records[..i + 1], id).value] {
      if id != comment.id {
        assert out[LastWithId(records[..i], id).value] == ret[LastWithId(records[..i], id).value];
      }
    }
  }

  /** LastWithId on one record more: the new record wins for its own id. */
  lemma PrefixStep(records: seq<CommentRecord>, i: nat)
    requires i < |records|
    ensures forall id :: LastWithId(records[..i + 1], id) ==
                         if records[i].id == id then Some(i) else LastWithId(records[..i], id)
  {
    var s := records[..i + 1];
    assert s[..i] == records[..i] && s[i] == records[i];
    forall id ensures LastWithId(s, id) == if records[i].id == id then Some(i) else LastWithId(records[..i], id) {
    }
  }

  /** Appending to the output keeps every earlier position threaded. */
  lemma AppendKeepsThreaded(records: seq<CommentRecord>, out: seq<ReviewComment>, c: ReviewComment)
    requires |out| <= |records|
    requires forall k :: 0 <= k < |out| ==> ThreadedAt(records, out, k)
    ensures forall k :: 0 <= k < |out| ==> ThreadedAt(records, out + [c], k)
  {
    forall k | 0 <= k < |out| ensures ThreadedAt(records, out + [c], k) {
      assert ThreadedAt(records, out, k);
      match ParentIndex(records, k)
      case None =>
      case Some(j) => assert (out + [c])[j] == out[j];
    }
  }

  /**
   * Every comment's thread id is the id of a comment at or before it that
   * has no parent: the root of its thread.
   */
  lemma {:induction false} ThreadIdNamesRoot(records: seq<CommentRecord>, out: seq<ReviewComment>, i: nat)
    requires Threaded(records, out) && i < |out|
    ensures exists k :: 0 <= k <= i && out[k].parent.None? && out[i].threadId == records[k].id
    decreases i
  {
    assert ThreadedAt(records, out, i);
    match ParentIndex(records, i)
    case None =>
      assert out[i].parent.None? && out[i].threadId == records[i].id;
    case Some(j) =>
      ThreadIdNamesRoot(records, out, j);
  }
}
