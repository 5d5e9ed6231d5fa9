/**
 * The comment decision: `addCommentIfNotNull` in index.js. The bucket's
 * comment is posted when it is not null and the pull request did not carry
 * the bucket's label before the run, that is, when it newly enters the bucket.
 */
module Comments {
  import opened Wrappers
  import opened Buckets
  import opened Actions

  /** The comment action (none or one) for the selected bucket. */
  function CommentActions(bucket: Bucket, oldLabels: seq<string>): (r: seq<Action>)
    ensures |r| <= 1
    ensures forall c :: CreateComment(c) in r <==> bucket.comment == Some(c) && bucket.labelName !in oldLabels
    ensures forall a :: a in r ==> a.CreateComment?
  {
    if bucket.comment.Some? && bucket.labelName !in oldLabels then [CreateComment(bucket.comment.value)]
    else []
  }

  /** Posting a comment leaves the labels as they are. */
  lemma {:induction false} CommentKeepsLabels(bucket: Bucket, oldLabels: seq<string>, labels: set<string>)
    ensures Apply(CommentActions(bucket, oldLabels), labels) == labels
  {
    var acts := CommentActions(bucket, oldLabels);
    if acts != [] {
      ApplySingle(acts[0], labels);
      assert acts == [acts[0]];
    }
  }
}
