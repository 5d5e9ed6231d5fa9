/**
 * The decision pipeline of `main` in index.js: select the bucket for the
 * diff size, derive the supported labels from the configuration, reconcile
 * the labels against those present before the run, then decide on the
 * comment against the same labels. Every GitHub call is an Action; the list
 * is what the run issues, in order.
 */
module Pipeline {
  import opened Wrappers
  import opened Buckets
  import opened Actions
  import opened Labels
  import opened Comments

  /**
   * No bucket admits the diff size: `assignedBucket` stays null, reading its
   * label throws, and the run fails before any label or comment is touched.
   */
  datatype RunError = NoMatchingBucket

  /** The label of every bucket, in configuration order. */
  function SupportedLabels(buckets: seq<Bucket>): (r: seq<string>)
    ensures |r| == |buckets|
    ensures forall i :: 0 <= i < |buckets| ==> r[i] == buckets[i].labelName
    decreases |buckets|
  {
    if buckets == [] then []
    else [buckets[0].labelName] + SupportedLabels(buckets[1..])
  }

  /** Every bucket's label is a supported label. */
  lemma BucketLabelSupported(buckets: seq<Bucket>, b: Bucket)
    requires b in buckets
    ensures b.labelName in SupportedLabels(buckets)
  {
    var i :| 0 <= i < |buckets| && buckets[i] == b;
    assert SupportedLabels(buckets)[i] == b.labelName;
  }

  /**
   * What the run does once a bucket is selected: reconcile the supported
   * labels against the labels present before the run, then decide on the
   * bucket's comment against those same labels.
   */
  function Reconcile(bucket: Bucket, buckets: seq<Bucket>, oldLabels: seq<string>): (r: seq<Action>)
    ensures forall a :: a in r && a.AddLabel? ==> a == AddLabel(bucket.labelName)
  {
    LabelActions(bucket.labelName, oldLabels, SupportedLabels(buckets)) + CommentActions(bucket, oldLabels)
  }

  /**
   * After the actions are carried out, the selected bucket's label is the
   * only supported label on the pull request and every other label is as it
   * was before the run.
   */
  lemma ReconcilePostState(bucket: Bucket, buckets: seq<Bucket>, oldLabels: seq<string>)
    requires bucket in buckets
    ensures var post := Apply(Reconcile(bucket, buckets, oldLabels), set l | l in oldLabels);
      && bucket.labelName in post
      && (forall l :: l in SupportedLabels(buckets) ==> (l in post <==> l == bucket.labelName))
      && (forall l :: l !in SupportedLabels(buckets) ==> (l in post <==> l in oldLabels))
  {
    var supported := SupportedLabels(buckets);
    var labelActs := LabelActions(bucket.labelName, oldLabels, supported);
    var old0 := set l | l in oldLabels;
    BucketLabelSupported(buckets, bucket);
    ApplyAppend(labelActs, CommentActions(bucket, oldLabels), old0);
    CommentKeepsLabels(bucket, oldLabels, Apply(labelActs, old0));
    Labels.PostState(bucket.labelName, oldLabels, supported);
  }

  /**
   * The run posts a comment exactly when the bucket has one and the pull
   * request did not carry the bucket's label before the run, and then posts
   * it after every label change.
   */
  lemma ReconcileComment(bucket: Bucket, buckets: seq<Bucket>, oldLabels: seq<string>)
    ensures var acts := Reconcile(bucket, buckets, oldLabels);
      forall c :: CreateComment(c) in acts <==> bucket.comment == Some(c) && bucket.labelName !in oldLabels
    ensures var acts := Reconcile(bucket, buckets, oldLabels);
      forall i :: 0 <= i < |acts| && acts[i].CreateComment? ==> i == |acts| - 1
  {
  }

  /**
   * Reconciling again, with the same bucket, on the labels the first
   * reconciliation produced issues nothing: no label change and no second
   * comment.
   */
  lemma ReconcileIdempotent(bucket: Bucket, buckets: seq<Bucket>, oldLabels: seq<string>, again: seq<string>)
    requires bucket in buckets
    requires (set l | l in again) == Apply(Reconcile(bucket, buckets, oldLabels), set l | l in oldLabels)
    ensures Reconcile(bucket, buckets, again) == []
  {
    var supported := SupportedLabels(buckets);
    var labelActs := LabelActions(bucket.labelName, oldLabels, supported);
    var old0 := set l | l in oldLabels;
    ApplyAppend(labelActs, CommentActions(bucket, oldLabels), old0);
    CommentKeepsLabels(bucket, oldLabels, Apply(labelActs, old0));
    Labels.Idempotent(bucket.labelName, oldLabels, supported, again);
    ReconcilePostState(bucket, buckets, oldLabels);
    assert bucket.labelName in again by {
      assert bucket.labelName in (set l | l in again);
    }
    assert CommentActions(bucket, again) == [];
  }

  /**
   * The rest of a run once selection is done: `None` (a null bucket) fails
   * before any action, a bucket is reconciled.
   */
  function AfterSelection(selected: Option<Bucket>, buckets: seq<Bucket>, oldLabels: seq<string>): (r: Result<seq<Action>, RunError>)
    ensures r.Failure? <==> selected.None?
    ensures selected.Some? ==> forall a :: a in r.value && a.AddLabel? ==> a == AddLabel(selected.value.labelName)
  {
    if selected.None? then Failure(NoMatchingBucket)
    else Success(Reconcile(selected.value, buckets, oldLabels))
  }

  /**
   * The actions of one run for a pull request with the given additions,
   * deletions and labels, selecting the bucket as the code is written.
   */
  function Plan(additions: nat, deletions: nat, buckets: seq<Bucket>, oldLabels: seq<string>): Result<seq<Action>, RunError>
  {
    AfterSelection(FirstFit(additions + deletions, buckets), buckets, oldLabels)
  }

  /** The same run with the bucket selected as intended, by tightest fit. */
  function IntendedPlan(additions: nat, deletions: nat, buckets: seq<Bucket>, oldLabels: seq<string>): Result<seq<Action>, RunError>
  {
    AfterSelection(TightestFit(additions + deletions, buckets), buckets, oldLabels)
  }

  /**
   * A run, as written or as intended, fails with no action exactly when no
   * bucket admits additions plus deletions.
   */
  lemma PlanFails(additions: nat, deletions: nat, buckets: seq<Bucket>, oldLabels: seq<string>)
    ensures Plan(additions, deletions, buckets, oldLabels).Failure? <==> NoneFits(additions + deletions, buckets)
    ensures IntendedPlan(additions, deletions, buckets, oldLabels).Failure? <==> NoneFits(additions + deletions, buckets)
  {
    FirstFitNone(additions + deletions, buckets);
    assert NoneFits(additions + deletions, buckets) <==> forall b :: b in buckets ==> !Fits(additions + deletions, b);
  }

  /** Once a bucket is selected, the run is its reconciliation. */
  lemma PlanSelects(additions: nat, deletions: nat, buckets: seq<Bucket>, oldLabels: seq<string>, bucket: Bucket)
    requires FirstFit(additions + deletions, buckets) == Some(bucket)
    ensures Plan(additions, deletions, buckets, oldLabels)
      == Success(LabelActions(bucket.labelName, oldLabels, SupportedLabels(buckets)) + CommentActions(bucket, oldLabels))
  {
  }

  /** main: the whole decision pipeline, collecting the calls it issues. */
  method Run(additions: nat, deletions: nat, buckets: seq<Bucket>, oldLabels: seq<string>)
    returns (r: Result<seq<Action>, RunError>)
    ensures r == Plan(additions, deletions, buckets, oldLabels)
    ensures r.Failure? <==> NoneFits(additions + deletions, buckets)
  {
    var diffSize := additions + deletions;
    var assignedBucket := GetPRBucket(diffSize, buckets);
    if assignedBucket.None? {
      PlanFails(additions, deletions, buckets, oldLabels);
      return Failure(NoMatchingBucket);
    }
    var bucket := assignedBucket.value;
    PlanSelects(additions, deletions, buckets, oldLabels, bucket);
    PlanFails(additions, deletions, buckets, oldLabels);
    var supported := SupportedLabels(buckets);
    var acts := UpdateLabels(bucket.labelName, oldLabels, supported);
    var comment := CommentActions(bucket, oldLabels);
    r := Success(acts + comment);
  }

  /**
   * Running again, with unchanged diff size and configuration, on the labels
   * a successful run produced issues nothing.
   */
  lemma PlanIdempotent(additions: nat, deletions: nat, buckets: seq<Bucket>, oldLabels: seq<string>, again: seq<string>)
    requires Plan(additions, deletions, buckets, oldLabels).Success?
    requires (set l | l in again) == Apply(Plan(additions, deletions, buckets, oldLabels).value, set l | l in oldLabels)
    ensures Plan(additions, deletions, buckets, again) == Success([])
  {
    var bucket := FirstFit(additions + deletions, buckets).value;
    ReconcileIdempotent(bucket, buckets, oldLabels, again);
  }

  /** Whenever both selections pick the same bucket, the two runs coincide. */
  lemma PlansAgree(additions: nat, deletions: nat, buckets: seq<Bucket>, oldLabels: seq<string>)
    requires FirstFit(additions + deletions, buckets) == TightestFit(additions + deletions, buckets)
    ensures Plan(additions, deletions, buckets, oldLabels) == IntendedPlan(additions, deletions, buckets, oldLabels)
  {
  }

  /** On a configuration sorted by ascending maxSize, the run does what was intended. */
  lemma {:induction false} PlanIsIntendedWhenAscending(additions: nat, deletions: nat, buckets: seq<Bucket>, oldLabels: seq<string>)
    requires Ascending(buckets)
    ensures Plan(additions, deletions, buckets, oldLabels) == IntendedPlan(additions, deletions, buckets, oldLabels)
  {
    assert FirstFit(additions + deletions, buckets) == TightestFit(additions + deletions, buckets) by {
      FirstFitIsTightestWhenAscending(additions + deletions, buckets);
    }
    PlansAgree(additions, deletions, buckets, oldLabels);
  }
}
