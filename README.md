# PR size labeler: a Dafny model of its decision logic

The modelled system is a GitHub Action that sorts a pull request into a size
bucket and keeps its labels in step with that bucket. The diff size is
additions plus deletions. The bucket configuration is an ordered list of
`maxSize` (an exclusive upper bound), `label` and an optional `comment`. The
action does three things:

1. It selects a bucket for the diff size (`getPRBucket`).
2. It reconciles the pull request's labels against the supported labels,
   which are the buckets' labels in configuration order (`updateLabels`).
   A stale supported label is removed. The selected bucket's label is added
   when it is missing.
3. It posts the bucket's comment when the pull request newly enters the
   bucket (`addCommentIfNotNull`).

Every GitHub call that changes the pull request becomes an abstract `Action`: `RemoveLabel(l)`,
`AddLabel(l)` or `CreateComment(body)`. The model computes the list of
actions one run issues, in order. `Actions.Apply` gives the effect of that
list on the set of labels, so properties of the state after the run can be
stated. The two reads, the pull request's diff counts and its current
labels (`pulls.get`, index.js:21, reached from lines 30 and 71), become
inputs.

Modules `Buckets`, `Actions`, `Labels`, `Comments` and `Pipeline` follow the
pieces of `index.js`. `Wrappers` and `Scenarios` support them:

- `Wrappers`: `Option` (`None` is JavaScript `null`) and `Result`.
- `Buckets`: bucket selection, both as written and as intended.
- `Actions`: the action record and its effect on a label set.
- `Labels`: label reconciliation.
- `Comments`: the comment decision.
- `Pipeline`: the decision pipeline of `main`.
- `Scenarios`: concrete runs against a three-bucket configuration.

Bucket selection is modelled as the code is written. Line 53 compares
`assignedBucket.size`, a property that buckets do not have. In JavaScript,
`undefined > n` is false, so once a bucket is assigned it is never replaced.
The function really returns the first bucket in list order whose `maxSize`
exceeds the diff size (`Buckets.FirstFit`). The intended rule is the
tightest fit: the smallest `maxSize` that still fits (`Buckets.TightestFit`).
The two agree when the list is sorted by ascending `maxSize`. `Pipeline.Run` follows the code as
written. `Pipeline.IntendedPlan` is the same run with the intended
selection. The two are proved equal on ascending configurations.

When no bucket fits, `assignedBucket` stays `null`. Reading its label then
throws, and the run fails before it touches any label or comment. The model
returns `Failure(NoMatchingBucket)`, which carries no actions. With buckets
bounded by 10, 100 and 100000, a diff size of 150000 fits none of them. The
strict test `diffSize < maxSize` (index.js:52) rejects the last bucket, so
the run fails (`Scenarios.UncoveredFails`).

## Model

| member | source | states |
|---|---|---|
| `Buckets.GetPRBucket` | index.js:47-66 | The scan as written, with the test of line 53 as `JsGreater(SizeProperty(...), maxSize)` (the `size` test compares an undefined property, hence false), returns exactly `FirstFit`, and returns `None` (the `null` that makes line 62 throw) exactly when no bucket has `diffSize < maxSize`. |
| `Buckets.SizeNeverGreater` | index.js:53 | `assignedBucket.size > bucket.maxSize` is false for every assigned bucket and every bound: `SizeProperty` reads `undefined`, and `JsGreater` of `undefined` is false. |
| `Buckets.FirstFit` | index.js:49-57 | A selected bucket is a member of the list and admits the diff size. |
| `Buckets.FirstFitNone` | index.js:49-62 | Selection finds nothing exactly when no bucket admits the diff size. |
| `Buckets.FirstFitAt` | index.js:50-57 | Selection returns the bucket at the first index, in list order, that admits the diff size. |
| `Buckets.TightestFit` | index.js:49-57 | Intended selection: `None` exactly when no bucket fits; otherwise a fitting bucket of the list whose `maxSize` is at most that of every fitting bucket. |
| `Buckets.TightestFitAt` | index.js:49-57 | Intended selection returns the bucket at the index with the smallest fitting `maxSize`, earliest among ties. |
| `Buckets.GetPRBucketTightest` | index.js:47-66 | The scan with the evidently intended comparison of `maxSize` returns exactly `TightestFit`, and `None` exactly when nothing fits. |
| `Buckets.FirstFitIsTightestWhenAscending` | index.js:49-57 | On a list sorted by non-decreasing `maxSize`, the first fit is the tightest fit. This is stronger than agreement on strictly ascending lists. |
| `Buckets.TightestFitPermutation` | index.js:49-57 | With pairwise distinct `maxSize` values, the intended selection does not depend on the order of the list. |
| `Buckets.FirstFitIsNotTightest` | index.js:53 | With buckets `[maxSize 100 "S", maxSize 10 "XS"]` and diff size 5, the code selects S while the tightest fit is XS. |
| `Actions.Apply` | index.js:86-122 | Carrying out the calls changes no label that none of them adds or removes. |
| `Labels.Decide` | index.js:87-106 | For one supported label: at most one action, about that label only. It is removed exactly when it was present and differs from the new label, and added exactly when it is the new label and was absent. |
| `Labels.LabelActions` | index.js:86-107 | `RemoveLabel(l)` is issued exactly for supported labels `l` that were present and differ from the new label. `AddLabel(l)` is issued exactly when `l` is the new label, is supported and was absent. No comment is issued. |
| `Labels.UpdateLabels` | index.js:78-108 | The loop over the supported labels issues exactly the actions `LabelActions` specifies, in order. |
| `Labels.AtMostOneAdd` | index.js:95-105 | With distinct supported labels, no action is issued twice and at most one label is added. |
| `Labels.PostState` | index.js:86-107 | After the actions, the labels are the old labels minus every supported label, plus the new label when it is supported. |
| `Labels.DecideStep` | index.js:86-107 | One more iteration of the loop over supported labels turns the post-state for the labels seen so far into the post-state for the longer list. |
| `Labels.Settled` | index.js:86-107 | When the labels already hold, among the supported ones, exactly the new label, no action is issued. |
| `Labels.Idempotent` | index.js:86-107 | Running reconciliation again on the labels it produced, with the same new label, issues no action. |
| `Comments.CommentActions` | index.js:110-124 | At most one action, always a comment. `CreateComment(c)` is issued exactly when the bucket's comment is `c` (not null) and its label was not among the old labels. |
| `Comments.CommentKeepsLabels` | index.js:117-122 | Posting the comment leaves the labels unchanged. |
| `Pipeline.SupportedLabels` | index.js:136-138 | The supported labels are the buckets' labels, position by position. |
| `Pipeline.BucketLabelSupported` | index.js:136-145 | The selected bucket's label is among the supported labels passed to reconciliation. |
| `Pipeline.Reconcile` | index.js:139-146 | Once a bucket is selected, the only label the run may add is that bucket's label. |
| `Pipeline.ReconcilePostState` | index.js:134-146 | After the run's actions, the selected bucket's label is the only supported label present, and every unsupported label is as it was before the run. |
| `Pipeline.ReconcileComment` | index.js:110-146 | A comment is posted exactly when the bucket has one and its label was absent before the run. The comment is the last action. |
| `Pipeline.ReconcileIdempotent` | index.js:134-146 | Reconciling the same bucket again on the labels the run produced issues nothing: no label change and no second comment. |
| `Pipeline.AfterSelection` | index.js:62 | The rest of a run fails exactly when selection left `null` (reading its `label` throws and the run is failed through lines 149-151); otherwise the only label the run may add is the selected bucket's. |
| `Pipeline.PlanFails` | index.js:126-146 | A run, with the selection as written or as intended, fails and issues no action exactly when no bucket admits additions plus deletions (line 31). |
| `Pipeline.PlansAgree` | index.js:134-146 | Whenever the two selections pick the same bucket, the run as written and the intended run issue the same actions. |
| `Pipeline.Run` | index.js:126-146 | The pipeline of `main` (select, supported labels, update labels, comment) returns exactly `Plan`, and fails exactly when no bucket fits. |
| `Pipeline.PlanIdempotent` | index.js:134-146 | A second run, with the same diff size and configuration, on the labels a successful run produced succeeds and issues nothing. |
| `Pipeline.PlanIsIntendedWhenAscending` | index.js:134-146 | On a configuration sorted by ascending `maxSize`, the run as written equals the intended run. |
| `Scenarios.MovesToSmall` | index.js:134-146 | Diff size 50 with old labels `[XS]`: remove XS, add S, no comment (S has an explicit `comment: null`). |
| `Scenarios.StaysSmall` | index.js:134-146 | Diff size 50 with old labels `[S, bug]`: no action. |
| `Scenarios.EntersLarge` | index.js:134-146 | Diff size 50000 with no labels: add L, then post L's comment. |
| `Scenarios.StaysLarge` | index.js:134-146 | Diff size 50000 with old labels `[L]`: no action, so no second comment. |
| `Scenarios.UncoveredFails` | index.js:49-65 | Diff sizes 200000 and 150000 exceed every `maxSize` of the example configuration, so the run fails. |

## Findings

| source | as written | input that shows it | evidently intended | confidence | as-written member | corrected member |
|---|---|---|---|---|---|---|
| index.js:53 | The replacement test compares `assignedBucket.size`, which is undefined, so it is always false. The first fitting bucket in list order wins. | Buckets `[{maxSize: 100, label: S}, {maxSize: 10, label: XS}]` with diff size 5 select S. | Compare `assignedBucket.maxSize`, so the tightest fit (XS) wins whatever the list order. | not executed | `Buckets.FirstFitIsNotTightest` | `Buckets.GetPRBucketTightest` |

The selection as written is `Buckets.GetPRBucket`. `Pipeline.Run` uses it,
because the model follows the code. The corrected selection feeds
`Pipeline.IntendedPlan`. Every reconciliation and comment property
(`Pipeline.ReconcilePostState`, `Pipeline.ReconcileComment`,
`Pipeline.ReconcileIdempotent`) is proved for any bucket of the list. It
therefore holds for both selections.

## Left out

- GitHub API calls, `github.context`, the token input and `getOctokit` (index.js:9-27, 68-76): these are remote I/O. The model takes additions, deletions and the old label names as inputs. It emits abstract actions in place of `removeLabel`, `addLabels` and `createComment`.
- Loading the configuration with `fs.readFileSync` and `js-yaml`, including the default file (index.js:36-45): these are file I/O and a foreign library. The bucket list is an input sequence.
- The integer check on the diff size and `process.exit(1)` (index.js:129-132): the diff size is a `nat`, which stands for that check. `maxSize` is an `int`, so a YAML infinity or a fractional bound is not modelled.
- The removals, additions and comment are promises that are not awaited (index.js:89, 100, 117). Their completion order, concurrency and failures are not modelled. The action list is applied in the order it is issued, and a failing call is not modelled.
- JavaScript `undefined` versus `null`: a missing `comment` key is `undefined` and passes the `!== null` test. Fields other than `maxSize`, `label` and `comment` are not modelled. Only `None` (null) and `Some(s)` are modelled, and an empty comment is `Some("")`.
- Console logging and `core.setFailed` (index.js:32, 58-64, 149-151): a failed run is `Failure(NoMatchingBucket)`.
- The label set on GitHub is modelled as a `set<string>`: adding a present label or removing an absent one changes nothing. The old labels are the list the API returns, and only membership in it is used.
