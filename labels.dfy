/**
 * Label reconciliation: `updateLabels` in index.js. For each supported
 * label, in order, the action removes it when the pull request carried it
 * before the run and it is not the new label, adds it when it is the new
 * label and was absent, and otherwise leaves it alone. Every decision reads
 * the labels as they were before the run.
 */
module Labels {
  import opened Actions

  /** No label occurs twice in the list. */
  predicate Distinct(labels: seq<string>)
  {
    forall i, j :: 0 <= i < |labels| && 0 <= j < |labels| && labels[i] == labels[j] ==> i == j
  }

  /** No action occurs twice in the list. */
  predicate DistinctActions(acts: seq<Action>)
  {
    forall i, j :: 0 <= i < |acts| && 0 <= j < |acts| && acts[i] == acts[j] ==> i == j
  }

  /** The action (none or one) chosen for one supported label. */
  function Decide(newLabel: string, oldLabels: seq<string>, supported: string): (r: seq<Action>)
    ensures |r| <= 1
    ensures forall a :: a in r ==> a == RemoveLabel(supported) || a == AddLabel(supported)
    ensures RemoveLabel(supported) in r <==> supported in oldLabels && supported != newLabel
    ensures AddLabel(supported) in r <==> supported == newLabel && supported !in oldLabels
  {
    if supported in oldLabels && supported != newLabel then [RemoveLabel(supported)]
    else if supported == newLabel && supported !in oldLabels then [AddLabel(supported)]
    else []
  }

  /**
   * The actions chosen for the supported labels, in their order. A label is
   * removed exactly when it is supported, was present and is not the new
   * label; a label is added exactly when it is the new label, is supported
   * and was absent; no comment is posted here.
   */
  function LabelActions(newLabel: string, oldLabels: seq<string>, supported: seq<string>): (r: seq<Action>)
    ensures forall l :: RemoveLabel(l) in r <==> l in supported && l in oldLabels && l != newLabel
    ensures forall l :: AddLabel(l) in r <==> l == newLabel && l in supported && l !in oldLabels
    ensures forall a :: a in r ==> !a.CreateComment?
    decreases |supported|
  {
    if supported == [] then []
    else
      var prefix := supported[..|supported| - 1];
      assert forall l :: l in supported <==> l in prefix || l == supported[|supported| - 1];
      LabelActions(newLabel, oldLabels, prefix) + Decide(newLabel, oldLabels, supported[|supported| - 1])
  }

  /**
   * updateLabels: walks the supported labels and issues one removal or
   * addition at a time, collected here in the order they are issued.
   */
  method UpdateLabels(newLabel: string, oldLabels: seq<string>, supported: seq<string>) returns (acts: seq<Action>)
    ensures acts == LabelActions(newLabel, oldLabels, supported)
  {
    acts := [];
    for i := 0 to |supported|
      invariant acts == LabelActions(newLabel, oldLabels, supported[..i])
    {
      var supportedLabel := supported[i];
      assert supported[..i + 1][..i] == supported[..i];
      if supportedLabel in oldLabels && supportedLabel != newLabel {
        acts := acts + [RemoveLabel(supportedLabel)];
      } else if supportedLabel == newLabel && supportedLabel !in oldLabels {
        acts := acts + [AddLabel(supportedLabel)];
      }
    }
    assert supported[..|supported|] == supported;
  }

  /**
   * With distinct supported labels no action is issued twice, and in
   * particular at most one label is added.
   */
  lemma {:induction false} AtMostOneAdd(newLabel: string, oldLabels: seq<string>, supported: seq<string>)
    requires Distinct(supported)
    ensures DistinctActions(LabelActions(newLabel, oldLabels, supported))
    ensures var acts := LabelActions(newLabel, oldLabels, supported);
      forall i, j :: 0 <= i < |acts| && 0 <= j < |acts| && acts[i].AddLabel? && acts[j].AddLabel? ==> i == j
    decreases |supported|
  {
    var acts := LabelActions(newLabel, oldLabels, supported);
    if supported != [] {
      var n := |supported| - 1;
      var prefix, last := supported[..n], supported[n];
      assert Distinct(prefix) by {
        forall i, j | 0 <= i < |prefix| && 0 <= j < |prefix| && prefix[i] == prefix[j] ensures i == j {
          assert prefix[i] == supported[i] && prefix[j] == supported[j];
        }
      }
      assert last !in prefix by {
        forall i | 0 <= i < |prefix| ensures prefix[i] != last {
          assert prefix[i] == supported[i];
        }
      }
      AtMostOneAdd(newLabel, oldLabels, prefix);
      var before := LabelActions(newLabel, oldLabels, prefix);
      var step := Decide(newLabel, oldLabels, last);
      assert acts == before + step;
      if step != [] {
        assert step[0] !in before;
        forall i, j | 0 <= i < |acts| && 0 <= j < |acts| && acts[i] == acts[j] ensures i == j {
          if i < |before| && j < |before| {
            assert before[i] == before[j];
          }
        }
      }
      assert forall a :: a in acts && a.AddLabel? ==> a == AddLabel(newLabel);
    }
  }

  /** The labels present from `oldLabels` once `supported` is reconciled towards `newLabel`. */
  function Reconciled(newLabel: string, oldLabels: seq<string>, supported: seq<string>): set<string>
  {
    (set l | l in oldLabels && l !in supported) + (if newLabel in supported then {newLabel} else {})
  }

  /** Deciding one more supported label carries the post-state of the prefix over to the longer list. */
  lemma DecideStep(newLabel: string, oldLabels: seq<string>, prefix: seq<string>, last: string)
    ensures Apply(Decide(newLabel, oldLabels, last), Reconciled(newLabel, oldLabels, prefix))
      == Reconciled(newLabel, oldLabels, prefix + [last])
  {
    var mid := Reconciled(newLabel, oldLabels, prefix);
    var step := Decide(newLabel, oldLabels, last);
    var r := Apply(step, mid);
    if step != [] {
      ApplySingle(step[0], mid);
      assert step == [step[0]];
    } else {
      assert r == mid;
    }
    var target := Reconciled(newLabel, oldLabels, prefix + [last]);
    assert forall l :: l in prefix + [last] <==> l in prefix || l == last;
    forall l ensures l in r <==> l in target {
      if l != last {
        assert l !in Touched(step);
      }
    }
  }

  /**
   * After the actions are carried out on the labels present before the run,
   * every supported label is gone except the new label, which is present
   * when it is supported, and every other label is as it was.
   */
  lemma {:induction false} PostState(newLabel: string, oldLabels: seq<string>, supported: seq<string>)
    ensures Apply(LabelActions(newLabel, oldLabels, supported), set l | l in oldLabels)
      == (set l | l in oldLabels && l !in supported) + (if newLabel in supported then {newLabel} else {})
    decreases |supported|
  {
    var old0 := set l | l in oldLabels;
    if supported == [] {
      assert Apply([], old0) == old0;
    } else {
      var n := |supported| - 1;
      var prefix, last := supported[..n], supported[n];
      assert supported == prefix + [last];
      PostState(newLabel, oldLabels, prefix);
      var before := LabelActions(newLabel, oldLabels, prefix);
      var step := Decide(newLabel, oldLabels, last);
      ApplyAppend(before, step, old0);
      DecideStep(newLabel, oldLabels, prefix, last);
    }
  }

  /** Labels that are already reconciled produce no action. */
  lemma {:induction false} Settled(newLabel: string, labels: seq<string>, supported: seq<string>)
    requires forall l :: l in supported ==> (l in labels <==> l == newLabel)
    ensures LabelActions(newLabel, labels, supported) == []
    decreases |supported|
  {
    if supported != [] {
      Settled(newLabel, labels, supported[..|supported| - 1]);
    }
  }

  /**
   * Running updateLabels again on the labels it produced, with the same new
   * label, issues no action.
   */
  lemma Idempotent(newLabel: string, oldLabels: seq<string>, supported: seq<string>, again: seq<string>)
    requires (set l | l in again) == Apply(LabelActions(newLabel, oldLabels, supported), set l | l in oldLabels)
    ensures LabelActions(newLabel, again, supported) == []
  {
    PostState(newLabel, oldLabels, supported);
    var post := (set l | l in oldLabels && l !in supported) + (if newLabel in supported then {newLabel} else {});
    forall l | l in supported ensures l in again <==> l == newLabel {
      assert l in again <==> l in post;
    }
    Settled(newLabel, again, supported);
  }
}
