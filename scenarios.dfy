/** Concrete runs against a three-bucket configuration. */
module Scenarios {
  import opened Wrappers
  import opened Buckets
  import opened Actions
  import opened Labels
  import opened Comments
  import opened Pipeline

  /**
   * Buckets XS and S carry an explicit `comment: null` (`None`); L carries a
   * comment. A bucket whose `comment` key is absent is not this case.
   */
  const EXAMPLE_BUCKETS := [Bucket(10, "XS", None), Bucket(100, "S", None), Bucket(100000, "L", Some("Too big!"))]

  /** The supported labels of the example configuration. */
  lemma ExampleSupported()
    ensures SupportedLabels(EXAMPLE_BUCKETS) == ["XS", "S", "L"]
  {
    var b := EXAMPLE_BUCKETS;
    assert b[1..] == [b[1], b[2]] && b[1..][1..] == [b[2]] && b[1..][1..][1..] == [];
  }

  /** The three label names of the example configuration are pairwise different. */
  lemma NamesDiffer()
    ensures "XS" != "S" && "XS" != "L" && "S" != "L"
  {
    assert "XS"[0] != "S"[0] && |"L"| != |"XS"| && "L"[0] != "S"[0];
  }

  /** The label actions of the example configuration, one supported label at a time. */
  lemma ExampleLabelActions(newLabel: string, oldLabels: seq<string>)
    ensures LabelActions(newLabel, oldLabels, ["XS", "S", "L"])
      == Decide(newLabel, oldLabels, "XS") + Decide(newLabel, oldLabels, "S") + Decide(newLabel, oldLabels, "L")
  {
    var s := ["XS", "S", "L"];
    assert s[..2] == ["XS", "S"] && s[..2][..1] == ["XS"] && s[..2][..1][..0] == [];
    assert LabelActions(newLabel, oldLabels, s[..2][..1]) == Decide(newLabel, oldLabels, "XS");
  }

  /** A 50-line change moves a pull request from XS to S without a comment. */
  lemma MovesToSmall()
    ensures Plan(30, 20, EXAMPLE_BUCKETS, ["XS"]) == Success([RemoveLabel("XS"), AddLabel("S")])
  {
    assert [RemoveLabel("XS")] + [AddLabel("S")] + [] + [] == [RemoveLabel("XS"), AddLabel("S")];
    NamesDiffer();
    assert Decide("S", ["XS"], "XS") == [RemoveLabel("XS")] by { assert ["XS"][0] == "XS"; }
    assert Decide("S", ["XS"], "S") == [AddLabel("S")];
    assert Decide("S", ["XS"], "L") == [];
    var b := EXAMPLE_BUCKETS;
    assert CommentActions(b[1], ["XS"]) == [];
    FirstFitAt(50, b, 1);
    ExampleSupported();
    PlanSelects(30, 20, b, ["XS"], b[1]);
    ExampleLabelActions("S", ["XS"]);
  }

  /** A pull request already labelled S is left alone. */
  lemma StaysSmall()
    ensures Plan(30, 20, EXAMPLE_BUCKETS, ["S", "bug"]) == Success([])
  {
    NamesDiffer();
    assert Decide("S", ["S", "bug"], "XS") == [];
    assert Decide("S", ["S", "bug"], "S") == [] by { assert ["S", "bug"][0] == "S"; }
    assert Decide("S", ["S", "bug"], "L") == [];
    var b := EXAMPLE_BUCKETS;
    assert CommentActions(b[1], ["S", "bug"]) == [];
    FirstFitAt(50, b, 1);
    ExampleSupported();
    PlanSelects(30, 20, b, ["S", "bug"], b[1]);
    ExampleLabelActions("S", ["S", "bug"]);
  }

  /** A large change entering L is labelled L and gets L's comment. */
  lemma EntersLarge()
    ensures Plan(50000, 0, EXAMPLE_BUCKETS, []) == Success([AddLabel("L"), CreateComment("Too big!")])
  {
    assert [] + [] + [AddLabel("L")] + [CreateComment("Too big!")] == [AddLabel("L"), CreateComment("Too big!")];
    NamesDiffer();
    assert Decide("L", [], "XS") == [] && Decide("L", [], "S") == [];
    assert Decide("L", [], "L") == [AddLabel("L")];
    var b := EXAMPLE_BUCKETS;
    assert CommentActions(b[2], []) == [CreateComment("Too big!")];
    FirstFitAt(50000, b, 2);
    ExampleSupported();
    PlanSelects(50000, 0, b, [], b[2]);
    ExampleLabelActions("L", []);
  }

  /** A pull request already labelled L gets neither a label change nor a second comment. */
  lemma StaysLarge()
    ensures Plan(50000, 0, EXAMPLE_BUCKETS, ["L"]) == Success([])
  {
    NamesDiffer();
    assert Decide("L", ["L"], "XS") == [] && Decide("L", ["L"], "S") == [];
    assert Decide("L", ["L"], "L") == [] by { assert ["L"][0] == "L"; }
    var b := EXAMPLE_BUCKETS;
    assert CommentActions(b[2], ["L"]) == [] by { assert ["L"][0] == "L"; }
    FirstFitAt(50000, b, 2);
    ExampleSupported();
    PlanSelects(50000, 0, b, ["L"], b[2]);
    ExampleLabelActions("L", ["L"]);
  }

  /** A change at or above every maxSize fails: the configuration has no catch-all bucket. */
  lemma UncoveredFails()
    ensures Plan(200000, 0, EXAMPLE_BUCKETS, []) == Failure(NoMatchingBucket)
    ensures Plan(100000, 50000, EXAMPLE_BUCKETS, ["L"]) == Failure(NoMatchingBucket)
  {
  }
}
