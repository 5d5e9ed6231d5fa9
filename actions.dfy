/**
 * The GitHub calls the action issues, as abstract records, and their effect
 * on the set of labels of the pull request.
 */
module Actions {

  /** `removeLabel`, `addLabels` with a single label, and `createComment`. */
  datatype Action =
    | RemoveLabel(name: string)
    | AddLabel(name: string)
    | CreateComment(body: string)

  /** The labels that some action of the list adds or removes. */
  function Touched(acts: seq<Action>): (r: set<string>)
    ensures forall a :: a in acts && !a.CreateComment? ==> a.name in r
    ensures forall l :: l in r ==> RemoveLabel(l) in acts || AddLabel(l) in acts
  {
    set a | a in acts && !a.CreateComment? :: a.name
  }

  /** What one action does to the labels of the pull request. */
  function Effect(a: Action, labels: set<string>): set<string>
  {
    match a
    case RemoveLabel(l) => labels - {l}
    case AddLabel(l) => labels + {l}
    case CreateComment(_) => labels
  }

  /** The labels after the actions are carried out one after the other. */
  function Apply(acts: seq<Action>, labels: set<string>): (r: set<string>)
    ensures forall l :: l !in Touched(acts) ==> (l in r <==> l in labels)
    decreases |acts|
  {
    if acts == [] then labels
    else
      assert Touched(acts) == Touched(acts[1..]) + Touched([acts[0]]) by {
        assert forall a :: a in acts <==> a == acts[0] || a in acts[1..];
      }
      Apply(acts[1..], Effect(acts[0], labels))
  }

  /** Carrying out two lists in turn is carrying out their concatenation. */
  lemma {:induction false} ApplyAppend(first: seq<Action>, second: seq<Action>, labels: set<string>)
    ensures Apply(first + second, labels) == Apply(second, Apply(first, labels))
    decreases |first|
  {
    if first != [] {
      assert (first + second)[1..] == first[1..] + second;
      ApplyAppend(first[1..], second, Effect(first[0], labels));
    } else {
      assert first + second == second;
    }
  }

  /** A single action is carried out by its effect. */
  lemma ApplySingle(a: Action, labels: set<string>)
    ensures Apply([a], labels) == Effect(a, labels)
  {
    assert [a][1..] == [];
  }
}
