/**
 * The parts of a question as the grading core sees them, and the two
 * point sums: the maximum (`calculateMaximumPoints`) and the points reached
 * for a decoded solution (`calculateReachedPointsForSolution`), where each
 * part's own scorer is an abstract function of the part and its fragment.
 */
module Parts {
  import opened Wrappers
  import opened Strings
  import opened OrderedMap

  /** What the core reads of an `assAccountingQuestionPart`: its id, its number of booking rows, its maximum and its text. */
  datatype Part = Part(partId: int, maxLines: nat, maxPoints: real, text: string)

  /** The sum of the parts' maxima, in list order. */
  function MaxPointsOf(ps: seq<Part>): real {
    if ps == [] then 0.0 else MaxPointsOf(ps[..|ps| - 1]) + ps[|ps| - 1].maxPoints
  }

  /**
   * The fragment a part is graded on: the decoded entry under its id, or
   * `''`. Decoded keys are decimal strings, and PHP maps a decimal string
   * key and the integer it denotes to the same entry.
   */
  function FragmentFor(decoded: Assoc, partId: int): string {
    match Get(decoded, IntToString(partId))
    case Some(f) => f
    case None => ""
  }

  /** The sum, in list order, of each part's score on its fragment. */
  function ReachedOf(ps: seq<Part>, decoded: Assoc, score: (Part, string) -> real): real {
    if ps == [] then 0.0
    else ReachedOf(ps[..|ps| - 1], decoded, score) + score(ps[|ps| - 1], FragmentFor(decoded, ps[|ps| - 1].partId))
  }

  /** The maximum of a concatenated list is the sum of the maxima of its halves. */
  lemma {:induction false} MaxPointsConcat(a: seq<Part>, b: seq<Part>)
    ensures MaxPointsOf(a + b) == MaxPointsOf(a) + MaxPointsOf(b)
    decreases |b|
  {
    if b == [] {
      assert a + b == a;
    } else {
      assert (a + b)[..|a + b| - 1] == a + b[..|b| - 1];
      MaxPointsConcat(a, b[..|b| - 1]);
    }
  }

  /** With non-negative part maxima the total is non-negative and bounds every part's maximum. */
  lemma {:induction false} MaxPointsBoundsParts(ps: seq<Part>)
    requires forall i :: 0 <= i < |ps| ==> ps[i].maxPoints >= 0.0
    ensures MaxPointsOf(ps) >= 0.0
    ensures forall i :: 0 <= i < |ps| ==> ps[i].maxPoints <= MaxPointsOf(ps)
    decreases |ps|
  {
    if ps != [] {
      var front := ps[..|ps| - 1];
      MaxPointsBoundsParts(front);
      assert forall i :: 0 <= i < |front| ==> front[i] == ps[i];
    }
  }

  /**
   * When every part's scorer stays within `[0, maxPoints]`, whatever
   * fragment it gets, the points reached stay within `[0, maximum]`.
   */
  lemma {:induction false} ReachedWithinMaximum(ps: seq<Part>, decoded: Assoc, score: (Part, string) -> real)
    requires forall i, f :: 0 <= i < |ps| ==> 0.0 <= score(ps[i], f) <= ps[i].maxPoints
    ensures 0.0 <= ReachedOf(ps, decoded, score) <= MaxPointsOf(ps)
    decreases |ps|
  {
    if ps != [] {
      var front := ps[..|ps| - 1];
      assert forall i :: 0 <= i < |front| ==> front[i] == ps[i];
      ReachedWithinMaximum(front, decoded, score);
      var last := ps[|ps| - 1];
      assert 0.0 <= score(last, FragmentFor(decoded, last.partId)) <= last.maxPoints;
    }
  }

  /** Parts are graded only on the fragments under their own ids: two decodings that agree there give the same points. */
  lemma {:induction false} ReachedDependsOnOwnFragments(ps: seq<Part>, d1: Assoc, d2: Assoc, score: (Part, string) -> real)
    requires forall i :: 0 <= i < |ps| ==> Get(d1, IntToString(ps[i].partId)) == Get(d2, IntToString(ps[i].partId))
    ensures ReachedOf(ps, d1, score) == ReachedOf(ps, d2, score)
    decreases |ps|
  {
    if ps != [] {
      var front := ps[..|ps| - 1];
      assert forall i :: 0 <= i < |front| ==> front[i] == ps[i];
      ReachedDependsOnOwnFragments(front, d1, d2, score);
    }
  }
}
