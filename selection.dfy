/**
 * Order-preserving selection: the shape of a loop that visits a list in order and keeps
 * a value for some of its entries, as `find_all_enabled`, the latest-status loop and the
 * alert evaluation each do.
 */
module Selection {
  import opened Wrappers

  /** The positions of `xs` where `decide` gives a value, in increasing order, each once. */
  function DecidedPositions<T, U>(xs: seq<T>, decide: T -> Option<U>): (p: seq<nat>)
    ensures forall k :: 0 <= k < |p| ==> p[k] < |xs| && decide(xs[p[k]]).Some?
    ensures forall j, k :: 0 <= j < k < |p| ==> p[j] < p[k]
    ensures forall i :: 0 <= i < |xs| && decide(xs[i]).Some? ==> i in p
  {
    if xs == [] then []
    else
      var front := xs[..|xs| - 1];
      assert forall i :: 0 <= i < |front| ==> front[i] == xs[i];
      DecidedPositions(front, decide) + if decide(xs[|xs| - 1]).Some? then [|xs| - 1] else []
  }

  /** The values `decide` gives along `xs`: one per decided position, in the order of `xs`. */
  function Decisions<T, U>(xs: seq<T>, decide: T -> Option<U>): (r: seq<U>)
    ensures |r| == |DecidedPositions(xs, decide)|
    ensures forall k :: 0 <= k < |r| ==> r[k] == decide(xs[DecidedPositions(xs, decide)[k]]).value
  {
    if xs == [] then []
    else
      var front := xs[..|xs| - 1];
      assert forall i :: 0 <= i < |front| ==> front[i] == xs[i];
      Decisions(front, decide) + match decide(xs[|xs| - 1]) case Some(c) => [c] case None => []
  }

}
