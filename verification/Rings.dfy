/** Nodes linked in a cycle, listed in the order of their links. */
module Rings {

  ghost predicate Distinct<T>(nodes: seq<T>) {
    forall i, j :: 0 <= i < j < |nodes| ==> nodes[i] != nodes[j]
  }

  lemma SameNode<T>(nodes: seq<T>, i: nat, j: nat)
    requires Distinct(nodes) && i < |nodes| && j < |nodes|
    ensures nodes[i] == nodes[j] <==> i == j
  {
  }

  lemma DistinctAppend<T>(nodes: seq<T>, n: T)
    requires Distinct(nodes) && n !in nodes
    ensures Distinct(nodes + [n])
  {
  }

  /** The node that node `i` links to. */
  function After<T>(nodes: seq<T>, i: nat): T
    requires i < |nodes|
  {
    if i + 1 < |nodes| then nodes[i + 1] else nodes[0]
  }
}
