/**
 The recursive layer lookup of the WMS import script: given a node of the
 service-description tree and a layer name, find the first data layer
 strictly below the node whose name equals the given one.

 `FindLayer` is the search as a pure function that scans the children in
 index order; `FindLayerLoop` is the same search written as the script's
 loop, with its `layer` variable, early `return` and `break`.
 */
module LayerSearch {
  import opened ServiceTree

  /**
   The lookup. The node passed in is never a candidate: only its children
   are scanned. A child without children is compared by name; a child with
   children is searched recursively and its own name is never compared.
   */
  function FindLayer(n: Node, target: string): (r: Option<Node>)
    ensures r.Some? ==> IsLeaf(r.value) && r.value.name == target && StrictDescendant(r.value, n)
    decreases n, 1
  {
    ScanChildren(n, 0, target)
  }

  /** The loop over `n.children[i..]`, stopping at the first hit. */
  function ScanChildren(n: Node, i: nat, target: string): (r: Option<Node>)
    requires i <= |n.children|
    ensures r.Some? ==> IsLeaf(r.value) && r.value.name == target && StrictDescendant(r.value, n)
    decreases n, 0, |n.children| - i
  {
    if i == |n.children| then None
    else
      var c := n.children[i];
      if IsLeaf(c) then
        if c.name == target then Some(c) else ScanChildren(n, i + 1, target)
      else
        var found := FindLayer(c, target);
        if found.Some? then
          assert StrictDescendant(found.value, c);
          found
        else ScanChildren(n, i + 1, target)
  }

  /**
   The lookup returns the earliest data layer in the pre-order listing of
   the data layers strictly below `n` whose name equals the target, and
   "not found" when there is none.
   */
  lemma {:induction false} FindLayerIsFirstLeaf(n: Node, target: string)
    ensures FindLayer(n, target) == FirstNamed(Leaves(n), target)
    decreases n, 1
  {
    ScanIsFirstLeaf(n, 0, target);
  }

  lemma {:induction false} ScanIsFirstLeaf(n: Node, i: nat, target: string)
    requires i <= |n.children|
    ensures ScanChildren(n, i, target) == FirstNamed(LeavesFrom(n, i), target)
    decreases n, 0, |n.children| - i
  {
    if i < |n.children| {
      var c := n.children[i];
      var front := if IsLeaf(c) then [c] else Leaves(c);
      ScanIsFirstLeaf(n, i + 1, target);
      FirstNamedAppend(front, LeavesFrom(n, i + 1), target);
      if !IsLeaf(c) {
        FindLayerIsFirstLeaf(c, target);
      }
    }
  }

  /**
   First match wins, by position: when the data layer at position `j` of the
   pre-order listing is the first one named `target`, the lookup returns
   exactly that description.
   */
  lemma FindLayerPicksFirstPosition(n: Node, target: string, j: nat)
    requires j < |Leaves(n)| && Leaves(n)[j].name == target
    requires forall i :: 0 <= i < j ==> Leaves(n)[i].name != target
    ensures FindLayer(n, target) == Some(Leaves(n)[j])
  {
    FindLayerIsFirstLeaf(n, target);
    var r := FindLayer(n, target);
    var k :| 0 <= k < |Leaves(n)| && Leaves(n)[k] == r.value && r.value.name == target
             && forall i :: 0 <= i < k ==> Leaves(n)[i].name != target;
    assert k == j;
  }

  /**
   A later data layer with the target name is never returned when an earlier
   one also carries it: a description that first occurs at position `k`
   loses to a same-named description at an earlier position `j`.
   */
  lemma FindLayerSkipsLaterLeaves(n: Node, target: string, j: nat, k: nat)
    requires j < k < |Leaves(n)| && Leaves(n)[j].name == target
    requires Leaves(n)[k] !in Leaves(n)[..k]
    ensures FindLayer(n, target) != Some(Leaves(n)[k])
  {
    FindLayerIsFirstLeaf(n, target);
    var r := FindLayer(n, target);
    var m :| 0 <= m < |Leaves(n)| && Leaves(n)[m] == r.value && r.value.name == target
             && forall i :: 0 <= i < m ==> Leaves(n)[i].name != target;
    assert m <= j;
    assert Leaves(n)[..k][m] == Leaves(n)[m];
  }

  /**
   "Not found" is returned exactly when no data layer strictly below `n`
   is named `target`; a found layer is such a data layer.
   */
  lemma FindLayerNoneIff(n: Node, target: string)
    ensures FindLayer(n, target).None? <==> forall d :: StrictDescendant(d, n) && IsLeaf(d) ==> d.name != target
  {
    FindLayerIsFirstLeaf(n, target);
    LeavesAreLeafDescendants(n);
    if FindLayer(n, target).None? {
      forall d | StrictDescendant(d, n) && IsLeaf(d)
        ensures d.name != target
      {
        LeafDescendantsAreLeaves(n, d);
      }
    }
  }

  /**
   The node passed in is never itself a candidate: its own identity and name
   play no part in the result, and a node without children yields "not found"
   whatever its name.
   */
  lemma RootNeverCandidate(ia: nat, a: string, ib: nat, b: string, cs: seq<Node>, target: string)
    ensures FindLayer(Node(ia, a, cs), target) == FindLayer(Node(ib, b, cs), target)
    ensures FindLayer(Node(ia, a, []), target) == None
  {
    ScanIgnoresParentName(ia, a, ib, b, cs, 0, target);
  }

  lemma {:induction false} ScanIgnoresParentName(ia: nat, a: string, ib: nat, b: string, cs: seq<Node>, i: nat, target: string)
    requires i <= |cs|
    ensures ScanChildren(Node(ia, a, cs), i, target) == ScanChildren(Node(ib, b, cs), i, target)
    decreases |cs| - i
  {
    if i < |cs| {
      ScanIgnoresParentName(ia, a, ib, b, cs, i + 1, target);
    }
  }

  /**
   Later siblings are never inspected once a match is found: appending more
   child layers after `cs` leaves a hit among `cs` unchanged, and on a miss
   the result is the lookup among the appended children alone.
   */
  lemma FindLayerAppend(ia: nat, a: string, ib: nat, b: string, cs: seq<Node>, more: seq<Node>, target: string)
    ensures FindLayer(Node(ia, a, cs + more), target)
         == if FindLayer(Node(ia, a, cs), target).Some? then FindLayer(Node(ia, a, cs), target)
            else FindLayer(Node(ib, b, more), target)
  {
    LeavesAppend(ia, a, ib, b, cs, more);
    FirstNamedAppend(Leaves(Node(ia, a, cs)), Leaves(Node(ib, b, more)), target);
    FindLayerIsFirstLeaf(Node(ia, a, cs + more), target);
    FindLayerIsFirstLeaf(Node(ia, a, cs), target);
    FindLayerIsFirstLeaf(Node(ib, b, more), target);
  }

  /**
   The script's loop, statement by statement. `layer` starts as "not found";
   a leaf child is compared and returned on a hit; a folder child is searched
   recursively and the loop breaks as soon as that search finds something.
   */
  method FindLayerLoop(n: Node, target: string) returns (layer: Option<Node>)
    ensures layer == FirstNamed(Leaves(n), target)
    decreases n
  {
    layer := None;
    var i := 0;
    while i < |n.children|
      invariant 0 <= i <= |n.children|
      invariant layer == None
      invariant FirstNamed(Leaves(n), target) == FirstNamed(LeavesFrom(n, i), target)
    {
      var desc := n.children[i];
      FirstNamedAppend(if IsLeaf(desc) then [desc] else Leaves(desc), LeavesFrom(n, i + 1), target);
      if |desc.children| == 0 {
        if desc.name == target {
          return Some(desc);
        } else {
          i := i + 1;
          continue;
        }
      }
      layer := FindLayerLoop(desc, target);
      if layer.Some? {
        break;
      }
      i := i + 1;
    }
    return layer;
  }
}
