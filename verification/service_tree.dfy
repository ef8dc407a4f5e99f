/**
 The layer hierarchy of a WMS service description, as the layer search sees it.

 A node has an identity, a name and an ordered list of child layer
 descriptions. A node with no children is a data layer (a leaf); a node with
 children is a folder that groups other layers. The identity stands for the
 description object itself (and every attribute of it the search does not
 read), so two data layers that share a name are still different values.
 */
module ServiceTree {

  /** An optional value: the search's "found" (`Some`) or "not found" (`None`). */
  datatype Option<+T> = None | Some(value: T)

  /**
   One layer description: which description object it is, its `Name`, and its
   child layer descriptions in index order.
   */
  datatype Node = Node(id: nat, name: string, children: seq<Node>)

  /** A data layer is a description with zero child descriptions. */
  predicate IsLeaf(n: Node) {
    |n.children| == 0
  }

  /** `d` lies strictly below `n`: it is a child of `n` or lies below one of them. */
  predicate StrictDescendant(d: Node, n: Node)
    decreases n
  {
    exists i :: 0 <= i < |n.children| && (n.children[i] == d || StrictDescendant(d, n.children[i]))
  }

  /**
   The data layers strictly below `n`, in depth-first, left-to-right pre-order.
   `n` itself never appears, whether or not it is a leaf.
   */
  function Leaves(n: Node): seq<Node>
    decreases n, 1
  {
    LeavesFrom(n, 0)
  }

  /** The pre-order data layers below the children `n.children[i..]`. */
  function LeavesFrom(n: Node, i: nat): seq<Node>
    requires i <= |n.children|
    decreases n, 0, |n.children| - i
  {
    if i == |n.children| then []
    else
      var c := n.children[i];
      (if IsLeaf(c) then [c] else Leaves(c)) + LeavesFrom(n, i + 1)
  }

  /**
   The earliest element of `s` whose name equals `target` exactly, or `None`
   when no element has that name.
   */
  function FirstNamed(s: seq<Node>, target: string): (r: Option<Node>)
    ensures r.None? <==> forall k :: 0 <= k < |s| ==> s[k].name != target
    ensures r.Some? ==> exists k :: 0 <= k < |s| && s[k] == r.value && r.value.name == target
                                    && forall j :: 0 <= j < k ==> s[j].name != target
  {
    if |s| == 0 then None
    else if s[0].name == target then Some(s[0])
    else
      var r := FirstNamed(s[1..], target);
      assert forall k :: 1 <= k < |s| ==> s[k] == s[1..][k - 1];
      r
  }

  /** Searching a concatenation finds the hit in the front part first and looks at the back only on a miss. */
  lemma {:induction false} FirstNamedAppend(a: seq<Node>, b: seq<Node>, target: string)
    ensures FirstNamed(a + b, target) == if FirstNamed(a, target).Some? then FirstNamed(a, target) else FirstNamed(b, target)
    decreases |a|
  {
    if |a| == 0 {
      assert a + b == b;
    } else {
      assert (a + b)[0] == a[0];
      assert (a + b)[1..] == a[1..] + b;
      if a[0].name != target {
        FirstNamedAppend(a[1..], b, target);
      }
    }
  }

  /** Every element of `Leaves(n)` is a data layer strictly below `n`. */
  lemma {:induction false} LeavesAreLeafDescendants(n: Node)
    ensures forall k :: 0 <= k < |Leaves(n)| ==> IsLeaf(Leaves(n)[k]) && StrictDescendant(Leaves(n)[k], n)
    decreases n, 1
  {
    LeavesFromAreLeafDescendants(n, 0);
  }

  lemma {:induction false} LeavesFromAreLeafDescendants(n: Node, i: nat)
    requires i <= |n.children|
    ensures forall k :: 0 <= k < |LeavesFrom(n, i)| ==> IsLeaf(LeavesFrom(n, i)[k]) && StrictDescendant(LeavesFrom(n, i)[k], n)
    decreases n, 0, |n.children| - i
  {
    if i < |n.children| {
      var c := n.children[i];
      var front := if IsLeaf(c) then [c] else Leaves(c);
      LeavesFromAreLeafDescendants(n, i + 1);
      if !IsLeaf(c) {
        LeavesAreLeafDescendants(c);
      }
      assert LeavesFrom(n, i) == front + LeavesFrom(n, i + 1);
      forall k | 0 <= k < |LeavesFrom(n, i)|
        ensures IsLeaf(LeavesFrom(n, i)[k]) && StrictDescendant(LeavesFrom(n, i)[k], n)
      {
        if k < |front| {
          var d := front[k];
          assert LeavesFrom(n, i)[k] == d;
          assert n.children[i] == d || StrictDescendant(d, n.children[i]);
        } else {
          assert LeavesFrom(n, i)[k] == LeavesFrom(n, i + 1)[k - |front|];
        }
      }
    }
  }

  /** Conversely, every data layer strictly below `n` occurs in `Leaves(n)`. */
  lemma {:induction false} LeafDescendantsAreLeaves(n: Node, d: Node)
    requires StrictDescendant(d, n) && IsLeaf(d)
    ensures d in Leaves(n)
    decreases n, 1
  {
    var i :| 0 <= i < |n.children| && (n.children[i] == d || StrictDescendant(d, n.children[i]));
    LeafDescendantInLeavesFrom(n, 0, i, d);
  }

  lemma {:induction false} LeafDescendantInLeavesFrom(n: Node, i: nat, j: nat, d: Node)
    requires i <= j < |n.children| && IsLeaf(d)
    requires n.children[j] == d || StrictDescendant(d, n.children[j])
    ensures d in LeavesFrom(n, i)
    decreases n, 0, |n.children| - i
  {
    var c := n.children[i];
    var front := if IsLeaf(c) then [c] else Leaves(c);
    assert LeavesFrom(n, i) == front + LeavesFrom(n, i + 1);
    if i < j {
      LeafDescendantInLeavesFrom(n, i + 1, j, d);
    } else if c == d {
      assert front == [d];
    } else {
      assert StrictDescendant(d, c);
      if IsLeaf(c) {
        assert false;
      }
      LeafDescendantsAreLeaves(c, d);
    }
  }

  /** The leaves below `Node(_, _, xs)` from child `k + j` on are those below `Node(_, _, xs[k..])` from child `j` on. */
  lemma {:induction false} LeavesFromShift(ia: nat, a: string, ib: nat, b: string, xs: seq<Node>, k: nat, j: nat)
    requires k + j <= |xs|
    ensures LeavesFrom(Node(ia, a, xs), k + j) == LeavesFrom(Node(ib, b, xs[k..]), j)
    decreases |xs| - k - j
  {
    var p, q := Node(ia, a, xs), Node(ib, b, xs[k..]);
    if k + j < |xs| {
      var c := xs[k + j];
      assert q.children[j] == c;
      LeavesFromShift(ia, a, ib, b, xs, k, j + 1);
      assert LeavesFrom(p, k + j) == (if IsLeaf(c) then [c] else Leaves(c)) + LeavesFrom(p, k + j + 1);
      assert LeavesFrom(q, j) == (if IsLeaf(c) then [c] else Leaves(c)) + LeavesFrom(q, j + 1);
    }
  }

  /**
   Appending sibling layers after the children of a node appends their
   leaves after its own; the leaves of the first children are unchanged.
   */
  lemma {:induction false} LeavesAppend(ia: nat, a: string, ib: nat, b: string, cs: seq<Node>, more: seq<Node>)
    ensures Leaves(Node(ia, a, cs + more)) == Leaves(Node(ia, a, cs)) + Leaves(Node(ib, b, more))
  {
    LeavesFromAppend(ia, a, ib, b, cs, more, 0);
  }

  lemma {:induction false} LeavesFromAppend(ia: nat, a: string, ib: nat, b: string, cs: seq<Node>, more: seq<Node>, i: nat)
    requires i <= |cs|
    ensures LeavesFrom(Node(ia, a, cs + more), i) == LeavesFrom(Node(ia, a, cs), i) + Leaves(Node(ib, b, more))
    decreases |cs| - i
  {
    if i == |cs| {
      LeavesFromShift(ia, a, ib, b, cs + more, |cs|, 0);
      assert (cs + more)[|cs|..] == more;
    } else {
      assert (cs + more)[i] == cs[i];
      LeavesFromAppend(ia, a, ib, b, cs, more, i + 1);
    }
  }
}
