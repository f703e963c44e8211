/**
 * The tree view's helpers: adding an assembly as a root (once per file name), the pre-order
 * search for a node satisfying a predicate, the root search by file name, and selecting a
 * node after expanding its ancestors from the top. A node is identified by its path in the
 * forest of roots: the index of its root, then the index among each parent's children; its
 * parent is the path without the last index.
 */
module TreeViewHelpers {
  import opened Wrappers
  import opened TypeSystem
  import opened TreeNodes
  import opened AssemblyNodes

  type Path = seq<nat>

  /** The node a path leads to, if it leads to one. */
  function NodeAt(forest: seq<Node>, p: Path): Option<Node>
    decreases |p|
  {
    if |p| == 0 || p[0] >= |forest| then None
    else if |p| == 1 then Some(forest[p[0]])
    else NodeAt(forest[p[0]].children, p[1..])
  }

  /** `q` is visited before `p` by a pre-order walk: it is an ancestor of `p`, or it branches off to an earlier sibling. */
  predicate PreorderBefore(q: Path, p: Path)
  {
    (|q| < |p| && q == p[..|q|]) || (exists k :: 0 <= k < |q| && k < |p| && q[..k] == p[..k] && q[k] < p[k])
  }

  /**
   * The recursive `Find`: each node is tested before its children, and the children before
   * the next sibling; the path of the first node satisfying `pred`, if any.
   */
  function FindIn(nodes: seq<Node>, pred: Node -> bool): (r: Option<Path>)
    ensures r.Some? ==> |r.value| > 0
    decreases nodes
  {
    if |nodes| == 0 then None
    else if pred(nodes[0]) then Some([0])
    else
      match FindIn(nodes[0].children, pred)
      case Some(p) => Some([0] + p)
      case None =>
        match FindIn(nodes[1..], pred)
        case Some(p) => Some([p[0] + 1] + p[1..])
        case None => None
  }

  /** A path into the siblings after the first is the same path, shifted by one, into the forest. */
  lemma NodeAtShift(nodes: seq<Node>, q: Path)
    requires |nodes| > 0 && |q| > 0
    ensures NodeAt(nodes, [q[0] + 1] + q[1..]) == NodeAt(nodes[1..], q)
  {
    var s := [q[0] + 1] + q[1..];
    assert s[1..] == q[1..];
  }

  /** A path into the first node's subtree. */
  lemma NodeAtFirst(nodes: seq<Node>, q: Path)
    requires |nodes| > 0 && |q| > 0
    ensures NodeAt(nodes, [0] + q) == NodeAt(nodes[0].children, q)
  {
    assert ([0] + q)[1..] == q;
  }

  /** A found path leads to a node that satisfies the predicate. */
  lemma {:induction false} FindSound(nodes: seq<Node>, pred: Node -> bool)
    requires FindIn(nodes, pred).Some?
    ensures NodeAt(nodes, FindIn(nodes, pred).value).Some?
    ensures pred(NodeAt(nodes, FindIn(nodes, pred).value).value)
    decreases nodes
  {
    if !pred(nodes[0]) {
      match FindIn(nodes[0].children, pred)
      case Some(p) =>
        FindSound(nodes[0].children, pred);
        NodeAtFirst(nodes, p);
      case None =>
        var p := FindIn(nodes[1..], pred).value;
        FindSound(nodes[1..], pred);
        NodeAtShift(nodes, p);
        assert [p[0] + 1] + p[1..] == FindIn(nodes, pred).value;
    }
  }

  /** If some node satisfies the predicate, the search finds one. */
  lemma {:induction false} FindComplete(nodes: seq<Node>, pred: Node -> bool, q: Path)
    requires NodeAt(nodes, q).Some? && pred(NodeAt(nodes, q).value)
    ensures FindIn(nodes, pred).Some?
    decreases nodes
  {
    if !pred(nodes[0]) && FindIn(nodes[0].children, pred).None? {
      if q[0] == 0 {
        assert |q| > 1;
        NodeAtFirst(nodes, q[1..]);
        assert [0] + q[1..] == q;
        FindComplete(nodes[0].children, pred, q[1..]);
      } else {
        var q' := [q[0] - 1] + q[1..];
        NodeAtShift(nodes, q');
        assert [q'[0] + 1] + q'[1..] == q;
        FindComplete(nodes[1..], pred, q');
      }
    }
  }

  /** `Find` returns null exactly when no node of the forest satisfies the predicate. */
  lemma FindNone(nodes: seq<Node>, pred: Node -> bool)
    ensures FindIn(nodes, pred).None? <==> forall q :: NodeAt(nodes, q).Some? ==> !pred(NodeAt(nodes, q).value)
  {
    if FindIn(nodes, pred).Some? {
      FindSound(nodes, pred);
    }
    forall q | NodeAt(nodes, q).Some? && pred(NodeAt(nodes, q).value) ensures FindIn(nodes, pred).Some? {
      FindComplete(nodes, pred, q);
    }
  }

  /** No node visited before the found one in pre-order satisfies the predicate. */
  lemma {:induction false} FindFirst(nodes: seq<Node>, pred: Node -> bool, q: Path)
    requires FindIn(nodes, pred).Some?
    requires PreorderBefore(q, FindIn(nodes, pred).value)
    requires NodeAt(nodes, q).Some?
    ensures !pred(NodeAt(nodes, q).value)
    decreases nodes, 1
  {
    if pred(nodes[0]) {
      NothingBeforeFirst(q);
      assert false;
    } else if FindIn(nodes[0].children, pred).Some? {
      FindFirstInFirst(nodes, pred, q);
    } else {
      FindFirstInRest(nodes, pred, q);
    }
  }

  /** The case where the found node lies below the first node. */
  lemma {:induction false} FindFirstInFirst(nodes: seq<Node>, pred: Node -> bool, q: Path)
    requires |nodes| > 0 && !pred(nodes[0]) && FindIn(nodes[0].children, pred).Some?
    requires PreorderBefore(q, [0] + FindIn(nodes[0].children, pred).value)
    requires NodeAt(nodes, q).Some?
    ensures !pred(NodeAt(nodes, q).value)
    decreases nodes, 0
  {
    var p' := FindIn(nodes[0].children, pred).value;
    var p := [0] + p';
    PreorderHead(q, p);
    if |q| == 1 {
      assert NodeAt(nodes, q).value == nodes[0];
    } else {
      var q' := q[1..];
      assert q == [0] + q';
      TailPreorder(q, p, q', p');
      NodeAtFirst(nodes, q');
      FindFirst(nodes[0].children, pred, q');
    }
  }

  /** Dropping a shared first index 0 from two paths keeps their pre-order. */
  lemma TailPreorder(q: Path, p: Path, q': Path, p': Path)
    requires |q| > 1 && q[0] == 0 && q' == q[1..] && p == [0] + p'
    requires PreorderBefore(q, p)
    ensures PreorderBefore(q', p')
  {
    if |q| < |p| && q == p[..|q|] {
      forall j | 0 <= j < |q'| ensures q'[j] == p'[j] {
        assert q'[j] == q[j + 1] == p[j + 1] == p'[j];
      }
      assert q' == p'[..|q'|];
    } else {
      var k :| 0 <= k < |q| && k < |p| && q[..k] == p[..k] && q[k] < p[k];
      assert k != 0;
      assert q'[..k - 1] == q[1..k] && p'[..k - 1] == p[1..k];
      assert q[1..k] == p[1..k] by {
        assert q[..k] == p[..k];
      }
      assert q'[k - 1] < p'[k - 1];
    }
  }

  /** The case where the found node lies in a later sibling's subtree. */
  lemma {:induction false} FindFirstInRest(nodes: seq<Node>, pred: Node -> bool, q: Path)
    requires |nodes| > 0 && !pred(nodes[0]) && FindIn(nodes[0].children, pred).None? && FindIn(nodes[1..], pred).Some?
    requires PreorderBefore(q, [FindIn(nodes[1..], pred).value[0] + 1] + FindIn(nodes[1..], pred).value[1..])
    requires NodeAt(nodes, q).Some?
    ensures !pred(NodeAt(nodes, q).value)
    decreases nodes, 0
  {
    var p' := FindIn(nodes[1..], pred).value;
    var p := [p'[0] + 1] + p'[1..];
    if q[0] == 0 {
      FirstSubtreeMiss(nodes, pred, q);
    } else {
      var q' := [q[0] - 1] + q[1..];
      assert q'[1..] == q[1..];
      assert [q'[0] + 1] + q'[1..] == q;
      NodeAtShift(nodes, q');
      assert PreorderBefore(q', p') by {
        ShiftPreorder(q, p, q', p');
      }
      FindFirst(nodes[1..], pred, q');
    }
  }

  /** When neither the first node nor any node below it satisfies the predicate, no path into that subtree does. */
  lemma FirstSubtreeMiss(nodes: seq<Node>, pred: Node -> bool, q: Path)
    requires |nodes| > 0 && !pred(nodes[0]) && FindIn(nodes[0].children, pred).None?
    requires NodeAt(nodes, q).Some? && q[0] == 0
    ensures !pred(NodeAt(nodes, q).value)
  {
    if |q| == 1 {
      assert NodeAt(nodes, q).value == nodes[0];
    } else {
      NodeAtFirst(nodes, q[1..]);
      assert [0] + q[1..] == q;
      FindNone(nodes[0].children, pred);
    }
  }

  /** Nothing comes before the first root in pre-order. */
  lemma NothingBeforeFirst(q: Path)
    requires |q| > 0
    ensures !PreorderBefore(q, [0])
  {
    forall k | 0 <= k < |q| && k < 1 ensures !(q[k] < [0][k]) {
      assert k == 0;
    }
  }

  /** A path visited earlier starts at a root no later than the other's. */
  lemma PreorderHead(q: Path, p: Path)
    requires |q| > 0 && PreorderBefore(q, p)
    ensures q[0] <= p[0]
  {
    if !(|q| < |p| && q == p[..|q|]) {
      var k :| 0 <= k < |q| && k < |p| && q[..k] == p[..k] && q[k] < p[k];
      if k > 0 {
        assert q[0] == q[..k][0] == p[..k][0] == p[0];
      }
    }
  }

  /** Lowering the first index of two paths by one keeps their pre-order. */
  lemma ShiftPreorder(q: Path, p: Path, q': Path, p': Path)
    requires |q| > 0 && |p'| > 0 && q[0] > 0
    requires q' == [q[0] - 1] + q[1..] && p == [p'[0] + 1] + p'[1..]
    requires PreorderBefore(q, p)
    ensures PreorderBefore(q', p')
  {
    if |q| < |p| && q == p[..|q|] {
      assert q'[0] == p'[0];
      assert q'[1..] == q[1..] == p[1..|q|] == p'[1..|q'|];
      assert q' == p'[..|q'|];
    } else {
      var k :| 0 <= k < |q| && k < |p| && q[..k] == p[..k] && q[k] < p[k];
      if k == 0 {
        assert q'[0] < p'[0];
        assert q'[..0] == p'[..0];
      } else {
        assert q[0] == q[..k][0] == p[..k][0];
        assert q'[..k] == p'[..k] by {
          forall i | 0 <= i < k ensures q'[i] == p'[i] {
            if i > 0 {
              assert q'[i] == q[i] == q[..k][i] == p[..k][i] == p[i] == p'[i];
            }
          }
        }
        assert q'[k] == q[k] && p'[k] == p[k];
      }
    }
  }

  /** The path of a node below the node at `parent`, searching only its descendants. */
  function FindBelow(forest: seq<Node>, parent: Path, pred: Node -> bool): (r: Option<Path>)
    requires NodeAt(forest, parent).Some?
  {
    match FindIn(NodeAt(forest, parent).value.children, pred)
    case Some(p) => Some(parent + p)
    case None => None
  }

  /** The node at a parent's path extended by a path into its children. */
  lemma {:induction false} NodeAtAppend(forest: seq<Node>, parent: Path, p: Path)
    requires NodeAt(forest, parent).Some?
    ensures NodeAt(forest, parent + p) == if |p| == 0 then NodeAt(forest, parent) else NodeAt(NodeAt(forest, parent).value.children, p)
    decreases |parent|
  {
    if |p| > 0 && |parent| > 1 {
      assert (parent + p)[1..] == parent[1..] + p;
      NodeAtAppend(forest[parent[0]].children, parent[1..], p);
    } else if |p| > 0 {
      assert (parent + p)[1..] == p;
    } else {
      assert parent + p == parent;
    }
  }

  /** A node found below a node is one of its descendants and satisfies the predicate. */
  lemma FindBelowSound(forest: seq<Node>, parent: Path, pred: Node -> bool)
    requires NodeAt(forest, parent).Some? && FindBelow(forest, parent, pred).Some?
    ensures |FindBelow(forest, parent, pred).value| > |parent|
    ensures FindBelow(forest, parent, pred).value[..|parent|] == parent
    ensures NodeAt(forest, FindBelow(forest, parent, pred).value).Some?
    ensures pred(NodeAt(forest, FindBelow(forest, parent, pred).value).value)
  {
    var children := NodeAt(forest, parent).value.children;
    var p := FindIn(children, pred).value;
    FindSound(children, pred);
    NodeAtAppend(forest, parent, p);
    assert (parent + p)[..|parent|] == parent;
  }

  // ----- roots -----

  /** A root node showing the file `fileName`. */
  predicate IsFileRoot(n: Node, fileName: string)
  {
    n.kind == AssemblyNode && n.tag.PETag? && n.tag.pe.fileName == fileName
  }

  /** The parent's path: the path without its last index; a root has none. */
  function Parent(p: Path): (r: Option<Path>)
    ensures r.Some? ==> |r.value| == |p| - 1 && r.value == p[..|p| - 1]
  {
    if |p| <= 1 then None else Some(p[..|p| - 1])
  }

  /** The ancestors of a node, outermost first: its root, then down to its parent. */
  function Ancestors(p: Path): (r: seq<Path>)
    ensures |r| == if |p| == 0 then 0 else |p| - 1
    ensures forall k :: 0 <= k < |r| ==> r[k] == p[..k + 1]
  {
    if |p| <= 1 then [] else Ancestors(p[..|p| - 1]) + [p[..|p| - 1]]
  }

  /** Every ancestor of a node in the forest is a node of the forest. */
  lemma {:induction false} AncestorsInForest(forest: seq<Node>, p: Path, k: nat)
    requires NodeAt(forest, p).Some? && k < |p|
    ensures NodeAt(forest, p[..k + 1]).Some?
    decreases |p|
  {
    if k > 0 {
      assert p[..k + 1][0] == p[0] && p[..k + 1][1..] == p[1..][..k];
      AncestorsInForest(forest[p[0]].children, p[1..], k - 1);
    }
  }

  /** Every root is an assembly node, and no two show the same file. */
  predicate DistinctFileRoots(roots: seq<Node>)
  {
    && (forall i :: 0 <= i < |roots| ==> roots[i].kind == AssemblyNode && roots[i].tag.PETag?)
    && (forall i, j :: 0 <= i < j < |roots| ==> roots[i].tag.pe.fileName != roots[j].tag.pe.fileName)
  }

  /** An assembly node for a file no root shows keeps the roots distinct when appended. */
  lemma AppendFileRoot(roots: seq<Node>, n: Node)
    requires DistinctFileRoots(roots) && n.kind == AssemblyNode && n.tag.PETag?
    requires forall j :: 0 <= j < |roots| ==> !IsFileRoot(roots[j], n.tag.pe.fileName)
    ensures DistinctFileRoots(roots + [n])
  {
    forall i, j | 0 <= i < j < |roots| + 1
      ensures (roots + [n])[i].tag.pe.fileName != (roots + [n])[j].tag.pe.fileName
    {
      if j == |roots| {
        assert !IsFileRoot(roots[i], n.tag.pe.fileName);
      }
    }
  }

  /** The node's ancestors collected by walking up through the parents: its parent on the bottom, its root on top. */
  method ParentStack(m: Path) returns (stack: seq<Path>)
    ensures |stack| == |Ancestors(m)|
    ensures forall k :: 0 <= k < |stack| ==> stack[k] == m[..|m| - 1 - k]
  {
    stack := [];
    var p := Parent(m);
    while p.Some?
      invariant p.Some? ==> |p.value| >= 1 && p.value == m[..|p.value|]
      invariant |stack| + (if p.Some? then |p.value| else 0) == (if |m| == 0 then 0 else |m| - 1)
      invariant forall k :: 0 <= k < |stack| ==> stack[k] == m[..|m| - 1 - k]
      decreases if p.Some? then |p.value| else 0
    {
      stack := stack + [p.value];
      p := Parent(p.value);
    }
  }

  class TreeView {
    /** The root objects, in the order they were added. */
    var roots: seq<Node>
    /** The nodes expanded so far, in the order `Expand` was called on them. */
    var expanded: seq<Path>
    var selected: Option<Path>

    /** Every root is an assembly node, and no two show the same file. */
    predicate Valid()
      reads this
    {
      DistinctFileRoots(roots)
    }

    constructor ()
      ensures Valid() && roots == [] && expanded == [] && selected == None
    {
      roots := [];
      expanded := [];
      selected := None;
    }

    /** `Find (predicate)` over the roots. */
    function Find(pred: Node -> bool): Option<Path>
      reads this
    {
      FindIn(roots, pred)
    }

    /** `Find (pe)`: the first root showing a file of the same name; only roots are inspected. */
    method FindFile(pe: PEFile) returns (r: Option<nat>)
      ensures r.Some? ==> r.value < |roots| && IsFileRoot(roots[r.value], pe.fileName)
      ensures r.Some? ==> forall j :: 0 <= j < r.value ==> !IsFileRoot(roots[j], pe.fileName)
      ensures r.None? <==> forall j :: 0 <= j < |roots| ==> !IsFileRoot(roots[j], pe.fileName)
    {
      for i := 0 to |roots|
        invariant forall j :: 0 <= j < i ==> !IsFileRoot(roots[j], pe.fileName)
      {
        var n := roots[i];
        if n.kind == AssemblyNode && n.tag.PETag? && n.tag.pe.fileName == pe.fileName {
          return Some(i);
        }
      }
      return None;
    }

    /**
     * `Add (file)`: the root already showing a file of that name, or a new assembly node
     * appended as the last root; None when building the node throws.
     */
    method Add(pe: PEFile) returns (r: Option<nat>)
      requires Valid()
      modifies this
      ensures Valid()
      ensures expanded == old(expanded) && selected == old(selected)
      ensures (exists j :: 0 <= j < |old(roots)| && IsFileRoot(old(roots)[j], pe.fileName)) ==>
        roots == old(roots) && r.Some? && r.value < |roots| && IsFileRoot(roots[r.value], pe.fileName)
      ensures (forall j :: 0 <= j < |old(roots)| ==> !IsFileRoot(old(roots)[j], pe.fileName)) ==>
        if AssemblyNodeOf(pe).Some? then
          roots == old(roots) + [AssemblyNodeOf(pe).value] && r == Some(|old(roots)|)
        else
          roots == old(roots) && r.None?
    {
      var found := FindFile(pe);
      if found.Some? {
        return found;
      }
      var node := BuildAssemblyNode(pe);
      if node.None? {
        return None;
      }
      AssemblyNodeTagged(pe);
      AppendFileRoot(roots, node.value);
      roots := roots + [node.value];
      r := Some(|roots| - 1);
    }

    /** Expands the paths on the stack from its top down: the ancestors of `m`, outermost first. */
    method ExpandAncestors(m: Path, stack: seq<Path>)
      requires |stack| == |Ancestors(m)| && forall k :: 0 <= k < |stack| ==> stack[k] == m[..|m| - 1 - k]
      modifies this
      ensures expanded == old(expanded) + Ancestors(m)
      ensures roots == old(roots) && selected == old(selected)
    {
      var rest := stack;
      while |rest| > 0
        invariant |rest| <= |stack| && rest == stack[..|rest|]
        invariant expanded == old(expanded) + Ancestors(m)[..|Ancestors(m)| - |rest|]
        invariant roots == old(roots) && selected == old(selected)
      {
        var top := rest[|rest| - 1];
        assert Ancestors(m)[..|Ancestors(m)| - |rest| + 1] == Ancestors(m)[..|Ancestors(m)| - |rest|] + [top];
        expanded := expanded + [top];
        rest := rest[..|rest| - 1];
      }
      assert Ancestors(m)[..|Ancestors(m)|] == Ancestors(m);
    }

    /**
     * `Select (node)`: expands each ancestor of the node, outermost first, then selects it;
     * null selects nothing and changes nothing.
     */
    method Select(node: Option<Path>) returns (r: Option<Path>)
      requires node.Some? ==> NodeAt(roots, node.value).Some?
      modifies this
      ensures roots == old(roots)
      ensures node.None? ==> r.None? && expanded == old(expanded) && selected == old(selected)
      ensures node.Some? ==> r == node && selected == node && expanded == old(expanded) + Ancestors(node.value)
    {
      if node.None? {
        return None;
      }
      var m := node.value;
      var stack := ParentStack(m);
      ExpandAncestors(m, stack);
      selected := Some(m);
      r := Some(m);
    }
  }
}
