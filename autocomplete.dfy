/** The autocomplete ternary search tree as the source keeps it: nodes that are
    updated in place and linked by references.  The nodes live in an arena
    (`nodes`), a link is an index into it, and allocation appends.  The arena
    invariant makes the linked structure a tree: every link points forward to
    an allocated node, and every node is the target of at most one link (the
    one `parents` records).  `Tree()` reads the tree from the root as a value
    of module TernaryTree, and every operation is proved against the function
    of that module that specifies it. */
module AutoComplete {
  import T = TernaryTree

  datatype Link = Null | At(index: nat)

  datatype Node = Node(value: char, isWord: bool, less: Link, equal: Link, greater: Link)

  /** Which link last pointed to a node, if any. */
  datatype Origin = NoParent | From(node: nat, dir: T.Dir)

  function Out(n: Node, d: T.Dir): Link {
    match d
    case Lo => n.less
    case Eq => n.equal
    case Hi => n.greater
  }

  function SetOut(n: Node, d: T.Dir, l: Link): Node {
    match d
    case Lo => n.(less := l)
    case Eq => n.(equal := l)
    case Hi => n.(greater := l)
  }

  /** Every link points to a node allocated after the one holding it. */
  ghost predicate Forward(nodes: seq<Node>) {
    forall i, d :: 0 <= i < |nodes| && Out(nodes[i], d).At? ==> i < Out(nodes[i], d).index < |nodes|
  }

  /** Every link is the one recorded for its target, so no node has two. */
  ghost predicate Owned(nodes: seq<Node>, parents: seq<Origin>) {
    |parents| == |nodes| &&
    forall i, d :: 0 <= i < |nodes| && Out(nodes[i], d).At? && Out(nodes[i], d).index < |parents| ==>
      parents[Out(nodes[i], d).index] == From(i, d)
  }

  /** The child link of node `i`, read as Null unless it points forward into the arena. */
  function ChildLink(nodes: seq<Node>, i: nat, d: T.Dir): Link
    requires i < |nodes|
  {
    var l := Out(nodes[i], d);
    if l.At? && i < l.index < |nodes| then l else Null
  }

  function Rank(nodes: seq<Node>, l: Link): nat {
    if l.At? && l.index < |nodes| then |nodes| - l.index else 0
  }

  /** The tree hanging from link `l`, as a value. */
  ghost function ToTree(nodes: seq<Node>, l: Link): T.Tree
    decreases Rank(nodes, l)
  {
    if l.Null? || l.index >= |nodes| then T.Nil
    else
      var n := nodes[l.index];
      T.Node(n.value, n.isWord,
             ToTree(nodes, ChildLink(nodes, l.index, T.Lo)),
             ToTree(nodes, ChildLink(nodes, l.index, T.Eq)),
             ToTree(nodes, ChildLink(nodes, l.index, T.Hi)))
  }

  /** The indices of the nodes reachable from link `l`. */
  ghost function Reach(nodes: seq<Node>, l: Link): set<nat>
    decreases Rank(nodes, l)
  {
    if l.Null? || l.index >= |nodes| then {}
    else
      {l.index} + Reach(nodes, ChildLink(nodes, l.index, T.Lo)) +
      Reach(nodes, ChildLink(nodes, l.index, T.Eq)) + Reach(nodes, ChildLink(nodes, l.index, T.Hi))
  }

  /** The nodes `anc` are visited by following `path` from link `l`. */
  ghost predicate Spine(nodes: seq<Node>, l: Link, path: seq<T.Dir>, anc: seq<nat>) {
    |anc| == |path| + 1 && l == At(anc[0]) &&
    (forall j :: 0 <= j < |anc| ==> anc[j] < |nodes|) &&
    (forall j :: 0 <= j < |path| ==> Out(nodes[anc[j]], path[j]) == At(anc[j + 1]))
  }

  /** A cursor on a slot, the `ref Node` of the source: the root slot when
      `path` is empty, otherwise the last step of `path` out of the last node
      of `anc`; `ptr` is the link the slot holds. */
  ghost predicate Cursor(nodes: seq<Node>, root: Link, path: seq<T.Dir>, anc: seq<nat>, ptr: Link) {
    |anc| == |path| &&
    (path == [] ==> ptr == root) &&
    (path != [] ==> Spine(nodes, root, path[..|path| - 1], anc) &&
                    ptr == Out(nodes[anc[|anc| - 1]], path[|path| - 1]))
  }

  // ---------------------------------------------------------------------------
  // Lemmas about the arena
  // ---------------------------------------------------------------------------

  lemma ChildLinkForward(nodes: seq<Node>, i: nat, d: T.Dir)
    requires Forward(nodes) && i < |nodes|
    ensures ChildLink(nodes, i, d) == Out(nodes[i], d)
  {
  }

  lemma {:induction false} ReachBounds(nodes: seq<Node>, l: Link, k: nat)
    requires k in Reach(nodes, l)
    ensures l.At? && l.index <= k < |nodes|
    decreases Rank(nodes, l)
  {
    var i := l.index;
    if k != i {
      if k in Reach(nodes, ChildLink(nodes, i, T.Lo)) {
        ReachBounds(nodes, ChildLink(nodes, i, T.Lo), k);
      } else if k in Reach(nodes, ChildLink(nodes, i, T.Eq)) {
        ReachBounds(nodes, ChildLink(nodes, i, T.Eq), k);
      } else {
        ReachBounds(nodes, ChildLink(nodes, i, T.Hi), k);
      }
    }
  }

  /** Changing a node that is not reachable from `l` changes nothing below `l`. */
  lemma {:induction false} UpdateOutside(nodes: seq<Node>, l: Link, k: nat, x: Node)
    requires k < |nodes| && k !in Reach(nodes, l)
    ensures ToTree(nodes[k := x], l) == ToTree(nodes, l)
    ensures Reach(nodes[k := x], l) == Reach(nodes, l)
    decreases Rank(nodes, l)
  {
    if l.At? && l.index < |nodes| {
      var i := l.index;
      var nodes' := nodes[k := x];
      assert nodes'[i] == nodes[i];
      assert forall d :: ChildLink(nodes', i, d) == ChildLink(nodes, i, d);
      UpdateOutside(nodes, ChildLink(nodes, i, T.Lo), k, x);
      UpdateOutside(nodes, ChildLink(nodes, i, T.Eq), k, x);
      UpdateOutside(nodes, ChildLink(nodes, i, T.Hi), k, x);
    }
  }

  /** Appending a node changes nothing below an existing link. */
  lemma {:induction false} AppendOutside(nodes: seq<Node>, l: Link, x: Node)
    requires Forward(nodes) && (l.Null? || l.index < |nodes|)
    ensures ToTree(nodes + [x], l) == ToTree(nodes, l)
    ensures Reach(nodes + [x], l) == Reach(nodes, l)
    decreases Rank(nodes, l)
  {
    if l.At? {
      var i := l.index;
      var nodes' := nodes + [x];
      assert nodes'[i] == nodes[i];
      assert forall d :: ChildLink(nodes', i, d) == ChildLink(nodes, i, d);
      AppendOutside(nodes, ChildLink(nodes, i, T.Lo), x);
      AppendOutside(nodes, ChildLink(nodes, i, T.Eq), x);
      AppendOutside(nodes, ChildLink(nodes, i, T.Hi), x);
    }
  }

  /** The tree at a node that was just replaced by `x`: its own fields come
      from `x`, its subtrees are unchanged. */
  lemma NodeView(nodes: seq<Node>, k: nat, x: Node)
    requires k < |nodes| && Forward(nodes[k := x])
    ensures ToTree(nodes[k := x], At(k)) ==
              T.Node(x.value, x.isWord, ToTree(nodes, x.less), ToTree(nodes, x.equal), ToTree(nodes, x.greater))
  {
    var nodes' := nodes[k := x];
    forall d ensures ToTree(nodes', Out(x, d)) == ToTree(nodes, Out(x, d)) {
      var c := Out(x, d);
      assert Out(nodes'[k], d) == c;
      if c.At? && k in Reach(nodes, c) {
        ReachBounds(nodes, c, k);
      }
      UpdateOutside(nodes, c, k, x);
    }
    ChildLinkForward(nodes', k, T.Lo);
    ChildLinkForward(nodes', k, T.Eq);
    ChildLinkForward(nodes', k, T.Hi);
  }

  /** Following a recorded link backwards stays inside the set reachable from `a`. */
  lemma {:induction false} ReachParent(nodes: seq<Node>, parents: seq<Origin>, a: nat, j: nat)
    requires Forward(nodes) && Owned(nodes, parents)
    requires j in Reach(nodes, At(a)) && j != a
    ensures j < |parents| && parents[j].From? && parents[j].node in Reach(nodes, At(a)) && parents[j].node < j
    decreases Rank(nodes, At(a))
  {
    ReachBounds(nodes, At(a), j);
    var d :| j in Reach(nodes, ChildLink(nodes, a, d));
    var c := ChildLink(nodes, a, d);
    ReachBounds(nodes, c, j);
    assert Out(nodes[a], d) == c;
    if j != c.index {
      ReachParent(nodes, parents, c.index, j);
      var p := parents[j].node;
      assert p in Reach(nodes, At(a)) by {
        assert Reach(nodes, c) <= Reach(nodes, At(a));
      }
    }
  }

  /** Two nodes that reach a common node lie on one branch. */
  lemma {:induction false} ReachShared(nodes: seq<Node>, parents: seq<Origin>, a: nat, b: nat, j: nat)
    requires Forward(nodes) && Owned(nodes, parents)
    requires j in Reach(nodes, At(a)) && j in Reach(nodes, At(b))
    ensures a in Reach(nodes, At(b)) || b in Reach(nodes, At(a))
    decreases j
  {
    if j != a && j != b {
      ReachParent(nodes, parents, a, j);
      ReachParent(nodes, parents, b, j);
      ReachShared(nodes, parents, a, b, parents[j].node);
    }
  }

  /** The subtrees under two different links of one node share no node. */
  lemma SiblingsDisjoint(nodes: seq<Node>, parents: seq<Origin>, i: nat, d1: T.Dir, d2: T.Dir, k: nat)
    requires Forward(nodes) && Owned(nodes, parents) && i < |nodes| && d1 != d2
    requires k in Reach(nodes, ChildLink(nodes, i, d1))
    ensures k !in Reach(nodes, ChildLink(nodes, i, d2))
  {
    var c1 := ChildLink(nodes, i, d1);
    ReachBounds(nodes, c1, k);
    var a := c1.index;
    assert Out(nodes[i], d1) == At(a) && parents[a] == From(i, d1);
    var c2 := ChildLink(nodes, i, d2);
    if c2.At? {
      var b := c2.index;
      assert Out(nodes[i], d2) == At(b) && parents[b] == From(i, d2);
      if a in Reach(nodes, At(b)) {
        ReachParent(nodes, parents, b, a);
        ReachBounds(nodes, At(b), i);
      }
      if b in Reach(nodes, At(a)) {
        ReachParent(nodes, parents, a, b);
        ReachBounds(nodes, At(a), i);
      }
      if k in Reach(nodes, c2) {
        ReachShared(nodes, parents, a, b, k);
      }
    }
  }

  /** Along a spine: the last node is reachable, the path is a path of the
      tree, and the subtree there is the tree at the last node. */
  lemma {:induction false} SpineFacts(nodes: seq<Node>, l: Link, path: seq<T.Dir>, anc: seq<nat>)
    requires Forward(nodes) && Spine(nodes, l, path, anc)
    ensures anc[|path|] in Reach(nodes, l)
    ensures forall j :: 0 <= j < |path| ==> anc[j] < anc[|path|]
    ensures T.ValidPath(ToTree(nodes, l), path)
    ensures T.Subtree(ToTree(nodes, l), path) == ToTree(nodes, At(anc[|path|]))
    decreases |path|
  {
    if path != [] {
      var i := anc[0];
      assert Out(nodes[i], path[0]) == At(anc[1]);
      ChildLinkForward(nodes, i, path[0]);
      assert Spine(nodes, At(anc[1]), path[1..], anc[1..]);
      SpineFacts(nodes, At(anc[1]), path[1..], anc[1..]);
      assert Reach(nodes, At(anc[1])) <= Reach(nodes, l) by {
        match path[0]
        case Lo =>
        case Eq =>
        case Hi =>
      }
      assert T.Child(ToTree(nodes, l), path[0]) == ToTree(nodes, At(anc[1])) by {
        match path[0]
        case Lo =>
        case Eq =>
        case Hi =>
      }
      forall j | 0 <= j < |path| ensures anc[j] < anc[|path|] {
        if j > 0 {
          assert anc[1..][j - 1] == anc[j];
        } else {
          ReachBounds(nodes, At(anc[1]), anc[|path|]);
        }
      }
    }
  }

  /** Replacing the node at the end of a spine replaces, in the tree read
      from the root, exactly the subtree at that path. */
  lemma {:induction false} UpdateAlong(nodes: seq<Node>, parents: seq<Origin>, l: Link,
                                       path: seq<T.Dir>, anc: seq<nat>, x: Node)
    requires Forward(nodes) && Owned(nodes, parents) && Spine(nodes, l, path, anc)
    requires Forward(nodes[anc[|path|] := x])
    ensures ToTree(nodes[anc[|path|] := x], l) ==
              T.Replace(ToTree(nodes, l), path, ToTree(nodes[anc[|path|] := x], At(anc[|path|])))
    decreases |path|
  {
    if path != [] {
      var k := anc[|path|];
      var nodes' := nodes[k := x];
      var i := anc[0];
      var d := path[0];
      assert Spine(nodes, At(anc[1]), path[1..], anc[1..]);
      assert anc[1..][|path[1..]|] == k;
      SpineFacts(nodes, At(anc[1]), path[1..], anc[1..]);
      SpineFacts(nodes, l, path, anc);
      assert nodes'[i] == nodes[i];
      assert Out(nodes[i], d) == At(anc[1]);
      UpdateAlong(nodes, parents, At(anc[1]), path[1..], anc[1..], x);
      forall e | e != d
        ensures ToTree(nodes', ChildLink(nodes', i, e)) == ToTree(nodes, ChildLink(nodes, i, e))
      {
        assert ChildLink(nodes', i, e) == ChildLink(nodes, i, e);
        ChildLinkForward(nodes, i, d);
        SiblingsDisjoint(nodes, parents, i, d, e, k);
        UpdateOutside(nodes, ChildLink(nodes, i, e), k, x);
      }
      assert ChildLink(nodes', i, d) == At(anc[1]) && ChildLink(nodes, i, d) == At(anc[1]);
      match d
      case Lo =>
      case Eq =>
      case Hi =>
    }
  }

  /** One step down from the cursor's node keeps a cursor. */
  lemma CursorStep(nodes: seq<Node>, root: Link, path: seq<T.Dir>, anc: seq<nat>, ptr: Link, d: T.Dir)
    requires Cursor(nodes, root, path, anc, ptr) && ptr.At? && ptr.index < |nodes|
    requires forall j :: 0 <= j < |anc| ==> anc[j] < |nodes|
    ensures Spine(nodes, root, path, anc + [ptr.index])
    ensures Cursor(nodes, root, path + [d], anc + [ptr.index], Out(nodes[ptr.index], d))
  {
    var anc' := anc + [ptr.index];
    if path != [] {
      var q := path[..|path| - 1];
      assert Spine(nodes, root, q, anc);
      forall j | 0 <= j < |path| ensures Out(nodes[anc'[j]], path[j]) == At(anc'[j + 1]) {
        if j < |path| - 1 {
          assert path[j] == q[j];
        }
      }
    }
    assert (path + [d])[..|path|] == path;
  }

  /** What a cursor tells about the tree: its path is a path of the tree and
      the subtree there is the one hanging from the slot. */
  lemma CursorFacts(nodes: seq<Node>, root: Link, path: seq<T.Dir>, anc: seq<nat>, ptr: Link)
    requires Forward(nodes) && (root.Null? || root.index < |nodes|)
    requires Cursor(nodes, root, path, anc, ptr)
    ensures T.ValidPath(ToTree(nodes, root), path)
    ensures T.Subtree(ToTree(nodes, root), path) == ToTree(nodes, ptr)
    ensures ptr.Null? || ptr.index < |nodes|
    ensures forall j :: 0 <= j < |anc| ==> anc[j] < |nodes|
  {
    if path != [] {
      var q := path[..|path| - 1];
      var d := path[|path| - 1];
      var p := anc[|anc| - 1];
      SpineFacts(nodes, root, q, anc);
      T.PathStep(ToTree(nodes, root), q, d, T.Nil);
      assert q + [d] == path;
      ChildLinkForward(nodes, p, d);
      assert T.Child(ToTree(nodes, At(p)), d) == ToTree(nodes, ptr) by {
        match d
        case Lo =>
        case Eq =>
        case Hi =>
      }
    }
  }

  /** The arena after allocating a leaf and linking it from slot `d` of node `p`. */
  function Attach(nodes: seq<Node>, p: nat, d: T.Dir, c: char): seq<Node>
    requires p < |nodes|
  {
    (nodes + [Node(c, false, Null, Null, Null)])[p := SetOut(nodes[p], d, At(|nodes|))]
  }

  /** Allocating and linking a leaf keeps the arena a tree. */
  lemma AttachShape(nodes: seq<Node>, parents: seq<Origin>, p: nat, d: T.Dir, c: char)
    requires Forward(nodes) && Owned(nodes, parents) && p < |nodes| && Out(nodes[p], d) == Null
    ensures Forward(nodes + [Node(c, false, Null, Null, Null)])
    ensures Owned(nodes + [Node(c, false, Null, Null, Null)], parents + [From(p, d)])
    ensures Forward(Attach(nodes, p, d, c)) && Owned(Attach(nodes, p, d, c), parents + [From(p, d)])
  {
    var n := |nodes|;
    var nodes1 := nodes + [Node(c, false, Null, Null, Null)];
    var x := SetOut(nodes[p], d, At(n));
    var parents' := parents + [From(p, d)];
    assert forall i, e :: 0 <= i < n ==> Out(nodes1[i], e) == Out(nodes[i], e);
    assert Forward(nodes1);
    assert Owned(nodes1, parents') by {
      assert forall i, e :: 0 <= i < n && Out(nodes1[i], e).At? ==> Out(nodes1[i], e).index < n;
    }
    assert forall e :: Out(x, e) == (if e == d then At(n) else Out(nodes[p], e));
  }

  /** Linking a leaf under the cursor leaves the spine to the cursor intact. */
  lemma AttachCursor(nodes: seq<Node>, root: Link, path: seq<T.Dir>, anc: seq<nat>, c: char)
    requires Forward(nodes) && (root.Null? || root.index < |nodes|)
    requires path != [] && Cursor(nodes, root, path, anc, Null)
    ensures anc[|anc| - 1] < |nodes| && Out(nodes[anc[|anc| - 1]], path[|path| - 1]) == Null
    ensures Cursor(Attach(nodes, anc[|anc| - 1], path[|path| - 1], c), root, path, anc, At(|nodes|))
  {
    var q := path[..|path| - 1];
    var p := anc[|anc| - 1];
    var nodes' := Attach(nodes, p, path[|path| - 1], c);
    SpineFacts(nodes, root, q, anc);
    forall j | 0 <= j < |q| ensures Out(nodes'[anc[j]], q[j]) == At(anc[j + 1]) {
      assert anc[j] < p;
    }
  }

  /** The node that receives the leaf gains it as its child `d`. */
  lemma AttachNode(nodes: seq<Node>, parents: seq<Origin>, p: nat, d: T.Dir, c: char)
    requires Forward(nodes) && Owned(nodes, parents) && p < |nodes| && Out(nodes[p], d) == Null
    ensures ToTree(Attach(nodes, p, d, c), At(p)) == T.WithChild(ToTree(nodes, At(p)), d, T.Leaf(c))
  {
    var n := |nodes|;
    var leaf := Node(c, false, Null, Null, Null);
    var nodes1 := nodes + [leaf];
    var x := SetOut(nodes[p], d, At(n));
    AttachShape(nodes, parents, p, d, c);
    NodeView(nodes1, p, x);
    assert ToTree(nodes1, At(n)) == T.Leaf(c);
    forall e ensures ToTree(nodes1, Out(nodes[p], e)) == ToTree(nodes, Out(nodes[p], e)) {
      AppendOutside(nodes, Out(nodes[p], e), leaf);
    }
    ChildLinkForward(nodes, p, T.Lo);
    ChildLinkForward(nodes, p, T.Eq);
    ChildLinkForward(nodes, p, T.Hi);
    match d
    case Lo =>
    case Eq =>
    case Hi =>
  }

  /** Linking a leaf under the node at the end of a spine replaces, in the
      tree read from the root, only the subtree at that node. */
  lemma AttachAlong(nodes: seq<Node>, parents: seq<Origin>, root: Link, q: seq<T.Dir>, anc: seq<nat>,
                    d: T.Dir, c: char)
    requires Forward(nodes) && Owned(nodes, parents) && (root.Null? || root.index < |nodes|)
    requires Spine(nodes, root, q, anc) && Out(nodes[anc[|q|]], d) == Null
    ensures ToTree(Attach(nodes, anc[|q|], d, c), root) ==
              T.Replace(ToTree(nodes, root), q, ToTree(Attach(nodes, anc[|q|], d, c), At(anc[|q|])))
  {
    var p := anc[|q|];
    var leaf := Node(c, false, Null, Null, Null);
    var nodes1 := nodes + [leaf];
    var x := SetOut(nodes[p], d, At(|nodes|));
    AttachShape(nodes, parents, p, d, c);
    assert Spine(nodes1, root, q, anc);
    AppendOutside(nodes, root, leaf);
    UpdateAlong(nodes1, parents + [From(p, d)], root, q, anc, x);
  }

  /** Linking a leaf under the cursor puts the leaf at the cursor's path. */
  lemma AttachTree(nodes: seq<Node>, parents: seq<Origin>, root: Link, path: seq<T.Dir>, anc: seq<nat>, c: char)
    requires Forward(nodes) && Owned(nodes, parents) && (root.Null? || root.index < |nodes|)
    requires path != [] && Cursor(nodes, root, path, anc, Null)
    ensures anc[|anc| - 1] < |nodes|
    ensures ToTree(Attach(nodes, anc[|anc| - 1], path[|path| - 1], c), root) ==
              T.Replace(ToTree(nodes, root), path, T.Leaf(c))
  {
    var q := path[..|path| - 1];
    var d := path[|path| - 1];
    var p := anc[|anc| - 1];
    assert Spine(nodes, root, q, anc);
    SpineFacts(nodes, root, q, anc);
    var t := ToTree(nodes, root);
    var nodes' := Attach(nodes, p, d, c);
    AttachAlong(nodes, parents, root, q, anc, d, c);
    AttachNode(nodes, parents, p, d, c);
    assert T.Subtree(t, q) == ToTree(nodes, At(p)) && ToTree(nodes, At(p)).Node?;
    T.PathStep(t, q, d, T.Leaf(c));
    assert q + [d] == path;
    calc {
      ToTree(nodes', root);
      T.Replace(t, q, ToTree(nodes', At(p)));
      T.Replace(t, q, T.WithChild(T.Subtree(t, q), d, T.Leaf(c)));
      T.Replace(t, path, T.Leaf(c));
    }
  }

  /** Replacing a node by one whose links are its own or Null keeps the
      arena a tree. */
  lemma Weaken(nodes: seq<Node>, parents: seq<Origin>, i: nat, x: Node)
    requires Forward(nodes) && Owned(nodes, parents) && i < |nodes|
    requires forall e :: Out(x, e) == Null || Out(x, e) == Out(nodes[i], e)
    ensures Forward(nodes[i := x]) && Owned(nodes[i := x], parents)
  {
    var nodes' := nodes[i := x];
    forall m, e | 0 <= m < |nodes'| && Out(nodes'[m], e).At?
      ensures Out(nodes'[m], e) == Out(nodes[m], e)
    {
    }
  }

  /** Changing only the word mark of the cursor's node keeps the arena a
      tree and the cursor in place. */
  lemma MarkShape(nodes: seq<Node>, parents: seq<Origin>, root: Link, path: seq<T.Dir>, anc: seq<nat>,
                  ptr: Link, b: bool)
    requires Forward(nodes) && Owned(nodes, parents) && (root.Null? || root.index < |nodes|)
    requires Cursor(nodes, root, path, anc, ptr) && ptr.At? && ptr.index < |nodes|
    ensures Forward(nodes[ptr.index := nodes[ptr.index].(isWord := b)])
    ensures Owned(nodes[ptr.index := nodes[ptr.index].(isWord := b)], parents)
    ensures Cursor(nodes[ptr.index := nodes[ptr.index].(isWord := b)], root, path, anc, ptr)
  {
    var i := ptr.index;
    var nodes' := nodes[i := nodes[i].(isWord := b)];
    assert forall m, e :: 0 <= m < |nodes| ==> Out(nodes'[m], e) == Out(nodes[m], e);
    Weaken(nodes, parents, i, nodes[i].(isWord := b));
    CursorFacts(nodes, root, path, anc, ptr);
  }

  /** Changing only the word mark of the cursor's node. */
  lemma Mark(nodes: seq<Node>, parents: seq<Origin>, root: Link, path: seq<T.Dir>, anc: seq<nat>,
             ptr: Link, b: bool)
    requires Forward(nodes) && Owned(nodes, parents) && (root.Null? || root.index < |nodes|)
    requires Cursor(nodes, root, path, anc, ptr) && ptr.At? && ptr.index < |nodes|
    ensures Forward(nodes[ptr.index := nodes[ptr.index].(isWord := b)])
    ensures Owned(nodes[ptr.index := nodes[ptr.index].(isWord := b)], parents)
    ensures Cursor(nodes[ptr.index := nodes[ptr.index].(isWord := b)], root, path, anc, ptr)
    ensures ToTree(nodes, ptr).Node?
    ensures ToTree(nodes[ptr.index := nodes[ptr.index].(isWord := b)], root) ==
              T.Replace(ToTree(nodes, root), path, ToTree(nodes, ptr).(isWord := b))
  {
    var i := ptr.index;
    var x := nodes[i].(isWord := b);
    MarkShape(nodes, parents, root, path, anc, ptr, b);
    CursorFacts(nodes, root, path, anc, ptr);
    CursorStep(nodes, root, path, anc, ptr, T.Eq);
    UpdateAlong(nodes, parents, root, path, anc + [i], x);
    NodeView(nodes, i, x);
    ChildLinkForward(nodes, i, T.Lo);
    ChildLinkForward(nodes, i, T.Eq);
    ChildLinkForward(nodes, i, T.Hi);
  }

  /** Detaching the `equal` child of the cursor's node keeps the arena a
      tree and the cursor in place. */
  lemma DetachShape(nodes: seq<Node>, parents: seq<Origin>, root: Link, path: seq<T.Dir>, anc: seq<nat>, ptr: Link)
    requires Forward(nodes) && Owned(nodes, parents) && (root.Null? || root.index < |nodes|)
    requires Cursor(nodes, root, path, anc, ptr) && ptr.At? && ptr.index < |nodes|
    ensures Forward(nodes[ptr.index := nodes[ptr.index].(equal := Null)])
    ensures Owned(nodes[ptr.index := nodes[ptr.index].(equal := Null)], parents)
    ensures Cursor(nodes[ptr.index := nodes[ptr.index].(equal := Null)], root, path, anc, ptr)
  {
    var i := ptr.index;
    var nodes' := nodes[i := nodes[i].(equal := Null)];
    assert forall m, e :: 0 <= m < |nodes| && m != i ==> Out(nodes'[m], e) == Out(nodes[m], e);
    assert forall e :: Out(nodes'[i], e) == (if e == T.Eq then Null else Out(nodes[i], e));
    Weaken(nodes, parents, i, nodes[i].(equal := Null));
    CursorFacts(nodes, root, path, anc, ptr);
    CursorStep(nodes, root, path, anc, ptr, T.Eq);
    SpineFacts(nodes, root, path, anc + [i]);
    if path != [] {
      var q := path[..|path| - 1];
      forall j | 0 <= j < |q| ensures Out(nodes'[anc[j]], q[j]) == At(anc[j + 1]) {
        assert anc[j] == (anc + [i])[j] < i;
      }
      assert anc[|anc| - 1] == (anc + [i])[|path| - 1] < i;
    }
  }

  /** Detaching the `equal` child of the cursor's node. */
  lemma Detach(nodes: seq<Node>, parents: seq<Origin>, root: Link, path: seq<T.Dir>, anc: seq<nat>, ptr: Link)
    requires Forward(nodes) && Owned(nodes, parents) && (root.Null? || root.index < |nodes|)
    requires Cursor(nodes, root, path, anc, ptr) && ptr.At? && ptr.index < |nodes|
    ensures ToTree(nodes, ptr).Node?
    ensures ToTree(nodes[ptr.index := nodes[ptr.index].(equal := Null)], root) ==
              T.Replace(ToTree(nodes, root), path, ToTree(nodes, ptr).(equal := T.Nil))
  {
    var i := ptr.index;
    var x := nodes[i].(equal := Null);
    DetachShape(nodes, parents, root, path, anc, ptr);
    CursorFacts(nodes, root, path, anc, ptr);
    CursorStep(nodes, root, path, anc, ptr, T.Eq);
    UpdateAlong(nodes, parents, root, path, anc + [i], x);
    NodeView(nodes, i, x);
    ChildLinkForward(nodes, i, T.Lo);
    ChildLinkForward(nodes, i, T.Eq);
    ChildLinkForward(nodes, i, T.Hi);
  }

  /** Stepping the cursor down to a child of its node. */
  lemma Descend(nodes: seq<Node>, root: Link, path: seq<T.Dir>, anc: seq<nat>, ptr: Link, d: T.Dir)
    requires Forward(nodes) && (root.Null? || root.index < |nodes|)
    requires Cursor(nodes, root, path, anc, ptr) && ptr.At? && ptr.index < |nodes|
    ensures Cursor(nodes, root, path + [d], anc + [ptr.index], Out(nodes[ptr.index], d))
    ensures T.ValidPath(ToTree(nodes, root), path + [d])
    ensures ToTree(nodes, Out(nodes[ptr.index], d)) == T.Child(ToTree(nodes, ptr), d)
    ensures forall s :: T.Replace(ToTree(nodes, root), path + [d], s) ==
                        T.Replace(ToTree(nodes, root), path, T.WithChild(ToTree(nodes, ptr), d, s))
  {
    CursorFacts(nodes, root, path, anc, ptr);
    CursorStep(nodes, root, path, anc, ptr, d);
    ChildLinkForward(nodes, ptr.index, d);
    forall s ensures T.Replace(ToTree(nodes, root), path + [d], s) ==
                     T.Replace(ToTree(nodes, root), path, T.WithChild(ToTree(nodes, ptr), d, s)) {
      T.PathStep(ToTree(nodes, root), path, d, s);
    }
    T.PathStep(ToTree(nodes, root), path, d, T.Nil);
    match d
    case Lo =>
    case Eq =>
    case Hi =>
  }

  // ---------------------------------------------------------------------------
  // The state of a removal
  // ---------------------------------------------------------------------------

  /** After removing `w` below the cursor on `l` (starting from arena
      `nodes0`): the arena is still a tree with the same cursor, no node
      before `l` changed, the tree read from the root has the removal done at
      the cursor's path, and `prune` is what the removal reports. */
  ghost predicate Removal(nodes0: seq<Node>, nodes: seq<Node>, parents: seq<Origin>, root: Link,
                          path: seq<T.Dir>, anc: seq<nat>, l: Link, w: string, prune: bool)
  {
    RemovalFolded(nodes0, nodes, parents, root, path, anc, l, w, prune, 3)
  }

  /** `Removal` behind a few layers of definition. The layers only slow the
      solver down: a method that merely hands the predicate on sees one
      opaque-looking call it cannot unfold by accident, which keeps each proof
      small; the lemmas that need the parts unfold it with `RemovalOpen`.
      `Ready`, `Walk`, `Registry` and `Valid` are layered the same way. */
  ghost predicate RemovalFolded(nodes0: seq<Node>, nodes: seq<Node>, parents: seq<Origin>, root: Link,
                                path: seq<T.Dir>, anc: seq<nat>, l: Link, w: string, prune: bool, layers: nat)
  {
    if layers > 0 then RemovalFolded(nodes0, nodes, parents, root, path, anc, l, w, prune, layers - 1)
    else RemovalState(nodes0, nodes, parents, root, path, anc, l, w, prune)
  }

  lemma RemovalOpen(nodes0: seq<Node>, nodes: seq<Node>, parents: seq<Origin>, root: Link,
                    path: seq<T.Dir>, anc: seq<nat>, l: Link, w: string, prune: bool)
    ensures Removal(nodes0, nodes, parents, root, path, anc, l, w, prune)
        == RemovalState(nodes0, nodes, parents, root, path, anc, l, w, prune)
  {
    assert RemovalFolded(nodes0, nodes, parents, root, path, anc, l, w, prune, 2)
        == RemovalFolded(nodes0, nodes, parents, root, path, anc, l, w, prune, 1);
    assert RemovalFolded(nodes0, nodes, parents, root, path, anc, l, w, prune, 1)
        == RemovalFolded(nodes0, nodes, parents, root, path, anc, l, w, prune, 0);
  }

  ghost predicate RemovalState(nodes0: seq<Node>, nodes: seq<Node>, parents: seq<Origin>, root: Link,
                               path: seq<T.Dir>, anc: seq<nat>, l: Link, w: string, prune: bool)
  {
    |w| > 0 && Forward(nodes) && Owned(nodes, parents) && |nodes| == |nodes0| &&
    Cursor(nodes, root, path, anc, l) &&
    (forall m :: 0 <= m < |nodes| && (l.Null? || m < l.index) ==> nodes[m] == nodes0[m]) &&
    ToTree(nodes, root) == T.Replace(ToTree(nodes0, root), path, T.RemoveAux(ToTree(nodes0, l), w).0) &&
    prune == T.RemoveAux(ToTree(nodes0, l), w).1
  }

  /** A removal may start at the cursor on `l`: the arena is a tree and the
      cursor is on one of its slots. */
  ghost predicate Ready(nodes: seq<Node>, parents: seq<Origin>, root: Link, path: seq<T.Dir>, anc: seq<nat>, l: Link)
  {
    ReadyFolded(nodes, parents, root, path, anc, l, 3)
  }

  /** `Ready` behind a few layers of definition, as `RemovalFolded` is. */
  ghost predicate ReadyFolded(nodes: seq<Node>, parents: seq<Origin>, root: Link, path: seq<T.Dir>, anc: seq<nat>,
                              l: Link, layers: nat)
  {
    if layers > 0 then ReadyFolded(nodes, parents, root, path, anc, l, layers - 1)
    else Forward(nodes) && Owned(nodes, parents) && (root.Null? || root.index < |nodes|) &&
         Cursor(nodes, root, path, anc, l)
  }

  lemma ReadyOpen(nodes: seq<Node>, parents: seq<Origin>, root: Link, path: seq<T.Dir>, anc: seq<nat>, l: Link)
    ensures Ready(nodes, parents, root, path, anc, l) <==>
              Forward(nodes) && Owned(nodes, parents) && (root.Null? || root.index < |nodes|) &&
              Cursor(nodes, root, path, anc, l)
  {
    assert ReadyFolded(nodes, parents, root, path, anc, l, 2) == ReadyFolded(nodes, parents, root, path, anc, l, 1);
    assert ReadyFolded(nodes, parents, root, path, anc, l, 1) == ReadyFolded(nodes, parents, root, path, anc, l, 0);
  }

  /** A ready cursor is on an empty slot or on an allocated node, and a
      removal may go on from any child of that node. */
  lemma ReadyChild(nodes: seq<Node>, parents: seq<Origin>, root: Link, path: seq<T.Dir>, anc: seq<nat>,
                   l: Link, d: T.Dir)
    requires Ready(nodes, parents, root, path, anc, l)
    ensures l.Null? || l.index < |nodes|
    ensures l.At? ==> Ready(nodes, parents, root, path + [d], anc + [l.index], Out(nodes[l.index], d))
    ensures l.At? ==> Rank(nodes, Out(nodes[l.index], d)) < Rank(nodes, l)
  {
    ReadyOpen(nodes, parents, root, path, anc, l);
    CursorFacts(nodes, root, path, anc, l);
    if l.At? {
      ReadyOpen(nodes, parents, root, path + [d], anc + [l.index], Out(nodes[l.index], d));
      CursorStep(nodes, root, path, anc, l, d);
      ChildLinkForward(nodes, l.index, d);
    }
  }

  /** Removing below an empty slot changes nothing. */
  lemma RemoveNothing(nodes: seq<Node>, parents: seq<Origin>, root: Link, path: seq<T.Dir>, anc: seq<nat>,
                      w: string)
    requires |w| > 0 && Ready(nodes, parents, root, path, anc, Null)
    ensures Removal(nodes, nodes, parents, root, path, anc, Null, w, false)
  {
    ReadyOpen(nodes, parents, root, path, anc, Null);
    RemovalOpen(nodes, nodes, parents, root, path, anc, Null, w, false);
    CursorFacts(nodes, root, path, anc, Null);
    T.ReplaceSame(ToTree(nodes, root), path);
  }

  /** The last character matches a node that is not marked: nothing changes. */
  lemma RemoveUnmarked(nodes: seq<Node>, parents: seq<Origin>, root: Link, path: seq<T.Dir>, anc: seq<nat>,
                       l: Link, w: string)
    requires Ready(nodes, parents, root, path, anc, l) && l.At? && l.index < |nodes|
    requires |w| == 1 && nodes[l.index].value == w[0] && !nodes[l.index].isWord
    ensures Removal(nodes, nodes, parents, root, path, anc, l, w, false)
  {
    ReadyOpen(nodes, parents, root, path, anc, l);
    RemovalOpen(nodes, nodes, parents, root, path, anc, l, w, false);
    CursorFacts(nodes, root, path, anc, l);
    T.ReplaceSame(ToTree(nodes, root), path);
  }

  /** The last character matches a marked node: the mark goes, and the node
      is reported prunable when it has no child. */
  lemma RemoveMark(nodes: seq<Node>, parents: seq<Origin>, root: Link, path: seq<T.Dir>, anc: seq<nat>,
                   l: Link, w: string, nodes': seq<Node>, prune: bool)
    requires Ready(nodes, parents, root, path, anc, l) && l.At? && l.index < |nodes|
    requires |w| == 1 && nodes[l.index].value == w[0] && nodes[l.index].isWord
    requires nodes' == nodes[l.index := nodes[l.index].(isWord := false)]
    requires prune == (nodes[l.index].equal.Null? && nodes[l.index].less.Null? && nodes[l.index].greater.Null?)
    ensures Removal(nodes, nodes', parents, root, path, anc, l, w, prune)
  {
    ReadyOpen(nodes, parents, root, path, anc, l);
    RemovalOpen(nodes, nodes', parents, root, path, anc, l, w, prune);
    var i := l.index;
    Mark(nodes, parents, root, path, anc, l, false);
    ChildLinkForward(nodes, i, T.Lo);
    ChildLinkForward(nodes, i, T.Eq);
    ChildLinkForward(nodes, i, T.Hi);
  }

  /** A change confined to the nodes after the cursor's node keeps the cursor. */
  lemma KeepCursor(nodes0: seq<Node>, nodes1: seq<Node>, root: Link, path: seq<T.Dir>, anc: seq<nat>, l: Link)
    requires Forward(nodes0) && (root.Null? || root.index < |nodes0|)
    requires Cursor(nodes0, root, path, anc, l) && l.At? && l.index < |nodes0| && |nodes1| == |nodes0|
    requires forall m :: 0 <= m <= l.index ==> nodes1[m] == nodes0[m]
    ensures Cursor(nodes1, root, path, anc, l)
  {
    if path != [] {
      var q := path[..|path| - 1];
      SpineFacts(nodes0, root, q, anc);
      assert anc[|q|] < l.index;
      forall j | 0 <= j < |q| ensures Out(nodes1[anc[j]], q[j]) == At(anc[j + 1]) {
        assert anc[j] < anc[|q|];
      }
    }
  }

  /** What the removal below child `d` of the cursor's node tells about the
      arena at the cursor itself. */
  lemma RemoveRestore(nodes0: seq<Node>, nodes1: seq<Node>, parents: seq<Origin>, root: Link,
                      path: seq<T.Dir>, anc: seq<nat>, l: Link, d: T.Dir, w: string, prune: bool)
    requires Ready(nodes0, parents, root, path, anc, l) && l.At? && l.index < |nodes0| && |w| > 0
    requires Removal(nodes0, nodes1, parents, root, path + [d], anc + [l.index], Out(nodes0[l.index], d), w, prune)
    ensures Forward(nodes1) && Owned(nodes1, parents) && |nodes1| == |nodes0|
    ensures Cursor(nodes1, root, path, anc, l)
    ensures forall m :: 0 <= m <= l.index ==> nodes1[m] == nodes0[m]
    ensures ToTree(nodes0, l).Node? && ToTree(nodes0, Out(nodes0[l.index], d)) == T.Child(ToTree(nodes0, l), d)
    ensures T.ValidPath(ToTree(nodes0, root), path)
    ensures ToTree(nodes1, root) == T.Replace(ToTree(nodes0, root), path,
              T.WithChild(ToTree(nodes0, l), d, T.RemoveAux(ToTree(nodes0, Out(nodes0[l.index], d)), w).0))
    ensures prune == T.RemoveAux(ToTree(nodes0, Out(nodes0[l.index], d)), w).1
  {
    ReadyOpen(nodes0, parents, root, path, anc, l);
    var i := l.index;
    var c := Out(nodes0[i], d);
    RemovalOpen(nodes0, nodes1, parents, root, path + [d], anc + [i], c, w, prune);
    ChildLinkForward(nodes0, i, d);
    assert forall m :: 0 <= m <= i ==> nodes1[m] == nodes0[m];
    KeepCursor(nodes0, nodes1, root, path, anc, l);
    Descend(nodes0, root, path, anc, l, d);
    CursorFacts(nodes0, root, path, anc, l);
  }

  /** Removal continues below `less` or `greater`: nothing is pruned here. */
  lemma RemoveSide(nodes0: seq<Node>, nodes1: seq<Node>, parents: seq<Origin>, root: Link,
                   path: seq<T.Dir>, anc: seq<nat>, l: Link, d: T.Dir, w: string, prune: bool)
    requires Ready(nodes0, parents, root, path, anc, l) && l.At? && l.index < |nodes0| && |w| > 0
    requires !(|w| == 1 && nodes0[l.index].value == w[0])
    requires d == T.Lo ==> w[0] < nodes0[l.index].value
    requires d == T.Hi ==> w[0] > nodes0[l.index].value
    requires d != T.Eq
    requires Removal(nodes0, nodes1, parents, root, path + [d], anc + [l.index], Out(nodes0[l.index], d), w, prune)
    ensures Forward(nodes1) && Owned(nodes1, parents) && |nodes1| == |nodes0|
    ensures Removal(nodes0, nodes1, parents, root, path, anc, l, w, false)
  {
    RemoveRestore(nodes0, nodes1, parents, root, path, anc, l, d, w, prune);
    RemovalOpen(nodes0, nodes1, parents, root, path, anc, l, w, false);
  }

  /** Removal continued below `equal` and reported nothing to prune. */
  lemma RemoveEqual(nodes0: seq<Node>, nodes1: seq<Node>, parents: seq<Origin>, root: Link,
                    path: seq<T.Dir>, anc: seq<nat>, l: Link, w: string)
    requires Ready(nodes0, parents, root, path, anc, l) && l.At? && l.index < |nodes0| && |w| > 1
    requires w[0] == nodes0[l.index].value
    requires Removal(nodes0, nodes1, parents, root, path + [T.Eq], anc + [l.index], nodes0[l.index].equal, w[1..], false)
    ensures Forward(nodes1) && Owned(nodes1, parents) && |nodes1| == |nodes0|
    ensures Removal(nodes0, nodes1, parents, root, path, anc, l, w, false)
  {
    RemoveRestore(nodes0, nodes1, parents, root, path, anc, l, T.Eq, w[1..], false);
    RemovalOpen(nodes0, nodes1, parents, root, path, anc, l, w, false);
  }

  /** Removal continued below `equal` and reported that child prunable: the
      link is cut, and this node is prunable in turn when it is unmarked and
      has no child left. */
  lemma RemovePrune(nodes0: seq<Node>, nodes1: seq<Node>, parents: seq<Origin>, root: Link,
                    path: seq<T.Dir>, anc: seq<nat>, l: Link, w: string, nodes2: seq<Node>, prune: bool)
    requires Ready(nodes0, parents, root, path, anc, l) && l.At? && l.index < |nodes0| && |w| > 1
    requires w[0] == nodes0[l.index].value
    requires Removal(nodes0, nodes1, parents, root, path + [T.Eq], anc + [l.index], nodes0[l.index].equal, w[1..], true)
    requires |nodes1| == |nodes0| && nodes2 == nodes1[l.index := nodes1[l.index].(equal := Null)]
    requires prune == (!nodes2[l.index].isWord && nodes2[l.index].equal.Null? &&
                       nodes2[l.index].less.Null? && nodes2[l.index].greater.Null?)
    ensures Forward(nodes2) && Owned(nodes2, parents) && |nodes2| == |nodes0|
    ensures Removal(nodes0, nodes2, parents, root, path, anc, l, w, prune)
  {
    ReadyOpen(nodes0, parents, root, path, anc, l);
    var i := l.index;
    RemoveRestore(nodes0, nodes1, parents, root, path, anc, l, T.Eq, w[1..], true);
    RemovalOpen(nodes0, nodes2, parents, root, path, anc, l, w, prune);
    var t0 := ToTree(nodes0, root);
    var sub := ToTree(nodes0, l);
    var e := T.RemoveAux(ToTree(nodes0, nodes0[i].equal), w[1..]).0;
    var mid := T.WithChild(sub, T.Eq, e);
    DetachShape(nodes1, parents, root, path, anc, l);
    Detach(nodes1, parents, root, path, anc, l);
    CursorFacts(nodes1, root, path, anc, l);
    T.ReplaceSubtree(t0, path, mid);
    T.ReplaceTwice(t0, path, mid, mid.(equal := T.Nil));
    ChildLinkForward(nodes0, i, T.Lo);
    ChildLinkForward(nodes0, i, T.Hi);
    assert T.RemoveAux(sub, w) == (mid.(equal := T.Nil), prune);
    assert ToTree(nodes2, root) == T.Replace(t0, path, mid.(equal := T.Nil));
  }

  lemma Regroup(a: seq<string>, b: seq<string>, c: seq<string>, d: seq<string>, e: seq<string>)
    ensures a + b + c + d + e == a + (b + c + d + e)
  {
    assert b + c + d + e == b + (c + (d + e));
    assert a + b + c + d + e == a + (b + (c + (d + e)));
  }

  /** The insertion still to be done from a cursor on the rest of the word. */
  function InsertRest(t: T.Tree, rest: string): T.Tree {
    if rest == [] then t else T.Insert(t, rest)
  }

  function MissingRest(t: T.Tree, rest: string): nat {
    if rest == [] then 0 else T.Missing(t, rest)
  }

  /** One step of the insertion walk, on the tree under the cursor. */
  lemma InsertStep(sub: T.Tree, s: string)
    requires sub.Node? && |s| > 0
    ensures s[0] < sub.value ==>
              InsertRest(sub, s) == T.WithChild(sub, T.Lo, InsertRest(sub.less, s)) &&
              MissingRest(sub, s) == MissingRest(sub.less, s) && (T.Has(sub, s) <==> T.Has(sub.less, s))
    ensures s[0] > sub.value ==>
              InsertRest(sub, s) == T.WithChild(sub, T.Hi, InsertRest(sub.greater, s)) &&
              MissingRest(sub, s) == MissingRest(sub.greater, s) && (T.Has(sub, s) <==> T.Has(sub.greater, s))
    ensures s[0] == sub.value ==>
              InsertRest(sub, s) == T.WithChild(sub.(isWord := sub.isWord || |s| == 1), T.Eq, InsertRest(sub.equal, s[1..])) &&
              MissingRest(sub, s) == MissingRest(sub.equal, s[1..]) &&
              (|s| == 1 ==> (T.Has(sub, s) <==> sub.isWord)) &&
              (|s| > 1 ==> (T.Has(sub, s) <==> T.Has(sub.equal, s[1..])))
  {
  }

  /** After marking the node under the cursor, moving on along `equal`
      completes the insertion of the last character. */
  lemma MarkedStep(nodes: seq<Node>, root: Link, path: seq<T.Dir>, anc: seq<nat>, ptr: Link,
                   before: T.Tree, sub: T.Tree)
    requires Forward(nodes) && (root.Null? || root.index < |nodes|)
    requires Cursor(nodes, root, path, anc, ptr) && ptr.At? && ptr.index < |nodes|
    requires sub.Node? && T.ValidPath(before, path)
    requires ToTree(nodes, root) == T.Replace(before, path, sub.(isWord := true))
    requires ToTree(nodes, ptr) == sub.(isWord := true)
    ensures T.Replace(ToTree(nodes, root), path + [T.Eq], ToTree(nodes, Out(nodes[ptr.index], T.Eq))) ==
              T.Replace(before, path, sub.(isWord := true))
  {
    Descend(nodes, root, path, anc, ptr, T.Eq);
    T.ReplaceTwice(before, path, sub.(isWord := true), sub.(isWord := true));
  }

  /** The state of the insertion walk: the arena is a tree, the cursor is on
      a slot, inserting the rest `s` of the word at the cursor yields
      `target`, allocating what is missing there brings the arena to
      `budget` nodes, and the rest is stored there exactly when the word was
      stored (`has`). */
  ghost predicate Walk(nodes: seq<Node>, parents: seq<Origin>, root: Link, path: seq<T.Dir>, anc: seq<nat>,
                       ptr: Link, s: string, target: T.Tree, budget: int, has: bool)
  {
    WalkFolded(nodes, parents, root, path, anc, ptr, s, target, budget, has, 3)
  }

  /** `Walk` is `WalkState` behind a few layers of definition, so that the
      methods of the insertion loop hand it on as one fact instead of
      re-proving each of its parts; the lemmas that work on the parts
      unfold it with `WalkOpen`. */
  ghost predicate WalkFolded(nodes: seq<Node>, parents: seq<Origin>, root: Link, path: seq<T.Dir>, anc: seq<nat>,
                         ptr: Link, s: string, target: T.Tree, budget: int, has: bool, layers: nat)
  {
    if layers > 0 then WalkFolded(nodes, parents, root, path, anc, ptr, s, target, budget, has, layers - 1)
    else WalkState(nodes, parents, root, path, anc, ptr, s, target, budget, has)
  }

  lemma WalkOpen(nodes: seq<Node>, parents: seq<Origin>, root: Link, path: seq<T.Dir>, anc: seq<nat>,
                 ptr: Link, s: string, target: T.Tree, budget: int, has: bool)
    ensures Walk(nodes, parents, root, path, anc, ptr, s, target, budget, has)
        == WalkState(nodes, parents, root, path, anc, ptr, s, target, budget, has)
  {
    assert WalkFolded(nodes, parents, root, path, anc, ptr, s, target, budget, has, 2)
        == WalkFolded(nodes, parents, root, path, anc, ptr, s, target, budget, has, 1);
    assert WalkFolded(nodes, parents, root, path, anc, ptr, s, target, budget, has, 1)
        == WalkFolded(nodes, parents, root, path, anc, ptr, s, target, budget, has, 0);
  }

  ghost predicate WalkState(nodes: seq<Node>, parents: seq<Origin>, root: Link, path: seq<T.Dir>, anc: seq<nat>,
                       ptr: Link, s: string, target: T.Tree, budget: int, has: bool)
  {
    Forward(nodes) && Owned(nodes, parents) && root == (if |nodes| == 0 then Null else At(0)) &&
    Cursor(nodes, root, path, anc, ptr) &&
    T.Replace(ToTree(nodes, root), path, InsertRest(ToTree(nodes, ptr), s)) == target &&
    |nodes| + MissingRest(ToTree(nodes, ptr), s) == budget &&
    (s != [] ==> (T.Has(ToTree(nodes, ptr), s) <==> has))
  }

  /** Allocating the first node of an empty arena as the root. */
  lemma WalkRoot(nodes: seq<Node>, parents: seq<Origin>, root: Link, path: seq<T.Dir>, anc: seq<nat>,
                 s: string, target: T.Tree, budget: int, has: bool)
    requires Walk(nodes, parents, root, path, anc, Null, s, target, budget, has) && path == [] && s != []
    ensures nodes == [] && root == Null
    ensures Walk([Node(s[0], false, Null, Null, Null)], [NoParent], At(0), path, anc, At(0), s, target, budget, has)
  {
    WalkOpen(nodes, parents, root, path, anc, Null, s, target, budget, has);
    WalkOpen([Node(s[0], false, Null, Null, Null)], [NoParent], At(0), path, anc, At(0), s, target, budget, has);
    T.InsertNilIsLeaf(s);
    var nodes' := [Node(s[0], false, Null, Null, Null)];
    assert ToTree(nodes', At(0)) == T.Leaf(s[0]);
  }

  /** Allocating a leaf in the empty slot under the cursor. */
  lemma WalkAttach(nodes: seq<Node>, parents: seq<Origin>, root: Link, path: seq<T.Dir>, anc: seq<nat>,
                   s: string, target: T.Tree, budget: int, has: bool, p: nat, d: T.Dir,
                   nodes': seq<Node>, parents': seq<Origin>)
    requires Walk(nodes, parents, root, path, anc, Null, s, target, budget, has) && path != [] && s != []
    requires |anc| == |path| && p == anc[|anc| - 1] && d == path[|path| - 1]
    requires p < |nodes| ==> nodes' == Attach(nodes, p, d, s[0])
    requires parents' == parents + [From(p, d)]
    ensures p < |nodes|
    ensures Walk(nodes', parents', root, path, anc, At(|nodes|), s, target, budget, has)
  {
    WalkOpen(nodes, parents, root, path, anc, Null, s, target, budget, has);
    WalkOpen(nodes', parents', root, path, anc, At(|nodes|), s, target, budget, has);
    CursorFacts(nodes, root, path, anc, Null);
    AttachCursor(nodes, root, path, anc, s[0]);
    AttachShape(nodes, parents, p, d, s[0]);
    AttachTree(nodes, parents, root, path, anc, s[0]);
    T.InsertNilIsLeaf(s);
    CursorFacts(nodes', root, path, anc, At(|nodes|));
    T.ReplaceTwice(ToTree(nodes, root), path, T.Leaf(s[0]), InsertRest(T.Leaf(s[0]), s));
    T.ReplaceSubtree(ToTree(nodes, root), path, T.Leaf(s[0]));
  }

  /** Moving the cursor down to child `d` of its node, the way the source's
      comparison of `s[0]` with the node's character chooses. */
  lemma WalkDescend(nodes: seq<Node>, parents: seq<Origin>, root: Link, path: seq<T.Dir>, anc: seq<nat>,
                    ptr: Link, s: string, target: T.Tree, budget: int, has: bool, d: T.Dir,
                    next: Link, s': string)
    requires Walk(nodes, parents, root, path, anc, ptr, s, target, budget, has) && ptr.At? && s != []
    requires ptr.index < |nodes|
    requires d == (if s[0] < nodes[ptr.index].value then T.Lo
                   else if s[0] > nodes[ptr.index].value then T.Hi else T.Eq)
    requires d == T.Eq ==> |s| > 1
    requires next == Out(nodes[ptr.index], d) && s' == (if d == T.Eq then s[1..] else s)
    ensures Walk(nodes, parents, root, path + [d], anc + [ptr.index], next, s', target, budget, has)
    ensures Rank(nodes, next) < Rank(nodes, ptr) && (next.Null? || next.index < |nodes|)
  {
    WalkOpen(nodes, parents, root, path, anc, ptr, s, target, budget, has);
    WalkOpen(nodes, parents, root, path + [d], anc + [ptr.index], next, s', target, budget, has);
    var sub := ToTree(nodes, ptr);
    CursorFacts(nodes, root, path, anc, ptr);
    Descend(nodes, root, path, anc, ptr, d);
    InsertStep(sub, s);
  }

  /** Marking the node of the last character, then moving along `equal`. */
  lemma WalkMark(nodes: seq<Node>, parents: seq<Origin>, root: Link, path: seq<T.Dir>, anc: seq<nat>,
                 ptr: Link, s: string, target: T.Tree, budget: int, has: bool,
                 nodes': seq<Node>, next: Link, s': string)
    requires Walk(nodes, parents, root, path, anc, ptr, s, target, budget, has) && ptr.At?
    requires ptr.index < |nodes| && |s| == 1 && s[0] == nodes[ptr.index].value
    requires nodes' == nodes[ptr.index := nodes[ptr.index].(isWord := true)]
    requires next == nodes[ptr.index].equal && s' == []
    ensures nodes[ptr.index].isWord == has
    ensures Walk(nodes', parents, root, path + [T.Eq], anc + [ptr.index], next, s', target, budget, has)
    ensures next.Null? || next.index < |nodes'|
  {
    WalkOpen(nodes, parents, root, path, anc, ptr, s, target, budget, has);
    WalkOpen(nodes', parents, root, path + [T.Eq], anc + [ptr.index], next, s', target, budget, has);
    var i := ptr.index;
    var sub := ToTree(nodes, ptr);
    CursorFacts(nodes, root, path, anc, ptr);
    InsertStep(sub, s);
    Mark(nodes, parents, root, path, anc, ptr, true);
    CursorFacts(nodes', root, path, anc, ptr);
    assert ToTree(nodes', ptr) == sub.(isWord := true) by {
      NodeView(nodes, i, nodes'[i]);
      ChildLinkForward(nodes, i, T.Lo);
      ChildLinkForward(nodes, i, T.Eq);
      ChildLinkForward(nodes, i, T.Hi);
    }
    Descend(nodes', root, path, anc, ptr, T.Eq);
    MarkedStep(nodes', root, path, anc, ptr, ToTree(nodes, root), sub);
  }

  /** When the word is consumed the tree is the target. */
  lemma WalkDone(nodes: seq<Node>, parents: seq<Origin>, root: Link, path: seq<T.Dir>, anc: seq<nat>,
                 ptr: Link, target: T.Tree, budget: int, has: bool)
    requires Walk(nodes, parents, root, path, anc, ptr, [], target, budget, has)
    ensures ToTree(nodes, root) == target && |nodes| == budget
    ensures Forward(nodes) && Owned(nodes, parents) && root == (if |nodes| == 0 then Null else At(0))
  {
    WalkOpen(nodes, parents, root, path, anc, ptr, [], target, budget, has);
    CursorFacts(nodes, root, path, anc, ptr);
    T.ReplaceSame(ToTree(nodes, root), path);
  }

  /** Insert every item in turn; the empty string stores nothing. */
  function InsertAll(t: T.Tree, items: seq<string>): T.Tree
    decreases |items|
  {
    if items == [] then t else InsertAll(InsertRest(t, items[0]), items[1..])
  }

  // ---------------------------------------------------------------------------
  // The tree object
  // ---------------------------------------------------------------------------

  class AutoComplete {
    var nodes: seq<Node>
    var root: Link
    /** Number of nodes ever allocated (the source never decrements it). */
    var size: nat
    /** Number of insertions that did not find the word already marked. */
    var count: nat
    ghost var parents: seq<Origin>

    ghost function Tree(): T.Tree
      reads this
    {
      ToTree(nodes, root)
    }

    /** The arena is a tree rooted at the first node allocated. */
    ghost predicate Shape()
      reads this
    {
      Forward(nodes) && Owned(nodes, parents) && size == |nodes| &&
      root == (if |nodes| == 0 then Null else At(0))
    }

    /** The object invariant: the arena is a tree, the tree is ordered, and
        `size` counts at least the nodes still attached. */
    ghost predicate Valid()
      reads this
    {
      Shape() && T.Ordered(Tree()) && T.NodeCount(Tree()) <= size
    }

    constructor ()
      ensures Valid() && Tree() == T.Nil && size == 0 && count == 0
    {
      nodes, root, size, count, parents := [], Null, 0, 0, [];
    }

    /** The constructor that inserts each item in turn. */
    constructor FromItems(items: seq<string>)
      ensures Valid() && Tree() == InsertAll(T.Nil, items)
      ensures size == T.NodeCount(Tree())
    {
      nodes, root, size, count, parents := [], Null, 0, 0, [];
      new;
      for i := 0 to |items|
        invariant Valid() && size == T.NodeCount(Tree())
        invariant InsertAll(Tree(), items[i..]) == InsertAll(T.Nil, items)
      {
        assert items[i..][1..] == items[i + 1..];
        ghost var before := Tree();
        Insert(items[i]);
        if items[i] != [] {
          T.InsertNodeCount(before, items[i]);
        }
      }
      assert items[|items|..] == [];
    }

    /** Search as the source writes it: the walk reads `w[index]` at every
        node, even once `index` has reached the end of `w`. */
    method SearchAsWritten(w: string) returns (r: T.SearchResult)
      requires Valid()
      ensures r == T.SearchAsWritten(Tree(), w, 0)
    {
      var ptr := root;
      var index := 0;
      while ptr.At?
        invariant index <= |w| && (ptr.Null? || ptr.index < |nodes|)
        invariant T.SearchAsWritten(Tree(), w, 0) == T.SearchAsWritten(ToTree(nodes, ptr), w, index)
        decreases Rank(nodes, ptr)
      {
        if index >= |w| {
          return T.IndexOutOfRange;
        }
        var node := nodes[ptr.index];
        ChildLinkForward(nodes, ptr.index, T.Lo);
        ChildLinkForward(nodes, ptr.index, T.Eq);
        ChildLinkForward(nodes, ptr.index, T.Hi);
        if w[index] < node.value {
          ptr := node.less;
        } else if w[index] == node.value {
          if index + 1 == |w| && node.isWord {
            return T.Found(true);
          }
          ptr := node.equal;
          index := index + 1;
        } else {
          ptr := node.greater;
        }
      }
      r := T.Found(false);
    }

    /** Search with the walk stopped once the word is consumed: answers
        whether `w` is stored. */
    method Search(w: string) returns (found: bool)
      requires Valid()
      ensures found == T.Has(Tree(), w)
    {
      var ptr := root;
      var index := 0;
      while ptr.At? && index < |w|
        invariant index <= |w| && (ptr.Null? || ptr.index < |nodes|)
        invariant T.Has(Tree(), w) == (index < |w| && T.Has(ToTree(nodes, ptr), w[index..]))
        decreases Rank(nodes, ptr)
      {
        var node := nodes[ptr.index];
        ChildLinkForward(nodes, ptr.index, T.Lo);
        ChildLinkForward(nodes, ptr.index, T.Eq);
        ChildLinkForward(nodes, ptr.index, T.Hi);
        assert w[index..][0] == w[index];
        if w[index] < node.value {
          ptr := node.less;
        } else if w[index] == node.value {
          if index + 1 == |w| && node.isWord {
            return true;
          }
          assert w[index..][1..] == w[index + 1..];
          ptr := node.equal;
          index := index + 1;
        } else {
          ptr := node.greater;
        }
      }
      found := false;
    }

    /** `new Node(c)` stored into the empty slot under the insertion cursor:
        the root when the tree is empty, otherwise link `dir` of `parent`. */
    method Allocate(parent: Link, dir: T.Dir, c: char, ghost path: seq<T.Dir>, ghost anc: seq<nat>,
                    ghost s: string, ghost target: T.Tree, ghost budget: int, ghost has: bool)
      returns (ptr: Link)
      requires size == |nodes| && Walk(nodes, parents, root, path, anc, Null, s, target, budget, has)
      requires s != [] && s[0] == c
      requires path == [] ==> parent.Null?
      requires |anc| == |path|
      requires path != [] ==> parent == At(anc[|anc| - 1]) && dir == path[|path| - 1]
      modifies this
      ensures size == |nodes| && count == old(count)
      ensures Walk(nodes, parents, root, path, anc, ptr, s, target, budget, has)
      ensures ptr.At? && ptr.index < |nodes| && nodes[ptr.index].value == c
    {
      var n := |nodes|;
      WalkOpen(nodes, parents, root, path, anc, Null, s, target, budget, has);
      if parent.Null? {
        WalkRoot(nodes, parents, root, path, anc, s, target, budget, has);
        nodes := [Node(c, false, Null, Null, Null)];
        parents := [NoParent];
        root := At(0);
      } else {
        WalkAttach(nodes, parents, root, path, anc, s, target, budget, has, parent.index, dir,
                   Attach(nodes, parent.index, dir, c), parents + [From(parent.index, dir)]);
        nodes := Attach(nodes, parent.index, dir, c);
        parents := parents + [From(parent.index, dir)];
      }
      size := size + 1;
      ptr := At(n);
    }

    /** `ptr.IsWord = true` on the node of the last character of the word. */
    method SetWord(ptr: Link, ghost path: seq<T.Dir>, ghost anc: seq<nat>, ghost s: string,
                   ghost target: T.Tree, ghost budget: int, ghost has: bool, ghost s': string)
      requires size == |nodes| && Walk(nodes, parents, root, path, anc, ptr, s, target, budget, has)
      requires ptr.At? && ptr.index < |nodes| && |s| == 1 && s[0] == nodes[ptr.index].value && s' == []
      modifies this
      ensures size == |nodes| && count == old(count) && |nodes| == old(|nodes|)
      ensures nodes[ptr.index] == old(nodes[ptr.index]).(isWord := true)
      ensures old(nodes[ptr.index]).isWord == has
      ensures Walk(nodes, parents, root, path + [T.Eq], anc + [ptr.index], old(nodes[ptr.index]).equal,
                   s', target, budget, has)
      ensures old(nodes[ptr.index]).equal.Null? || old(nodes[ptr.index]).equal.index < |nodes|
    {
      var i := ptr.index;
      WalkMark(nodes, parents, root, path, anc, ptr, s, target, budget, has,
               nodes[i := nodes[i].(isWord := true)], nodes[i].equal, s');
      nodes := nodes[i := nodes[i].(isWord := true)];
    }

    /** One round of the insertion loop: a node is allocated at an empty
        slot, then the cursor follows one link, consuming a character of
        the word when it follows `equal`. */
    method Step(w: string, index: nat, parent: Link, dir: T.Dir, ptr: Link, ghost path: seq<T.Dir>,
                ghost anc: seq<nat>, ghost target: T.Tree, ghost budget: int, ghost has: bool)
      returns (index': nat, parent': Link, dir': T.Dir, ptr': Link, ghost path': seq<T.Dir>, ghost anc': seq<nat>)
      requires index < |w| && size == |nodes| && |anc| == |path| && count > 0
      requires path == [] ==> parent.Null?
      requires path != [] ==> parent == At(anc[|anc| - 1]) && dir == path[|path| - 1]
      requires Walk(nodes, parents, root, path, anc, ptr, w[index..], target, budget, has)
      requires ptr.Null? || ptr.index < |nodes|
      modifies this
      ensures index <= index' <= |w| && size == |nodes| && |anc'| == |path'|
      ensures path' != [] && parent' == At(anc'[|anc'| - 1]) && dir' == path'[|path'| - 1]
      ensures Walk(nodes, parents, root, path', anc', ptr', w[index'..], target, budget, has)
      ensures ptr'.Null? || ptr'.index < |nodes|
      ensures index' == index ==> Rank(nodes, ptr') < Rank(old(nodes), ptr)
      ensures count == old(count) - (if index' == |w| && has then 1 else 0)
    {
      ghost var s := w[index..];
      assert s[0] == w[index] && s[1..] == w[index + 1..];
      ptr' := ptr;
      if ptr'.Null? {
        ptr' := Allocate(parent, dir, w[index], path, anc, s, target, budget, has);
      }
      var i := ptr'.index;
      var node := nodes[i];
      index' := index;
      if w[index] < node.value {
        WalkDescend(nodes, parents, root, path, anc, ptr', s, target, budget, has, T.Lo, node.less, s);
        parent', dir' := ptr', T.Lo;
        ptr' := node.less;
      } else if w[index] == node.value {
        if index + 1 == |w| {
          if node.isWord {
            count := count - 1;
          }
          SetWord(ptr', path, anc, s, target, budget, has, w[index + 1..]);
        } else {
          WalkDescend(nodes, parents, root, path, anc, ptr', s, target, budget, has, T.Eq, node.equal, w[index + 1..]);
        }
        parent', dir' := ptr', T.Eq;
        ptr' := node.equal;
        index' := index + 1;
      } else {
        WalkDescend(nodes, parents, root, path, anc, ptr', s, target, budget, has, T.Hi, node.greater, s);
        parent', dir' := ptr', T.Hi;
        ptr' := node.greater;
      }
      path', anc' := path + [dir'], anc + [i];
    }

    /** Insert walks a cursor on a slot (the root, or one link of a node)
        down the search path of `w`, allocating a node where the slot is
        empty and marking the node of the last character. */
    method Insert(w: string)
      requires Valid()
      modifies this
      ensures Valid()
      ensures Tree() == InsertRest(old(Tree()), w)
      ensures count == old(count) + (if T.Has(old(Tree()), w) then 0 else 1)
      ensures size == old(size) + MissingRest(old(Tree()), w)
    {
      ghost var t0 := Tree();
      ghost var target := InsertRest(t0, w);
      ghost var budget := |nodes| + MissingRest(t0, w);
      ghost var has := T.Has(t0, w);
      count := count + 1;
      var index := 0;
      var parent: Link := Null;
      var dir: T.Dir := T.Eq;
      var ptr := root;
      ghost var path: seq<T.Dir> := [];
      ghost var anc: seq<nat> := [];
      T.ReplaceSame(t0, []);
      WalkOpen(nodes, parents, root, path, anc, ptr, w[index..], target, budget, has);
      while index < |w|
        invariant index <= |w| && size == |nodes| && |anc| == |path|
        invariant path == [] ==> parent.Null?
        invariant path != [] ==> parent == At(anc[|anc| - 1]) && dir == path[|path| - 1]
        invariant Walk(nodes, parents, root, path, anc, ptr, w[index..], target, budget, has)
        invariant ptr.Null? || ptr.index < |nodes|
        invariant index < |w| ==> count == old(count) + 1
        invariant index == |w| ==> count == old(count) + (if has then 0 else 1)
        decreases |w| - index, Rank(nodes, ptr)
      {
        index, parent, dir, ptr, path, anc := Step(w, index, parent, dir, ptr, path, anc, target, budget, has);
      }
      assert w[index..] == [];
      WalkDone(nodes, parents, root, path, anc, ptr, target, budget, has);
      if w != [] {
        T.InsertWithin(t0, w, T.Bottom, T.Top);
        T.InsertNodeCount(t0, w);
      }
    }

    /** Remove un-marks `w` and prunes, through `equal` links only, the
        nodes that carry nothing any more; the counters are left alone. */
    method Remove(w: string)
      requires Valid() && |w| > 0
      modifies this
      ensures Valid()
      ensures Tree() == T.Remove(old(Tree()), w)
      ensures size == old(size) && count == old(count)
    {
      ghost var t0 := Tree();
      ghost var nodes0 := nodes;
      ReadyOpen(nodes, parents, root, [], [], root);
      var prune := RemoveAux(root, w, [], []);
      RemovalOpen(nodes0, nodes, parents, root, [], [], root, w, prune);
      T.RemoveWithin(t0, w, T.Bottom, T.Top);
      T.RemoveNodeCount(t0, w);
    }

    method RemoveAux(l: Link, w: string, ghost path: seq<T.Dir>, ghost anc: seq<nat>) returns (prune: bool)
      requires |w| > 0 && Ready(nodes, parents, root, path, anc, l)
      modifies this
      ensures root == old(root) && size == old(size) && count == old(count) && parents == old(parents)
      ensures |nodes| == old(|nodes|)
      ensures Removal(old(nodes), nodes, parents, root, path, anc, l, w, prune)
      decreases Rank(nodes, l)
    {
      ReadyChild(nodes, parents, root, path, anc, l, T.Eq);
      if l.Null? {
        RemoveNothing(nodes, parents, root, path, anc, w);
        return false;
      }
      var i := l.index;
      var node := nodes[i];
      ghost var nodes0 := nodes;
      if |w| == 1 && node.value == w[0] {
        if node.isWord {
          prune := node.equal.Null? && node.less.Null? && node.greater.Null?;
          RemoveMark(nodes, parents, root, path, anc, l, w, nodes[i := node.(isWord := false)], prune);
          nodes := nodes[i := node.(isWord := false)];
          return prune;
        } else {
          RemoveUnmarked(nodes, parents, root, path, anc, l, w);
          return false;
        }
      } else {
        if w[0] < node.value {
          ReadyChild(nodes, parents, root, path, anc, l, T.Lo);
          var below := RemoveAux(node.less, w, path + [T.Lo], anc + [i]);
          RemoveSide(nodes0, nodes, parents, root, path, anc, l, T.Lo, w, below);
        } else if w[0] > node.value {
          ReadyChild(nodes, parents, root, path, anc, l, T.Hi);
          var below := RemoveAux(node.greater, w, path + [T.Hi], anc + [i]);
          RemoveSide(nodes0, nodes, parents, root, path, anc, l, T.Hi, w, below);
        } else if w[0] == node.value {
          var pruneEq := RemoveAux(node.equal, w[1..], path + [T.Eq], anc + [i]);
          if pruneEq {
            ghost var nodes1 := nodes;
            nodes := nodes[i := nodes[i].(equal := Null)];
            var n := nodes[i];
            prune := !n.isWord && n.equal.Null? && n.less.Null? && n.greater.Null?;
            RemovePrune(nodes0, nodes1, parents, root, path, anc, l, w, nodes, prune);
            return prune;
          }
          RemoveEqual(nodes0, nodes, parents, root, path, anc, l, w);
        }
      }
      return false;
    }

    /** The collection of the source into the caller's list: the `less`
        subtree, the node's word, the `equal` subtree with the buffer
        extended, the `greater` subtree. */
    method SuggestionsAux(l: Link, options: seq<string>, buffer: string) returns (result: seq<string>)
      requires Forward(nodes) && (l.Null? || l.index < |nodes|)
      ensures result == options + T.SuggestionsAux(ToTree(nodes, l), buffer)
      decreases Rank(nodes, l)
    {
      if l.Null? {
        return options;
      }
      var node := nodes[l.index];
      ChildLinkForward(nodes, l.index, T.Lo);
      ChildLinkForward(nodes, l.index, T.Eq);
      ChildLinkForward(nodes, l.index, T.Hi);
      ghost var lo := T.SuggestionsAux(ToTree(nodes, node.less), buffer);
      ghost var here: seq<string> := if node.isWord then [buffer + [node.value]] else [];
      ghost var eq := T.SuggestionsAux(ToTree(nodes, node.equal), buffer + [node.value]);
      ghost var hi := T.SuggestionsAux(ToTree(nodes, node.greater), buffer);
      assert T.SuggestionsAux(ToTree(nodes, l), buffer) == lo + here + eq + hi;
      result := options;
      if node.less.At? {
        result := SuggestionsAux(node.less, result, buffer);
      }
      assert result == options + lo;
      if node.isWord {
        result := result + [buffer + [node.value]];
      }
      assert result == options + lo + here;
      if node.equal.At? {
        result := SuggestionsAux(node.equal, result, buffer + [node.value]);
      }
      assert result == options + lo + here + eq;
      if node.greater.At? {
        result := SuggestionsAux(node.greater, result, buffer);
      }
      assert result == options + lo + here + eq + hi;
      Regroup(options, lo, here, eq, hi);
    }

    /** Suggestions(prefix, options): append to the caller's options the
        completions of `prefix`. */
    method Suggestions(prefix: string, options: seq<string>) returns (result: seq<string>)
      requires Valid() && |prefix| > 0
      ensures result == options + T.Suggestions(Tree(), prefix)
    {
      var ptr := root;
      var index := 0;
      while ptr.At?
        invariant index < |prefix| && (ptr.Null? || ptr.index < |nodes|)
        invariant T.Locate(Tree(), prefix) == T.Locate(ToTree(nodes, ptr), prefix[index..])
        decreases Rank(nodes, ptr)
      {
        var node := nodes[ptr.index];
        ChildLinkForward(nodes, ptr.index, T.Lo);
        ChildLinkForward(nodes, ptr.index, T.Eq);
        ChildLinkForward(nodes, ptr.index, T.Hi);
        assert prefix[index..][0] == prefix[index];
        if prefix[index] < node.value {
          ptr := node.less;
        } else if prefix[index] == node.value {
          if index + 1 == |prefix| {
            break;
          }
          assert prefix[index..][1..] == prefix[index + 1..];
          ptr := node.equal;
          index := index + 1;
        } else {
          ptr := node.greater;
        }
      }
      if ptr.At? && nodes[ptr.index].isWord {
        return options;
      }
      if ptr.Null? {
        return options;
      }
      result := SuggestionsAux(nodes[ptr.index].equal, options, prefix);
    }

    /** The partial completion loop: append the characters of the chain of
        nodes, from `start` on, that have an `equal` link and no other. */
    method Complete(start: Link, prefix: string) returns (completed: string)
      requires Forward(nodes) && (start.Null? || start.index < |nodes|)
      ensures completed == prefix + T.Extension(ToTree(nodes, start))
    {
      completed := prefix;
      var pcPtr := start;
      while pcPtr.At?
        invariant pcPtr.Null? || pcPtr.index < |nodes|
        invariant completed + T.Extension(ToTree(nodes, pcPtr)) == prefix + T.Extension(ToTree(nodes, start))
        decreases Rank(nodes, pcPtr)
      {
        var pc := nodes[pcPtr.index];
        ChildLinkForward(nodes, pcPtr.index, T.Lo);
        ChildLinkForward(nodes, pcPtr.index, T.Eq);
        ChildLinkForward(nodes, pcPtr.index, T.Hi);
        if pc.equal.At? && pc.less.Null? && pc.greater.Null? {
          completed := completed + [pc.value];
        } else {
          break;
        }
        pcPtr := pc.equal;
      }
    }

    /** The three-argument Suggestions: the same walk, and when
        `partialComplete` is set, the prefix is extended by the characters of
        the chain of nodes below the located node that have only an `equal`
        link.  The options are collected with the original prefix. */
    method SuggestionsPartial(prefix: string, options: seq<string>, partialComplete: bool)
      returns (completed: string, result: seq<string>)
      requires Valid() && |prefix| > 0
      ensures completed == (if partialComplete then T.PartialSuggestions(Tree(), prefix).0 else prefix)
      ensures result == options + T.Suggestions(Tree(), prefix)
    {
      var ptr := root;
      var temp := prefix;
      completed := prefix;
      var index := 0;
      while ptr.At?
        invariant index < |prefix| && (ptr.Null? || ptr.index < |nodes|)
        invariant T.Locate(Tree(), prefix) == T.Locate(ToTree(nodes, ptr), prefix[index..])
        invariant completed == prefix
        decreases Rank(nodes, ptr)
      {
        var node := nodes[ptr.index];
        ChildLinkForward(nodes, ptr.index, T.Lo);
        ChildLinkForward(nodes, ptr.index, T.Eq);
        ChildLinkForward(nodes, ptr.index, T.Hi);
        assert prefix[index..][0] == prefix[index];
        if prefix[index] < node.value {
          ptr := node.less;
        } else if prefix[index] == node.value {
          if index + 1 == |prefix| {
            if partialComplete {
              completed := Complete(node.equal, prefix);
            }
            break;
          }
          assert prefix[index..][1..] == prefix[index + 1..];
          ptr := node.equal;
          index := index + 1;
        } else {
          ptr := node.greater;
        }
      }
      if ptr.At? && nodes[ptr.index].isWord {
        return completed, options;
      }
      if ptr.Null? {
        return completed, options;
      }
      result := SuggestionsAux(nodes[ptr.index].equal, options, temp);
    }

    /** PartialSuggestions(prefix, options): the partially completed prefix;
        the options are filled as Suggestions(prefix, options) fills them. */
    method PartialSuggestions(prefix: string, options: seq<string>) returns (completed: string, result: seq<string>)
      requires Valid() && |prefix| > 0
      ensures completed == T.PartialSuggestions(Tree(), prefix).0
      ensures result == options + T.PartialSuggestions(Tree(), prefix).1
    {
      completed, result := SuggestionsPartial(prefix, options, true);
    }
  }
}
