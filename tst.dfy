/** The ternary search tree behind the console's autocomplete, as a value.
    Each node holds a character, a word flag and three subtrees: `less` holds
    smaller characters at the same position, `greater` larger ones, and `equal`
    continues the word at the next position.  The functions here are the
    specification that the in-place implementation in module AutoComplete is
    proved against; the lemmas state what the operations promise. */
module TernaryTree {

  datatype Dir = Lo | Eq | Hi

  datatype Tree = Nil | Node(value: char, isWord: bool, less: Tree, equal: Tree, greater: Tree)

  function Child(t: Tree, d: Dir): Tree
    requires t.Node?
  {
    match d
    case Lo => t.less
    case Eq => t.equal
    case Hi => t.greater
  }

  function WithChild(t: Tree, d: Dir, s: Tree): Tree
    requires t.Node?
  {
    match d
    case Lo => t.(less := s)
    case Eq => t.(equal := s)
    case Hi => t.(greater := s)
  }

  /** A node holding `c` with no word mark and no children: what the source
      allocates when the walk falls off the tree. */
  function Leaf(c: char): Tree {
    Node(c, false, Nil, Nil, Nil)
  }

  function NodeCount(t: Tree): nat {
    match t
    case Nil => 0
    case Node(_, _, lo, eq, hi) => 1 + NodeCount(lo) + NodeCount(eq) + NodeCount(hi)
  }

  // ---------------------------------------------------------------------------
  // Membership and the ordering invariant
  // ---------------------------------------------------------------------------

  /** `w` is stored: the search walk for `w` ends on a node marked as a word at
      the last character of `w`. */
  predicate Has(t: Tree, w: string) {
    match t
    case Nil => false
    case Node(c, b, lo, eq, hi) =>
      |w| > 0 &&
      if w[0] < c then Has(lo, w)
      else if w[0] > c then Has(hi, w)
      else if |w| == 1 then b
      else Has(eq, w[1..])
  }

  const Bottom: int := -1
  const Top: int := 0x11_0000

  /** The search-tree invariant, with open bounds on the characters of one
      level: the `less` subtree holds characters below the node's, the
      `greater` subtree characters above it, and `equal` starts a new level. */
  predicate Within(t: Tree, lo: int, hi: int) {
    match t
    case Nil => true
    case Node(c, _, l, e, h) =>
      lo < c as int < hi &&
      Within(l, lo, c as int) && Within(h, c as int, hi) && Within(e, Bottom, Top)
  }

  predicate Ordered(t: Tree) {
    Within(t, Bottom, Top)
  }

  /** `u` starts with `p` and is strictly longer. */
  predicate Extends(u: string, p: string) {
    |u| > |p| && u[..|p|] == p
  }

  lemma {:induction false} HasBounds(t: Tree, lo: int, hi: int, w: string)
    requires Within(t, lo, hi) && Has(t, w)
    ensures lo < w[0] as int < hi
  {
    match t
    case Node(c, b, l, e, h) =>
      if w[0] < c {
        HasBounds(l, lo, c as int, w);
      } else if w[0] > c {
        HasBounds(h, c as int, hi, w);
      }
  }

  // ---------------------------------------------------------------------------
  // Insert
  // ---------------------------------------------------------------------------

  /** Insert `w`: walk the search path, allocating nodes where it falls off,
      and mark the node of the last character as a word. */
  function Insert(t: Tree, w: string): Tree
    requires |w| > 0
    decreases |w|, t
  {
    match t
    case Nil =>
      Node(w[0], |w| == 1, Nil, if |w| == 1 then Nil else Insert(Nil, w[1..]), Nil)
    case Node(c, b, lo, eq, hi) =>
      if w[0] < c then Node(c, b, Insert(lo, w), eq, hi)
      else if w[0] > c then Node(c, b, lo, eq, Insert(hi, w))
      else if |w| == 1 then Node(c, true, lo, eq, hi)
      else Node(c, b, lo, Insert(eq, w[1..]), hi)
  }

  /** The number of nodes Insert allocates: the characters of `w` left once the
      search walk falls off the tree. */
  function Missing(t: Tree, w: string): nat
    requires |w| > 0
  {
    match t
    case Nil => |w|
    case Node(c, _, lo, eq, hi) =>
      if w[0] < c then Missing(lo, w)
      else if w[0] > c then Missing(hi, w)
      else if |w| == 1 then 0
      else Missing(eq, w[1..])
  }

  /** Inserting into an empty position is inserting into a fresh leaf, which
      is how the source proceeds after allocating. */
  lemma InsertNilIsLeaf(w: string)
    requires |w| > 0
    ensures Insert(Nil, w) == Insert(Leaf(w[0]), w)
    ensures Missing(Nil, w) == Missing(Leaf(w[0]), w) + 1
    ensures Has(Leaf(w[0]), w) == false
  {
  }

  /** After Insert(w), exactly the old words and `w` are stored. */
  lemma {:induction false} InsertHas(t: Tree, w: string, u: string)
    requires |w| > 0
    ensures Has(Insert(t, w), u) <==> Has(t, u) || u == w
    decreases |w|, t
  {
    match t
    case Nil =>
      if |w| > 1 && |u| > 1 && u[0] == w[0] {
        InsertHas(Nil, w[1..], u[1..]);
        assert u == w <==> u[1..] == w[1..] by {
          if u[1..] == w[1..] { assert u == [u[0]] + u[1..] && w == [w[0]] + w[1..]; }
        }
      }
    case Node(c, b, lo, eq, hi) =>
      if w[0] < c {
        InsertHas(lo, w, u);
      } else if w[0] > c {
        InsertHas(hi, w, u);
      } else if |w| > 1 {
        if |u| > 1 && u[0] == c {
          InsertHas(eq, w[1..], u[1..]);
          assert u == w <==> u[1..] == w[1..] by {
            if u[1..] == w[1..] { assert u == [u[0]] + u[1..] && w == [w[0]] + w[1..]; }
          }
        }
      }
  }

  /** Insert keeps the search-tree invariant. */
  lemma {:induction false} InsertWithin(t: Tree, w: string, lo: int, hi: int)
    requires |w| > 0 && Within(t, lo, hi) && lo < w[0] as int < hi
    ensures Within(Insert(t, w), lo, hi)
    decreases |w|, t
  {
    match t
    case Nil =>
      if |w| > 1 {
        InsertWithin(Nil, w[1..], Bottom, Top);
      }
    case Node(c, b, l, e, h) =>
      if w[0] < c {
        InsertWithin(l, w, lo, c as int);
      } else if w[0] > c {
        InsertWithin(h, w, c as int, hi);
      } else if |w| > 1 {
        InsertWithin(e, w[1..], Bottom, Top);
      }
  }

  /** Insert allocates exactly Missing(t, w) nodes. */
  lemma {:induction false} InsertNodeCount(t: Tree, w: string)
    requires |w| > 0
    ensures NodeCount(Insert(t, w)) == NodeCount(t) + Missing(t, w)
    decreases |w|, t
  {
    match t
    case Nil =>
      if |w| > 1 {
        InsertNodeCount(Nil, w[1..]);
      }
    case Node(c, b, lo, eq, hi) =>
      if w[0] < c {
        InsertNodeCount(lo, w);
      } else if w[0] > c {
        InsertNodeCount(hi, w);
      } else if |w| > 1 {
        InsertNodeCount(eq, w[1..]);
      }
  }

  /** Re-inserting a stored word allocates nothing. */
  lemma {:induction false} HasNothingMissing(t: Tree, w: string)
    requires |w| > 0 && Has(t, w)
    ensures Missing(t, w) == 0
  {
    match t
    case Node(c, b, lo, eq, hi) =>
      if w[0] < c {
        HasNothingMissing(lo, w);
      } else if w[0] > c {
        HasNothingMissing(hi, w);
      } else if |w| > 1 {
        HasNothingMissing(eq, w[1..]);
      }
  }

  // ---------------------------------------------------------------------------
  // Remove
  // ---------------------------------------------------------------------------

  /** The recursive removal: un-mark the node of the last character; while
      unwinding, detach an `equal` child whose removal reported it prunable.
      The second component is the source's return value: the node is now an
      unmarked node without children.  The results of the `less` and
      `greater` recursions are discarded, as in the source. */
  function RemoveAux(t: Tree, w: string): (Tree, bool)
    requires |w| > 0
  {
    match t
    case Nil => (Nil, false)
    case Node(c, b, lo, eq, hi) =>
      if |w| == 1 && c == w[0] then
        if b then (Node(c, false, lo, eq, hi), eq == Nil && lo == Nil && hi == Nil)
        else (t, false)
      else if w[0] < c then (Node(c, b, RemoveAux(lo, w).0, eq, hi), false)
      else if w[0] > c then (Node(c, b, lo, eq, RemoveAux(hi, w).0), false)
      else
        var (e, prune) := RemoveAux(eq, w[1..]);
        if prune then (Node(c, b, lo, Nil, hi), !b && lo == Nil && hi == Nil)
        else (Node(c, b, lo, e, hi), false)
  }

  function Remove(t: Tree, w: string): Tree
    requires |w| > 0
  {
    RemoveAux(t, w).0
  }

  /** A subtree reported prunable is a single unmarked node without
      children, so detaching it loses no word. */
  lemma {:induction false} RemovePrunable(t: Tree, w: string)
    requires |w| > 0 && RemoveAux(t, w).1
    ensures RemoveAux(t, w).0.Node? && !RemoveAux(t, w).0.isWord
    ensures RemoveAux(t, w).0.less == Nil && RemoveAux(t, w).0.equal == Nil && RemoveAux(t, w).0.greater == Nil
    ensures forall u :: !Has(RemoveAux(t, w).0, u)
  {
    match t
    case Node(c, b, lo, eq, hi) =>
      var r := RemoveAux(t, w).0;
      forall u ensures !Has(r, u) {
        if |u| > 1 {
          assert !Has(r.equal, u[1..]);
        }
      }
  }

  /** After Remove(w), exactly the old words other than `w` are stored. */
  lemma {:induction false} RemoveHas(t: Tree, w: string, u: string)
    requires |w| > 0
    ensures Has(Remove(t, w), u) <==> Has(t, u) && u != w
  {
    match t
    case Nil =>
    case Node(c, b, lo, eq, hi) =>
      if |w| == 1 && c == w[0] {
        if |u| > 0 && u[0] == c && |u| == 1 {
          assert u == w;
        }
      } else if w[0] < c {
        RemoveHas(lo, w, u);
      } else if w[0] > c {
        RemoveHas(hi, w, u);
      } else if |u| > 1 && u[0] == c {
        var (e, prune) := RemoveAux(eq, w[1..]);
        RemoveHas(eq, w[1..], u[1..]);
        assert u == w <==> u[1..] == w[1..] by {
          if u[1..] == w[1..] { assert u == [u[0]] + u[1..] && w == [w[0]] + w[1..]; }
        }
        if prune {
          RemovePrunable(eq, w[1..]);
        }
      }
  }

  /** Removing a word that is not stored changes nothing and prunes nothing. */
  lemma {:induction false} RemoveAbsent(t: Tree, w: string)
    requires |w| > 0 && !Has(t, w)
    ensures RemoveAux(t, w) == (t, false)
  {
    match t
    case Nil =>
    case Node(c, b, lo, eq, hi) =>
      if |w| == 1 && c == w[0] {
      } else if w[0] < c {
        RemoveAbsent(lo, w);
      } else if w[0] > c {
        RemoveAbsent(hi, w);
      } else {
        RemoveAbsent(eq, w[1..]);
      }
  }

  /** Remove keeps the search-tree invariant. */
  lemma {:induction false} RemoveWithin(t: Tree, w: string, lo: int, hi: int)
    requires |w| > 0 && Within(t, lo, hi)
    ensures Within(Remove(t, w), lo, hi)
  {
    match t
    case Nil =>
    case Node(c, b, l, e, h) =>
      if |w| == 1 && c == w[0] {
      } else if w[0] < c {
        RemoveWithin(l, w, lo, c as int);
      } else if w[0] > c {
        RemoveWithin(h, w, c as int, hi);
      } else {
        RemoveWithin(e, w[1..], Bottom, Top);
      }
  }

  /** Remove never allocates and only detaches. */
  lemma {:induction false} RemoveNodeCount(t: Tree, w: string)
    requires |w| > 0
    ensures NodeCount(Remove(t, w)) <= NodeCount(t)
  {
    match t
    case Nil =>
    case Node(c, b, l, e, h) =>
      if |w| == 1 && c == w[0] {
      } else if w[0] < c {
        RemoveNodeCount(l, w);
      } else if w[0] > c {
        RemoveNodeCount(h, w);
      } else {
        RemoveNodeCount(e, w[1..]);
      }
  }

  // ---------------------------------------------------------------------------
  // Ordinal string order and sorted lists
  // ---------------------------------------------------------------------------

  /** Strict lexicographic order on character codes (ordinal comparison). */
  predicate Before(a: string, b: string) {
    |b| > 0 && (|a| == 0 || a[0] < b[0] || (a[0] == b[0] && Before(a[1..], b[1..])))
  }

  predicate StrictlySorted(s: seq<string>) {
    forall i, j :: 0 <= i < j < |s| ==> Before(s[i], s[j])
  }

  lemma {:induction false} BeforeAt(a: string, b: string, k: nat)
    requires k < |a| && k < |b| && a[..k] == b[..k] && a[k] < b[k]
    ensures Before(a, b)
  {
    if k > 0 {
      assert a[0] == a[..k][0] == b[..k][0] == b[0];
      assert a[1..][..k - 1] == a[1..k] == a[..k][1..];
      assert b[1..][..k - 1] == b[1..k] == b[..k][1..];
      BeforeAt(a[1..], b[1..], k - 1);
    }
  }

  lemma {:induction false} BeforePrefix(a: string, b: string)
    requires |a| < |b| && b[..|a|] == a
    ensures Before(a, b)
  {
    if |a| > 0 {
      assert a[0] == b[..|a|][0] == b[0];
      assert b[1..][..|a| - 1] == b[..|a|][1..];
      BeforePrefix(a[1..], b[1..]);
    }
  }

  lemma {:induction false} BeforeIrreflexive(a: string)
    ensures !Before(a, a)
  {
    if |a| > 0 {
      BeforeIrreflexive(a[1..]);
    }
  }

  /** A strictly sorted list has no duplicates. */
  lemma StrictlySortedDistinct(s: seq<string>, i: nat, j: nat)
    requires StrictlySorted(s) && i < j < |s|
    ensures s[i] != s[j]
  {
    BeforeIrreflexive(s[i]);
  }

  lemma SortedAppend(x: seq<string>, y: seq<string>)
    requires StrictlySorted(x) && StrictlySorted(y)
    requires forall a, b :: a in x && b in y ==> Before(a, b)
    ensures StrictlySorted(x + y)
  {
    var s := x + y;
    forall i, j | 0 <= i < j < |s| ensures Before(s[i], s[j]) {
      if j < |x| {
        assert s[i] == x[i] && s[j] == x[j];
      } else if i >= |x| {
        assert s[i] == y[i - |x|] && s[j] == y[j - |x|];
      } else {
        assert s[i] in x && s[j] in y;
      }
    }
  }

  // ---------------------------------------------------------------------------
  // Suggestions
  // ---------------------------------------------------------------------------

  /** The depth-first collection of the source: the `less` subtree, then the
      node's own word, then the `equal` subtree with the buffer extended by the
      node's character, then the `greater` subtree. */
  function SuggestionsAux(t: Tree, buffer: string): seq<string> {
    match t
    case Nil => []
    case Node(c, b, lo, eq, hi) =>
      SuggestionsAux(lo, buffer) + (if b then [buffer + [c]] else []) +
      SuggestionsAux(eq, buffer + [c]) + SuggestionsAux(hi, buffer)
  }

  /** Every collected string extends the buffer by a character within the
      level's bounds, and the list is in strictly increasing order. */
  lemma {:induction false} SuggestionsAuxSorted(t: Tree, buffer: string, lo: int, hi: int)
    requires Within(t, lo, hi)
    ensures forall u :: u in SuggestionsAux(t, buffer) ==>
              Extends(u, buffer) && lo < u[|buffer|] as int < hi
    ensures StrictlySorted(SuggestionsAux(t, buffer))
  {
    match t
    case Nil =>
    case Node(c, b, l, e, h) =>
      var k := |buffer|;
      var here := buffer + [c];
      var A := SuggestionsAux(l, buffer);
      var N: seq<string> := if b then [here] else [];
      var E := SuggestionsAux(e, here);
      var H := SuggestionsAux(h, buffer);
      SuggestionsAuxSorted(l, buffer, lo, c as int);
      SuggestionsAuxSorted(e, here, Bottom, Top);
      SuggestionsAuxSorted(h, buffer, c as int, hi);
      assert here[..k] == buffer && here[k] == c;
      forall u | u in E ensures Extends(u, buffer) && u[k] == c {
        assert u[..k] == u[..k + 1][..k] == here[..k];
      }
      forall a, n | a in A && n in N ensures Before(a, n) {
        BeforeAt(a, n, k);
      }
      forall a, x | a in A && x in E ensures Before(a, x) {
        BeforeAt(a, x, k);
      }
      forall a, x | a in A && x in H ensures Before(a, x) {
        BeforeAt(a, x, k);
      }
      forall n, x | n in N && x in E ensures Before(n, x) {
        assert x[..|n|] == n;
        BeforePrefix(n, x);
      }
      forall n, x | n in N && x in H ensures Before(n, x) {
        BeforeAt(n, x, k);
      }
      forall a, x | a in E && x in H ensures Before(a, x) {
        BeforeAt(a, x, k);
      }
      SortedAppend(A, N);
      forall a, x | a in A + N && x in E ensures Before(a, x) {
      }
      SortedAppend(A + N, E);
      forall a, x | a in A + N + E && x in H ensures Before(a, x) {
      }
      SortedAppend(A + N + E, H);
  }

  /** Under the ordering invariant the collection holds exactly the buffer
      followed by each word stored in the subtree. */
  lemma {:induction false} SuggestionsAuxHas(t: Tree, buffer: string, lo: int, hi: int)
    requires Within(t, lo, hi)
    ensures forall u :: u in SuggestionsAux(t, buffer) <==>
              Extends(u, buffer) && Has(t, u[|buffer|..])
  {
    match t
    case Nil =>
    case Node(c, b, l, e, h) =>
      var k := |buffer|;
      var here := buffer + [c];
      SuggestionsAuxHas(l, buffer, lo, c as int);
      SuggestionsAuxHas(e, here, Bottom, Top);
      SuggestionsAuxHas(h, buffer, c as int, hi);
      assert Extends(here, buffer) by { assert here[..k] == buffer; }
      forall u
        ensures u in SuggestionsAux(t, buffer) <==> Extends(u, buffer) && Has(t, u[k..])
      {
        ExtendsStep(u, buffer, c);
        if Extends(u, buffer) {
          var v := u[k..];
          assert v[0] == u[k];
          if Has(l, v) { HasBounds(l, lo, c as int, v); }
          if Has(h, v) { HasBounds(h, c as int, hi, v); }
          assert u == here <==> |v| == 1 && u[k] == c by {
            assert u == u[..k] + v;
          }
          if |v| > 1 {
            assert v[1..] == u[k + 1..];
          }
        }
      }
  }

  lemma ExtendsStep(u: string, buffer: string, c: char)
    ensures Extends(u, buffer + [c]) <==> Extends(u, buffer) && |u| > |buffer| + 1 && u[|buffer|] == c
  {
    var k := |buffer|;
    if |u| > k + 1 {
      assert u[..k + 1] == u[..k] + [u[k]];
      assert (buffer + [c])[..k] == buffer;
    }
  }

  /** The prefix walk of Suggestions: the node of the last character of `p`
      on its search path, or Nil when the path falls off the tree. */
  function Locate(t: Tree, p: string): Tree
    requires |p| > 0
  {
    match t
    case Nil => Nil
    case Node(c, _, lo, eq, hi) =>
      if p[0] < c then Locate(lo, p)
      else if p[0] > c then Locate(hi, p)
      else if |p| == 1 then t
      else Locate(eq, p[1..])
  }

  /** The words below the located node are exactly the stored words that
      strictly extend `p`, and `p` is stored exactly when that node is a word. */
  lemma {:induction false} LocateHas(t: Tree, p: string, v: string)
    requires |p| > 0
    ensures Has(t, p) <==> Locate(t, p).Node? && Locate(t, p).isWord
    ensures |v| > 0 ==> (Has(t, p + v) <==> Locate(t, p).Node? && Has(Locate(t, p).equal, v))
  {
    match t
    case Nil =>
    case Node(c, b, lo, eq, hi) =>
      assert (p + v)[0] == p[0];
      if p[0] < c {
        LocateHas(lo, p, v);
      } else if p[0] > c {
        LocateHas(hi, p, v);
      } else if |p| == 1 {
        assert (p + v)[1..] == v;
      } else {
        assert (p + v)[1..] == p[1..] + v;
        LocateHas(eq, p[1..], v);
      }
  }

  lemma {:induction false} LocateWithin(t: Tree, p: string, lo: int, hi: int)
    requires |p| > 0 && Within(t, lo, hi) && Locate(t, p).Node?
    ensures Ordered(Locate(t, p).equal)
  {
    match t
    case Node(c, b, l, e, h) =>
      if p[0] < c {
        LocateWithin(l, p, lo, c as int);
      } else if p[0] > c {
        LocateWithin(h, p, c as int, hi);
      } else if |p| > 1 {
        LocateWithin(e, p[1..], Bottom, Top);
      }
  }

  /** Suggestions(p): nothing when the walk for `p` falls off the tree or ends
      on a word; otherwise the collection below the located node, with `p` as
      the buffer. */
  function Suggestions(t: Tree, p: string): seq<string>
    requires |p| > 0
  {
    var n := Locate(t, p);
    if n.Nil? || n.isWord then [] else SuggestionsAux(n.equal, p)
  }

  /** Suggestions(p) lists, in strictly increasing order and each once,
      exactly the stored words that strictly extend `p` -- and nothing when
      `p` is itself stored or is not a path in the tree. */
  lemma SuggestionsSpec(t: Tree, p: string)
    requires Ordered(t) && |p| > 0
    ensures StrictlySorted(Suggestions(t, p))
    ensures forall u :: u in Suggestions(t, p) <==> !Has(t, p) && Has(t, u) && Extends(u, p)
    ensures Has(t, p) || Locate(t, p).Nil? ==> Suggestions(t, p) == []
  {
    var n := Locate(t, p);
    LocateHas(t, p, []);
    if n.Node? && !n.isWord {
      LocateWithin(t, p, Bottom, Top);
      SuggestionsAuxSorted(n.equal, p, Bottom, Top);
      SuggestionsAuxHas(n.equal, p, Bottom, Top);
    }
    forall u | Extends(u, p)
      ensures Has(t, u) <==> n.Node? && Has(n.equal, u[|p|..])
    {
      assert u == p + u[|p|..];
      LocateHas(t, p, u[|p|..]);
    }
  }

  // ---------------------------------------------------------------------------
  // Partial suggestions
  // ---------------------------------------------------------------------------

  /** The characters of the chain of nodes, starting at `t`, that have an
      `equal` child and neither a `less` nor a `greater` child. */
  function Extension(t: Tree): string {
    match t
    case Nil => []
    case Node(c, _, lo, eq, hi) =>
      if eq != Nil && lo == Nil && hi == Nil then [c] + Extension(eq) else []
  }

  /** PartialSuggestions(p): `p` extended by the chain below the located node
      (only when the walk finds one), and the same options as Suggestions(p). */
  function PartialSuggestions(t: Tree, p: string): (string, seq<string>)
    requires |p| > 0
  {
    var n := Locate(t, p);
    (p + (if n.Node? then Extension(n.equal) else []), Suggestions(t, p))
  }

  /** One of two strings is a prefix of the other. */
  predicate Compatible(a: string, b: string) {
    (|a| <= |b| && b[..|a|] == a) || (|b| <= |a| && a[..|b|] == b)
  }

  /** Every word below a node is consistent with the node's chain extension:
      the extension never commits to a character some completion lacks. */
  lemma {:induction false} ExtensionCompatible(t: Tree, v: string)
    requires Has(t, v)
    ensures Compatible(v, Extension(t))
  {
    match t
    case Node(c, b, lo, eq, hi) =>
      if eq != Nil && lo == Nil && hi == Nil && |v| > 1 {
        ExtensionCompatible(eq, v[1..]);
        assert v == [c] + v[1..];
      }
  }

  /** The partially completed prefix starts with `p`, the options are those
      of Suggestions(p), and every option agrees with the completed prefix. */
  lemma PartialSuggestionsSpec(t: Tree, p: string)
    requires Ordered(t) && |p| > 0
    ensures Extends(PartialSuggestions(t, p).0, p) || PartialSuggestions(t, p).0 == p
    ensures PartialSuggestions(t, p).1 == Suggestions(t, p)
    ensures forall u :: u in PartialSuggestions(t, p).1 ==> Compatible(u, PartialSuggestions(t, p).0)
  {
    var n := Locate(t, p);
    var ext := PartialSuggestions(t, p).0;
    assert ext[..|p|] == p;
    SuggestionsSpec(t, p);
    forall u | u in Suggestions(t, p) ensures Compatible(u, ext) {
      var v := u[|p|..];
      assert u == p + v;
      LocateHas(t, p, v);
      ExtensionCompatible(n.equal, v);
      var x := Extension(n.equal);
      assert ext == p + x;
      if |v| <= |x| {
        assert ext[..|u|] == p + x[..|v|];
      } else {
        assert u[..|ext|] == p + v[..|x|];
      }
    }
  }

  // ---------------------------------------------------------------------------
  // Search as the source writes it
  // ---------------------------------------------------------------------------

  datatype SearchResult = Found(found: bool) | IndexOutOfRange

  /** The loop of the source's Search from `index` on: it reads `w[index]` at
      every node it meets, including after `index` has reached the end of `w`
      when the walk follows the `equal` link of an unmarked last node. */
  function SearchAsWritten(t: Tree, w: string, index: nat): SearchResult {
    match t
    case Nil => Found(false)
    case Node(c, b, lo, eq, hi) =>
      if index >= |w| then IndexOutOfRange
      else if w[index] < c then SearchAsWritten(lo, w, index)
      else if w[index] == c then
        if index + 1 == |w| && b then Found(true) else SearchAsWritten(eq, w, index + 1)
      else SearchAsWritten(hi, w, index)
  }

  /** The source's walk reads past the end of `w` exactly when `w` is empty
      and the tree is not, or when `w` reaches an unmarked node that has an
      `equal` child; otherwise it answers membership. */
  predicate ReadsPastEnd(t: Tree, w: string) {
    if |w| == 0 then t.Node?
    else Locate(t, w).Node? && !Locate(t, w).isWord && Locate(t, w).equal.Node?
  }

  lemma {:induction false} SearchAsWrittenSpec(t: Tree, w: string, index: nat)
    requires index <= |w|
    ensures SearchAsWritten(t, w, index) ==
              if ReadsPastEnd(t, w[index..]) then IndexOutOfRange else Found(Has(t, w[index..]))
  {
    match t
    case Nil =>
    case Node(c, b, lo, eq, hi) =>
      if index < |w| {
        var s := w[index..];
        assert s[0] == w[index];
        if w[index] < c {
          SearchAsWrittenSpec(lo, w, index);
        } else if w[index] > c {
          SearchAsWrittenSpec(hi, w, index);
        } else if index + 1 == |w| {
          SearchAsWrittenSpec(eq, w, index + 1);
        } else {
          assert s[1..] == w[index + 1..];
          SearchAsWrittenSpec(eq, w, index + 1);
        }
      }
  }

  /** A concrete input: with "help" stored, searching "he" reads past the end
      of the word instead of answering false. */
  lemma SearchReadsPastEnd()
    ensures Has(Insert(Nil, "help"), "he") == false
    ensures SearchAsWritten(Insert(Nil, "help"), "he", 0) == IndexOutOfRange
  {
    var t := Insert(Nil, "help");
    assert "help"[1..] == "elp" && "elp"[1..] == "lp" && "lp"[1..] == "p";
    assert t == Node('h', false, Nil, Node('e', false, Nil, Node('l', false, Nil, Node('p', true, Nil, Nil, Nil), Nil), Nil), Nil);
  }

  // ---------------------------------------------------------------------------
  // Paths into a tree, used to follow the in-place implementation's cursor
  // ---------------------------------------------------------------------------

  predicate ValidPath(t: Tree, path: seq<Dir>) {
    path == [] || (t.Node? && ValidPath(Child(t, path[0]), path[1..]))
  }

  function Subtree(t: Tree, path: seq<Dir>): Tree {
    if path == [] || t.Nil? then (if path == [] then t else Nil)
    else Subtree(Child(t, path[0]), path[1..])
  }

  function Replace(t: Tree, path: seq<Dir>, s: Tree): Tree {
    if path == [] then s
    else if t.Nil? then Nil
    else WithChild(t, path[0], Replace(Child(t, path[0]), path[1..], s))
  }

  lemma ReplaceSubtree(t: Tree, path: seq<Dir>, s: Tree)
    requires ValidPath(t, path)
    ensures ValidPath(Replace(t, path, s), path)
    ensures Subtree(Replace(t, path, s), path) == s
  {
    if path != [] {
      ReplaceSubtree(Child(t, path[0]), path[1..], s);
    }
  }

  lemma ReplaceTwice(t: Tree, path: seq<Dir>, a: Tree, b: Tree)
    requires ValidPath(t, path)
    ensures Replace(Replace(t, path, a), path, b) == Replace(t, path, b)
  {
    if path != [] {
      ReplaceTwice(Child(t, path[0]), path[1..], a, b);
    }
  }

  lemma ReplaceSame(t: Tree, path: seq<Dir>)
    requires ValidPath(t, path)
    ensures Replace(t, path, Subtree(t, path)) == t
  {
    if path != [] {
      ReplaceSame(Child(t, path[0]), path[1..]);
    }
  }

  lemma {:induction false} PathStep(t: Tree, path: seq<Dir>, d: Dir, s: Tree)
    requires ValidPath(t, path) && Subtree(t, path).Node?
    ensures ValidPath(t, path + [d])
    ensures Subtree(t, path + [d]) == Child(Subtree(t, path), d)
    ensures Replace(t, path + [d], s) == Replace(t, path, WithChild(Subtree(t, path), d, s))
  {
    if path != [] {
      assert (path + [d])[0] == path[0] && (path + [d])[1..] == path[1..] + [d];
      PathStep(Child(t, path[0]), path[1..], d, s);
    }
  }
}
