/** The skew heap with parent pointers (libs/skew_heap.h) and the comparison of
    strides it is used with (kern/schedule/default_sched_stride_c). */
module SkewHeap {
  import opened Wrappers

  class Node {
    var parent: Node?
    var left: Node?
    var right: Node?
    const key: nat                        // what the comparison looks at

    constructor (key: nat)
      ensures this.key == key
    {
      this.key := key;
      parent, left, right := null, null, null;
    }
  }

  type Compare = (nat, nat) -> int

  // ---------- trees of nodes ----------

  datatype Tree = Nil | Fork(node: Node, left: Tree, right: Tree)

  ghost function Nodes(t: Tree): set<Node> {
    match t
    case Nil => {}
    case Fork(n, l, r) => {n} + Nodes(l) + Nodes(r)
  }

  ghost function Root(t: Tree): Node? {
    if t.Nil? then null else t.node
  }

  ghost function Size(t: Tree): nat {
    match t
    case Nil => 0
    case Fork(_, l, r) => 1 + Size(l) + Size(r)
  }

  /** No node occurs twice. */
  ghost predicate Apart(t: Tree) {
    match t
    case Nil => true
    case Fork(n, l, r) => n !in Nodes(l) && n !in Nodes(r) && Nodes(l) !! Nodes(r) && Apart(l) && Apart(r)
  }

  /** The pointers of the nodes form the tree, and parents agree with children. */
  ghost predicate Shape(t: Tree)
    reads Nodes(t)
    decreases t, 0
  {
    match t
    case Nil => true
    case Fork(n, l, r) => n.left == Root(l) && n.right == Root(r) && Below(l, n) && Below(r, n)
  }

  ghost predicate Below(t: Tree, p: Node?)
    reads Nodes(t)
    decreases t, 1
  {
    Shape(t) && (t.Fork? ==> t.node.parent == p)
  }

  lemma Alive(t: Tree)
    ensures forall n :: n in Nodes(t) ==> allocated(n)
  {
    if t.Fork? {
      Alive(t.left);
      Alive(t.right);
    }
  }

  // ---------- merging ----------

  /** The tree that skew_heap_merge builds. */
  ghost function Merged(a: Tree, b: Tree, comp: Compare): Tree
    decreases Size(a) + Size(b)
  {
    if a.Nil? then b
    else if b.Nil? then a
    else if comp(a.node.key, b.node.key) == -1 then Fork(a.node, Merged(a.right, b, comp), a.left)
    else Fork(b.node, Merged(a, b.right, comp), b.left)
  }

  lemma {:induction false} MergedNodes(a: Tree, b: Tree, comp: Compare)
    requires Apart(a) && Apart(b) && Nodes(a) !! Nodes(b)
    ensures Nodes(Merged(a, b, comp)) == Nodes(a) + Nodes(b) && Apart(Merged(a, b, comp))
    ensures Size(Merged(a, b, comp)) == Size(a) + Size(b)
    decreases Size(a) + Size(b)
  {
    if a.Fork? && b.Fork? {
      if comp(a.node.key, b.node.key) == -1 {
        MergedNodes(a.right, b, comp);
      } else {
        MergedNodes(a, b.right, comp);
      }
    }
  }

  /** skew_heap_merge, which rewrites the pointers in place. */
  method Merge(a: Node?, b: Node?, comp: Compare, ghost ta: Tree, ghost tb: Tree) returns (c: Node?)
    requires a == Root(ta) && b == Root(tb) && Shape(ta) && Shape(tb)
    requires Apart(ta) && Apart(tb) && Nodes(ta) !! Nodes(tb)
    modifies Nodes(ta) + Nodes(tb)
    ensures c == Root(Merged(ta, tb, comp)) && Shape(Merged(ta, tb, comp))
    ensures Nodes(Merged(ta, tb, comp)) == Nodes(ta) + Nodes(tb)
    ensures c != null ==> c.parent == old(c.parent)
    decreases Size(ta) + Size(tb)
  {
    MergedNodes(ta, tb, comp);
    if a == null {
      return b;
    } else if b == null {
      return a;
    }
    if comp(a.key, b.key) == -1 {
      MergedNodes(ta.right, tb, comp);
      Alive(ta.left);
      assert Below(ta.left, a) && Nodes(ta.left) !! Nodes(ta.right) + Nodes(tb) && a !in Nodes(ta.right) + Nodes(tb);
      var l := Merge(a.right, b, comp, ta.right, tb);
      Swap(a, l, Merged(ta.right, tb, comp), ta.left);
      return a;
    } else {
      MergedNodes(ta, tb.right, comp);
      Alive(tb.left);
      assert Below(tb.left, b) && Nodes(tb.left) !! Nodes(ta) + Nodes(tb.right) && b !in Nodes(ta) + Nodes(tb.right);
      var l := Merge(a, b.right, comp, ta, tb.right);
      Swap(b, l, Merged(ta, tb.right, comp), tb.left);
      return b;
    }
  }

  /** The old left child becomes the right one, and l the left one. */
  method Swap(n: Node, l: Node?, ghost tl: Tree, ghost tr: Tree)
    requires l == Root(tl) && Shape(tl) && Apart(tl) && n !in Nodes(tl)
    requires n.left == Root(tr) && Below(tr, n) && n !in Nodes(tr) && Nodes(tl) !! Nodes(tr)
    modifies n`left, n`right, Nodes(tl)`parent
    ensures Shape(Fork(n, tl, tr))
  {
    var r := n.left;
    n.left := l;
    n.right := r;
    if l != null {
      assert Below(tl.left, l) && Below(tl.right, l);
      l.parent := n;
      assert Below(tl.left, l) && Below(tl.right, l);
    }
  }

  /** skew_heap_insert. */
  method Insert(a: Node?, b: Node, comp: Compare, ghost t: Tree) returns (c: Node?)
    requires a == Root(t) && Below(t, null) && Apart(t) && b !in Nodes(t)
    modifies Nodes(t) + {b}
    ensures var t' := Merged(t, Fork(b, Nil, Nil), comp);
            && c == Root(t') && Below(t', null) && Apart(t') && Nodes(t') == Nodes(t) + {b}
  {
    Alive(t);
    b.left, b.right, b.parent := null, null, null;
    MergedNodes(t, Fork(b, Nil, Nil), comp);
    c := Merge(a, b, comp, t, Fork(b, Nil, Nil));
  }

  // ---------- removing ----------

  /** The subtree of node b. */
  ghost function Sub(t: Tree, b: Node): Tree
    requires b in Nodes(t)
  {
    if t.node == b then t else if b in Nodes(t.left) then Sub(t.left, b) else Sub(t.right, b)
  }

  /** The tree that skew_heap_remove leaves: the children of b merge in its place. */
  ghost function Without(t: Tree, b: Node, comp: Compare): Tree
    requires b in Nodes(t)
  {
    if t.node == b then Merged(t.left, t.right, comp)
    else if b in Nodes(t.left) then Fork(t.node, Without(t.left, b, comp), t.right)
    else Fork(t.node, t.left, Without(t.right, b, comp))
  }

  lemma {:induction false} WithoutNodes(t: Tree, b: Node, comp: Compare)
    requires Apart(t) && b in Nodes(t)
    ensures Nodes(Without(t, b, comp)) == Nodes(t) - {b} && Apart(Without(t, b, comp))
    ensures Size(Without(t, b, comp)) == Size(t) - 1
  {
    if t.node == b {
      MergedNodes(t.left, t.right, comp);
    } else if b in Nodes(t.left) {
      WithoutNodes(t.left, b, comp);
    } else {
      WithoutNodes(t.right, b, comp);
    }
  }

  /** The pointers of some nodes at some time. */
  datatype Pointers = Pointers(left: map<Node, Node?>, right: map<Node, Node?>, parent: map<Node, Node?>)

  ghost function Now(s: set<Node>): Pointers
    reads s
  {
    Pointers(map n | n in s :: n.left, map n | n in s :: n.right, map n | n in s :: n.parent)
  }

  ghost predicate Covers(ps: Pointers, s: set<Node>) {
    s <= ps.left.Keys && s <= ps.right.Keys && s <= ps.parent.Keys
  }

  /** As Below, at the time ps was recorded. */
  ghost predicate Formed(t: Tree, q: Node?, ps: Pointers)
    requires Covers(ps, Nodes(t))
  {
    match t
    case Nil => true
    case Fork(n, l, r) => ps.parent[n] == q && ps.left[n] == Root(l) && ps.right[n] == Root(r) && Formed(l, n, ps) && Formed(r, n, ps)
  }

  lemma {:induction false} FormedNow(t: Tree, q: Node?, s: set<Node>)
    requires Nodes(t) <= s
    ensures Formed(t, q, Now(s)) <==> Below(t, q)
  {
    if t.Fork? {
      FormedNow(t.left, t.node, s);
      FormedNow(t.right, t.node, s);
    }
  }

  ghost predicate SameAt(n: Node, ps: Pointers, ps': Pointers)
    requires Covers(ps, {n}) && Covers(ps', {n})
  {
    ps'.left[n] == ps.left[n] && ps'.right[n] == ps.right[n] && ps'.parent[n] == ps.parent[n]
  }

  lemma {:induction false} FormedStill(t: Tree, q: Node?, ps: Pointers, ps': Pointers)
    requires Covers(ps, Nodes(t)) && Covers(ps', Nodes(t)) && Formed(t, q, ps)
    requires forall n :: n in Nodes(t) ==> SameAt(n, ps, ps')
    ensures Formed(t, q, ps')
  {
    if t.Fork? {
      assert SameAt(t.node, ps, ps');
      FormedStill(t.left, t.node, ps, ps');
      FormedStill(t.right, t.node, ps, ps');
    }
  }

  /** Node p has let go of its child b and taken rep instead. */
  ghost predicate Adopted(p: Node, b: Node, rep: Node?, ps: Pointers, ps': Pointers)
    requires Covers(ps, {p}) && Covers(ps', {p})
  {
    && ps'.parent[p] == ps.parent[p]
    && if ps.left[p] == b then ps'.left[p] == rep && ps'.right[p] == ps.right[p]
       else ps'.left[p] == ps.left[p] && ps'.right[p] == rep
  }

  /** If only the parent p of b and the nodes below b have changed, the pointers form
      the tree without b. */
  lemma {:induction false} FormedWithout(t: Tree, q: Node?, b: Node, comp: Compare, p: Node, m: Tree, ps: Pointers, ps': Pointers)
    requires Apart(t) && b in Nodes(t) && t.node != b && p in Nodes(t)
    requires Covers(ps, Nodes(t)) && Covers(ps', Nodes(t)) && Formed(t, q, ps) && ps.parent[b] == p
    requires Sub(t, b).Fork? && m == Merged(Sub(t, b).left, Sub(t, b).right, comp)
    requires Covers(ps', Nodes(m)) && Formed(m, p, ps') && Adopted(p, b, Root(m), ps, ps')
    requires forall n :: n in Nodes(t) && n !in Nodes(Sub(t, b)) && n != p ==> SameAt(n, ps, ps')
    ensures Nodes(Without(t, b, comp)) <= Nodes(t) && Formed(Without(t, b, comp), q, ps')
  {
    WithoutNodes(t, b, comp);
    SubNodes(t, b);
    if b in Nodes(t.left) {
      ParentWithin(t.left, t.node, b, ps);
      FormedStill(t.right, t.node, ps, ps');
      if t.left.node != b {
        FormedWithout(t.left, t.node, b, comp, p, m, ps, ps');
      }
    } else {
      ParentWithin(t.right, t.node, b, ps);
      FormedStill(t.left, t.node, ps, ps');
      if t.right.node != b {
        FormedWithout(t.right, t.node, b, comp, p, m, ps, ps');
      }
    }
  }

  lemma {:induction false} ParentWithin(t: Tree, q: Node?, b: Node, ps: Pointers)
    requires Apart(t) && b in Nodes(t) && Covers(ps, Nodes(t)) && Formed(t, q, ps)
    ensures t.node == b ==> ps.parent[b] == q
    ensures t.node != b ==> var p := ps.parent[b];
                            p in Nodes(t) - Nodes(Sub(t, b)) && (ps.left[p] == b || ps.right[p] == b)
  {
    SubNodes(t, b);
    if t.node != b {
      if b in Nodes(t.left) {
        ParentWithin(t.left, t.node, b, ps);
      } else {
        ParentWithin(t.right, t.node, b, ps);
      }
    }
  }

  lemma {:induction false} SubNodes(t: Tree, b: Node)
    requires b in Nodes(t) && Apart(t)
    ensures Sub(t, b).Fork? && Sub(t, b).node == b && Apart(Sub(t, b)) && Nodes(Sub(t, b)) <= Nodes(t)
    ensures t.node != b ==> Sub(t, b) == Sub(if b in Nodes(t.left) then t.left else t.right, b)
    ensures t.node != b ==> Nodes(Sub(t, b)) <= Nodes(if b in Nodes(t.left) then t.left else t.right)
  {
    if t.node != b {
      SubNodes(if b in Nodes(t.left) then t.left else t.right, b);
    }
  }

  /** skew_heap_remove. */
  method Remove(a: Node?, b: Node, comp: Compare, ghost t: Tree) returns (c: Node?)
    requires a == Root(t) && Below(t, null) && Apart(t) && b in Nodes(t)
    modifies Nodes(t)
    ensures var t' := Without(t, b, comp);
            && c == Root(t') && Below(t', null) && Apart(t') && Nodes(t') == Nodes(t) - {b}
  {
    ghost var ps := Now(Nodes(t));
    FormedNow(t, null, Nodes(t));
    ParentWithin(t, null, b, ps);
    SubNodes(t, b);
    WithoutNodes(t, b, comp);
    SubBelow(t, null, b);
    ghost var m := Merged(Sub(t, b).left, Sub(t, b).right, comp);
    MergedNodes(Sub(t, b).left, Sub(t, b).right, comp);
    Alive(t);
    var p := b.parent;
    var rep := MergeChildren(b, comp, Sub(t, b));
    if p != null {
      Adopt(p, b, rep, m, t, ps);
      FormedWithout(t, null, b, comp, p, m, ps, Now(Nodes(t)));
      FormedNow(Without(t, b, comp), null, Nodes(t));
      return a;
    } else {
      return rep;
    }
  }

  /** The first half of skew_heap_remove: the children of b become one tree. */
  method MergeChildren(b: Node, comp: Compare, ghost sub: Tree) returns (rep: Node?)
    requires sub.Fork? && sub.node == b && Shape(sub) && Apart(sub)
    modifies Nodes(sub.left) + Nodes(sub.right)
    ensures var m := Merged(sub.left, sub.right, comp); rep == Root(m) && Below(m, b.parent)
  {
    ghost var m := Merged(sub.left, sub.right, comp);
    MergedNodes(sub.left, sub.right, comp);
    rep := Merge(b.left, b.right, comp, sub.left, sub.right);
    if rep != null {
      Reparent(rep, b.parent, m);
    }
  }

  /** The second half: the parent of b takes their tree instead. */
  method Adopt(p: Node, b: Node, rep: Node?, ghost m: Tree, ghost t: Tree, ghost ps: Pointers)
    requires p in Nodes(t) && Covers(ps, Nodes(t)) && SameAt(p, ps, Now(Nodes(t)))
    requires ps.left[p] == b || ps.right[p] == b
    requires rep == Root(m) && Below(m, p) && Nodes(m) <= Nodes(t) && p !in Nodes(m)
    modifies p`left, p`right
    ensures Adopted(p, b, rep, ps, Now(Nodes(t))) && Formed(m, p, Now(Nodes(t)))
  {
    if p.left == b {
      p.left := rep;
    } else {
      p.right := rep;
    }
    FormedNow(m, p, Nodes(t));
  }

  method Reparent(rep: Node, p: Node?, ghost m: Tree)
    requires rep == Root(m) && Shape(m) && Apart(m)
    modifies rep`parent
    ensures Below(m, p)
  {
    assert Below(m.left, rep) && Below(m.right, rep);
    rep.parent := p;
    assert Below(m.left, rep) && Below(m.right, rep);
  }

  lemma {:induction false} SubBelow(t: Tree, q: Node?, b: Node)
    requires Below(t, q) && Apart(t) && b in Nodes(t)
    ensures Shape(Sub(t, b))
  {
    if t.node != b {
      if b in Nodes(t.left) {
        SubBelow(t.left, t.node, b);
      } else {
        SubBelow(t.right, t.node, b);
      }
    }
  }

  // ---------- heap order ----------

  /** On some keys, the comparison is a total preorder. */
  ghost predicate TotalPreorder(comp: Compare, keys: set<nat>) {
    && (forall x, y :: x in keys && y in keys ==> comp(x, y) in {-1, 0, 1} && comp(x, y) == -comp(y, x))
    && (forall x, y, z :: x in keys && y in keys && z in keys && comp(x, y) <= 0 && comp(y, z) <= 0 ==> comp(x, z) <= 0)
  }

  ghost predicate KeysIn(t: Tree, keys: set<nat>) {
    forall n :: n in Nodes(t) ==> n.key in keys
  }

  /** Node n does not come after the root of t. */
  ghost predicate Before(n: Node, t: Tree, comp: Compare) {
    t.Fork? ==> comp(n.key, t.node.key) <= 0
  }

  ghost predicate Ordered(t: Tree, comp: Compare) {
    match t
    case Nil => true
    case Fork(n, l, r) => Before(n, l, comp) && Before(n, r, comp) && Ordered(l, comp) && Ordered(r, comp)
  }

  lemma {:induction false} MergedOrdered(a: Tree, b: Tree, comp: Compare, keys: set<nat>)
    requires TotalPreorder(comp, keys) && KeysIn(a, keys) && KeysIn(b, keys) && Ordered(a, comp) && Ordered(b, comp)
    ensures Ordered(Merged(a, b, comp), comp)
    ensures Root(Merged(a, b, comp)) in {Root(a), Root(b)}
    decreases Size(a) + Size(b)
  {
    if a.Fork? && b.Fork? {
      if comp(a.node.key, b.node.key) == -1 {
        MergedOrdered(a.right, b, comp, keys);
      } else {
        MergedOrdered(a, b.right, comp, keys);
      }
    }
  }

  lemma {:induction false} WithoutOrdered(t: Tree, b: Node, comp: Compare, keys: set<nat>)
    requires TotalPreorder(comp, keys) && KeysIn(t, keys) && Ordered(t, comp) && b in Nodes(t)
    ensures Ordered(Without(t, b, comp), comp)
    ensures forall n: Node :: n.key in keys && Before(n, t, comp) ==> Before(n, Without(t, b, comp), comp)
  {
    if t.node == b {
      MergedOrdered(t.left, t.right, comp, keys);
    } else if b in Nodes(t.left) {
      WithoutOrdered(t.left, b, comp, keys);
    } else {
      WithoutOrdered(t.right, b, comp, keys);
    }
  }

  /** The root of a heap comes first. */
  lemma {:induction false} RootIsLeast(t: Tree, comp: Compare, keys: set<nat>, n: Node)
    requires TotalPreorder(comp, keys) && KeysIn(t, keys) && Ordered(t, comp) && n in Nodes(t)
    ensures comp(t.node.key, n.key) <= 0
  {
    if n != t.node {
      RootIsLeast(if n in Nodes(t.left) then t.left else t.right, comp, keys, n);
    }
  }

  // ---------- strides ----------

  const HALF := 0x8000_0000

  /** proc_stride_comp_f on two 32-bit strides. */
  function CompareStrides(p: nat, q: nat): int {
    var c := Signed(p - q);
    if c > 0 then 1 else if c == 0 then 0 else -1
  }

  /** How far stride x is ahead of w, with wrap-around. */
  function Ahead(x: nat, w: nat): nat {
    (x - w) % WORD
  }

  ghost predicate InWindow(keys: set<nat>, w: nat, len: nat) {
    forall x :: x in keys ==> x < WORD && Ahead(x, w) < len
  }

  lemma StrideOrder(x: nat, y: nat, w: nat)
    requires x < WORD && y < WORD && Ahead(x, w) < HALF && Ahead(y, w) < HALF
    ensures Signed(x - y) == Ahead(x, w) - Ahead(y, w)
  {
    assert (x - y) % WORD == (Ahead(x, w) - Ahead(y, w)) % WORD;
  }

  /** In a window of half the range, strides are ordered as if they never wrapped. */
  lemma WindowIsOrdered(keys: set<nat>, w: nat)
    requires InWindow(keys, w, HALF)
    ensures TotalPreorder(CompareStrides, keys)
    ensures forall x, y :: x in keys && y in keys ==> (CompareStrides(x, y) <= 0 <==> Ahead(x, w) <= Ahead(y, w))
  {
    forall x, y | x in keys && y in keys ensures Signed(x - y) == Ahead(x, w) - Ahead(y, w) {
      StrideOrder(x, y, w);
    }
  }

  /** In no longer window are they: both strides would come before the other. */
  lemma LongerWindowIsNot(w: nat, len: nat)
    requires w < WORD && HALF < len
    ensures var keys := {w, (w + HALF) % WORD}; InWindow(keys, w, len) && !TotalPreorder(CompareStrides, keys)
  {
    var v := (w + HALF) % WORD;
    assert CompareStrides(w, v) == -1 && CompareStrides(v, w) == -1;
    assert Ahead(w, w) == 0 && Ahead(v, w) == HALF;
  }

  lemma {:induction false} LeastKey(keys: set<nat>, comp: Compare) returns (w: nat)
    requires keys != {} && TotalPreorder(comp, keys)
    ensures w in keys && forall x :: x in keys ==> comp(w, x) <= 0
    decreases |keys|
  {
    w :| w in keys;
    var rest := keys - {w};
    if rest != {} {
      var v := LeastKey(rest, comp);
      if comp(v, w) <= 0 {
        w := v;
      }
    }
  }

  /** A stride that does not come after x, and x does not come before it, is less than
      half the range behind it. */
  lemma LessThanHalf(w: nat, x: nat)
    requires w < WORD && x < WORD && CompareStrides(w, x) <= 0 && (CompareStrides(w, x) < 0 ==> CompareStrides(x, w) > 0)
    ensures Ahead(x, w) < HALF
  {
    assert (w - x) % WORD == if w >= x then w - x else w - x + WORD;
    assert (x - w) % WORD == if x >= w then x - w else x - w + WORD;
  }

  /** A set of strides is ordered exactly if it lies in some window of half the range. */
  lemma OrderedInWindow(keys: set<nat>)
    requires keys != {} && forall x :: x in keys ==> x < WORD
    ensures TotalPreorder(CompareStrides, keys) <==> exists w: nat :: InWindow(keys, w, HALF)
  {
    if TotalPreorder(CompareStrides, keys) {
      var w := LeastKey(keys, CompareStrides);
      forall x | x in keys ensures Ahead(x, w) < HALF {
        LessThanHalf(w, x);
      }
      assert InWindow(keys, w, HALF);
    }
    if w: nat :| InWindow(keys, w, HALF) {
      WindowIsOrdered(keys, w);
    }
  }

  /** The root of the run queue has the stride that is least far ahead. */
  lemma RootHasLeastStride(t: Tree, keys: set<nat>, w: nat, n: Node)
    requires InWindow(keys, w, HALF) && KeysIn(t, keys) && Ordered(t, CompareStrides) && n in Nodes(t)
    ensures Ahead(t.node.key, w) <= Ahead(n.key, w)
  {
    WindowIsOrdered(keys, w);
    RootIsLeast(t, CompareStrides, keys, n);
    assert t.node.key in keys && n.key in keys;
  }
}
