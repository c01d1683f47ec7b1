/** Red-black trees as values: shapes, contexts (a tree with one hole), in-order sequences and
    the colour rules.  The pointer code in RbTree.dfy is proved against these. */
module RbShape {

  /** Address of an arena node; 0 is the null pointer. */
  type Ptr = nat
  const NULL: Ptr := 0

  datatype Color = Red | Black

  /** Which child.  The C file writes each rebalancing step twice, once per side. */
  datatype Side = Left | Right {
    function Other(): Side { if this == Left then Right else Left }
  }

  datatype Tree = Leaf | Node(color: Color, left: Tree, id: Ptr, right: Tree) {
    function Top(): Ptr { if Leaf? then NULL else id }
    function Kid(d: Side): Tree
      requires Node?
    { if d == Left then left else right }
    predicate IsRed() { Node? && color == Red }
  }

  /** A node whose `d` subtree is `a` and whose other subtree is `b`. */
  function Mk(d: Side, c: Color, a: Tree, id: Ptr, b: Tree): Tree {
    if d == Left then Node(c, a, id, b) else Node(c, b, id, a)
  }

  /** Path from a hole up to the root; `sib` is the subtree on the side the path does not take. */
  datatype Ctx = Root | Step(d: Side, color: Color, id: Ptr, sib: Tree, up: Ctx) {
    function Parent(): Ptr { if Root? then NULL else id }
    ghost function Depth(): nat { if Root? then 0 else 1 + up.Depth() }
  }

  function Plug(k: Ctx, t: Tree): Tree
    decreases k
  {
    match k
    case Root => t
    case Step(d, c, id, sib, up) => Plug(up, Mk(d, c, t, id, sib))
  }

  function InOrder(t: Tree): seq<Ptr> {
    match t
    case Leaf => []
    case Node(_, l, id, r) => InOrder(l) + [id] + InOrder(r)
  }

  /** The part of the in-order sequence before (after) the hole. */
  function Before(k: Ctx): seq<Ptr> {
    match k
    case Root => []
    case Step(d, _, id, sib, up) => Before(up) + if d == Left then [] else InOrder(sib) + [id]
  }

  function After(k: Ctx): seq<Ptr> {
    match k
    case Root => []
    case Step(d, _, id, sib, up) => (if d == Left then [id] + InOrder(sib) else []) + After(up)
  }

  lemma {:induction false} PlugInOrder(k: Ctx, t: Tree)
    ensures InOrder(Plug(k, t)) == Before(k) + InOrder(t) + After(k)
  {
    if k == Root {
    } else {
      PlugInOrder(k.up, Mk(k.d, k.color, t, k.id, k.sib));
    }
  }

  /** The context that goes down `k` first and then, inside its hole, down `inner`. */
  function Append(inner: Ctx, k: Ctx): Ctx {
    match inner
    case Root => k
    case Step(d, c, id, sib, up) => Step(d, c, id, sib, Append(up, k))
  }

  lemma {:induction false} PlugAppend(inner: Ctx, k: Ctx, t: Tree)
    ensures Plug(Append(inner, k), t) == Plug(k, Plug(inner, t))
    decreases inner
  {
    if inner == Root {
    } else {
      PlugAppend(inner.up, k, Mk(inner.d, inner.color, t, inner.id, inner.sib));
    }
  }

  /** A path that only turns to side `d`, so that nothing lies beyond its hole on that side. */
  predicate AllTurn(k: Ctx, d: Side) { k.Step? ==> k.d == d && AllTurn(k.up, d) }

  lemma {:induction false} AllLeftBefore(k: Ctx)
    requires AllTurn(k, Left)
    ensures Before(k) == []
  {
    if k == Root {
    } else {
      AllLeftBefore(k.up);
    }
  }

  /** The first (Left) or last (Right) node of a tree. */
  function Extreme(d: Side, t: Tree): Ptr
    requires t.Node?
  {
    if t.Kid(d).Leaf? then t.id else Extreme(d, t.Kid(d))
  }

  lemma {:induction false} ExtremeInOrder(d: Side, t: Tree)
    requires t.Node?
    ensures InOrder(t) != []
    ensures Extreme(d, t) == if d == Left then InOrder(t)[0] else InOrder(t)[|InOrder(t)| - 1]
  {
    if t.Kid(d).Node? { ExtremeInOrder(d, t.Kid(d)); }
  }

  /** The element next to `x` in `s`, after it (Right) or before it (Left); NULL at the end. */
  function Beside(d: Side, s: seq<Ptr>, x: Ptr): Ptr {
    if |s| < 2 then NULL
    else if d == Right && s[0] == x then s[1]
    else if d == Left && s[1] == x then s[0]
    else Beside(d, s[1..], x)
  }

  lemma {:induction false} BesideMiddle(d: Side, a: seq<Ptr>, x: Ptr, b: seq<Ptr>)
    requires x !in a && x !in b
    ensures d == Right ==> Beside(d, a + [x] + b, x) == if b == [] then NULL else b[0]
    ensures d == Left ==> Beside(d, a + [x] + b, x) == if a == [] then NULL else a[|a| - 1]
  {
    var s := a + [x] + b;
    if a == [] {
      assert s == [x] + b;
      if b != [] { assert s[1..] == b; BesideAbsent(d, b, x); }
    } else {
      assert s[1..] == a[1..] + [x] + b;
      BesideMiddle(d, a[1..], x, b);
    }
  }

  lemma {:induction false} BesideAbsent(d: Side, s: seq<Ptr>, x: Ptr)
    requires x !in s
    ensures Beside(d, s, x) == NULL
  {
    if |s| >= 2 { BesideAbsent(d, s[1..], x); }
  }

  /** Sequence `s` without its first occurrence of `x`. */
  function Without(s: seq<Ptr>, x: Ptr): seq<Ptr> {
    if s == [] then [] else if s[0] == x then s[1..] else [s[0]] + Without(s[1..], x)
  }

  lemma {:induction false} WithoutMiddle(a: seq<Ptr>, x: Ptr, b: seq<Ptr>)
    requires x !in a
    ensures Without(a + [x] + b, x) == a + b
  {
    if a == [] {
      assert a + [x] + b == [x] + b && a + b == b;
    } else {
      WithoutMiddle(a[1..], x, b);
      assert (a + [x] + b)[1..] == a[1..] + [x] + b;
      assert a + b == [a[0]] + (a[1..] + b);
    }
  }

  lemma {:induction false} BeforeIds(k: Ctx, x: Ptr)
    requires x in Before(k)
    ensures x in CtxIds(k)
  {
    if x !in Before(k.up) { InOrderIds(k.sib, x); } else { BeforeIds(k.up, x); }
  }

  lemma {:induction false} AfterIds(k: Ctx, x: Ptr)
    requires x in After(k)
    ensures x in CtxIds(k)
  {
    if x !in After(k.up) { InOrderIds(k.sib, x); } else { AfterIds(k.up, x); }
  }

  // ---- node sets and distinctness ----

  ghost function Ids(t: Tree): set<Ptr> {
    match t
    case Leaf => {}
    case Node(_, l, id, r) => Ids(l) + {id} + Ids(r)
  }

  ghost function CtxIds(k: Ctx): set<Ptr> {
    match k
    case Root => {}
    case Step(_, _, id, sib, up) => {id} + Ids(sib) + CtxIds(up)
  }

  ghost predicate Distinct(t: Tree) {
    match t
    case Leaf => true
    case Node(_, l, id, r) =>
      id !in Ids(l) && id !in Ids(r) && Ids(l) !! Ids(r) && Distinct(l) && Distinct(r)
  }

  ghost predicate CtxDistinct(k: Ctx) {
    match k
    case Root => true
    case Step(_, _, id, sib, up) =>
      id !in Ids(sib) && id !in CtxIds(up) && Ids(sib) !! CtxIds(up) && Distinct(sib) && CtxDistinct(up)
  }

  lemma {:induction false} PlugIds(k: Ctx, t: Tree)
    ensures Ids(Plug(k, t)) == CtxIds(k) + Ids(t)
    ensures Distinct(Plug(k, t)) <==> CtxDistinct(k) && Distinct(t) && CtxIds(k) !! Ids(t)
    decreases k
  {
    if k == Root {
    } else {
      PlugIds(k.up, Mk(k.d, k.color, t, k.id, k.sib));
    }
  }

  lemma {:induction false} InOrderIds(t: Tree, x: Ptr)
    ensures x in InOrder(t) <==> x in Ids(t)
  {
    if t == Leaf {
    } else {
      InOrderIds(t.left, x);
      InOrderIds(t.right, x);
    }
  }

  /** Distinct node sets are the same thing as an in-order sequence without repetition. */
  lemma {:induction false} DistinctNoRepeat(t: Tree)
    requires Distinct(t)
    ensures forall i, j :: 0 <= i < j < |InOrder(t)| ==> InOrder(t)[i] != InOrder(t)[j]
  {
    if t == Leaf {
    } else {
      DistinctNoRepeat(t.left);
      DistinctNoRepeat(t.right);
      var l, r := InOrder(t.left), InOrder(t.right);
      forall i, j | 0 <= i < j < |InOrder(t)| ensures InOrder(t)[i] != InOrder(t)[j] {
        InOrderIds(t.left, InOrder(t)[i]);
        InOrderIds(t.right, InOrder(t)[j]);
        InOrderIds(t.left, t.id);
        InOrderIds(t.right, t.id);
      }
    }
  }

  /** Every node of a tree is the top of the subtree at some hole. */
  lemma {:induction false} Locate(k: Ctx, t: Tree, x: Ptr) returns (k': Ctx, s: Tree)
    requires x in Ids(t)
    ensures s.Node? && s.id == x && Plug(k', s) == Plug(k, t)
    decreases t
  {
    if t.id == x {
      k', s := k, t;
    } else if x in Ids(t.left) {
      k', s := Locate(Step(Left, t.color, t.id, t.right, k), t.left, x);
    } else {
      k', s := Locate(Step(Right, t.color, t.id, t.left, k), t.right, x);
    }
  }

  // ---- colour rules ----

  /** `t` has black height `h` on every path and no red node has a red child. */
  ghost predicate Balanced(t: Tree, h: nat) {
    match t
    case Leaf => h == 0
    case Node(Black, l, _, r) => h > 0 && Balanced(l, h - 1) && Balanced(r, h - 1)
    case Node(Red, l, _, r) => !l.IsRed() && !r.IsRed() && Balanced(l, h) && Balanced(r, h)
  }

  /** Plugging any tree of black height `h` that is black, or red below a black node, keeps the rules. */
  ghost predicate CtxBalanced(k: Ctx, h: nat)
    decreases k
  {
    match k
    case Root => true
    case Step(_, Black, _, sib, up) => Balanced(sib, h) && CtxBalanced(up, h + 1)
    case Step(_, Red, _, sib, up) =>
      !sib.IsRed() && Balanced(sib, h) && up.Step? && up.color == Black && CtxBalanced(up, h)
  }

  /** The red-black invariant: black top, equal black heights, no red child of a red node. */
  ghost predicate RedBlack(t: Tree) {
    !t.IsRed() && exists h: nat :: Balanced(t, h)
  }

  lemma {:induction false} PlugBalanced(k: Ctx, t: Tree, h: nat)
    requires Balanced(t, h) && CtxBalanced(k, h)
    requires t.IsRed() ==> k.Step? && k.color == Black
    ensures RedBlack(Plug(k, t))
    decreases k
  {
    match k
    case Root =>
    case Step(d, c, id, sib, up) =>
      var t' := Mk(d, c, t, id, sib);
      var h' := if c == Black then h + 1 else h;
      assert Balanced(t', h');
      PlugBalanced(up, t', h');
  }

  lemma {:induction false} UnplugBalanced(k: Ctx, t: Tree, hh: nat) returns (h: nat)
    requires Balanced(Plug(k, t), hh) && !Plug(k, t).IsRed()
    ensures Balanced(t, h) && CtxBalanced(k, h)
    ensures t.IsRed() ==> k.Step? && k.color == Black
    decreases k
  {
    match k
    case Root => h := hh;
    case Step(d, c, id, sib, up) =>
      h := UnplugBalanced(up, Mk(d, c, t, id, sib), hh);
      if c == Black { h := h - 1; }
  }

  /** The colour rules of a context do not depend on which node sits at its bottom turn. */
  lemma {:induction false} RenameBalanced(inner: Ctx, d: Side, c: Color, x: Ptr, y: Ptr, sib: Tree, k: Ctx, h: nat)
    requires CtxBalanced(Append(inner, Step(d, c, x, sib, k)), h)
    ensures CtxBalanced(Append(inner, Step(d, c, y, sib, k)), h)
    decreases inner
  {
    if inner == Root {
    } else {
      RenameBalanced(inner.up, d, c, x, y, sib, k, if inner.color == Black then h + 1 else h);
    }
  }

  // ---- logarithmic height ----

  function Height(t: Tree): nat {
    match t
    case Leaf => 0
    case Node(_, l, _, r) => 1 + if Height(l) > Height(r) then Height(l) else Height(r)
  }

  function Pow2(n: nat): nat { if n == 0 then 1 else 2 * Pow2(n - 1) }

  lemma {:induction false} BalancedSize(t: Tree, h: nat)
    requires Balanced(t, h)
    ensures |InOrder(t)| + 1 >= Pow2(h)
    ensures Height(t) <= 2 * h + if t.IsRed() then 1 else 0
  {
    match t
    case Leaf =>
    case Node(c, l, _, r) =>
      var k := if c == Black then h - 1 else h;
      BalancedSize(l, k);
      BalancedSize(r, k);
  }

  lemma {:induction false} Pow2Monotone(a: nat, b: nat)
    requires a <= b
    ensures Pow2(a) <= Pow2(b)
    decreases b
  {
    if a == b {
    } else {
      Pow2Monotone(a, b - 1);
    }
  }

  /** Height is at most 2*log2(n+1): 2^(height/2) <= n+1, rounding the exponent up. */
  lemma LogarithmicHeight(t: Tree)
    requires RedBlack(t)
    ensures Pow2((Height(t) + 1) / 2) <= |InOrder(t)| + 1
  {
    var h: nat :| Balanced(t, h);
    BalancedSize(t, h);
    Pow2Monotone((Height(t) + 1) / 2, h);
  }
}
