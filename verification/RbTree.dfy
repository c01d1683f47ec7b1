/** The red-black tree of src/common/rbtree.c: nodes linked by parent and child addresses, recoloured and
    rotated in place.  The arena `nodes` plays the heap; ghost shapes say what each tree in it looks like. */
module RbTree {
  import opened RbShape

  datatype Rec = Rec(parent: Ptr, color: Color, left: Ptr, right: Ptr) {
    function Child(d: Side): Ptr { if d == Left then left else right }
    function WithChild(d: Side, p: Ptr): Rec {
      if d == Left then this.(left := p) else this.(right := p)
    }
  }

  type Heap = map<Ptr, Rec>

  // ---- what it means for the heap to hold a shape ----

  /** Address `p`, whose parent field must say `par`, is the top of shape `t`. */
  ghost predicate Holds(h: Heap, p: Ptr, par: Ptr, t: Tree)
    decreases t
  {
    match t
    case Leaf => p == NULL
    case Node(c, l, id, r) =>
      p == id && id != NULL && id in h && h[id].parent == par && h[id].color == c &&
      Holds(h, h[id].left, id, l) && Holds(h, h[id].right, id, r)
  }

  /** The nodes of context `k` are linked as `k` says, down to the address `hole`. */
  ghost predicate HoldsCtx(h: Heap, root: Ptr, hole: Ptr, k: Ctx)
    decreases k
  {
    match k
    case Root => root == hole
    case Step(d, c, id, sib, up) =>
      id != NULL && id in h && h[id].color == c && h[id].parent == up.Parent() && h[id].Child(d) == hole &&
      Holds(h, h[id].Child(d.Other()), id, sib) && HoldsCtx(h, root, id, up)
  }

  ghost predicate IsTree(h: Heap, root: Ptr, t: Tree) {
    NULL !in h && Holds(h, root, NULL, t) && Distinct(t)
  }

  /** Heaps with the same addresses that may differ only on `s`. */
  ghost predicate SameOutside(h: Heap, h': Heap, s: set<Ptr>) {
    h.Keys == h'.Keys && forall p :: p in h && p !in s ==> h'[p] == h[p]
  }

  lemma {:induction false} HoldsFrame(h: Heap, h': Heap, p: Ptr, par: Ptr, t: Tree)
    requires Holds(h, p, par, t)
    requires forall x :: x in Ids(t) ==> x in h && x in h' && h'[x] == h[x]
    ensures Holds(h', p, par, t)
    decreases t
  {
    if t == Leaf {
    } else {
      HoldsFrame(h, h', h[p].left, p, t.left);
      HoldsFrame(h, h', h[p].right, p, t.right);
    }
  }

  lemma {:induction false} HoldsCtxFrame(h: Heap, h': Heap, root: Ptr, hole: Ptr, k: Ctx)
    requires HoldsCtx(h, root, hole, k)
    requires forall x :: x in CtxIds(k) ==> x in h && x in h' && h'[x] == h[x]
    ensures HoldsCtx(h', root, hole, k)
    decreases k
  {
    if k == Root {
    } else {
      HoldsFrame(h, h', h[k.id].Child(k.d.Other()), k.id, k.sib);
      HoldsCtxFrame(h, h', root, k.id, k.up);
    }
  }

  lemma {:induction false} HoldsIds(h: Heap, p: Ptr, par: Ptr, t: Tree)
    requires Holds(h, p, par, t)
    ensures p == t.Top() && NULL !in Ids(t) && Ids(t) <= h.Keys
    decreases t
  {
    if t == Leaf {
    } else {
      HoldsIds(h, h[p].left, p, t.left);
      HoldsIds(h, h[p].right, p, t.right);
    }
  }

  lemma {:induction false} HoldsCtxIds(h: Heap, root: Ptr, hole: Ptr, k: Ctx)
    requires HoldsCtx(h, root, hole, k)
    ensures NULL !in CtxIds(k) && CtxIds(k) <= h.Keys
    decreases k
  {
    if k == Root {
    } else {
      HoldsIds(h, h[k.id].Child(k.d.Other()), k.id, k.sib);
      HoldsCtxIds(h, root, k.id, k.up);
    }
  }

  /** What it takes for the heap to hold `Mk(d, c, a, id, b)` below `par`, side by side. */
  lemma {:induction false} MkSplit(h: Heap, par: Ptr, d: Side, c: Color, a: Tree, id: Ptr, b: Tree)
    requires Holds(h, id, par, Mk(d, c, a, id, b)) && Distinct(Mk(d, c, a, id, b))
    ensures id != NULL && id in h && h[id].parent == par && h[id].color == c
    ensures h[id].Child(d) == a.Top() && Holds(h, a.Top(), id, a)
    ensures h[id].Child(d.Other()) == b.Top() && Holds(h, b.Top(), id, b)
    ensures Distinct(a) && Distinct(b) && id !in Ids(a) && id !in Ids(b) && Ids(a) !! Ids(b)
    ensures NULL !in Ids(a) && NULL !in Ids(b) && Ids(a) + Ids(b) <= h.Keys
    ensures Ids(Mk(d, c, a, id, b)) == Ids(a) + {id} + Ids(b)
  {
    HoldsIds(h, h[id].Child(d), id, a);
    HoldsIds(h, h[id].Child(d.Other()), id, b);
  }

  lemma {:induction false} MkJoin(h: Heap, par: Ptr, d: Side, c: Color, a: Tree, id: Ptr, b: Tree)
    requires id != NULL && id in h && h[id].parent == par && h[id].color == c
    requires h[id].Child(d) == a.Top() && Holds(h, a.Top(), id, a)
    requires h[id].Child(d.Other()) == b.Top() && Holds(h, b.Top(), id, b)
    requires Distinct(a) && Distinct(b) && id !in Ids(a) && id !in Ids(b) && Ids(a) !! Ids(b)
    ensures Holds(h, id, par, Mk(d, c, a, id, b)) && Distinct(Mk(d, c, a, id, b))
    ensures Ids(Mk(d, c, a, id, b)) == Ids(a) + {id} + Ids(b)
  {
  }

  /** The context and the subtree of a heap tree, seen apart. */
  ghost predicate Apart(h: Heap, root: Ptr, k: Ctx, t: Tree) {
    && HoldsCtx(h, root, t.Top(), k) && Holds(h, t.Top(), k.Parent(), t)
    && CtxDistinct(k) && Distinct(t) && CtxIds(k) !! Ids(t)
    && NULL !in h && CtxIds(k) <= h.Keys && Ids(t) <= h.Keys
  }

  lemma {:induction false} Split(h: Heap, root: Ptr, k: Ctx, t: Tree)
    requires IsTree(h, root, Plug(k, t))
    ensures Apart(h, root, k, t)
    decreases k
  {
    PlugIds(k, t);
    if k.Root? {
      HoldsIds(h, root, NULL, t);
    } else {
      Split(h, root, k.up, Mk(k.d, k.color, t, k.id, k.sib));
      HoldsIds(h, h[k.id].Child(k.d), k.id, t);
      HoldsIds(h, h[k.id].Child(k.d.Other()), k.id, k.sib);
    }
  }

  lemma {:induction false} Join(h: Heap, root: Ptr, k: Ctx, t: Tree)
    requires HoldsCtx(h, root, t.Top(), k) && Holds(h, t.Top(), k.Parent(), t)
    requires CtxDistinct(k) && Distinct(t) && CtxIds(k) !! Ids(t) && NULL !in h
    ensures IsTree(h, root, Plug(k, t))
    decreases k
  {
    if k == Root {
    } else {
      Join(h, root, k.up, Mk(k.d, k.color, t, k.id, k.sib));
    }
  }

  class Arena {
    var nodes: Heap

    constructor (addresses: set<Ptr>)
      requires NULL !in addresses
      ensures nodes.Keys == addresses
      ensures forall p :: p in nodes ==> nodes[p] == Rec(p, Black, NULL, NULL)
    {
      nodes := map p | p in addresses :: Rec(p, Black, NULL, NULL);
    }

    // ---- single-field stores ----

    method SetColor(p: Ptr, c: Color, ghost root: Ptr, ghost k: Ctx, ghost t: Tree)
      requires t.Node? && t.id == p && IsTree(nodes, root, Plug(k, t))
      modifies this
      ensures IsTree(nodes, root, Plug(k, t.(color := c)))
      ensures p in old(nodes) && nodes == old(nodes)[p := old(nodes)[p].(color := c)]
    {
      Split(nodes, root, k, t);
      ghost var h := nodes;
      nodes := nodes[p := nodes[p].(color := c)];
      HoldsFrame(h, nodes, h[p].left, p, t.left);
      HoldsFrame(h, nodes, h[p].right, p, t.right);
      HoldsCtxFrame(h, nodes, root, p, k);
      Join(nodes, root, k, t.(color := c));
    }

    method SetParent(p: Ptr, q: Ptr)
      requires p in nodes
      modifies this
      ensures nodes == old(nodes)[p := old(nodes)[p].(parent := q)]
    {
      nodes := nodes[p := nodes[p].(parent := q)];
    }

    method SetChild(p: Ptr, d: Side, q: Ptr)
      requires p in nodes
      modifies this
      ensures nodes == old(nodes)[p := old(nodes)[p].WithChild(d, q)]
    {
      nodes := nodes[p := nodes[p].WithChild(d, q)];
    }

    /** _rb_rotate_left for d == Left, _rb_rotate_right for d == Right: `node` goes down on side `d`. */
    method RotateLinks(d: Side, node: Ptr, root: Ptr) returns (root': Ptr)
      requires node in nodes && nodes[node].Child(d.Other()) in nodes
      requires var right := nodes[node].Child(d.Other());
               var inner := nodes[right].Child(d);
               && inner in nodes.Keys + {NULL} && nodes[node].parent in nodes.Keys + {NULL}
               && NULL !in nodes && node != right && inner !in {node, right}
               && nodes[node].parent !in {node, right} && (inner != NULL ==> nodes[node].parent != inner)
      modifies this
      ensures RotatedLinks(old(nodes), nodes, d, node, root, root')
    {
      var right := nodes[node].Child(d.Other());
      var parent := nodes[node].parent;
      var inner := nodes[right].Child(d);
      SetChild(node, d.Other(), inner);
      if inner != NULL {
        SetParent(inner, node);
      }
      SetChild(right, d, node);
      SetParent(right, parent);
      root' := root;
      if parent != NULL {
        if node == nodes[parent].Child(d) {
          SetChild(parent, d, right);
        } else {
          SetChild(parent, d.Other(), right);
        }
      } else {
        root' := right;
      }
      SetParent(node, right);
    }

    method Rotate(d: Side, node: Ptr, root: Ptr, ghost k: Ctx,
                  ghost c: Color, ghost a: Tree, ghost sc: Color, ghost b: Tree, ghost sid: Ptr, ghost e: Tree)
      returns (root': Ptr)
      requires IsTree(nodes, root, Plug(k, Mk(d, c, a, node, Mk(d, sc, b, sid, e))))
      modifies this
      ensures IsTree(nodes, root', Plug(k, Mk(d, sc, Mk(d, c, a, node, b), sid, e)))
      ensures SameOutside(old(nodes), nodes, Ids(Plug(k, Mk(d, c, a, node, Mk(d, sc, b, sid, e)))))
    {
      ghost var h := nodes;
      RotatePieces(h, root, d, k, c, a, node, sc, b, sid, e);
      root' := RotateLinks(d, node, root);
      RotatedTree(h, nodes, root, root', d, k, c, a, node, sc, b, sid, e);
    }

    // ---- insertion ----

    /** Red uncle: the grandparent takes the red colour over from its two children. */
    method PushRed(uncle: Ptr, parent: Ptr, gparent: Ptr, ghost root: Ptr, ghost k: Ctx, ghost d: Side,
                   ghost p: Tree, ghost u: Tree)
      requires p.Node? && p.id == parent && u.Node? && u.id == uncle
      requires IsTree(nodes, root, Plug(k, Mk(d, Black, p, gparent, u)))
      modifies this
      ensures IsTree(nodes, root, Plug(k, Mk(d, Red, p.(color := Black), gparent, u.(color := Black))))
      ensures SameOutside(old(nodes), nodes, Ids(Plug(k, Mk(d, Black, p, gparent, u))))
    {
      PlugIds(k, Mk(d, Black, p, gparent, u));
      SetColor(uncle, Black, root, Step(d.Other(), Black, gparent, p, k), u);
      SetColor(parent, Black, root, Step(d, Black, gparent, u.(color := Black), k), p);
      SetColor(gparent, Red, root, k, Mk(d, Black, p.(color := Black), gparent, u.(color := Black)));
    }

    /** Black uncle: the parent takes the grandparent's place and colour. */
    method RotateGrandparent(d: Side, parent: Ptr, gparent: Ptr, root: Ptr, ghost k: Ctx,
                             ghost s: Tree, ghost sib: Tree, ghost u: Tree) returns (root': Ptr)
      requires IsTree(nodes, root, Plug(k, Mk(d, Black, Mk(d, Red, s, parent, sib), gparent, u)))
      modifies this
      ensures IsTree(nodes, root', Plug(k, Mk(d, Black, s, parent, Mk(d, Red, sib, gparent, u))))
      ensures SameOutside(old(nodes), nodes, Ids(Plug(k, Mk(d, Black, Mk(d, Red, s, parent, sib), gparent, u))))
    {
      PlugIds(k, Mk(d, Black, Mk(d, Red, s, parent, sib), gparent, u));
      PlugIds(k, Mk(d, Red, Mk(d, Black, s, parent, sib), gparent, u));
      SetColor(parent, Black, root, Step(d, Black, gparent, u, k), Mk(d, Red, s, parent, sib));
      SetColor(gparent, Red, root, k, Mk(d, Black, Mk(d, Black, s, parent, sib), gparent, u));
      root' := Rotate(d.Other(), gparent, root, k, Red, u, Black, sib, parent, s);
    }

    /** Turns a red inner grandchild into a red outer one. */
    method RotateParent(d: Side, node: Ptr, parent: Ptr, root: Ptr, ghost g: Ctx, ghost s: Tree, ghost sib: Tree,
                        ghost hb: nat) returns (root': Ptr, ghost s': Tree, ghost sib': Tree)
      requires s.IsRed() && s.id == node && IsTree(nodes, root, Plug(g, Mk(d, Red, sib, parent, s)))
      requires Balanced(s, hb) && Balanced(sib, hb) && !sib.IsRed()
      modifies this
      ensures IsTree(nodes, root', Plug(g, Mk(d, Red, s', node, sib')))
      ensures s'.IsRed() && s'.id == parent && Balanced(s', hb) && Balanced(sib', hb) && !sib'.IsRed()
      ensures InOrder(Plug(g, Mk(d, Red, s', node, sib'))) == InOrder(Plug(g, Mk(d, Red, sib, parent, s)))
      ensures Ids(Plug(g, Mk(d, Red, s', node, sib'))) == Ids(Plug(g, Mk(d, Red, sib, parent, s)))
      ensures SameOutside(old(nodes), nodes, Ids(Plug(g, Mk(d, Red, sib, parent, s))))
    {
      ghost var a, b := s.Kid(d), s.Kid(d.Other());
      root' := Rotate(d, parent, root, g, Red, sib, Red, a, node, b);
      s', sib' := Mk(d, Red, sib, parent, a), b;
      RotateSame(g, d, Red, Red, sib, parent, Red, Red, a, node, b);
    }

    /** One round of the insertion loop with a black uncle; the new top `node'` has a black parent. */
    method RotateRedUp(d: Side, node: Ptr, parent: Ptr, gparent: Ptr, root: Ptr,
                       ghost k: Ctx, ghost s: Tree, ghost hb: nat)
      returns (node': Ptr, root': Ptr, ghost k': Ctx, ghost s': Tree)
      requires InsertInv(nodes, root, node, k, s, hb) && k.Step? && k.color == Red && !k.up.sib.IsRed()
      requires parent == k.id && gparent == k.up.id && d == k.up.d
      modifies this
      ensures InsertInv(nodes, root', node', k', s', hb) && k'.Depth() < k.Depth()
      ensures InOrder(Plug(k', s')) == InOrder(Plug(k, s)) && Ids(Plug(k', s')) == Ids(Plug(k, s))
      ensures SameOutside(old(nodes), nodes, Ids(Plug(k, s)))
    {
      var parent' := parent;
      node', root' := node, root;
      RedParent(k, s, hb);
      ghost var sib, u, up := k.sib, k.up.sib, k.up.up;
      ghost var g := Step(d, Black, gparent, u, up);
      s' := s;
      if nodes[parent].Child(d.Other()) == node {
        root', s', sib := RotateParent(d, node, parent, root, g, s, sib, hb);
        parent', node' := node, parent;
      }
      assert Plug(g, Mk(d, Red, s', parent', sib)) == Plug(up, Mk(d, Black, Mk(d, Red, s', parent', sib), gparent, u));
      root' := RotateGrandparent(d, parent', gparent, root', up, s', sib, u);
      ghost var t := Mk(d, Red, sib, gparent, u);
      RotateSame(up, d, Black, Red, s', parent', Red, Black, sib, gparent, u);
      k' := Step(d, Black, parent', t, up);
      InsertView(nodes, root', k', s', hb);
    }

    /** One round of the insertion loop with a red uncle: continue two levels up. */
    method PushRedUp(d: Side, uncle: Ptr, parent: Ptr, gparent: Ptr, ghost node: Ptr, ghost root: Ptr,
                     ghost k: Ctx, ghost s: Tree, ghost hb: nat) returns (ghost k': Ctx, ghost s': Tree)
      requires InsertInv(nodes, root, node, k, s, hb) && k.Step? && k.color == Red && k.up.sib.IsRed()
      requires uncle == k.up.sib.id && parent == k.id && gparent == k.up.id && d == k.up.d
      modifies this
      ensures InsertInv(nodes, root, gparent, k', s', hb + 1) && k'.Depth() < k.Depth()
      ensures InOrder(Plug(k', s')) == InOrder(Plug(k, s)) && Ids(Plug(k', s')) == Ids(Plug(k, s))
      ensures SameOutside(old(nodes), nodes, Ids(Plug(k, s)))
    {
      RedParent(k, s, hb);
      ghost var p, u := Mk(k.d, Red, s, parent, k.sib), k.up.sib;
      k', s' := k.up.up, Mk(d, Red, p.(color := Black), gparent, u.(color := Black));
      PushRed(uncle, parent, gparent, root, k', d, p, u);
      PlugSame(k', Mk(d, Black, p, gparent, u), s');
      InsertView(nodes, root, k', s', hb + 1);
    }

    /** Restores the colour rules after the red node `node0` was linked at hole `k0`. */
    method InsertColor(node0: Ptr, root0: Ptr, ghost k0: Ctx, ghost t0: Tree, ghost h0: nat)
      returns (root: Ptr, ghost t: Tree)
      requires IsTree(nodes, root0, Plug(k0, t0)) && t0.IsRed() && t0.id == node0
      requires Balanced(t0, h0) && CtxBalanced(k0, h0)
      modifies this
      ensures IsTree(nodes, root, t) && RedBlack(t) && InOrder(t) == InOrder(Plug(k0, t0))
      ensures SameOutside(old(nodes), nodes, Ids(Plug(k0, t0)))
    {
      var node := node0;
      root := root0;
      ghost var k, s, hb := k0, t0, h0;
      InsertView(nodes, root, k, s, hb);
      while nodes[node].parent != NULL && nodes[nodes[node].parent].color == Red
        invariant InsertInv(nodes, root, node, k, s, hb)
        invariant InOrder(Plug(k, s)) == InOrder(Plug(k0, t0)) && Ids(Plug(k, s)) == Ids(Plug(k0, t0))
        invariant SameOutside(old(nodes), nodes, Ids(Plug(k0, t0)))
        decreases k.Depth()
      {
        var parent := nodes[node].parent;
        var gparent := nodes[parent].parent;
        var d := if parent == nodes[gparent].left then Left else Right;
        var uncle := nodes[gparent].Child(d.Other());
        if uncle != NULL && nodes[uncle].color == Red {
          k, s := PushRedUp(d, uncle, parent, gparent, node, root, k, s, hb);
          node, hb := gparent, hb + 1;
          continue;
        }
        node, root, k, s := RotateRedUp(d, node, parent, gparent, root, k, s, hb);
      }
      t := Plug(k, s);
      if k.Step? { PlugBalanced(k, s, hb); }
      PlugIds(k, s);
      RootHeld(nodes, root, t, Ids(Plug(k0, t0)));
      SetColor(root, Black, root, Root, t);
      t := t.(color := Black);
      if k.Root? { PlugBalanced(k, t, hb + 1); }
    }

    // ---- erasure ----

    /** Red sibling: rotate it above the parent, so that the hole gets a black sibling. */
    method RotateRedSibling(d: Side, other: Ptr, parent: Ptr, root: Ptr, ghost k: Ctx,
                            ghost t: Tree, ghost sl: Tree, ghost sr: Tree) returns (root': Ptr)
      requires IsTree(nodes, root, Plug(k, Mk(d, Black, t, parent, Mk(d, Red, sl, other, sr))))
      modifies this
      ensures IsTree(nodes, root', Plug(k, Mk(d, Black, Mk(d, Red, t, parent, sl), other, sr)))
      ensures SameOutside(old(nodes), nodes, Ids(Plug(k, Mk(d, Black, t, parent, Mk(d, Red, sl, other, sr)))))
    {
      PlugIds(k, Mk(d, Black, t, parent, Mk(d, Red, sl, other, sr)));
      PlugIds(k, Mk(d, Red, t, parent, Mk(d, Black, sl, other, sr)));
      SetColor(other, Black, root, Step(d.Other(), Black, parent, t, k), Mk(d, Red, sl, other, sr));
      SetColor(parent, Red, root, k, Mk(d, Black, t, parent, Mk(d, Black, sl, other, sr)));
      root' := Rotate(d, parent, root, k, Red, t, Black, sl, other, sr);
    }

    /** Red near nephew, black far nephew: rotate the nephew above the sibling. */
    method RotateNearNephew(d: Side, near: Ptr, other: Ptr, root: Ptr, ghost k: Ctx,
                            ghost na: Tree, ghost nb: Tree, ghost far: Tree) returns (root': Ptr)
      requires IsTree(nodes, root, Plug(k, Mk(d, Black, Mk(d, Red, na, near, nb), other, far)))
      modifies this
      ensures IsTree(nodes, root', Plug(k, Mk(d, Black, na, near, Mk(d, Red, nb, other, far))))
      ensures SameOutside(old(nodes), nodes, Ids(Plug(k, Mk(d, Black, Mk(d, Red, na, near, nb), other, far))))
    {
      PlugIds(k, Mk(d, Black, Mk(d, Red, na, near, nb), other, far));
      PlugIds(k, Mk(d, Red, Mk(d, Black, na, near, nb), other, far));
      SetColor(near, Black, root, Step(d, Black, other, far, k), Mk(d, Red, na, near, nb));
      SetColor(other, Red, root, k, Mk(d, Black, Mk(d, Black, na, near, nb), other, far));
      root' := Rotate(d.Other(), other, root, k, Red, far, Black, nb, near, na);
    }

    /** Red far nephew: rotate the sibling above the parent and blacken, which ends the loop. */
    method RotateSibling(d: Side, far: Ptr, other: Ptr, parent: Ptr, root: Ptr, ghost k: Ctx,
                         ghost pc: Color, ghost t: Tree, ghost near: Tree, ghost f: Tree) returns (root': Ptr)
      requires f.Node? && f.id == far
      requires IsTree(nodes, root, Plug(k, Mk(d, pc, t, parent, Mk(d, Black, near, other, f))))
      modifies this
      ensures IsTree(nodes, root', Plug(k, Mk(d, pc, Mk(d, Black, t, parent, near), other, f.(color := Black))))
      ensures SameOutside(old(nodes), nodes, Ids(Plug(k, Mk(d, pc, t, parent, Mk(d, Black, near, other, f)))))
    {
      ghost var s, g := Mk(d, Black, near, other, f), f.(color := Black);
      PlugIds(k, Mk(d, pc, t, parent, s));
      PlugIds(k, Mk(d, Black, t, parent, Mk(d, pc, near, other, g)));
      ParentHeld(nodes, root, k, d, pc, t, parent, s);
      SetColor(other, nodes[parent].color, root, Step(d.Other(), pc, parent, t, k), s);
      SetColor(parent, Black, root, k, Mk(d, pc, t, parent, Mk(d, pc, near, other, f)));
      PlugTwo(k, d, Black, t, parent, pc, near, other, f);
      PlugTwo(k, d, Black, t, parent, pc, near, other, g);
      SetColor(far, Black, root, Step(d.Other(), pc, other, near, Step(d.Other(), Black, parent, t, k)), f);
      root' := Rotate(d, parent, root, k, Black, t, pc, near, other, g);
    }

    /** Makes the far nephew red, given that the near one is red if it is not. */
    method RedFarNephew(d: Side, near: Ptr, far: Ptr, other: Ptr, root: Ptr, ghost g: Ctx,
                        ghost n: Tree, ghost f: Tree, ghost hb: nat)
      returns (root': Ptr, other': Ptr, far': Ptr, ghost n': Tree, ghost f': Tree)
      requires IsTree(nodes, root, Plug(g, Mk(d, Black, n, other, f))) && Balanced(n, hb) && Balanced(f, hb)
      requires n.Top() == near && f.Top() == far && (n.IsRed() || f.IsRed())
      requires far != NULL ==> far in nodes && nodes[far].color == f.color
      requires f.Node? ==> far != NULL
      modifies this
      ensures IsTree(nodes, root', Plug(g, Mk(d, Black, n', other', f'))) && Balanced(n', hb) && Balanced(f', hb)
      ensures f'.IsRed() && f'.id == far'
      ensures InOrder(Plug(g, Mk(d, Black, n', other', f'))) == InOrder(Plug(g, Mk(d, Black, n, other, f)))
      ensures Ids(Plug(g, Mk(d, Black, n', other', f'))) == Ids(Plug(g, Mk(d, Black, n, other, f)))
      ensures SameOutside(old(nodes), nodes, Ids(Plug(g, Mk(d, Black, n, other, f))))
    {
      root', other', far', n', f' := root, other, far, n, f;
      if far == NULL || nodes[far].color == Black {
        ghost var a, b := n.Kid(d), n.Kid(d.Other());
        assert n == Mk(d, Red, a, near, b);
        root' := RotateNearNephew(d, near, other, root, g, a, b, f);
        n', f' := a, Mk(d, Red, b, other, f);
        RotateSame(g, d, Black, Red, a, near, Red, Black, b, other, f);
        far', other' := other, near;
      }
    }

    /** A red nephew supplies the missing black node. */
    method RotateOnce(d: Side, near: Ptr, far: Ptr, other: Ptr, parent: Ptr, root: Ptr,
                      ghost k: Ctx, ghost t: Tree, ghost n: Tree, ghost f: Tree, ghost hb: nat)
      returns (root': Ptr, ghost t': Tree)
      requires k.Step? && k.d == d && k.id == parent && CtxBalanced(k, hb + 1)
      requires IsTree(nodes, root, Plug(Step(d.Other(), k.color, parent, t, k.up), Mk(d, Black, n, other, f)))
      requires Balanced(t, hb) && Balanced(n, hb) && Balanced(f, hb)
      requires n.Top() == near && f.Top() == far && (n.IsRed() || f.IsRed())
      requires (far != NULL ==> far in nodes && nodes[far].color == f.color) && (f.Node? ==> far != NULL)
      modifies this
      ensures IsTree(nodes, root', t') && RedBlack(t')
      ensures InOrder(t') == InOrder(Plug(Step(d.Other(), k.color, parent, t, k.up), Mk(d, Black, n, other, f)))
      ensures Ids(t') == Ids(Plug(Step(d.Other(), k.color, parent, t, k.up), Mk(d, Black, n, other, f)))
      ensures SameOutside(old(nodes), nodes,
                          Ids(Plug(Step(d.Other(), k.color, parent, t, k.up), Mk(d, Black, n, other, f))))
    {
      ghost var pc, up, g := k.color, k.up, Step(d.Other(), k.color, parent, t, k.up);
      var other', far';
      ghost var n', f';
      root', other', far', n', f' := RedFarNephew(d, near, far, other, root, g, n, f, hb);
      assert Plug(g, Mk(d, Black, n', other', f')) == Plug(up, Mk(d, pc, t, parent, Mk(d, Black, n', other', f')));
      root' := RotateSibling(d, far', other', parent, root', up, pc, t, n', f');
      t' := Mk(d, pc, Mk(d, Black, t, parent, n'), other', f'.(color := Black));
      RotateSame(up, d, pc, Black, t, parent, Black, pc, n', other', f');
      PlugSame(up, Mk(d, pc, Mk(d, Black, t, parent, n'), other', f'), t');
      RotatedBalanced(k, t, n', other', f', hb);
      t' := Plug(up, t');
    }

    /** One round of the erasure loop below a black sibling. */
    method EraseBelowBlack(d: Side, node: Ptr, parent: Ptr, root: Ptr, ghost k: Ctx, ghost t: Tree, ghost hb: nat)
      returns (node': Ptr, parent': Ptr, root': Ptr, done: bool, ghost k': Ctx, ghost t': Tree)
      requires EraseInv(nodes, root, node, parent, k, t, hb) && k.Step? && d == k.d
      requires !t.IsRed() && !k.sib.IsRed()
      modifies this
      ensures InOrder(Plug(k', t')) == InOrder(Plug(k, t)) && Ids(Plug(k', t')) == Ids(Plug(k, t))
      ensures SameOutside(old(nodes), nodes, Ids(Plug(k, t)))
      ensures done ==> k'.Root? && node' == root' && IsTree(nodes, root', t') && RedBlack(t')
      ensures !done ==> EraseInv(nodes, root', node', parent', k', t', if k.color == Black then hb + 1 else hb)
      ensures !done ==> k' == k.up && t'.Node? && t'.color == k.color
    {
      SiblingView(nodes, root, k, t, hb);
      var o := d.Other();
      var other := nodes[parent].Child(o);
      root' := root;
      ghost var pc, up, sib := k.color, k.up, k.sib;
      ghost var n, f := sib.Kid(d), sib.Kid(o);
      var near, far := nodes[other].Child(d), nodes[other].Child(o);
      if (near == NULL || nodes[near].color == Black) && (far == NULL || nodes[far].color == Black) {
        PlugIds(k, t);
        SetColor(other, Red, root, Step(o, pc, parent, t, up), sib);
        k', t' := up, Mk(d, pc, t, parent, sib.(color := Red));
        PlugSame(up, Mk(d, pc, t, parent, sib), t');
        EraseUp(nodes, root, k, t, hb);
        node', done := parent, false;
        parent' := nodes[node'].parent;
      } else {
        assert Plug(k, t) == Plug(Step(o, pc, parent, t, up), sib);
        root', t' := RotateOnce(d, near, far, other, parent, root, k, t, n, f, hb);
        k', node', parent', done := Root, root', parent, true;
      }
    }

    /** Makes the sibling black without changing the hole. */
    method BlackSibling(d: Side, parent: Ptr, root: Ptr, ghost node: Ptr, ghost k: Ctx, ghost t: Tree, ghost hb: nat)
      returns (root': Ptr, ghost k': Ctx)
      requires EraseInv(nodes, root, node, parent, k, t, hb) && k.Step? && d == k.d && !t.IsRed()
      modifies this
      ensures EraseInv(nodes, root', node, parent, k', t, hb) && k'.Step? && k'.d == d && !k'.sib.IsRed()
      ensures k' == k || (k'.color == Red && k'.Depth() == k.Depth() + 1)
      ensures InOrder(Plug(k', t)) == InOrder(Plug(k, t)) && Ids(Plug(k', t)) == Ids(Plug(k, t))
      ensures SameOutside(old(nodes), nodes, Ids(Plug(k, t)))
    {
      SiblingView(nodes, root, k, t, hb);
      root', k' := root, k;
      var other := nodes[parent].Child(d.Other());
      if nodes[other].color == Red {
        ghost var sl, sr, up := k.sib.Kid(d), k.sib.Kid(d.Other()), k.up;
        assert Plug(k, t) == Plug(up, Mk(d, Black, t, parent, Mk(d, Red, sl, other, sr)));
        root' := RotateRedSibling(d, other, parent, root, up, t, sl, sr);
        RotateSame(up, d, Black, Red, t, parent, Red, Black, sl, other, sr);
        ghost var g := Step(d, Black, other, sr, up);
        k' := Step(d, Red, parent, sl, g);
        assert Plug(k', t) == Plug(g, Mk(d, Red, t, parent, sl));
      }
    }

    /** Restores the black heights below `parent0`, whose child `node0` (possibly null) is one short. */
    method EraseColor(node0: Ptr, parent0: Ptr, root0: Ptr, ghost k0: Ctx, ghost t0: Tree, ghost h0: nat)
      returns (root: Ptr, ghost t: Tree)
      requires EraseInv(nodes, root0, node0, parent0, k0, t0, h0)
      modifies this
      ensures IsTree(nodes, root, t) && RedBlack(t) && InOrder(t) == InOrder(Plug(k0, t0))
      ensures SameOutside(old(nodes), nodes, Ids(Plug(k0, t0)))
    {
      var node, parent, done := node0, parent0, false;
      root := root0;
      ghost var k, s, hb := k0, t0, h0;
      EraseView(nodes, root, node, parent, k, s, hb);
      while !done && (node == NULL || nodes[node].color == Black) && node != root
        invariant !done ==> EraseInv(nodes, root, node, parent, k, s, hb)
        invariant done ==> k.Root? && node == root && IsTree(nodes, root, s) && RedBlack(s)
        invariant EraseShape(nodes, root, node, k, s)
        invariant InOrder(Plug(k, s)) == InOrder(Plug(k0, t0)) && Ids(Plug(k, s)) == Ids(Plug(k0, t0))
        invariant SameOutside(old(nodes), nodes, Ids(Plug(k0, t0)))
        decreases !done, if s.IsRed() then 0 else 1 + k.Depth()
      {
        SiblingView(nodes, root, k, s, hb);
        var d := if nodes[parent].left == node then Left else Right;
        root, k := BlackSibling(d, parent, root, node, k, s, hb);
        ghost var pc := k.color;
        node, parent, root, done, k, s := EraseBelowBlack(d, node, parent, root, k, s, hb);
        hb := if pc == Black then hb + 1 else hb;
        if !done { EraseView(nodes, root, node, parent, k, s, hb); }
      }
      t := EndErase(node, parent, root, done, k, s, hb);
    }

    /** After the loop the node where it ended, if any, is made black. */
    method EndErase(node: Ptr, parent: Ptr, root: Ptr, done: bool, ghost k: Ctx, ghost s: Tree, ghost hb: nat)
      returns (ghost t: Tree)
      requires EraseShape(nodes, root, node, k, s) && (s.IsRed() || node == root)
      requires !done ==> EraseInv(nodes, root, node, parent, k, s, hb)
      requires done ==> k.Root? && node == root && IsTree(nodes, root, s) && RedBlack(s)
      modifies this
      ensures IsTree(nodes, root, t) && RedBlack(t) && InOrder(t) == InOrder(Plug(k, s))
      ensures SameOutside(old(nodes), nodes, Ids(Plug(k, s)))
    {
      t := Plug(k, s);
      PlugIds(k, s);
      if node != NULL {
        ghost var s' := s.(color := Black);
        SetColor(node, Black, root, k, s);
        PlugSame(k, s, s');
        if !done { FinishErase(k, s, hb); }
        t := Plug(k, s');
      } else if !done {
        PlugBalanced(k, s, hb);
      }
    }

    /** Puts `child` where the node `node`, which has no other child, hangs. */
    method Unlink(node: Ptr, child: Ptr, root: Ptr, ghost k: Ctx, ghost t: Tree) returns (root': Ptr)
      requires IsTree(nodes, root, Plug(k, t)) && t.Node? && t.id == node
      requires t.left == Leaf || t.right == Leaf
      requires child == if t.left == Leaf then t.right.Top() else t.left.Top()
      modifies this
      ensures node in old(nodes) && nodes == UnlinkHeap(old(nodes), node, child)
      ensures root' == if old(nodes)[node].parent != NULL then root else child
      ensures IsTree(nodes, root', Plug(k, if t.left == Leaf then t.right else t.left))
      ensures SameOutside(old(nodes), nodes, Ids(Plug(k, t)) - {node})
    {
      UnlinkTree(nodes, root, k, t);
      var parent := nodes[node].parent;
      root' := root;
      if child != NULL {
        SetParent(child, parent);
      }
      if parent != NULL {
        if nodes[parent].left == node {
          SetChild(parent, Left, child);
        } else {
          SetChild(parent, Right, child);
        }
      } else {
        root' := child;
      }
    }

    /** rb_replace_node: `heir` takes the place of `victim`, links and colour included. */
    method Replace(victim: Ptr, heir: Ptr, root: Ptr, ghost k: Ctx, ghost t: Tree) returns (root': Ptr)
      requires IsTree(nodes, root, Plug(k, t)) && t.Node? && t.id == victim
      requires heir in nodes && heir !in Ids(Plug(k, t))
      modifies this
      ensures victim in old(nodes) && nodes == ReplaceHeap(old(nodes), victim, heir)
      ensures root' == if old(nodes)[victim].parent != NULL then root else heir
      ensures IsTree(nodes, root', Plug(k, t.(id := heir)))
      ensures SameOutside(old(nodes), nodes, Ids(Plug(k, t)) + {heir} - {victim})
    {
      ReplaceTree(nodes, root, k, t, heir);
      var parent := nodes[victim].parent;
      root' := root;
      if parent != NULL {
        if victim == nodes[parent].left {
          SetChild(parent, Left, heir);
        } else {
          SetChild(parent, Right, heir);
        }
      } else {
        root' := heir;
      }
      if nodes[victim].left != NULL {
        SetParent(nodes[victim].left, heir);
      }
      if nodes[victim].right != NULL {
        SetParent(nodes[victim].right, heir);
      }
      nodes := nodes[heir := nodes[victim]];
    }

    /** The relinking half of rb_erase for a node with two children: its in-order successor takes its place. */
    method RelinkSuccessor(gone: Ptr, node: Ptr, root: Ptr) returns (root': Ptr, child: Ptr, parent: Ptr, color: Color)
      requires SpliceReady(nodes, gone, node)
      modifies this
      ensures Spliced(old(nodes), nodes, gone, node)
      ensures root' == if old(nodes)[gone].parent != NULL then root else node
      ensures child == old(nodes)[node].right && color == old(nodes)[node].color
      ensures parent == if old(nodes)[node].parent == gone then node else old(nodes)[node].parent
    {
      root' := root;
      var up := nodes[gone].parent;
      if up != NULL {
        if nodes[up].left == gone {
          SetChild(up, Left, node);
        } else {
          SetChild(up, Right, node);
        }
      } else {
        root' := node;
      }
      child, parent, color := nodes[node].right, nodes[node].parent, nodes[node].color;
      if parent == gone {
        parent := node;
      } else {
        if child != NULL {
          SetParent(child, parent);
        }
        SetChild(parent, Left, child);
        SetChild(node, Right, nodes[gone].right);
        SetParent(nodes[gone].right, node);
      }
      nodes := nodes[node := nodes[node].(parent := nodes[gone].parent, color := nodes[gone].color)];
      SetChild(node, Left, nodes[gone].left);
      SetParent(nodes[gone].left, node);
      SplicedAll(old(nodes), nodes, gone, node);
    }

    /** Walks to the in-order successor of `gone` and lets it take the place of `gone`. */
    method SpliceSuccessor(gone: Ptr, root: Ptr, ghost k: Ctx, ghost t: Tree)
      returns (root': Ptr, child: Ptr, parent: Ptr, color: Color, ghost inner: Ctx, ghost next: Ptr, ghost c: Tree)
      requires IsTree(nodes, root, Plug(k, t)) && t.Node? && t.id == gone && t.left.Node? && t.right.Node?
      modifies this
      ensures AllTurn(inner, Left) && Plug(inner, Node(color, Leaf, next, c)) == t.right && c.Top() == child
      ensures IsTree(nodes, root', Plug(k, Node(t.color, t.left, next, Plug(inner, c))))
      ensures parent == Append(inner, Step(Right, t.color, next, t.left, k)).Parent()
      ensures SameOutside(old(nodes), nodes, Ids(Plug(k, t)) - {gone})
    {
      Split(nodes, root, k, t);
      MkSplit(nodes, k.Parent(), Left, t.color, t.left, gone, t.right);
      var node := nodes[gone].right;
      inner := Root;
      ghost var s := t.right;
      while nodes[node].left != NULL
        invariant nodes == old(nodes)
        invariant AllTurn(inner, Left) && s.Node? && s.id == node && Plug(inner, s) == t.right
        invariant node in nodes && node != NULL && nodes[node].left == s.left.Top()
                  && (s.left.Node? ==> s.left.id in nodes && s.left.id != NULL)
        decreases s
      {
        inner, s := Step(Left, s.color, s.id, s.right, inner), s.left;
        node := nodes[node].left;
        SuccessorView(nodes, root, k, t, inner, s);
      }
      next, c := node, s.right;
      SuccessorReady(nodes, root, k, t, inner, s);
      root', child, parent, color := RelinkSuccessor(gone, node, root);
      SplicedTree(old(nodes), nodes, root, root', k, t, inner, s);
    }

    /** rb_erase. */
    method Erase(node: Ptr, root: Ptr, ghost t: Tree) returns (root': Ptr, ghost t': Tree)
      requires IsTree(nodes, root, t) && RedBlack(t) && node in Ids(t)
      modifies this
      ensures IsTree(nodes, root', t') && RedBlack(t') && InOrder(t') == Without(InOrder(t), node)
      ensures SameOutside(old(nodes), nodes, Ids(t) - {node})
    {
      ghost var k, s := Locate(Root, t, node);
      ghost var hh: nat :| Balanced(t, hh);
      ghost var hb := UnplugBalanced(k, s, hh);
      UnlinkView(nodes, root, k, s);
      if nodes[node].left == NULL || nodes[node].right == NULL {
        var child := if nodes[node].left == NULL then nodes[node].right else nodes[node].left;
        var parent, color := nodes[node].parent, nodes[node].color;
        ghost var c := if s.left == Leaf then s.right else s.left;
        root' := Unlink(node, child, root, k, s);
        t' := Plug(k, c);
        UnlinkedShape(k, s);
        UnlinkedInv(nodes, root', child, k, s, hb);
        if color == Black {
          root', t' := EraseColor(child, parent, root', k, c, hb - 1);
        }
      } else {
        var child: Ptr, parent: Ptr, color: Color;
        ghost var inner: Ctx, next: Ptr, c: Tree;
        root', child, parent, color, inner, next, c := SpliceSuccessor(node, root, k, s);
        ghost var k' := Append(inner, Step(Right, s.color, next, s.left, k));
        t' := Plug(k', c);
        SplicedShape(k, s, inner, color, next, c);
        ghost var h' := SplicedInv(nodes, root', child, k, s, inner, color, next, c, hh);
        if color == Black {
          root', t' := EraseColor(child, parent, root', k', c, h');
        }
      }
    }

    // ---- linking a new node ----

    /** rb_link_node: hangs the red node `node` on side `d` of `parent`, or as the root. */
    method LinkNode(node: Ptr, parent: Ptr, d: Side, root: Ptr, ghost k: Ctx) returns (root': Ptr)
      requires IsTree(nodes, root, Plug(k, Leaf)) && node in nodes && node !in Ids(Plug(k, Leaf))
      requires parent == k.Parent() && (k.Step? ==> d == k.d)
      modifies this
      ensures IsTree(nodes, root', Plug(k, Node(Red, Leaf, node, Leaf)))
      ensures SameOutside(old(nodes), nodes, Ids(Plug(k, Leaf)) + {node})
    {
      Split(nodes, root, k, Leaf);
      PlugIds(k, Leaf);
      root' := root;
      nodes := nodes[node := Rec(parent, Red, NULL, NULL)];
      if parent != NULL {
        SetChild(parent, d, node);
      } else {
        root' := node;
      }
      GraftFresh(old(nodes), nodes, root, root', k, Leaf, Node(Red, Leaf, node, Leaf), node);
    }

    /** rb_link_node followed by rb_insert_color. */
    method Insert(node: Ptr, parent: Ptr, d: Side, root: Ptr, ghost k: Ctx) returns (root': Ptr, ghost t: Tree)
      requires IsTree(nodes, root, Plug(k, Leaf)) && RedBlack(Plug(k, Leaf)) && node in nodes
               && node !in Ids(Plug(k, Leaf))
      requires parent == k.Parent() && (k.Step? ==> d == k.d)
      modifies this
      ensures IsTree(nodes, root', t) && RedBlack(t) && InOrder(t) == Before(k) + [node] + After(k)
      ensures SameOutside(old(nodes), nodes, Ids(Plug(k, Leaf)) + {node})
    {
      ghost var n := Node(Red, Leaf, node, Leaf);
      ghost var hh: nat :| Balanced(Plug(k, Leaf), hh);
      ghost var hb := UnplugBalanced(k, Leaf, hh);
      LinkedShape(k, node, hb);
      root' := LinkNode(node, parent, d, root, k);
      root', t := InsertColor(node, root', k, n, hb);
    }

    // ---- traversal ----

    /** rb_first for d == Left, rb_last for d == Right. */
    method End(d: Side, root: Ptr, ghost t: Tree) returns (n: Ptr)
      requires IsTree(nodes, root, t)
      ensures n == if InOrder(t) == [] then NULL else if d == Left then InOrder(t)[0] else InOrder(t)[|InOrder(t)| - 1]
    {
      n := root;
      if n == NULL {
        return;
      }
      ExtremeInOrder(d, t);
      n := Descend(d, n, NULL, t);
    }

    /** Follows `d` children to the last one. */
    method Descend(d: Side, top: Ptr, ghost par: Ptr, ghost t: Tree) returns (n: Ptr)
      requires t.Node? && Holds(nodes, top, par, t)
      ensures n == Extreme(d, t)
    {
      n := top;
      ghost var s, p := t, par;
      while nodes[n].Child(d) != NULL
        invariant s.Node? && Holds(nodes, n, p, s) && Extreme(d, s) == Extreme(d, t)
        decreases s
      {
        n, p, s := nodes[n].Child(d), n, s.Kid(d);
      }
    }

    /** rb_next for d == Right, rb_prev for d == Left; a cleared node has no neighbour. */
    method Neighbour(d: Side, node: Ptr, ghost root: Ptr, ghost t: Tree) returns (n: Ptr)
      requires IsTree(nodes, root, t) && node in nodes && (node in Ids(t) || nodes[node].parent == node)
      ensures n == Beside(d, InOrder(t), node)
    {
      if node !in Ids(t) { InOrderIds(t, node); BesideAbsent(d, InOrder(t), node); }
      if nodes[node].parent == node {
        if node in Ids(t) {
          ghost var k, s := Locate(Root, t, node);
          Split(nodes, root, k, s);
        }
        return NULL;
      }
      ghost var k, s := Locate(Root, t, node);
      Split(nodes, root, k, s);
      MkSplit(nodes, k.Parent(), d, s.color, s.Kid(d), node, s.Kid(d.Other()));
      BesideHole(d, k, s);
      var kid := nodes[node].Child(d);
      if kid != NULL {
        ExtremeInOrder(d.Other(), s.Kid(d));
        n := Descend(d.Other(), kid, node, s.Kid(d));
        return;
      }
      n := node;
      var parent := nodes[node].parent;
      while parent != NULL && n == nodes[parent].Child(d)
        invariant HoldsCtx(nodes, root, n, k) && CtxDistinct(k) && n != NULL && n !in CtxIds(k) && parent == k.Parent()
        invariant Beside(d, InOrder(t), node) == EdgeBeyond(d, k)
        decreases k
      {
        HoldsIds(nodes, nodes[k.id].Child(k.d.Other()), k.id, k.sib);
        n, k := parent, k.up;
        parent := nodes[n].parent;
      }
      n := parent;
    }
  }

  lemma {:induction false} LinkedShape(k: Ctx, node: Ptr, hb: nat)
    requires Balanced(Leaf, hb)
    ensures Balanced(Node(Red, Leaf, node, Leaf), hb)
    ensures InOrder(Plug(k, Node(Red, Leaf, node, Leaf))) == Before(k) + [node] + After(k)
    ensures Ids(Plug(k, Node(Red, Leaf, node, Leaf))) == Ids(Plug(k, Leaf)) + {node}
  {
    var n := Node(Red, Leaf, node, Leaf);
    assert InOrder(n) == [node];
    PlugInOrder(k, n);
    PlugIds(k, Leaf);
    PlugIds(k, n);
  }

  /** The nearest node beyond a hole on side `d`. */
  ghost function EdgeBeyond(d: Side, k: Ctx): Ptr {
    if d == Right then (if After(k) == [] then NULL else After(k)[0])
    else if Before(k) == [] then NULL else Before(k)[|Before(k)| - 1]
  }

  /** The neighbour of the node at a hole, read off its subtree and context. */
  lemma {:induction false} BesideHole(d: Side, k: Ctx, s: Tree)
    requires s.Node? && Distinct(Plug(k, s))
    ensures Beside(d, InOrder(Plug(k, s)), s.id) ==
            if s.Kid(d).Node? then Extreme(d.Other(), s.Kid(d)) else EdgeBeyond(d, k)
  {
    PlugInOrder(k, s);
    PlugIds(k, s);
    var a, b, l, r := Before(k), After(k), InOrder(s.left), InOrder(s.right);
    Regroup(a, l, s.id, r, b);
    if s.id in a { BeforeIds(k, s.id); }
    if s.id in b { AfterIds(k, s.id); }
    InOrderIds(s.left, s.id);
    InOrderIds(s.right, s.id);
    BesideMiddle(d, a + l, s.id, r + b);
    if s.Kid(d).Node? { ExtremeInOrder(d.Other(), s.Kid(d)); }
  }

  /** The in-order sequence without the node at a hole. */
  lemma {:induction false} WithoutTop(k: Ctx, t: Tree)
    requires Distinct(Plug(k, t)) && t.Node?
    ensures Without(InOrder(Plug(k, t)), t.id) == Before(k) + (InOrder(t.left) + InOrder(t.right)) + After(k)
  {
    PlugInOrder(k, t);
    PlugIds(k, t);
    var a, b, l, r := Before(k), After(k), InOrder(t.left), InOrder(t.right);
    if t.id in a + l {
      if t.id in a { BeforeIds(k, t.id); } else { InOrderIds(t.left, t.id); }
    }
    WithoutMiddle(a + l, t.id, r + b);
    Regroup(a, l, t.id, r, b);
  }

  lemma Regroup(a: seq<Ptr>, l: seq<Ptr>, x: Ptr, r: seq<Ptr>, b: seq<Ptr>)
    ensures a + (l + [x] + r) + b == a + l + [x] + (r + b)
    ensures a + l + (r + b) == a + (l + r) + b
  {
  }

  lemma {:induction false} UnlinkedShape(k: Ctx, t: Tree)
    requires Distinct(Plug(k, t)) && t.Node? && (t.left == Leaf || t.right == Leaf)
    ensures var c := if t.left == Leaf then t.right else t.left;
            InOrder(Plug(k, c)) == Without(InOrder(Plug(k, t)), t.id) && Ids(Plug(k, c)) == Ids(Plug(k, t)) - {t.id}
  {
    var c := if t.left == Leaf then t.right else t.left;
    WithoutTop(k, t);
    PlugInOrder(k, c);
    assert InOrder(c) == InOrder(t.left) + InOrder(t.right);
    PlugIds(k, t);
    PlugIds(k, c);
  }

  lemma {:induction false} UnlinkView(h: Heap, root: Ptr, k: Ctx, t: Tree)
    requires IsTree(h, root, Plug(k, t)) && t.Node?
    ensures t.id in h && h[t.id].parent == k.Parent() && h[t.id].color == t.color
    ensures h[t.id].left == t.left.Top() && h[t.id].right == t.right.Top()
    ensures (t.left.Node? <==> h[t.id].left != NULL) && (t.right.Node? <==> h[t.id].right != NULL)
  {
    Split(h, root, k, t);
    MkSplit(h, k.Parent(), Left, t.color, t.left, t.id, t.right);
  }

  /** After unlinking a node with one child, the rules hold, or the hole is one black node short. */
  lemma {:induction false} UnlinkedInv(h: Heap, root: Ptr, child: Ptr, k: Ctx, t: Tree, hb: nat)
    requires t.Node? && (t.left == Leaf || t.right == Leaf) && Balanced(t, hb) && CtxBalanced(k, hb)
    requires t.IsRed() ==> k.Step? && k.color == Black
    requires var c := if t.left == Leaf then t.right else t.left; IsTree(h, root, Plug(k, c)) && c.Top() == child
    ensures var c := if t.left == Leaf then t.right else t.left;
            if t.IsRed() then RedBlack(Plug(k, c)) else hb > 0 && EraseInv(h, root, child, k.Parent(), k, c, hb - 1)
  {
    var c := if t.left == Leaf then t.right else t.left;
    if t.IsRed() { PlugBalanced(k, c, hb); }
  }

  /** The shape after the successor `next` took the place of `t.id`. */
  lemma {:induction false} SplicedShape(k: Ctx, t: Tree, inner: Ctx, color: Color, next: Ptr, c: Tree)
    requires t.Node? && Distinct(Plug(k, t)) && AllTurn(inner, Left)
             && Plug(inner, Node(color, Leaf, next, c)) == t.right
    ensures var t' := Plug(Append(inner, Step(Right, t.color, next, t.left, k)), c);
            && t' == Plug(k, Node(t.color, t.left, next, Plug(inner, c)))
            && InOrder(t') == Without(InOrder(Plug(k, t)), t.id) && Ids(t') == Ids(Plug(k, t)) - {t.id}
  {
    PlugAppend(inner, Step(Right, t.color, next, t.left, k), c);
    PlugIds(k, t);
    SuccessorFirst(inner, color, next, c);
    SplicedIds(k, t, next, Plug(inner, c));
    WithoutTop(k, t);
    PlugInOrder(k, Node(t.color, t.left, next, Plug(inner, c)));
  }

  lemma {:induction false} SplicedIds(k: Ctx, t: Tree, next: Ptr, r: Tree)
    requires t.Node? && Distinct(Plug(k, t)) && next in Ids(t.right) && Ids(r) == Ids(t.right) - {next}
    requires InOrder(t.right) == [next] + InOrder(r)
    ensures Ids(Plug(k, Node(t.color, t.left, next, r))) == Ids(Plug(k, t)) - {t.id}
    ensures InOrder(Node(t.color, t.left, next, r)) == InOrder(t.left) + InOrder(t.right)
  {
    PlugIds(k, t);
    PlugIds(k, Node(t.color, t.left, next, r));
    assert InOrder(t.left) + [next] + InOrder(r) == InOrder(t.left) + ([next] + InOrder(r));
  }

  lemma {:induction false} SuccessorIds(inner: Ctx, s: Tree)
    requires s.Node? && s.left == Leaf
    ensures Distinct(Plug(inner, s)) ==> Ids(Plug(inner, s.right)) == Ids(Plug(inner, s)) - {s.id}
    ensures s.id in Ids(Plug(inner, s))
  {
    PlugIds(inner, s);
    PlugIds(inner, s.right);
  }

  lemma {:induction false} SuccessorFirst(inner: Ctx, color: Color, next: Ptr, c: Tree)
    requires AllTurn(inner, Left)
    ensures InOrder(Plug(inner, Node(color, Leaf, next, c))) == [next] + InOrder(Plug(inner, c))
    ensures Distinct(Plug(inner, Node(color, Leaf, next, c))) ==>
              Ids(Plug(inner, c)) == Ids(Plug(inner, Node(color, Leaf, next, c))) - {next}
    ensures next in Ids(Plug(inner, Node(color, Leaf, next, c)))
  {
    var s := Node(color, Leaf, next, c);
    SuccessorIds(inner, s);
    PlugInOrder(inner, s);
    PlugInOrder(inner, c);
    AllLeftBefore(inner);
    assert InOrder(s) == [next] + InOrder(c);
    Reassociate(next, InOrder(c), After(inner));
  }

  lemma Reassociate(x: Ptr, c: seq<Ptr>, a: seq<Ptr>)
    ensures [] + ([x] + c) + a == [x] + ([] + c + a)
  {
  }

  lemma {:induction false} SplicedInv(h: Heap, root: Ptr, child: Ptr, k: Ctx, t: Tree, inner: Ctx, color: Color,
                                      next: Ptr, c: Tree, hh: nat) returns (hb: nat)
    requires t.Node? && Plug(inner, Node(color, Leaf, next, c)) == t.right && c.Top() == child
    requires Balanced(Plug(k, t), hh) && !Plug(k, t).IsRed()
    requires IsTree(h, root, Plug(Append(inner, Step(Right, t.color, next, t.left, k)), c))
    ensures var k' := Append(inner, Step(Right, t.color, next, t.left, k));
            if color == Red then RedBlack(Plug(k', c)) else EraseInv(h, root, child, k'.Parent(), k', c, hb)
  {
    var s := Node(color, Leaf, next, c);
    SuccessorAt(k, t, inner, s);
    hb := UnplugBalanced(Append(inner, Step(Right, t.color, t.id, t.left, k)), s, hh);
    RenameBalanced(inner, Right, t.color, t.id, next, t.left, k, hb);
    if color == Red {
      PlugBalanced(Append(inner, Step(Right, t.color, next, t.left, k)), c, hb);
    } else {
      hb := hb - 1;
    }
  }

  function Redirect(h: Heap, p: Ptr, from: Ptr, to: Ptr): Heap {
    if p in h then h[p := h[p].WithChild(if h[p].left == from then Left else Right, to)] else h
  }

  function Adopt(h: Heap, p: Ptr, par: Ptr): Heap {
    if p in h then h[p := h[p].(parent := par)] else h
  }

  function UnlinkHeap(h: Heap, node: Ptr, child: Ptr): Heap
    requires node in h
  {
    Redirect(Adopt(h, child, h[node].parent), h[node].parent, node, child)
  }

  function ReplaceHeap(h: Heap, victim: Ptr, heir: Ptr): Heap
    requires victim in h
  {
    var h1 := Redirect(h, h[victim].parent, victim, heir);
    var h2 := Adopt(h1, h1[victim].left, heir);
    var h3 := Adopt(h2, h2[victim].right, heir);
    h3[heir := h3[victim]]
  }

  /** `gone` has two children and `node` is the leftmost node of its right subtree. */
  ghost predicate SpliceReady(h: Heap, gone: Ptr, node: Ptr) {
    && NULL !in h && gone in h && node in h && gone != node && h[node].left == NULL
    && var up, l, r := h[gone].parent, h[gone].left, h[gone].right;
       var child, parent := h[node].right, h[node].parent;
    && (up == NULL || up in h) && l in h && r in h && (child == NULL || child in h) && parent in h
    && up !in {gone, node, l, r, parent} && l !in {gone, node, r, parent} && r != gone && parent != node
    && (child != NULL ==> child !in {gone, node, l, r, parent, up} && h[child].parent == node)
    && (if parent == gone then r == node else r != node && h[parent].left == node)
    && (up != NULL && h[up].left != gone ==> h[up].right == gone)
  }

  /** What the record of `p` becomes when `node` takes the place of `gone`. */
  function SplicedRec(h: Heap, gone: Ptr, node: Ptr, p: Ptr): Rec
    requires gone in h && node in h && p in h
  {
    var g, n := h[gone], h[node];
    var near := n.parent == gone;
    if p == node then (if near then g.(right := n.right) else g)
    else if p == g.parent then h[p].WithChild(if h[p].left == gone then Left else Right, node)
    else
      var q := if p == n.parent then h[p].(left := n.right) else h[p];
      if p == g.left || p == g.right then q.(parent := node)
      else if p == n.right && !near then q.(parent := n.parent) else q
  }

  ghost predicate Spliced(h: Heap, h': Heap, gone: Ptr, node: Ptr)
    requires gone in h && node in h
  {
    && h'.Keys == h.Keys && h'[gone] == h[gone]
    && forall p :: p in h && p != gone ==> h'[p] == SplicedRec(h, gone, node, p)
  }

  /** The stores of the C code, in order. */
  function SpliceHeap(h: Heap, gone: Ptr, node: Ptr): Heap
    requires gone in h && node in h
  {
    var h1 := Redirect(h, h[gone].parent, gone, node);
    var child, parent := h[node].right, h[node].parent;
    var h2 := if parent == gone || parent !in h then h1 else
                var a := Adopt(h1, child, parent);
                var b := a[parent := a[parent].(left := child)];
                Adopt(b[node := b[node].(right := b[gone].right)], b[gone].right, node);
    var h3 := h2[node := h2[node].(parent := h2[gone].parent, color := h2[gone].color)];
    var h4 := h3[node := h3[node].(left := h3[gone].left)];
    Adopt(h4, h4[gone].left, node)
  }

  lemma {:induction false} SplicedAt(h: Heap, h': Heap, gone: Ptr, node: Ptr, p: Ptr)
    requires SpliceReady(h, gone, node) && p in h && h' == SpliceHeap(h, gone, node)
    ensures h'.Keys == h.Keys && h'[p] == if p == gone then h[p] else SplicedRec(h, gone, node, p)
  {
  }

  lemma {:induction false} SplicedAll(h: Heap, h': Heap, gone: Ptr, node: Ptr)
    requires SpliceReady(h, gone, node) && h' == SpliceHeap(h, gone, node)
    ensures Spliced(h, h', gone, node)
  {
    forall p | p in h ensures h'.Keys == h.Keys && h'[p] == if p == gone then h[p] else SplicedRec(h, gone, node, p) {
      SplicedAt(h, h', gone, node, p);
    }
  }

  /** Unlinking the successor and then replacing `gone` by it gives the same records. */
  lemma {:induction false} UnlinkThenReplace(h: Heap, gone: Ptr, node: Ptr, p: Ptr)
    requires SpliceReady(h, gone, node) && p in h && p != gone
    ensures ReplaceHeap(UnlinkHeap(h, node, h[node].right), gone, node).Keys == h.Keys
    ensures ReplaceHeap(UnlinkHeap(h, node, h[node].right), gone, node)[p] == SplicedRec(h, gone, node, p)
  {
    var h0 := UnlinkHeap(h, node, h[node].right);
    assert h[node].parent != gone ==> h0[gone] == h[gone];
  }

  /** The successor subtree `s` hangs at the bottom of `inner`, inside the right subtree of `t`. */
  lemma {:induction false} SuccessorAt(k: Ctx, t: Tree, inner: Ctx, s: Tree)
    requires t.Node? && Plug(inner, s) == t.right
    ensures Plug(k, t) == Plug(Append(inner, Step(Right, t.color, t.id, t.left, k)), s)
  {
    PlugAppend(inner, Step(Right, t.color, t.id, t.left, k), s);
  }

  lemma {:induction false} SuccessorView(h: Heap, root: Ptr, k: Ctx, t: Tree, inner: Ctx, s: Tree)
    requires IsTree(h, root, Plug(k, t)) && t.Node? && Plug(inner, s) == t.right && s.Node?
    ensures s.id in h && s.id != NULL && h[s.id].left == s.left.Top()
            && (s.left.Node? ==> s.left.id in h && s.left.id != NULL)
  {
    SuccessorAt(k, t, inner, s);
    var k' := Append(inner, Step(Right, t.color, t.id, t.left, k));
    Split(h, root, k', s);
    MkSplit(h, k'.Parent(), Left, s.color, s.left, s.id, s.right);
  }

  lemma {:induction false} PlugTop(k: Ctx, t: Tree)
    ensures Plug(k, t).Top() == if k.Root? then t.Top() else Plug(k, t).Top()
    ensures k.Step? ==> Plug(k, t).Node? && Plug(k, t).id in CtxIds(k)
    decreases k
  {
    if k == Root {
    } else {
      PlugTop(k.up, Mk(k.d, k.color, t, k.id, k.sib));
    }
  }

  lemma {:induction false} SuccessorReady(h: Heap, root: Ptr, k: Ctx, t: Tree, inner: Ctx, s: Tree)
    requires IsTree(h, root, Plug(k, t)) && t.Node? && t.left.Node? && Plug(inner, s) == t.right && AllTurn(inner, Left)
    requires s.Node? && s.left == Leaf
    ensures SpliceReady(h, t.id, s.id) && h[t.id].parent == k.Parent()
    ensures h[s.id].right == s.right.Top() && h[s.id].color == s.color
    ensures h[s.id].parent == if inner.Root? then t.id else inner.id
    ensures inner.Step? ==> inner.id != t.id
    ensures k.Root? <==> h[t.id].parent == NULL
    ensures {k.Parent()} - {NULL} <= CtxIds(k) && {s.right.Top()} - {NULL} <= Ids(s)
    ensures h[t.id].left in Ids(t) && h[t.id].right in Ids(t) && h[s.id].parent in Ids(t)
  {
    var kr := Step(Right, t.color, t.id, t.left, k);
    SuccessorAt(k, t, inner, s);
    Split(h, root, Append(inner, kr), s);
    MkSplit(h, Append(inner, kr).Parent(), Left, s.color, s.left, s.id, s.right);
    Split(h, root, k, t);
    MkSplit(h, k.Parent(), Left, t.color, t.left, t.id, t.right);
    PlugIds(inner, s);
    PlugTop(inner, s);
    if k.Step? { HoldsIds(h, k.sib.Top(), k.id, k.sib); }
  }

  /** Two heaps that agree on a tree hold the same tree. */
  lemma {:induction false} TreeFrame(h: Heap, h': Heap, root: Ptr, t: Tree)
    requires IsTree(h, root, t) && NULL !in h'
    requires forall x :: x in Ids(t) && x in h ==> x in h' && h'[x] == h[x]
    ensures IsTree(h', root, t)
  {
    HoldsIds(h, root, NULL, t);
    HoldsFrame(h, h', root, NULL, t);
  }

  lemma {:induction false} SplicedFrame(h: Heap, h': Heap, h2: Heap, root: Ptr, gone: Ptr, node: Ptr, t: Tree)
    requires SpliceReady(h, gone, node) && Spliced(h, h', gone, node)
    requires h2 == ReplaceHeap(UnlinkHeap(h, node, h[node].right), gone, node)
    requires IsTree(h2, root, t) && gone !in Ids(t) && Ids(t) <= h.Keys
    ensures IsTree(h', root, t)
  {
    forall p | p in Ids(t) ensures p in h2 && p in h' && h'[p] == h2[p] {
      UnlinkThenReplace(h, gone, node, p);
    }
    TreeFrame(h2, h', root, t);
  }

  lemma {:induction false} SplicedTree(h: Heap, h': Heap, root: Ptr, root': Ptr, k: Ctx, t: Tree, inner: Ctx, s: Tree)
    requires IsTree(h, root, Plug(k, t)) && t.Node? && t.left.Node? && Plug(inner, s) == t.right && AllTurn(inner, Left)
    requires s.Node? && s.left == Leaf
    requires t.id in h && s.id in h && Spliced(h, h', t.id, s.id)
    requires root' == if h[t.id].parent != NULL then root else s.id
    ensures IsTree(h', root', Plug(k, Node(t.color, t.left, s.id, Plug(inner, s.right))))
    ensures SameOutside(h, h', Ids(Plug(k, t)) - {t.id})
  {
    var u := Node(t.color, t.left, t.id, Plug(inner, s.right));
    SuccessorReady(h, root, k, t, inner, s);
    SuccessorUnlinked(h, root, k, t, inner, s, u);
    SplicedOnto(h, h', root, root', k, u, s.id, Plug(k, t));
    SplicedAround(h, h', root, k, t, inner, s);
  }

  /** The tree with the successor unlinked, which is `u` in place of `t`. */
  lemma {:induction false} SuccessorUnlinked(h: Heap, root: Ptr, k: Ctx, t: Tree, inner: Ctx, s: Tree, u: Tree)
    requires IsTree(h, root, Plug(k, t)) && t.Node? && t.left.Node? && Plug(inner, s) == t.right && AllTurn(inner, Left)
    requires s.Node? && s.left == Leaf && u == Node(t.color, t.left, t.id, Plug(inner, s.right))
    ensures SpliceReady(h, t.id, s.id) && s.id !in Ids(Plug(k, u)) && Ids(Plug(k, t)) <= h.Keys
    ensures IsTree(UnlinkHeap(h, s.id, h[s.id].right), root, Plug(k, u))
    ensures Ids(Plug(k, u.(id := s.id))) == Ids(Plug(k, t)) - {t.id}
  {
    var kr := Step(Right, t.color, t.id, t.left, k);
    SuccessorAt(k, t, inner, s);
    SuccessorReady(h, root, k, t, inner, s);
    SplicedShape(k, t, inner, s.color, s.id, s.right);
    UnlinkTree(h, root, Append(inner, kr), s);
    UnlinkedShape(Append(inner, kr), s);
    PlugAppend(inner, kr, s.right);
    HoldsIds(h, root, NULL, Plug(k, t));
  }

  lemma {:induction false} SplicedAround(h: Heap, h': Heap, root: Ptr, k: Ctx, t: Tree, inner: Ctx, s: Tree)
    requires IsTree(h, root, Plug(k, t)) && t.Node? && t.left.Node? && Plug(inner, s) == t.right && AllTurn(inner, Left)
    requires s.Node? && s.left == Leaf && t.id in h && s.id in h && Spliced(h, h', t.id, s.id)
    ensures SameOutside(h, h', Ids(Plug(k, t)) - {t.id})
  {
    SuccessorReady(h, root, k, t, inner, s);
    PlugIds(k, t);
    PlugIds(inner, s);
    SplicedOutside(h, h', t.id, s.id, Ids(Plug(k, t)));
  }

  lemma {:induction false} SplicedOnto(h: Heap, h': Heap, root: Ptr, root': Ptr, k: Ctx, t: Tree, node: Ptr, t0: Tree)
    requires t.Node? && SpliceReady(h, t.id, node) && Spliced(h, h', t.id, node) && k.Parent() == h[t.id].parent
    requires IsTree(UnlinkHeap(h, node, h[node].right), root, Plug(k, t)) && node !in Ids(Plug(k, t))
    requires root' == if h[t.id].parent != NULL then root else node
    requires Ids(Plug(k, t.(id := node))) == Ids(t0) - {t.id} && Ids(t0) <= h.Keys
    ensures IsTree(h', root', Plug(k, t.(id := node)))
  {
    var h1 := UnlinkHeap(h, node, h[node].right);
    ReplaceTree(h1, root, k, t, node);
    SplicedFrame(h, h', ReplaceHeap(h1, t.id, node), root', t.id, node, Plug(k, t.(id := node)));
  }

  lemma {:induction false} SplicedOutside(h: Heap, h': Heap, gone: Ptr, node: Ptr, ids: set<Ptr>)
    requires SpliceReady(h, gone, node) && Spliced(h, h', gone, node)
    requires {node, h[gone].left, h[gone].right, h[node].parent} <= ids
             && {h[gone].parent, h[node].right} - {NULL} <= ids
    ensures SameOutside(h, h', ids - {gone})
  {
  }

  lemma {:induction false} UnlinkTree(h: Heap, root: Ptr, k: Ctx, t: Tree)
    requires IsTree(h, root, Plug(k, t)) && t.Node? && (t.left == Leaf || t.right == Leaf)
    ensures t.id in h && h[t.id].parent == k.Parent() && h[t.id].left == t.left.Top() && h[t.id].right == t.right.Top()
    ensures (if k.Root? then k.Parent() == NULL else k.Parent() in h) && NULL !in h
    ensures var s := if t.left == Leaf then t.right else t.left;
            (s.Top() == NULL || s.Top() in h)
            && IsTree(UnlinkHeap(h, t.id, s.Top()), if k.Step? then root else s.Top(), Plug(k, s))
            && SameOutside(h, UnlinkHeap(h, t.id, s.Top()), Ids(Plug(k, t)) - {t.id})
  {
    var s := if t.left == Leaf then t.right else t.left;
    Split(h, root, k, t);
    MkSplit(h, k.Parent(), Left, t.color, t.left, t.id, t.right);
    var h' := UnlinkHeap(h, t.id, s.Top());
    PlugIds(k, t);
    Reparent(h, h', s, t.id, k.Parent());
    if k.Step? { HoldsIds(h, k.sib.Top(), k.id, k.sib); }
    Graft(h, h', root, if k.Step? then root else s.Top(), k, t, s);
  }

  lemma {:induction false} ReplaceTree(h: Heap, root: Ptr, k: Ctx, t: Tree, heir: Ptr)
    requires IsTree(h, root, Plug(k, t)) && t.Node? && heir in h && heir !in Ids(Plug(k, t))
    ensures t.id in h && h[t.id].parent == k.Parent() && h[t.id].left == t.left.Top() && h[t.id].right == t.right.Top()
    ensures (if k.Root? then k.Parent() == NULL else k.Parent() in h) && NULL !in h
    ensures (t.left.Top() == NULL || t.left.Top() in h) && (t.right.Top() == NULL || t.right.Top() in h)
    ensures t.id !in {k.Parent(), t.left.Top(), t.right.Top(), heir}
    ensures IsTree(ReplaceHeap(h, t.id, heir), if k.Step? then root else heir, Plug(k, t.(id := heir)))
    ensures SameOutside(h, ReplaceHeap(h, t.id, heir), Ids(Plug(k, t)) + {heir} - {t.id})
  {
    Split(h, root, k, t);
    PlugIds(k, t);
    MkSplit(h, k.Parent(), Left, t.color, t.left, t.id, t.right);
    if k.Step? { HoldsIds(h, k.sib.Top(), k.id, k.sib); }
    ReplacedSubtree(h, k.Parent(), t, heir);
    GraftFresh(h, ReplaceHeap(h, t.id, heir), root, if k.Step? then root else heir, k, t, t.(id := heir), heir);
  }

  lemma {:induction false} ReplacedSubtree(h: Heap, par: Ptr, t: Tree, heir: Ptr)
    requires t.Node? && Holds(h, t.id, par, t) && Distinct(t) && NULL !in h && par !in Ids(t)
    requires heir in h && heir !in Ids(t) && heir != par
    ensures Holds(ReplaceHeap(h, t.id, heir), heir, par, t.(id := heir)) && Distinct(t.(id := heir))
  {
    MkSplit(h, par, Left, t.color, t.left, t.id, t.right);
    var h' := ReplaceHeap(h, t.id, heir);
    Reparent(h, h', t.left, t.id, heir);
    Reparent(h, h', t.right, t.id, heir);
    MkJoin(h', par, Left, t.color, t.left, heir, t.right);
  }

  /** Two levels of context above a hole with a red parent. */
  lemma {:induction false} RedParent(k: Ctx, s: Tree, hb: nat)
    requires CtxBalanced(k, hb) && k.Step? && k.color == Red
    ensures k.up.Step? && k.up.color == Black && Balanced(k.sib, hb) && !k.sib.IsRed()
    ensures Balanced(k.up.sib, hb) && CtxBalanced(k.up.up, hb + 1) && k.Depth() == k.up.up.Depth() + 2
    ensures Plug(k, s) == Plug(k.up.up, Mk(k.up.d, Black, Mk(k.d, Red, s, k.id, k.sib), k.up.id, k.up.sib))
    ensures Plug(k, s) == Plug(Step(k.up.d, Black, k.up.id, k.up.sib, k.up.up), Mk(k.d, Red, s, k.id, k.sib))
  {
  }

  ghost predicate InsertInv(h: Heap, root: Ptr, node: Ptr, k: Ctx, s: Tree, hb: nat) {
    && IsTree(h, root, Plug(k, s)) && s.IsRed() && s.id == node
    && Balanced(s, hb) && CtxBalanced(k, hb) && InsertShape(h, k, s)
  }

  /** What the insertion loop reads from the heap. */
  ghost predicate InsertShape(h: Heap, k: Ctx, s: Tree) {
    && s.Node? && s.id in h && h[s.id].parent == k.Parent()
    && (k.Step? ==> k.id in h && k.id != NULL && h[k.id].color == k.color && h[k.id].Child(k.d) == s.id
                    && h[k.id].Child(k.d.Other()) != s.id && h[k.id].parent == k.up.Parent())
    && (k.Step? && k.color == Red ==>
          var g := k.up;
          g.Step? && g.color == Black && g.id in h && h[g.id].Child(g.d) == k.id
          && h[g.id].Child(g.d.Other()) == g.sib.Top()
          && g.sib.Top() != k.id
          && (g.sib.Node? ==> g.sib.id in h && g.sib.id != NULL && h[g.sib.id].color == g.sib.color))
  }

  lemma {:induction false} InsertView(h: Heap, root: Ptr, k: Ctx, s: Tree, hb: nat)
    requires IsTree(h, root, Plug(k, s)) && s.Node? && CtxBalanced(k, hb)
    ensures InsertShape(h, k, s)
  {
    Split(h, root, k, s);
    if k.Step? {
      MkSplit(h, k.up.Parent(), k.d, k.color, s, k.id, k.sib) by {
        Split(h, root, k.up, Mk(k.d, k.color, s, k.id, k.sib));
      }
      HoldsIds(h, k.sib.Top(), k.id, k.sib);
      if k.color == Red {
        var g := k.up;
        var p := Mk(k.d, Red, s, k.id, k.sib);
        assert Plug(k, s) == Plug(g, p) == Plug(g.up, Mk(g.d, g.color, p, g.id, g.sib));
        MkSplit(h, g.up.Parent(), g.d, g.color, p, g.id, g.sib) by {
          Split(h, root, g.up, Mk(g.d, g.color, p, g.id, g.sib));
        }
        HoldsIds(h, g.sib.Top(), g.id, g.sib);
      }
    }
  }

  /** Subtrees with the same in-order sequence and node set may replace each other under a context. */
  lemma {:induction false} PlugSame(k: Ctx, t: Tree, t': Tree)
    requires InOrder(t') == InOrder(t) && Ids(t') == Ids(t)
    ensures InOrder(Plug(k, t')) == InOrder(Plug(k, t)) && Ids(Plug(k, t')) == Ids(Plug(k, t))
  {
    PlugInOrder(k, t);
    PlugInOrder(k, t');
    PlugIds(k, t);
    PlugIds(k, t');
  }

  /** The hole is one black node short: `t` has black height `hb`, its context wants `hb + 1`. */
  ghost predicate EraseInv(h: Heap, root: Ptr, node: Ptr, parent: Ptr, k: Ctx, t: Tree, hb: nat) {
    && IsTree(h, root, Plug(k, t)) && t.Top() == node && k.Parent() == parent
    && CtxBalanced(k, hb + 1) && if t.IsRed() then Balanced(t.(color := Black), hb + 1) else Balanced(t, hb)
  }

  /** What the erasure loop tests. */
  ghost predicate EraseShape(h: Heap, root: Ptr, node: Ptr, k: Ctx, t: Tree) {
    && t.Top() == node && (t.Node? ==> node != NULL && node in h && h[node].color == t.color)
    && (node == root <==> k.Root?)
  }

  lemma {:induction false} EraseView(h: Heap, root: Ptr, node: Ptr, parent: Ptr, k: Ctx, t: Tree, hb: nat)
    requires EraseInv(h, root, node, parent, k, t, hb)
    ensures EraseShape(h, root, node, k, t)
  {
    Split(h, root, k, t);
    if k.Step? { RootInCtx(h, root, node, k); }
  }

  lemma {:induction false} RootInCtx(h: Heap, root: Ptr, hole: Ptr, k: Ctx)
    requires HoldsCtx(h, root, hole, k) && k.Step?
    ensures root in CtxIds(k) && root != NULL
    decreases k
  {
    if k.up.Step? { RootInCtx(h, root, k.id, k.up); }
  }

  lemma {:induction false} FinishErase(k: Ctx, t: Tree, hb: nat)
    requires t.Node? && CtxBalanced(k, hb + 1) && (t.IsRed() || k.Root?)
    requires if t.IsRed() then Balanced(t.(color := Black), hb + 1) else Balanced(t, hb)
    ensures RedBlack(Plug(k, t.(color := Black)))
  {
    PlugBalanced(k, t.(color := Black), if t.IsRed() then hb + 1 else hb);
  }

  /** What the erasure loop reads: the parent, its children, and the sibling's children. */
  lemma {:induction false} SiblingView(h: Heap, root: Ptr, k: Ctx, t: Tree, hb: nat)
    requires IsTree(h, root, Plug(k, t)) && k.Step? && Balanced(t, hb) && CtxBalanced(k, hb + 1)
    ensures k.id in h && k.id != NULL && h[k.id].color == k.color
    ensures k.sib.Node? && k.sib.id in h && k.sib.id != NULL && h[k.sib.id].color == k.sib.color
    ensures h[k.id].Child(k.d) == t.Top() && h[k.id].Child(k.d.Other()) == k.sib.id && t.Top() != k.sib.id
    ensures forall d :: var q := k.sib.Kid(d);
              h[k.sib.id].Child(d) == q.Top() && (q.Node? ==> q.id != NULL && q.id in h && h[q.id].color == q.color)
    ensures k.sib == Mk(k.d, k.sib.color, k.sib.Kid(k.d), k.sib.id, k.sib.Kid(k.d.Other()))
  {
    Split(h, root, k, t);
    assert Plug(k, t) == Plug(k.up, Mk(k.d, k.color, t, k.id, k.sib));
    Split(h, root, k.up, Mk(k.d, k.color, t, k.id, k.sib));
    MkSplit(h, k.up.Parent(), k.d, k.color, t, k.id, k.sib);
    MkSplit(h, k.id, Left, k.sib.color, k.sib.left, k.sib.id, k.sib.right);
  }

  lemma {:induction false} RotatedBalanced(k: Ctx, t: Tree, n: Tree, other: Ptr, f: Tree, hb: nat)
    requires k.Step? && CtxBalanced(k, hb + 1) && Balanced(t, hb) && Balanced(n, hb) && f.IsRed() && Balanced(f, hb)
    ensures RedBlack(Plug(k.up, Mk(k.d, k.color, Mk(k.d, Black, t, k.id, n), other, f.(color := Black))))
  {
    PlugBalanced(k.up, Mk(k.d, k.color, Mk(k.d, Black, t, k.id, n), other, f.(color := Black)),
                 if k.color == Black then hb + 2 else hb + 1);
  }

  /** Once the sibling is red the whole subtree is one black node short, and the hole moves up. */
  lemma {:induction false} EraseUp(h: Heap, root: Ptr, k: Ctx, t: Tree, hb: nat)
    requires k.Step? && CtxBalanced(k, hb + 1) && Balanced(t, hb) && !t.IsRed() && k.sib.Node? && !k.sib.IsRed()
    requires !k.sib.left.IsRed() && !k.sib.right.IsRed()
    requires IsTree(h, root, Plug(k.up, Mk(k.d, k.color, t, k.id, k.sib.(color := Red))))
    ensures EraseInv(h, root, k.id, k.up.Parent(), k.up, Mk(k.d, k.color, t, k.id, k.sib.(color := Red)),
                     if k.color == Black then hb + 1 else hb)
    ensures k.id in h && h[k.id].parent == k.up.Parent()
  {
    Split(h, root, k.up, Mk(k.d, k.color, t, k.id, k.sib.(color := Red)));
  }

  lemma {:induction false} PlugTwo(k: Ctx, d: Side, c: Color, a: Tree, x: Ptr, c': Color, b: Tree, y: Ptr, e: Tree)
    ensures Plug(Step(d.Other(), c', y, b, Step(d.Other(), c, x, a, k)), e) ==
            Plug(k, Mk(d, c, a, x, Mk(d, c', b, y, e)))
  {
    assert Plug(Step(d.Other(), c', y, b, Step(d.Other(), c, x, a, k)), e) ==
           Plug(Step(d.Other(), c, x, a, k), Mk(d, c', b, y, e));
  }

  lemma {:induction false} ParentHeld(h: Heap, root: Ptr, k: Ctx, d: Side, c: Color, a: Tree, id: Ptr, b: Tree)
    requires IsTree(h, root, Plug(k, Mk(d, c, a, id, b)))
    ensures id in h && h[id].color == c
  {
    Split(h, root, k, Mk(d, c, a, id, b));
  }

  /** A rotation, in either direction and with any recolouring, keeps the in-order sequence. */
  lemma {:induction false} RotateSame(k: Ctx, d: Side, c0: Color, c1: Color, a: Tree, x: Ptr, c2: Color, c3: Color,
                                      b: Tree, y: Ptr, e: Tree)
    ensures InOrder(Plug(k, Mk(d, c0, a, x, Mk(d, c2, b, y, e)))) ==
            InOrder(Plug(k, Mk(d, c3, Mk(d, c1, a, x, b), y, e)))
    ensures Ids(Plug(k, Mk(d, c0, a, x, Mk(d, c2, b, y, e)))) == Ids(Plug(k, Mk(d, c3, Mk(d, c1, a, x, b), y, e)))
  {
    var t, t' := Mk(d, c0, a, x, Mk(d, c2, b, y, e)), Mk(d, c3, Mk(d, c1, a, x, b), y, e);
    if d == Left {
      assert InOrder(t) == InOrder(a) + [x] + (InOrder(b) + [y] + InOrder(e)) == InOrder(t');
    } else {
      assert InOrder(t) == InOrder(e) + [y] + InOrder(b) + [x] + InOrder(a) == InOrder(t');
    }
    PlugSame(k, t, t');
  }

  lemma {:induction false} RootHeld(h: Heap, root: Ptr, t: Tree, s: set<Ptr>)
    requires IsTree(h, root, t) && t.Node? && Ids(t) <= s
    ensures root == t.id && root in h && root in s && Plug(Root, t) == t
  {
  }

  ghost predicate RotatedLinks(h: Heap, h': Heap, d: Side, node: Ptr, root: Ptr, root': Ptr)
    requires node in h && h[node].Child(d.Other()) in h
  {
    var right := h[node].Child(d.Other());
    var parent := h[node].parent;
    var inner := h[right].Child(d);
    && h'.Keys == h.Keys && SameOutside(h, h', {node, right, inner, parent})
    && h'[node] == h[node].WithChild(d.Other(), inner).(parent := right)
    && h'[right] == h[right].WithChild(d, node).(parent := parent)
    && (inner in h ==> h'[inner] == h[inner].(parent := node))
    && if parent in h then
         && root' == root
         && h'[parent] == h[parent].WithChild(if h[parent].Child(d) == node then d else d.Other(), right)
       else root' == right
  }

  /** The five pieces taking part in a rotation, laid out flat. */
  ghost predicate Pieces(h: Heap, par: Ptr, d: Side,
                         c: Color, a: Tree, node: Ptr, sc: Color, b: Tree, sid: Ptr, e: Tree) {
    && NULL !in h && node in h && sid in h && Ids(a) <= h.Keys && Ids(b) <= h.Keys && Ids(e) <= h.Keys
    && (par in h || par == NULL) && node != sid && par != node && par != sid
    && par !in Ids(a) && par !in Ids(b) && par !in Ids(e)
    && node !in Ids(a) && node !in Ids(b) && node !in Ids(e)
    && sid !in Ids(a) && sid !in Ids(b) && sid !in Ids(e)
    && Ids(a) !! Ids(b) && Ids(a) !! Ids(e) && Ids(b) !! Ids(e)
    && h[node].parent == par && h[node].color == c && h[sid].color == sc
    && h[node].Child(d) == a.Top() && Holds(h, a.Top(), node, a) && Distinct(a)
    && h[node].Child(d.Other()) == sid
    && h[sid].Child(d) == b.Top() && Holds(h, b.Top(), sid, b) && Distinct(b)
    && h[sid].Child(d.Other()) == e.Top() && Holds(h, e.Top(), sid, e) && Distinct(e)
  }

  lemma {:induction false} RotatePieces(h: Heap, root: Ptr, d: Side, k: Ctx,
                     c: Color, a: Tree, node: Ptr, sc: Color, b: Tree, sid: Ptr, e: Tree)
    requires IsTree(h, root, Plug(k, Mk(d, c, a, node, Mk(d, sc, b, sid, e))))
    ensures Pieces(h, k.Parent(), d, c, a, node, sc, b, sid, e)
    ensures Ids(Mk(d, c, a, node, Mk(d, sc, b, sid, e))) == Ids(a) + {node} + Ids(b) + {sid} + Ids(e)
    ensures k.Step? ==> k.id in h && h[k.id].Child(k.d) == node && h[k.id].Child(k.d.Other()) != node
    ensures Apart(h, root, k, Mk(d, c, a, node, Mk(d, sc, b, sid, e)))
  {
    Split(h, root, k, Mk(d, c, a, node, Mk(d, sc, b, sid, e)));
    MkSplit(h, k.Parent(), d, c, a, node, Mk(d, sc, b, sid, e));
    MkSplit(h, node, d, sc, b, sid, e);
    if k.Step? {
      HoldsIds(h, h[k.id].Child(k.d.Other()), k.id, k.sib);
    }
  }

  lemma {:induction false} RotatedSubtree(h: Heap, h': Heap, root: Ptr, root': Ptr, par: Ptr, d: Side,
                       c: Color, a: Tree, node: Ptr, sc: Color, b: Tree, sid: Ptr, e: Tree)
    requires Pieces(h, par, d, c, a, node, sc, b, sid, e)
    requires RotatedLinks(h, h', d, node, root, root')
    ensures Holds(h', sid, par, Mk(d, sc, Mk(d, c, a, node, b), sid, e))
    ensures Distinct(Mk(d, sc, Mk(d, c, a, node, b), sid, e))
    ensures Ids(Mk(d, sc, Mk(d, c, a, node, b), sid, e)) == Ids(a) + {node} + Ids(b) + {sid} + Ids(e)
  {
    HoldsFrame(h, h', a.Top(), node, a);
    Reparent(h, h', b, sid, node);
    HoldsFrame(h, h', e.Top(), sid, e);
    MkJoin(h', sid, d, c, a, node, b);
    MkJoin(h', par, d, sc, Mk(d, c, a, node, b), sid, e);
  }

  lemma {:induction false} RotatedTree(h: Heap, h': Heap, root: Ptr, root': Ptr, d: Side, k: Ctx,
                    c: Color, a: Tree, node: Ptr, sc: Color, b: Tree, sid: Ptr, e: Tree)
    requires IsTree(h, root, Plug(k, Mk(d, c, a, node, Mk(d, sc, b, sid, e))))
    requires node in h && h[node].Child(d.Other()) in h && RotatedLinks(h, h', d, node, root, root')
    ensures IsTree(h', root', Plug(k, Mk(d, sc, Mk(d, c, a, node, b), sid, e)))
    ensures SameOutside(h, h', Ids(Plug(k, Mk(d, c, a, node, Mk(d, sc, b, sid, e)))))
  {
    var t, t' := Mk(d, c, a, node, Mk(d, sc, b, sid, e)), Mk(d, sc, Mk(d, c, a, node, b), sid, e);
    RotatePieces(h, root, d, k, c, a, node, sc, b, sid, e);
    RotatedSubtree(h, h', root, root', k.Parent(), d, c, a, node, sc, b, sid, e);
    Graft(h, h', root, root', k, t, t');
  }

  /** Replacing the subtree at a hole by another one made of nodes outside the context. */
  lemma {:induction false} Graft(h: Heap, h': Heap, root: Ptr, root': Ptr, k: Ctx, t: Tree, t': Tree)
    requires Apart(h, root, k, t)
    requires Holds(h', t'.Top(), k.Parent(), t') && Distinct(t') && Ids(t') !! CtxIds(k) && NULL !in h'
    requires if k.Step? then root' == root && k.id in h && k.id in h' && h'[k.id] == h[k.id].WithChild(k.d, t'.Top())
             else root' == t'.Top()
    requires SameOutside(h, h', Ids(t) + {k.Parent()})
    ensures IsTree(h', root', Plug(k, t')) && SameOutside(h, h', Ids(Plug(k, t)))
  {
    PlugIds(k, t);
    Rehang(h, h', root, root', k, t.Top(), t'.Top());
    Join(h', root', k, t');
  }

  /** The same with one more node, which was outside the tree. */
  lemma {:induction false} GraftFresh(h: Heap, h': Heap, root: Ptr, root': Ptr, k: Ctx, t: Tree, t': Tree, heir: Ptr)
    requires Apart(h, root, k, t)
    requires Holds(h', t'.Top(), k.Parent(), t') && Distinct(t') && Ids(t') !! CtxIds(k) && NULL !in h'
    requires if k.Step? then root' == root && k.id in h && k.id in h' && h'[k.id] == h[k.id].WithChild(k.d, t'.Top())
             else root' == t'.Top()
    requires heir !in CtxIds(k) && SameOutside(h, h', Ids(t) + {k.Parent(), heir})
    ensures IsTree(h', root', Plug(k, t'))
  {
    Rehang(h, h', root, root', k, t.Top(), t'.Top());
    Join(h', root', k, t');
  }

  /** Changing only the parent field of its top moves a subtree below another node. */
  lemma {:induction false} Reparent(h: Heap, h': Heap, t: Tree, par: Ptr, par': Ptr)
    requires Holds(h, t.Top(), par, t) && Distinct(t)
    requires t.Node? ==> t.id in h' && h'[t.id] == h[t.id].(parent := par')
    requires forall x :: x in Ids(t) && x != t.Top() ==> x in h && x in h' && h'[x] == h[x]
    ensures Holds(h', t.Top(), par', t)
  {
    if t.Node? {
      HoldsFrame(h, h', h[t.id].left, t.id, t.left);
      HoldsFrame(h, h', h[t.id].right, t.id, t.right);
    }
  }

  /** Storing a new child address in the lowest node of a context (or in the root) re-hangs the hole. */
  lemma {:induction false} Rehang(h: Heap, h': Heap, root: Ptr, root': Ptr, k: Ctx, hole: Ptr, hole': Ptr)
    requires HoldsCtx(h, root, hole, k) && CtxDistinct(k)
    requires if k.Step? then root' == root && k.id in h' && h'[k.id] == h[k.id].WithChild(k.d, hole')
             else root' == hole'
    requires forall x :: x in CtxIds(k) && x != k.Parent() ==> x in h && x in h' && h'[x] == h[x]
    ensures HoldsCtx(h', root', hole', k)
  {
    if k.Step? {
      HoldsFrame(h, h', h[k.id].Child(k.d.Other()), k.id, k.sib);
      HoldsCtxFrame(h, h', root, k.id, k.up);
    }
  }

  /** The record of a tree node does not carry the mark of a node outside every tree. */
  lemma {:induction false} NotErased(h: Heap, root: Ptr, t: Tree, x: Ptr)
    requires IsTree(h, root, t) && x in Ids(t)
    ensures x in h && h[x].parent != x
  {
    var k, s := Locate(Root, t, x);
    Split(h, root, k, s);
  }

  lemma {:induction false} AddedIds(t: Tree, t': Tree, x: Ptr, k: Ctx)
    requires t == Plug(k, Leaf) && InOrder(t') == Before(k) + [x] + After(k)
    ensures Ids(t') == Ids(t) + {x}
  {
    PlugInOrder(k, Leaf);
    forall y ensures y in Ids(t') <==> y in Ids(t) + {x} {
      InOrderIds(t, y);
      InOrderIds(t', y);
    }
  }

  lemma {:induction false} ErasedMembers(t: Tree, t': Tree, x: Ptr)
    requires Distinct(t) && x in Ids(t) && InOrder(t') == Without(InOrder(t), x)
    ensures Ids(t') == Ids(t) - {x}
  {
    var k, s := Locate(Root, t, x);
    WithoutTop(k, s);
    PlugInOrder(k, s);
    PlugIds(k, s);
    Regroup(Before(k), InOrder(s.left), x, InOrder(s.right), After(k));
    forall y ensures y in Ids(t') <==> y in Ids(t) - {x} {
      InOrderIds(t', y);
      InOrderIds(t, y);
      InOrderIds(s.left, x);
      InOrderIds(s.right, x);
      if x in Before(k) { BeforeIds(k, x); }
      if x in After(k) { AfterIds(k, x); }
    }
  }
}
