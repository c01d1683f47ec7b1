/** The shuffle order of src/core/track.c: a red-black tree read as a sequence of positions.  Keys are drawn at
    random once; later moves place a track by position and ignore the keys. */
module Shuffle {
  import opened RbShape
  import opened RbTree
  import opened Order

  /** `s` with `x` moved to directly after `after`, or to the front when `after` is NULL. */
  function MovedAfter(s: seq<Ptr>, after: Ptr, x: Ptr): seq<Ptr> {
    InsertedAfter(Without(s, x), after, x)
  }

  function InsertedAfter(s: seq<Ptr>, after: Ptr, x: Ptr): seq<Ptr> {
    if after == NULL || s == [] then [x] + s
    else if s[0] == after then [after, x] + s[1..]
    else [s[0]] + InsertedAfter(s[1..], after, x)
  }

  lemma {:induction false} InsertedAfterMiddle(a: seq<Ptr>, after: Ptr, b: seq<Ptr>, x: Ptr)
    requires after != NULL && after !in a
    ensures InsertedAfter(a + [after] + b, after, x) == a + [after] + [x] + b
  {
    if a == [] {
      assert a + [after] + b == [after] + b;
    } else {
      assert (a + [after] + b)[1..] == a[1..] + [after] + b;
      InsertedAfterMiddle(a[1..], after, b, x);
    }
  }

  class ShuffleTree {
    const arena: Arena
    /** The number drawn for each track when it was added. */
    var rand: map<Ptr, real>
    var root: Ptr
    ghost var tree: Tree

    ghost predicate Valid()
      reads this, arena
    {
      IsTree(arena.nodes, root, tree) && RedBlack(tree) && Ids(tree) <= rand.Keys
    }

    /** The play order. */
    ghost function Contents(): seq<Ptr>
      reads this
    {
      InOrder(tree)
    }

    constructor (arena: Arena, rand: map<Ptr, real>)
      requires NULL !in arena.nodes
      ensures this.arena == arena && this.rand == rand && Valid() && Contents() == [] && tree == Leaf
    {
      this.arena := arena;
      this.rand := rand;
      root, tree := NULL, Leaf;
      new;
      assert Balanced(Leaf, 0);
    }

    /** The place directly after `previous`: the leftmost hole of its right subtree, or of the whole tree. */
    method FindSpot(previous: Ptr, ghost next: Ptr) returns (parent: Ptr, d: Side, ghost k: Ctx)
      requires Valid() && (previous != NULL ==> previous in Ids(tree))
      ensures Plug(k, Leaf) == tree && parent == k.Parent() && (k.Step? ==> d == k.d)
      ensures Before(k) + [next] + After(k) == InsertedAfter(Contents(), previous, next)
    {
      parent, d := NULL, Left;
      var at := root;
      k := Root;
      ghost var s := tree;
      if previous != NULL {
        k, s := Locate(Root, tree, previous);
        Split(arena.nodes, root, k, s);
        MkSplit(arena.nodes, k.Parent(), Left, s.color, s.left, previous, s.right);
        InsertedAfterHole(k, s, next);
        parent, d := previous, Right;
        at := arena.nodes[previous].right;
        k, s := Step(Right, s.color, previous, s.left, k), s.right;
      }
      ghost var b := InOrder(s) + After(k);
      while at != NULL
        invariant Plug(k, s) == tree && Holds(arena.nodes, at, k.Parent(), s)
        invariant InOrder(s) + After(k) == b && InsertedAfter(Contents(), previous, next) == Before(k) + [next] + b
        invariant parent == k.Parent() && (k.Step? ==> d == k.d)
        decreases s
      {
        parent, d := at, Left;
        at := arena.nodes[at].left;
        StepLeft(k, s);
        k, s := Step(Left, s.color, s.id, s.right, k), s.left;
      }
      assert b == After(k);
    }

    /** shuffle_insert. */
    method MoveAfter(previous: Ptr, next: Ptr)
      requires Valid() && next in Contents() && (previous != NULL ==> previous in Contents())
      modifies this`root, this`tree, arena
      ensures Valid()
      ensures Contents() == if previous == next then old(Contents()) else MovedAfter(old(Contents()), previous, next)
      ensures SameOutside(old(arena.nodes), arena.nodes, Ids(old(tree)))
    {
      if previous == next {
        return;
      }
      InOrderIds(tree, next);
      InOrderIds(tree, previous);
      NotErased(arena.nodes, root, tree, next);
      ghost var t0 := tree;
      root, tree := arena.Erase(next, root, tree);
      ErasedMembers(t0, tree, next);
      var parent, d, k := FindSpot(previous, next);
      t0 := tree;
      root, tree := arena.Insert(next, parent, d, root, k);
      AddedIds(t0, tree, next, k);
    }

    /** The descent of shuffle_list_add by the number drawn for `track`; it stops short on a collision. */
    method FindHole(track: Ptr) returns (hit: bool, parent: Ptr, d: Side, ghost k: Ctx)
      requires Valid() && track in rand && track !in Ids(tree)
      ensures hit ==> parent in Ids(tree) && rand[parent] == rand[track]
      ensures !hit ==> Plug(k, Leaf) == tree && parent == k.Parent() && (k.Step? ==> d == k.d)
      ensures !hit && Rising(rand, Contents()) ==> Straddles(rand, k, rand[track])
    {
      hit, parent, d := false, NULL, Left;
      var at := root;
      ghost var s := tree;
      k := Root;
      while at != NULL
        invariant Plug(k, s) == tree && Holds(arena.nodes, at, k.Parent(), s)
        invariant parent == k.Parent() && (k.Step? ==> d == k.d)
        invariant Rising(rand, Contents()) ==> Straddles(rand, k, rand[track])
        decreases s
      {
        parent := at;
        PlugIds(k, s);
        if rand[track] < rand[at] {
          if Rising(rand, Contents()) { StraddleStep(rand, k, s, rand[track]); }
          at, d := arena.nodes[at].left, Left;
          k, s := Step(Left, s.color, s.id, s.right, k), s.left;
        } else if rand[track] > rand[at] {
          if Rising(rand, Contents()) { StraddleStep(rand, k, s, rand[track]); }
          at, d := arena.nodes[at].right, Right;
          k, s := Step(Right, s.color, s.id, s.left, k), s.right;
        } else {
          hit := true;
          return;
        }
      }
    }

    /** shuffle_list_add, drawing again on a collision.  `draws` is what the random number generator returns from now
        on; its last number collides with no track. */
    method Add(track: Ptr, draws: seq<real>)
      requires Valid() && track in arena.nodes && track !in Ids(tree)
      requires draws != [] && forall y :: y in Ids(tree) && y in rand ==> rand[y] != draws[|draws| - 1]
      modifies this, arena
      ensures Valid() && track in rand && rand[track] in draws && rand == old(rand)[track := rand[track]]
      ensures InsertedSomewhere(old(Contents()), Contents(), track) && Ids(tree) == Ids(old(tree)) + {track}
      ensures old(Rising(rand, Contents())) ==> Rising(rand, Contents())
      ensures SameOutside(old(arena.nodes), arena.nodes, Ids(old(tree)) + {track})
      decreases |draws|
    {
      ghost var rand0, t0 := rand, tree;
      rand := rand[track := draws[0]];
      SameRand(rand0, rand, tree, track);
      var hit, parent, d, k := FindHole(track);
      if hit {
        Add(track, draws[1..]);
        return;
      }
      PlugInOrder(k, Leaf);
      assert InOrder(t0) == Before(k) + After(k);
      root, tree := arena.Insert(track, parent, d, root, k);
      AddedIds(t0, tree, track, k);
      InsertedHere(Before(k), track, After(k));
      if Rising(rand, InOrder(t0)) { RisingInserted(rand, Before(k), track, After(k)); }
    }

    /** One round of the reshuffle: the first track leaves for `tmp`. */
    method MoveFirst(tmp: ShuffleTree, node: Ptr, draws: seq<real>)
      requires Valid() && tmp != this && tmp.arena == arena && tmp.Valid() && Ids(tmp.tree) !! Ids(tree)
      requires Contents() != [] && Contents()[0] == node && node in tmp.rand
      requires draws != [] && forall y :: y in Ids(tmp.tree) && y in tmp.rand ==> tmp.rand[y] != draws[|draws| - 1]
      modifies this, tmp, arena
      ensures Valid() && tmp.Valid() && rand == old(rand)
      ensures Contents() == old(Contents())[1..] && Ids(tree) == Ids(old(tree)) - {node} && node in Ids(old(tree))
      ensures Ids(tmp.tree) == Ids(old(tmp.tree)) + {node}
      ensures InsertedSomewhere(old(tmp.Contents()), tmp.Contents(), node)
      ensures old(Rising(tmp.rand, tmp.Contents())) ==> Rising(tmp.rand, tmp.Contents())
      ensures node in tmp.rand && tmp.rand[node] in draws && tmp.rand == old(tmp.rand)[node := tmp.rand[node]]
      ensures SameOutside(old(arena.nodes), arena.nodes, Ids(old(tree)) + Ids(old(tmp.tree)))
    {
      ghost var t0, h := tree, arena.nodes;
      InOrderIds(tree, node);
      root, tree := arena.Erase(node, root, tree);
      ErasedMembers(t0, tree, node);
      TreeFrame(h, arena.nodes, tmp.root, tmp.tree);
      h := arena.nodes;
      NotErased(old(arena.nodes), old(root), t0, node);
      tmp.Add(node, draws);
      TreeFrame(h, arena.nodes, root, tree);
    }

    /** The track after the first, as rb_for_each_safe looks it up. */
    method Second(node: Ptr) returns (next: Ptr)
      requires Valid() && node == Nth(Contents(), 0)
      ensures next == Nth(Contents(), 1)
    {
      NthNode(arena.nodes, root, tree);
      next := NULL;
      if node != NULL {
        InTree(arena.nodes, root, tree, node);
        next := arena.Neighbour(Right, node, root, tree);
      }
    }

    /** The state of the reshuffle loop, with `node` up next and `next` after it. */
    ghost predicate Shuffling(tmp: ShuffleTree, node: Ptr, next: Ptr, all: seq<Ptr>, visited: seq<Ptr>,
                              draws: seq<seq<real>>, n: nat, ids: set<Ptr>)
      reads this, arena, tmp
    {
      && Valid() && tmp != this && tmp.arena == arena && tmp.Valid() && rand.Keys == tmp.rand.Keys
      && node == Nth(Contents(), 0) && next == Nth(Contents(), 1)
      && Underway(all, visited, Contents(), tmp.Contents(), tmp.rand, draws, n)
      && Parts(Ids(tmp.tree), Ids(tree), ids)
    }

    /** One round of shuffle_list_reshuffle. */
    method Round(tmp: ShuffleTree, node: Ptr, next: Ptr, draws: seq<seq<real>>, n: nat,
                 ghost all: seq<Ptr>, ghost visited: seq<Ptr>, ghost ids: set<Ptr>) returns (next': Ptr)
      requires Shuffling(tmp, node, next, all, visited, draws, n, ids) && node != NULL
      requires |draws| == |all| && FreshDraws(draws)
      modifies this, tmp, arena
      ensures Shuffling(tmp, next, next', all, visited + [node], draws, n + 1, ids)
      ensures Contents() == old(Contents())[1..] && SameOutside(old(arena.nodes), arena.nodes, ids)
    {
      ghost var s, s', r := Contents(), tmp.Contents(), tmp.rand;
      ghost var mine, theirs := Ids(tmp.tree), Ids(tree);
      InTree(arena.nodes, root, tree, node);
      FreshNow(draws, n, all, visited, s, tmp.tree, r);
      MoveFirst(tmp, node, draws[n]);
      UnderwayStep(all, visited, s, s', tmp.Contents(), r, tmp.rand, draws, n);
      PartsStep(mine, theirs, ids, node);
      next' := Second(next);
    }

    /** The loop of shuffle_list_reshuffle: erases while walking and adds to `tmp`; `draws[i]` serves the i-th track. */
    method Drain(tmp: ShuffleTree, first: Ptr, draws: seq<seq<real>>) returns (ghost visited: seq<Ptr>)
      requires Valid() && |draws| == |Contents()| && FreshDraws(draws) && first == Nth(Contents(), 0)
      requires tmp != this && tmp.arena == arena && tmp.Valid() && tmp.tree == Leaf && tmp.rand == rand
      modifies this, tmp, arena
      ensures tmp.Valid() && Rising(tmp.rand, tmp.Contents()) && tree == Leaf
      ensures visited == old(Contents()) && multiset(tmp.Contents()) == multiset(visited)
      ensures SameOutside(old(arena.nodes), arena.nodes, Ids(old(tree)))
    {
      ghost var all, ids := Contents(), Ids(tree);
      var node, n := first, 0;
      var next := Second(node);
      visited := [];
      while node != NULL
        invariant Shuffling(tmp, node, next, all, visited, draws, n, ids)
        invariant SameOutside(old(arena.nodes), arena.nodes, ids)
        decreases |Contents()|
      {
        var next' := Round(tmp, node, next, draws, n, all, visited, ids);
        visited := visited + [node];
        n := n + 1;
        node, next := next, next';
      }
      NthNode(arena.nodes, root, tree);
    }

    /** shuffle_list_reshuffle. */
    method Reshuffle(draws: seq<seq<real>>) returns (ghost visited: seq<Ptr>)
      requires Valid() && |draws| == |Contents()| && FreshDraws(draws)
      modifies this, arena
      ensures Valid() && Rising(rand, Contents())
      ensures visited == old(Contents()) && multiset(Contents()) == multiset(visited)
      ensures SameOutside(old(arena.nodes), arena.nodes, Ids(old(tree)))
    {
      var tmp := new ShuffleTree(arena, rand);
      var node := arena.End(Left, root, tree);
      visited := Drain(tmp, node, draws);
      root, tree, rand := tmp.root, tmp.tree, tmp.rand;
    }
  }

  ghost predicate Parts(a: set<Ptr>, b: set<Ptr>, whole: set<Ptr>) { a !! b && a + b == whole }

  lemma PartsStep(a: set<Ptr>, b: set<Ptr>, whole: set<Ptr>, x: Ptr)
    requires Parts(a, b, whole) && x in b
    ensures Parts(a + {x}, b - {x}, whole)
  {
  }

  function Nth(s: seq<Ptr>, i: nat): Ptr { if i < |s| then s[i] else NULL }

  lemma {:induction false} NthNode(h: Heap, root: Ptr, t: Tree)
    requires IsTree(h, root, t)
    ensures NULL !in InOrder(t)
  {
    InOrderIds(t, NULL);
    HoldsIds(h, root, NULL, t);
  }

  /** The state between two rounds of the reshuffle. */
  ghost predicate Underway(all: seq<Ptr>, visited: seq<Ptr>, rest: seq<Ptr>, shuffled: seq<Ptr>, rand: map<Ptr, real>,
                           draws: seq<seq<real>>, n: nat) {
    && n == |visited| && visited + rest == all && multiset(shuffled) == multiset(visited) && Rising(rand, shuffled)
    && forall y :: y in shuffled ==> y in rand && DrawnBefore(draws, n, rand[y])
  }

  lemma {:induction false} FreshNow(draws: seq<seq<real>>, n: nat, all: seq<Ptr>, visited: seq<Ptr>, rest: seq<Ptr>,
                                    t: Tree, rand: map<Ptr, real>)
    requires FreshDraws(draws) && |draws| == |all| && rest != []
             && Underway(all, visited, rest, InOrder(t), rand, draws, n)
    ensures n < |draws| && draws[n] != []
    ensures forall y :: y in Ids(t) && y in rand ==> rand[y] != draws[n][|draws[n]| - 1]
  {
    forall y | y in Ids(t) && y in rand ensures rand[y] != draws[n][|draws[n]| - 1] { InOrderIds(t, y); }
  }

  lemma {:induction false} UnderwayStep(all: seq<Ptr>, visited: seq<Ptr>, rest: seq<Ptr>, s: seq<Ptr>, s': seq<Ptr>,
                                        r: map<Ptr, real>, r': map<Ptr, real>, draws: seq<seq<real>>, n: nat)
    requires Underway(all, visited, rest, s, r, draws, n) && rest != [] && n < |draws|
    requires rest[0] in r' && r' == r[rest[0] := r'[rest[0]]] && r'[rest[0]] in draws[n]
    requires InsertedSomewhere(s, s', rest[0]) && Rising(r', s')
    ensures Underway(all, visited + [rest[0]], rest[1..], s', r', draws, n + 1)
  {
    var x := rest[0];
    InsertedCount(s, s', x);
    Shift(visited, rest);
    assert multiset(s') == multiset(visited + [x]);
    DrawnStep(draws, n, r, r', x);
    forall y | y in s' ensures y in r' && DrawnBefore(draws, n + 1, r'[y]) {
      assert y == x || y in s by { MembersFrom(s, s', x, y); }
    }
  }

  lemma Shift<T>(visited: seq<T>, rest: seq<T>)
    requires rest != []
    ensures (visited + [rest[0]]) + rest[1..] == visited + rest
  {
  }

  lemma MembersFrom(s: seq<Ptr>, s': seq<Ptr>, x: Ptr, y: Ptr)
    requires multiset(s') == multiset(s) + multiset{x} && y in s'
    ensures y == x || y in s
  {
    assert y in multiset(s');
    if y != x { assert y in multiset(s); }
  }

  /** Every list of draws ends with a number that no earlier list contains. */
  ghost predicate FreshDraws(draws: seq<seq<real>>) {
    forall i :: 0 <= i < |draws| ==> draws[i] != [] && !DrawnBefore(draws, i, draws[i][|draws[i]| - 1])
  }

  ghost predicate DrawnBefore(draws: seq<seq<real>>, n: nat, v: real) {
    exists j :: 0 <= j < n && j < |draws| && v in draws[j]
  }

  /** Drawing for a track outside the tree changes nothing in it. */
  lemma {:induction false} SameRand(rand: map<Ptr, real>, rand': map<Ptr, real>, t: Tree, x: Ptr)
    requires x !in Ids(t) && x in rand' && rand' == rand[x := rand'[x]]
    ensures Rising(rand, InOrder(t)) <==> Rising(rand', InOrder(t))
  {
    InOrderIds(t, x);
    forall y | y in InOrder(t) ensures y != x && (y in rand <==> y in rand') && (y in rand ==> rand[y] == rand'[y]) {}
  }

  lemma {:induction false} StepLeft(k: Ctx, s: Tree)
    requires s.Node?
    ensures var k' := Step(Left, s.color, s.id, s.right, k);
            Before(k') == Before(k) && InOrder(s.left) + After(k') == InOrder(s) + After(k)
            && Plug(k', s.left) == Plug(k, s)
  {
  }

  /** The drawn numbers increase strictly along `s`. */
  ghost predicate Rising(rand: map<Ptr, real>, s: seq<Ptr>) {
    (forall x :: x in s ==> x in rand) && forall i, j :: 0 <= i < j < |s| ==> rand[s[i]] < rand[s[j]]
  }

  lemma {:induction false} RisingMiddle(rand: map<Ptr, real>, a: seq<Ptr>, x: Ptr, b: seq<Ptr>)
    requires Rising(rand, a + [x] + b)
    ensures forall y :: y in a ==> y in rand && rand[y] < rand[x]
    ensures forall y :: y in b ==> y in rand && rand[x] < rand[y]
  {
    var s := a + [x] + b;
    assert s[|a|] == x;
    forall y | y in a ensures y in rand && rand[y] < rand[x] {
      var i :| 0 <= i < |a| && a[i] == y;
      assert s[i] == y;
    }
    forall y | y in b ensures y in rand && rand[x] < rand[y] {
      var i :| 0 <= i < |b| && b[i] == y;
      assert s[|a| + 1 + i] == y;
    }
  }

  /** Everything before the hole was drawn lower than `v`, everything after it higher. */
  ghost predicate Straddles(rand: map<Ptr, real>, k: Ctx, v: real) {
    (forall y :: y in Before(k) ==> y in rand && rand[y] < v) && forall y :: y in After(k) ==> y in rand && rand[y] > v
  }

  lemma {:induction false} StraddleStep(rand: map<Ptr, real>, k: Ctx, s: Tree, v: real)
    requires s.Node? && s.id in rand && rand[s.id] != v && Straddles(rand, k, v) && Rising(rand, InOrder(Plug(k, s)))
    ensures Straddles(rand, if v < rand[s.id] then Step(Left, s.color, s.id, s.right, k)
                      else Step(Right, s.color, s.id, s.left, k), v)
  {
    var a, b := Before(k) + InOrder(s.left), InOrder(s.right) + After(k);
    PlugInOrder(k, s);
    Regroup(Before(k), InOrder(s.left), s.id, InOrder(s.right), After(k));
    RisingMiddle(rand, a, s.id, b);
    assert (forall y :: y in InOrder(s.left) ==> y in a) && forall y :: y in InOrder(s.right) ==> y in b;
  }

  lemma {:induction false} RisingInserted(rand: map<Ptr, real>, a: seq<Ptr>, x: Ptr, b: seq<Ptr>)
    requires Rising(rand, a + b) && x in rand
    requires forall y :: y in a ==> y in rand && rand[y] < rand[x]
    requires forall y :: y in b ==> y in rand && rand[y] > rand[x]
    ensures Rising(rand, a + [x] + b)
  {
    var s, r := a + [x] + b, a + b;
    forall i, j | 0 <= i < j < |s| ensures rand[s[i]] < rand[s[j]] {
      assert i < |a| ==> s[i] == a[i] == r[i];
      assert j < |a| ==> s[j] == a[j] == r[j];
      assert i > |a| ==> s[i] == b[i - |a| - 1] == r[i - 1];
      assert j > |a| ==> s[j] == b[j - |a| - 1] == r[j - 1];
    }
  }

  /** `s'` is `s` with `x` put in at some position. */
  ghost predicate InsertedSomewhere(s: seq<Ptr>, s': seq<Ptr>, x: Ptr) {
    exists i :: 0 <= i <= |s| && s' == s[..i] + [x] + s[i..]
  }

  /** A member of the in-order sequence is a node of the arena. */
  lemma {:induction false} InTree(h: Heap, root: Ptr, t: Tree, x: Ptr)
    requires IsTree(h, root, t) && x in InOrder(t)
    ensures x in Ids(t) && x in h && x != NULL
  {
    InOrderIds(t, x);
    HoldsIds(h, root, NULL, t);
  }

  lemma DrawnStep(draws: seq<seq<real>>, n: nat, r: map<Ptr, real>, r': map<Ptr, real>, x: Ptr)
    requires n < |draws| && x in r' && r' == r[x := r'[x]] && r'[x] in draws[n]
    ensures DrawnBefore(draws, n + 1, r'[x])
    ensures forall y :: y in r && y != x && DrawnBefore(draws, n, r[y]) ==> DrawnBefore(draws, n + 1, r'[y])
  {
  }

  lemma InsertedHere(a: seq<Ptr>, x: Ptr, b: seq<Ptr>)
    ensures InsertedSomewhere(a + b, a + [x] + b, x)
  {
    var s := a + b;
    assert s[..|a|] == a && s[|a|..] == b;
  }

  lemma InsertedCount(s: seq<Ptr>, s': seq<Ptr>, x: Ptr)
    requires InsertedSomewhere(s, s', x)
    ensures multiset(s') == multiset(s) + multiset{x}
  {
    var i :| 0 <= i <= |s| && s' == s[..i] + [x] + s[i..];
    assert s == s[..i] + s[i..];
  }

  /** Inserting after the node at a hole, in terms of the hole of its right subtree. */
  lemma {:induction false} InsertedAfterHole(k: Ctx, s: Tree, x: Ptr)
    requires s.Node? && s.id != NULL && Distinct(Plug(k, s))
    ensures var k' := Step(Right, s.color, s.id, s.left, k);
            InsertedAfter(InOrder(Plug(k, s)), s.id, x) == Before(k') + [x] + (InOrder(s.right) + After(k'))
  {
    var a, b := Before(k) + InOrder(s.left), InOrder(s.right) + After(k);
    PlugInOrder(k, s);
    PlugIds(k, s);
    Regroup(Before(k), InOrder(s.left), s.id, InOrder(s.right), After(k));
    if s.id in a {
      if s.id in Before(k) { BeforeIds(k, s.id); } else { InOrderIds(s.left, s.id); }
    }
    InsertedAfterMiddle(a, s.id, b, x);
    var k' := Step(Right, s.color, s.id, s.left, k);
    assert Before(k') == a + [s.id] && After(k') == After(k);
  }
}
