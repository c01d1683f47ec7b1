/** The sorted track list of src/core/track.c: a list of tracks with a red-black tree that holds the first track
    of every run of equal keys. */
module TrackList {
  import opened RbShape
  import opened RbTree
  import opened Order
  import opened TrackOrder

  ghost function Members(s: seq<Ptr>): set<Ptr> { set x | x in s }

  ghost predicate MarkedIn(h: Heap, list: seq<Ptr>, t: Tree) {
    forall x :: x in list && x !in Ids(t) ==> x in h && h[x].parent == x
  }

  lemma MembersTail(s: seq<Ptr>)
    requires s != [] && NoRepeat(s)
    ensures Members(s[1..]) == Members(s) - {s[0]} && s[0] in Members(s)
  {
  }

  /** A change away from a list's tracks leaves its tree and its marks alone. */
  lemma {:induction false} ListFrame(cmp: Cmp<Ptr>, h: Heap, h': Heap, list: seq<Ptr>, root: Ptr, t: Tree, s: set<Ptr>)
    requires IsTree(h, root, t) && InOrder(t) == Firsts(cmp, list) && SameOutside(h, h', s) && s !! Members(list)
    ensures IsTree(h', root, t)
    ensures MarkedIn(h, list, t) ==> MarkedIn(h', list, t)
  {
    TreeInList(cmp, list, t);
    TreeFrame(h, h', root, t);
    assert forall x :: x in list ==> x in Members(list);
  }

  class SortedList {
    const arena: Arena
    var list: seq<Ptr>
    var root: Ptr
    ghost var tree: Tree

    /** List order and tree contents; says nothing about tracks outside the tree. */
    ghost predicate Ordered(cmp: Cmp<Ptr>)
      reads this, arena
    {
      && IsTree(arena.nodes, root, tree) && RedBlack(tree) && InOrder(tree) == Firsts(cmp, list)
      && Sorted(cmp, list) && NoRepeat(list) && forall x :: x in list ==> x in arena.nodes
    }

    /** A track of the list is marked as outside the tree when it is. */
    ghost predicate Marked()
      reads this, arena
    {
      MarkedIn(arena.nodes, list, tree)
    }

    ghost predicate Valid(cmp: Cmp<Ptr>)
      reads this, arena
    {
      Ordered(cmp) && Marked()
    }

    constructor (arena: Arena, ghost cmp: Cmp<Ptr>)
      requires NULL !in arena.nodes
      ensures this.arena == arena && list == [] && tree == Leaf && root == NULL && Valid(cmp)
    {
      this.arena := arena;
      list, root, tree := [], NULL, Leaf;
      new;
      assert Balanced(Leaf, 0);
    }

    /** The tree descent of sorted_list_add_track: an equal node, or the hole where the track belongs. */
    method Search(track: Ptr, cmp: Cmp<Ptr>)
      returns (found: bool, parent: Ptr, d: Side, result: int, ghost k: Ctx, ghost s: Tree)
      requires TotalPreorder(cmp) && Ordered(cmp)
      ensures Plug(k, s) == tree
      ensures forall x :: x in Before(k) ==> cmp(track, x) > 0
      ensures forall x :: x in After(k) ==> cmp(track, x) < 0
      ensures if found then s.Node? && s.id == parent && cmp(track, parent) == 0
              else s == Leaf && parent == k.Parent() && (k.Step? ==> d == k.d && result == cmp(track, parent))
      ensures !found ==> (if k.Root? then result == 0 else if k.d == Left then result < 0 else result > 0)
    {
      k, s := Root, tree;
      parent, d, result, found := NULL, Left, 0, false;
      var at := root;
      FirstsStrict(cmp, list);
      while at != NULL
        invariant Plug(k, s) == tree && Holds(arena.nodes, at, k.Parent(), s)
        invariant forall x :: x in Before(k) ==> cmp(track, x) > 0
        invariant forall x :: x in After(k) ==> cmp(track, x) < 0
        invariant parent == k.Parent() && (k.Step? ==> d == k.d && result == cmp(track, parent))
        invariant if k.Root? then result == 0 else if k.d == Left then result < 0 else result > 0
        decreases s
      {
        result := cmp(track, at);
        parent := at;
        if result < 0 {
          GoLeft(cmp, track, k, s);
          at, d := arena.nodes[at].left, Left;
          k, s := Step(Left, s.color, s.id, s.right, k), s.left;
        } else if result > 0 {
          GoRight(cmp, track, k, s);
          at, d := arena.nodes[at].right, Right;
          k, s := Step(Right, s.color, s.id, s.left, k), s.right;
        } else {
          found := true;
          return;
        }
      }
    }

    /** Links a track whose key is new; `node` is the track the list insertion goes before (NULL: the end). */
    method AddNew(track: Ptr, parent: Ptr, d: Side, result: int, ghost k: Ctx) returns (node: Ptr)
      requires IsTree(arena.nodes, root, tree) && RedBlack(tree) && tree == Plug(k, Leaf)
      requires track in arena.nodes && track !in Ids(tree) && parent == k.Parent() && (k.Step? ==> d == k.d)
      requires if k.Root? then result == 0 else if k.d == Left then result < 0 else result > 0
      modifies this`root, this`tree, arena
      ensures IsTree(arena.nodes, root, tree) && RedBlack(tree) && InOrder(tree) == Before(k) + [track] + After(k)
      ensures node == if After(k) == [] then NULL else After(k)[0]
      ensures SameOutside(old(arena.nodes), arena.nodes, Ids(old(tree)) + {track})
    {
      root, tree := arena.Insert(track, parent, d, root, k);
      if result < 0 {
        node := parent;
      } else if result > 0 {
        NextAfterInsert(old(tree), tree, k, track);
        node := arena.Neighbour(Right, track, root, tree);
      } else {
        node := NULL;
      }
    }

    /** rb_replace_node and RB_CLEAR_NODE: `track` takes over the tree node of `first`. */
    method TakeOver(track: Ptr, first: Ptr, ghost k: Ctx, ghost s: Tree)
      requires IsTree(arena.nodes, root, tree) && RedBlack(tree) && tree == Plug(k, s) && s.Node? && s.id == first
      requires track in arena.nodes && track !in Ids(tree)
      modifies this`root, this`tree, arena
      ensures IsTree(arena.nodes, root, tree) && RedBlack(tree) && tree == Plug(k, s.(id := track))
      ensures first in arena.nodes && arena.nodes[first].parent == first && first !in Ids(tree)
      ensures SameOutside(old(arena.nodes), arena.nodes, Ids(old(tree)) + {track})
    {
      ReplacedShape(k, s, track);
      root := arena.Replace(first, track, root, k, s);
      ghost var h := arena.nodes;
      tree := Plug(k, s.(id := track));
      arena.SetParent(first, first);
      TreeFrame(h, arena.nodes, root, tree);
    }

    /** The tree half of an insertion next to an equal track. */
    method AddEqual(track: Ptr, first: Ptr, cmp: Cmp<Ptr>, tiebreak: int, ghost k: Ctx, ghost s: Tree)
      returns (node: Ptr)
      requires TotalPreorder(cmp) && Ordered(cmp) && track in arena.nodes && track !in list
      requires tree == Plug(k, s) && s.Node? && s.id == first && cmp(track, first) == 0
      modifies this`root, this`tree, arena
      ensures IsTree(arena.nodes, root, tree) && RedBlack(tree)
      ensures InOrder(tree) == Firsts(cmp, Inserted(cmp, list, track, tiebreak))
      ensures IsInsertPoint(node, list, InsertPos(cmp, list, track, tiebreak))
      ensures SameOutside(old(arena.nodes), arena.nodes, old(Ids(tree)) + {track})
      ensures forall x :: x in old(Ids(tree)) && x !in Ids(tree) ==> x in arena.nodes && arena.nodes[x].parent == x
      ensures track !in Ids(tree) ==> arena.nodes[track] == old(arena.nodes[track])
      ensures Ids(tree) <= old(Ids(tree)) + {track}
    {
      ghost var l, r := Before(k) + InOrder(s.left), InOrder(s.right) + After(k);
      TreeInList(cmp, list, tree);
      FirstsStrict(cmp, list);
      FoundCut(cmp, track, k, s);
      if tiebreak < 0 {
        FirstsEqualBefore(cmp, list, track, tiebreak, l, first, r);
        node := first;
        TakeOver(track, first, k, s);
        ReplacedShape(k, s, track);
      } else {
        Split(arena.nodes, root, k, s);
        PlugIds(k, s);
        FirstsEqualAfter(cmp, list, track, tiebreak, l, first, r);
        node := arena.Neighbour(Right, first, root, tree);
        NextAfterFound(k, s);
      }
    }

    /** The tree half of sorted_list_add_track. */
    method AddToTree(track: Ptr, cmp: Cmp<Ptr>, tiebreak: int) returns (node: Ptr)
      requires TotalPreorder(cmp) && Ordered(cmp) && track in arena.nodes && track !in list
      modifies this`root, this`tree, arena
      ensures IsTree(arena.nodes, root, tree) && RedBlack(tree)
      ensures InOrder(tree) == Firsts(cmp, Inserted(cmp, list, track, tiebreak))
      ensures IsInsertPoint(node, list, InsertPos(cmp, list, track, tiebreak))
      ensures SameOutside(old(arena.nodes), arena.nodes, old(Ids(tree)) + {track})
      ensures forall x :: x in old(Ids(tree)) && x !in Ids(tree) ==> x in arena.nodes && arena.nodes[x].parent == x
      ensures track !in Ids(tree) ==> arena.nodes[track] == old(arena.nodes[track])
    {
      var found, parent, d, result, k, s := Search(track, cmp);
      TreeInList(cmp, list, tree);
      if found {
        node := AddEqual(track, parent, cmp, tiebreak, k, s);
      } else {
        node := AddFirst(track, cmp, tiebreak, parent, d, result, k);
      }
    }

    /** The tree half of an insertion of a new key. */
    method AddFirst(track: Ptr, ghost cmp: Cmp<Ptr>, ghost tiebreak: int, parent: Ptr, d: Side, result: int,
                    ghost k: Ctx) returns (node: Ptr)
      requires TotalPreorder(cmp) && Ordered(cmp) && track in arena.nodes && track !in Ids(tree)
               && tree == Plug(k, Leaf)
      requires parent == k.Parent() && (k.Step? ==> d == k.d)
      requires if k.Root? then result == 0 else if k.d == Left then result < 0 else result > 0
      requires forall x :: x in Before(k) ==> cmp(track, x) > 0
      requires forall x :: x in After(k) ==> cmp(track, x) < 0
      modifies this`root, this`tree, arena
      ensures IsTree(arena.nodes, root, tree) && RedBlack(tree)
      ensures InOrder(tree) == Firsts(cmp, Inserted(cmp, list, track, tiebreak))
      ensures IsInsertPoint(node, list, InsertPos(cmp, list, track, tiebreak))
      ensures SameOutside(old(arena.nodes), arena.nodes, old(Ids(tree)) + {track})
      ensures Ids(tree) == old(Ids(tree)) + {track}
    {
      PlugInOrder(k, Leaf);
      FirstsNewKey(cmp, list, track, tiebreak, Before(k), After(k));
      node := AddNew(track, parent, d, result, k);
      AddedIds(old(tree), tree, track, k);
    }

    method Add(track: Ptr, cmp: Cmp<Ptr>, tiebreak: int)
      requires TotalPreorder(cmp) && Ordered(cmp) && track in arena.nodes && track !in list
      modifies this, arena
      ensures Ordered(cmp) && list == Inserted(cmp, old(list), track, tiebreak)
      ensures old(Marked()) && old(arena.nodes[track].parent) == track ==> Marked()
      ensures track !in Ids(tree) ==> arena.nodes[track] == old(arena.nodes[track])
      ensures SameOutside(old(arena.nodes), arena.nodes, old(Ids(tree)) + {track})
    {
      TreeInList(cmp, list, tree);
      var node := AddToTree(track, cmp, tiebreak);
      LinkBefore(node, track, cmp, tiebreak);
    }

    /** list_add before `node`. */
    method LinkBefore(node: Ptr, track: Ptr, cmp: Cmp<Ptr>, tiebreak: int)
      requires TotalPreorder(cmp) && Sorted(cmp, list) && NoRepeat(list) && NULL !in list && track !in list
      requires IsInsertPoint(node, list, InsertPos(cmp, list, track, tiebreak))
      modifies this`list
      ensures list == Inserted(cmp, old(list), track, tiebreak) && Sorted(cmp, list) && NoRepeat(list)
      ensures forall x :: x in list <==> x in old(list) || x == track
    {
      InsertedSorted(cmp, list, track, tiebreak);
      ghost var p := InsertPos(cmp, list, track, tiebreak);
      var i := if node == NULL then |list| else IndexOf(node);
      assert i == p;
      InsertAtMembers(list, p, track);
      list := InsertAt(list, i, track);
    }

    /** The tree half of sorted_list_remove_track; `i` is where the track stands. */
    method RemoveFromTree(track: Ptr, i: nat, ghost cmp: Cmp<Ptr>)
      requires TotalPreorder(cmp) && Ordered(cmp) && i < |list| && list[i] == track
      requires arena.nodes[track].parent == track <==> track !in Ids(tree)
      modifies this`root, this`tree, arena
      ensures IsTree(arena.nodes, root, tree) && RedBlack(tree) && InOrder(tree) == Firsts(cmp, Removed(list, i))
      ensures SameOutside(old(arena.nodes), arena.nodes, Members(list))
      ensures forall x :: x in old(Ids(tree)) && x !in Ids(tree) ==> x == track
      ensures forall x :: x in list && x !in Ids(tree) && x != track ==> arena.nodes[x] == old(arena.nodes[x])
      ensures track in arena.nodes && track !in Ids(tree)
      ensures arena.nodes[track].parent == track <==>
                RunInside(cmp, list[..i], track) || RunGoesOn(cmp, track, list[i + 1..])
    {
      InTreeIff(cmp, list, i, tree);
      if arena.nodes[track].parent != track {
        ghost var l, r := RemovalPlan(cmp, list, i, tree);
        ghost var k, s := Locate(Root, tree, track);
        var next := if i + 1 < |list| then list[i + 1] else NULL;
        var treeNext := arena.Neighbour(Right, track, root, tree);
        TreeInList(cmp, list, tree);
        if next != NULL && (treeNext == NULL || treeNext != next) {
          SwapInOrder(k, s, next, l, r);
          ReplacedShape(k, s, next);
          TakeOver(next, track, k, s);
        } else {
          WithoutMiddle(l, track, r);
          NotErased(arena.nodes, root, tree, track);
          ghost var t0 := tree;
          root, tree := arena.Erase(track, root, tree);
          ErasedIds(t0, tree, track, l, r);
        }
      }
    }

    /** sorted_list_remove_track. */
    method Remove(track: Ptr, ghost cmp: Cmp<Ptr>, ghost i: nat)
      requires TotalPreorder(cmp) && Ordered(cmp) && i < |list| && list[i] == track
      requires arena.nodes[track].parent == track <==> track !in Ids(tree)
      modifies this, arena
      ensures Ordered(cmp) && list == Removed(old(list), i)
      ensures old(Marked()) ==> Marked()
      ensures track in arena.nodes && SameOutside(old(arena.nodes), arena.nodes, Members(old(list)))
      ensures arena.nodes[track].parent == track <==>
                RunInside(cmp, old(list)[..i], track) || RunGoesOn(cmp, track, old(list)[i + 1..])
    {
      var at := IndexOf(track);
      assert at == i;
      TreeInList(cmp, list, tree);
      RemoveFromTree(track, at, cmp);
      RemovedFacts(cmp, list, i);
      list := Removed(list, at);
    }

    /** One round of sorted_list_rebuild: the first track moves over to `tmp`. */
    method MoveFirst(tmp: SortedList, ghost cmp: Cmp<Ptr>, keys: Cmp<Ptr>) returns (track: Ptr)
      requires TotalPreorder(cmp) && TotalPreorder(keys) && Valid(cmp) && list != []
      requires tmp != this && tmp.arena == arena && tmp.Ordered(keys) && Members(tmp.list) !! Members(list)
      modifies this, tmp, arena
      ensures Valid(cmp) && tmp.Ordered(keys)
      ensures track == old(list)[0] && list == old(list)[1..] && tmp.list == Inserted(keys, old(tmp.list), track, 0)
      ensures SameOutside(old(arena.nodes), arena.nodes, Members(old(list)) + old(Ids(tmp.tree)))
      ensures Ids(tmp.tree) == old(Ids(tmp.tree)) + if IsNewKey(keys, old(tmp.list), track) then {track} else {}
      ensures track !in Ids(tmp.tree) ==>
                track in arena.nodes && (arena.nodes[track].parent == track <==> RunGoesOn(cmp, track, old(list)[1..]))
    {
      ghost var t := tmp.tree;
      TreeInList(keys, tmp.list, t);
      MembersTail(list);
      track := RemoveFirst(tmp, cmp, keys);
      ghost var h := arena.nodes;
      tmp.Add(track, keys, 0);
      ListFrame(cmp, h, arena.nodes, list, root, tree, Ids(t) + {track});
      TreeGrows(keys, old(tmp.list), track, t, tmp.tree);
    }

    method RemoveFirst(ghost tmp: SortedList, ghost cmp: Cmp<Ptr>, ghost keys: Cmp<Ptr>) returns (track: Ptr)
      requires TotalPreorder(cmp) && Valid(cmp) && list != []
      requires tmp != this && tmp.arena == arena && tmp.Ordered(keys) && Members(tmp.list) !! Members(list)
      modifies this, arena
      ensures Valid(cmp) && tmp.Ordered(keys) && track == old(list)[0] && list == old(list)[1..]
      ensures SameOutside(old(arena.nodes), arena.nodes, Members(old(list)))
      ensures track in arena.nodes && (arena.nodes[track].parent == track <==> RunGoesOn(cmp, track, old(list)[1..]))
    {
      track := list[0];
      FirstsHead(cmp, list);
      InOrderIds(tree, track);
      NotErased(arena.nodes, root, tree, track);
      ghost var h := arena.nodes;
      Remove(track, cmp, 0);
      ListFrame(keys, h, arena.nodes, tmp.list, tmp.root, tmp.tree, Members(old(list)));
    }

    /** The state of the rebuild loop after `n` of the tracks `was` moved to `tmp`. */
    ghost predicate Rebuilding(tmp: SortedList, cmp: Cmp<Ptr>, keys: Cmp<Ptr>, was: seq<Ptr>, n: nat)
      reads this, arena, tmp
    {
      && n <= |was| && list == was[n..] && NoRepeat(was) && Valid(cmp)
      && tmp != this && tmp.arena == arena && tmp.Ordered(keys)
      && tmp.list == InsertedAll(keys, was[..n]) && Members(tmp.list) == Members(was[..n])
      && Moved(arena.nodes, Ids(tmp.tree), cmp, keys, was, n)
    }

    method RebuildStep(tmp: SortedList, ghost cmp: Cmp<Ptr>, keys: Cmp<Ptr>, ghost was: seq<Ptr>, ghost n: nat)
      requires TotalPreorder(cmp) && TotalPreorder(keys) && Rebuilding(tmp, cmp, keys, was, n) && list != []
      modifies this, tmp, arena
      ensures Rebuilding(tmp, cmp, keys, was, n + 1) && SameOutside(old(arena.nodes), arena.nodes, Members(was))
    {
      ghost var h, ids, l := arena.nodes, Ids(tmp.tree), tmp.list;
      TreeInList(keys, l, tmp.tree);
      MembersSplit(was, n);
      var track := MoveFirst(tmp, cmp, keys);
      MovedStep(h, arena.nodes, ids, Ids(tmp.tree), cmp, keys, was, n, l);
      MembersGrow(keys, was, n, l);
    }

    /** The loop of sorted_list_rebuild. */
    method MoveAll(tmp: SortedList, ghost cmp: Cmp<Ptr>, keys: Cmp<Ptr>)
      requires TotalPreorder(cmp) && TotalPreorder(keys) && Valid(cmp) && NoRepeat(list)
      requires tmp != this && tmp.arena == arena && tmp.Ordered(keys) && tmp.list == [] && tmp.tree == Leaf
      modifies this, tmp, arena
      ensures tmp.Ordered(keys) && tmp.list == InsertedAll(keys, old(list)) && arena.nodes.Keys == old(arena.nodes.Keys)
      ensures tmp.Marked() <==> MarksSurvive(cmp, keys, old(list))
      ensures SameOutside(old(arena.nodes), arena.nodes, Members(old(list)))
    {
      ghost var was, n := list, 0;
      while list != []
        invariant Rebuilding(tmp, cmp, keys, was, n) && SameOutside(old(arena.nodes), arena.nodes, Members(was))
        decreases |was| - n
      {
        RebuildStep(tmp, cmp, keys, was, n);
        n := n + 1;
      }
      assert was[..|was|] == was;
      MarksAfter(arena.nodes, tmp.tree, cmp, keys, was, tmp.list);
    }

    /** sorted_list_rebuild.  At the end the head is `linked` into the new ring, which it is not when the list is empty
        (`MergeSort.SpliceEmpty`). */
    method Rebuild(ghost cmp: Cmp<Ptr>, keys: Cmp<Ptr>) returns (ghost linked: bool)
      requires TotalPreorder(cmp) && TotalPreorder(keys) && Valid(cmp)
      modifies this, arena
      ensures linked <==> old(list) != []
      ensures linked ==> Ordered(keys) && list == InsertedAll(keys, old(list)) && StablySorted(keys, old(list), list)
      ensures linked ==> (Marked() <==> MarksSurvive(cmp, keys, old(list)))
      ensures SameOutside(old(arena.nodes), arena.nodes, Members(old(list)))
    {
      linked := list != [];
      InsertedAllStable(keys, list);
      var tmp := MoveToNew(cmp, keys);
      root, list, tree := tmp.root, tmp.list, tmp.tree;
    }

    method MoveToNew(ghost cmp: Cmp<Ptr>, keys: Cmp<Ptr>) returns (tmp: SortedList)
      requires TotalPreorder(cmp) && TotalPreorder(keys) && Valid(cmp)
      modifies this, arena
      ensures tmp.arena == arena && tmp.Ordered(keys) && tmp.list == InsertedAll(keys, old(list))
      ensures tmp.Marked() <==> MarksSurvive(cmp, keys, old(list))
      ensures SameOutside(old(arena.nodes), arena.nodes, Members(old(list)))
    {
      tmp := new SortedList(arena, keys);
      MoveAll(tmp, cmp, keys);
    }

    /** Position of a track in the list, which the C code has as a link. */
    function IndexOf(x: Ptr): (i: nat)
      requires x in list
      reads this
      ensures i < |list| && list[i] == x
    {
      Position(list, x)
    }
  }

  // ---- histories ----

  /** One call from outside: a track joins or leaves the list. */
  datatype Change = Joins(track: Ptr, tiebreak: int) | Leaves(track: Ptr)

  function Changed(cmp: Cmp<Ptr>, s: seq<Ptr>, c: Change): seq<Ptr> {
    match c
    case Joins(x, tiebreak) => Inserted(cmp, s, x, tiebreak)
    case Leaves(x) => if x in s then Removed(s, Position(s, x)) else s
  }

  function Replayed(cmp: Cmp<Ptr>, s: seq<Ptr>, changes: seq<Change>): seq<Ptr>
    decreases |changes|
  { if changes == [] then s else Replayed(cmp, Changed(cmp, s, changes[0]), changes[1..]) }

  /** Tracks that join from place `i` on are as simple_track_init leaves them: marked, in no list; none joins twice. */
  ghost predicate FreshFrom(h: Heap, s: seq<Ptr>, changes: seq<Change>, i: nat) {
    && (forall j :: i <= j < |changes| && changes[j].Joins? ==>
          changes[j].track in h && h[changes[j].track].parent == changes[j].track && changes[j].track !in s)
    && forall j, k :: i <= j < k < |changes| && changes[j].Joins? && changes[k].Joins? ==>
         changes[j].track != changes[k].track
  }

  /** Over any history of fresh tracks joining, with either tiebreak, and tracks leaving, the list is sorted and is the
      replayed one, the tree holds the first track of every run in list order, and exactly the others are marked. */
  method Run(list: SortedList, cmp: Cmp<Ptr>, changes: seq<Change>)
    requires TotalPreorder(cmp) && list.Valid(cmp) && FreshFrom(list.arena.nodes, list.list, changes, 0)
    modifies list, list.arena
    ensures list.Valid(cmp) && list.list == Replayed(cmp, old(list.list), changes)
  {
    var i := 0;
    assert changes[0..] == changes;
    while i < |changes|
      invariant i <= |changes| && list.Valid(cmp) && FreshFrom(list.arena.nodes, list.list, changes, i)
      invariant Replayed(cmp, list.list, changes[i..]) == Replayed(cmp, old(list.list), changes)
    {
      assert changes[i..][1..] == changes[i + 1..];
      Apply(list, cmp, changes, i);
      i := i + 1;
    }
  }

  method Apply(list: SortedList, cmp: Cmp<Ptr>, changes: seq<Change>, i: nat)
    requires TotalPreorder(cmp) && list.Valid(cmp) && i < |changes|
    requires FreshFrom(list.arena.nodes, list.list, changes, i)
    modifies list, list.arena
    ensures list.Valid(cmp) && list.list == Changed(cmp, old(list.list), changes[i])
    ensures FreshFrom(list.arena.nodes, list.list, changes, i + 1)
  {
    ghost var h, s := list.arena.nodes, list.list;
    TreeInList(cmp, list.list, list.tree);
    match changes[i] {
      case Joins(x, tiebreak) =>
        list.Add(x, cmp, tiebreak);
        InsertAtMembers(s, InsertPos(cmp, s, x, tiebreak), x);
        StillFresh(h, list.arena.nodes, s, list.list, changes, i, x);
      case Leaves(x) =>
        if x in list.list {
          if x in Ids(list.tree) { NotErased(list.arena.nodes, list.root, list.tree, x); }
          ghost var k := Position(list.list, x);
          list.Remove(x, cmp, k);
          RemovedMembers(s, k);
          StillFresh(h, list.arena.nodes, s, list.list, changes, i, x);
        }
    }
  }

  lemma StillFresh(h: Heap, h': Heap, s: seq<Ptr>, s': seq<Ptr>, changes: seq<Change>, i: nat, x: Ptr)
    requires FreshFrom(h, s, changes, i) && i < |changes| && changes[i].track == x
    requires SameOutside(h, h', Members(s) + {x}) && forall y :: y in s' ==> y in s || y == x
    requires changes[i].Leaves? ==> x in s
    ensures FreshFrom(h', s', changes, i + 1)
  {
    forall j | i < j < |changes| && changes[j].Joins?
      ensures var y := changes[j].track; y in h' && h'[y].parent == y && y !in s'
    {
      var y := changes[j].track;
      assert y !in s && y != x;
      assert y !in Members(s) + {x};
    }
  }

  lemma RemovedMembers(s: seq<Ptr>, k: nat)
    requires k < |s|
    ensures forall y :: y in Removed(s, k) ==> y in s
  {
  }

  lemma {:induction false} InTreeIff(cmp: Cmp<Ptr>, s: seq<Ptr>, i: nat, t: Tree)
    requires TotalPreorder(cmp) && Sorted(cmp, s) && NoRepeat(s) && i < |s| && InOrder(t) == Firsts(cmp, s)
    ensures s[i] in Ids(t) <==> !RunInside(cmp, s[..i], s[i])
    ensures RunInside(cmp, s[..i], s[i]) ==> InOrder(t) == Firsts(cmp, Removed(s, i))
  {
    FirstsAt(cmp, s, i);
    InOrderIds(t, s[i]);
    InsideGone(cmp, s, i);
  }

  lemma {:induction false} InsideGone(cmp: Cmp<Ptr>, s: seq<Ptr>, i: nat)
    requires TotalPreorder(cmp) && Sorted(cmp, s) && i < |s|
    ensures RunInside(cmp, s[..i], s[i]) ==> Firsts(cmp, s) == Firsts(cmp, Removed(s, i))
  {
    var a, x, b := s[..i], s[i], s[i + 1..];
    Cut(s, i);
    FirstsRemoved(cmp, a, x, b);
  }

  lemma Cut(s: seq<Ptr>, i: nat)
    requires i < |s|
    ensures s == s[..i] + [s[i]] + s[i + 1..]
  {
  }

  lemma {:induction false} OnlyOnce(l: seq<Ptr>, x: Ptr, r: seq<Ptr>)
    requires NoRepeat(l + [x] + r)
    ensures x !in l && x !in r
  {
    var s := l + [x] + r;
    assert s[|l|] == x;
    assert (forall i :: 0 <= i < |l| ==> s[i] == l[i]) && forall i :: 0 <= i < |r| ==> s[|l| + 1 + i] == r[i];
  }

  /** How the starts change when a start is removed, and what the removal code sees of it. */
  lemma {:induction false} RemovalPlan(cmp: Cmp<Ptr>, s: seq<Ptr>, i: nat, t: Tree) returns (l: seq<Ptr>, r: seq<Ptr>)
    requires TotalPreorder(cmp) && Sorted(cmp, s) && NoRepeat(s) && i < |s| && NULL !in s
    requires Distinct(t) && InOrder(t) == Firsts(cmp, s) && !RunInside(cmp, s[..i], s[i])
    ensures InOrder(t) == l + [s[i]] + r && s[i] !in l && s[i] !in r
    ensures Beside(Right, InOrder(t), s[i]) == if r == [] then NULL else r[0]
    ensures if RunGoesOn(cmp, s[i], s[i + 1..])
            then i + 1 < |s| && s[i + 1] !in Ids(t) && s[i + 1] !in r
            && Firsts(cmp, Removed(s, i)) == l + [s[i + 1]] + r
            else (if i + 1 < |s| then r != [] && r[0] == s[i + 1] else r == []) && Firsts(cmp, Removed(s, i)) == l + r
  {
    var a, x, b := s[..i], s[i], s[i + 1..];
    Cut(s, i);
    l, r := PlanParts(cmp, a, x, b, t);
    if RunGoesOn(cmp, x, b) { NextNotStart(cmp, s, i, t, l, r); }
  }

  lemma {:induction false} PlanParts(cmp: Cmp<Ptr>, a: seq<Ptr>, x: Ptr, b: seq<Ptr>, t: Tree)
    returns (l: seq<Ptr>, r: seq<Ptr>)
    requires TotalPreorder(cmp) && Sorted(cmp, a + [x] + b) && Distinct(t) && InOrder(t) == Firsts(cmp, a + [x] + b)
    requires !RunInside(cmp, a, x) && x != NULL
    ensures InOrder(t) == l + [x] + r && x !in l && x !in r
    ensures Beside(Right, InOrder(t), x) == if r == [] then NULL else r[0]
    ensures RunGoesOn(cmp, x, b) ==> Firsts(cmp, a + b) == l + [b[0]] + r
    ensures !RunGoesOn(cmp, x, b) ==> Firsts(cmp, a + b) == l + r
    ensures !RunGoesOn(cmp, x, b) ==> if b == [] then r == [] else r != [] && r[0] == b[0]
  {
    FirstsRemoved(cmp, a, x, b);
    FirstsHead(cmp, b);
    l, r := Firsts(cmp, a), Firsts(cmp, b);
    if RunGoesOn(cmp, x, b) { r := r[1..]; }
    DistinctNoRepeat(t);
    OnlyOnce(l, x, r);
    BesideMiddle(Right, l, x, r);
  }

  lemma {:induction false} NextNotStart(cmp: Cmp<Ptr>, s: seq<Ptr>, i: nat, t: Tree, l: seq<Ptr>, r: seq<Ptr>)
    requires NoRepeat(s) && i < |s| && InOrder(t) == Firsts(cmp, s) == l + [s[i]] + r
             && RunGoesOn(cmp, s[i], s[i + 1..])
    ensures i + 1 < |s| && s[i + 1] == s[i + 1..][0] && s[i + 1] !in Ids(t) && s[i + 1] !in r
  {
    FirstsAt(cmp, s, i + 1);
    InOrderIds(t, s[i + 1]);
    InThird(l, s[i], r, s[i + 1]);
  }

  lemma InThird(l: seq<Ptr>, x: Ptr, r: seq<Ptr>, y: Ptr)
    ensures y in r ==> y in l + [x] + r
  {
  }

  lemma {:induction false} SwapInOrder(k: Ctx, s: Tree, y: Ptr, l: seq<Ptr>, r: seq<Ptr>)
    requires s.Node? && InOrder(Plug(k, s)) == l + [s.id] + r && s.id !in l && s.id !in r
    ensures InOrder(Plug(k, s.(id := y))) == l + [y] + r
  {
    var a, b := Before(k) + InOrder(s.left), InOrder(s.right) + After(k);
    PlugInOrder(k, s);
    PlugInOrder(k, s.(id := y));
    Regroup(Before(k), InOrder(s.left), s.id, InOrder(s.right), After(k));
    Regroup(Before(k), InOrder(s.left), y, InOrder(s.right), After(k));
    SameMiddle(a, s.id, b, l, r);
  }

  lemma {:induction false} SameMiddle(a: seq<Ptr>, x: Ptr, b: seq<Ptr>, l: seq<Ptr>, r: seq<Ptr>)
    requires a + [x] + b == l + [x] + r && x !in l && x !in r
    ensures a == l && b == r
  {
    var s := l + [x] + r;
    assert s[|a|] == x;
    assert (forall i :: 0 <= i < |l| ==> s[i] == l[i]) && forall i :: |l| < i < |s| ==> s[i] == r[i - |l| - 1];
    assert |a| == |l|;
    assert a == s[..|l|] == l && b == s[|l| + 1..] == r;
  }

  lemma {:induction false} ErasedIds(t: Tree, t': Tree, x: Ptr, l: seq<Ptr>, r: seq<Ptr>)
    requires InOrder(t) == l + [x] + r && x !in l && x !in r && InOrder(t') == l + r
    ensures Ids(t') == Ids(t) - {x}
  {
    forall y ensures y in Ids(t') <==> y in Ids(t) - {x} {
      InOrderIds(t, y);
      InOrderIds(t', y);
    }
  }

  lemma RemovedFacts(cmp: Cmp<Ptr>, s: seq<Ptr>, i: nat)
    requires i < |s| && NoRepeat(s) && Sorted(cmp, s)
    ensures NoRepeat(Removed(s, i)) && Sorted(cmp, Removed(s, i))
    ensures forall y :: y in Removed(s, i) <==> y in s && y != s[i]
  {
    var r := Removed(s, i);
    assert forall j :: 0 <= j < |r| ==> r[j] == s[if j < i then j else j + 1];
    forall y | y in s && y != s[i] ensures y in r {
      var j :| 0 <= j < |s| && s[j] == y;
      assert r[if j < i then j else j - 1] == y;
    }
  }

  lemma InsertAtMembers(s: seq<Ptr>, p: nat, x: Ptr)
    requires p <= |s|
    ensures forall y :: y in InsertAt(s, p, x) <==> y in s || y == x
    ensures NoRepeat(s) && x !in s ==> NoRepeat(InsertAt(s, p, x))
  {
    var r := InsertAt(s, p, x);
    assert r[p] == x && forall i :: 0 <= i < |s| ==> s[i] == r[if i < p then i else i + 1];
  }

  function Position(s: seq<Ptr>, x: Ptr): (i: nat)
    requires x in s
    ensures i < |s| && s[i] == x
  {
    if s[0] == x then 0 else 1 + Position(s[1..], x)
  }

  lemma {:induction false} NextAfterInsert(t: Tree, t': Tree, k: Ctx, x: Ptr)
    requires Distinct(t) && t == Plug(k, Leaf) && x !in Ids(t) && InOrder(t') == Before(k) + [x] + After(k)
    ensures Beside(Right, InOrder(t'), x) == if After(k) == [] then NULL else After(k)[0]
    ensures x in Ids(t')
  {
    InOrderIds(t', x);
    assert (Before(k) + [x] + After(k))[|Before(k)|] == x;
    PlugIds(k, Leaf);
    if x in Before(k) { BeforeIds(k, x); }
    if x in After(k) { AfterIds(k, x); }
    BesideMiddle(Right, Before(k), x, After(k));
  }

  lemma {:induction false} ReplacedShape(k: Ctx, s: Tree, x: Ptr)
    requires s.Node? && RedBlack(Plug(k, s)) && Distinct(Plug(k, s)) && x !in Ids(Plug(k, s))
    ensures RedBlack(Plug(k, s.(id := x))) && Ids(Plug(k, s.(id := x))) == Ids(Plug(k, s)) - {s.id} + {x}
    ensures s.id in Ids(Plug(k, s))
  {
    var hh: nat :| Balanced(Plug(k, s), hh);
    var hb := UnplugBalanced(k, s, hh);
    PlugBalanced(k, s.(id := x), hb);
    PlugIds(k, s);
    PlugIds(k, s.(id := x));
  }

  /** `node` stands for list position `p`, NULL for the end. */
  ghost predicate IsInsertPoint(node: Ptr, list: seq<Ptr>, p: nat) {
    p <= |list| && node == if p == |list| then NULL else list[p]
  }

  /** The starts around the node found equal to `x`. */
  lemma {:induction false} FoundCut(cmp: Cmp<Ptr>, x: Ptr, k: Ctx, s: Tree)
    requires TotalPreorder(cmp) && s.Node? && Strict(cmp, InOrder(Plug(k, s))) && cmp(x, s.id) == 0
    ensures var l, r := Before(k) + InOrder(s.left), InOrder(s.right) + After(k);
            && InOrder(Plug(k, s)) == l + [s.id] + r && InOrder(Plug(k, s.(id := x))) == l + [x] + r
            && (forall i :: 0 <= i < |l| ==> cmp(x, l[i]) > 0) && (forall i :: 0 <= i < |r| ==> cmp(x, r[i]) < 0)
  {
    var l, r := Before(k) + InOrder(s.left), InOrder(s.right) + After(k);
    PlugInOrder(k, s);
    PlugInOrder(k, s.(id := x));
    Regroup(Before(k), InOrder(s.left), s.id, InOrder(s.right), After(k));
    Regroup(Before(k), InOrder(s.left), x, InOrder(s.right), After(k));
    StrictMiddle(cmp, l, s.id, r);
    CmpFlip(cmp, x, s.id);
    forall i | 0 <= i < |l| ensures cmp(x, l[i]) > 0 {
      assert l[i] in l;
      CmpTransitive(cmp, l[i], s.id, x);
      CmpFlip(cmp, l[i], x);
    }
    forall i | 0 <= i < |r| ensures cmp(x, r[i]) < 0 {
      assert r[i] in r;
      CmpTransitive(cmp, x, s.id, r[i]);
    }
  }

  lemma {:induction false} NextAfterFound(k: Ctx, s: Tree)
    requires s.Node? && Distinct(Plug(k, s))
    ensures var r := InOrder(s.right) + After(k);
            Beside(Right, InOrder(Plug(k, s)), s.id) == if r == [] then NULL else r[0]
  {
    BesideHole(Right, k, s);
    if s.right.Node? { ExtremeInOrder(Left, s.right); }
  }

  ghost predicate IsNewKey(cmp: Cmp<Ptr>, s: seq<Ptr>, x: Ptr) { forall y :: y in s ==> cmp(x, y) != 0 }

  lemma {:induction false} TreeGrows(cmp: Cmp<Ptr>, s: seq<Ptr>, x: Ptr, t: Tree, t': Tree)
    requires TotalPreorder(cmp) && Sorted(cmp, s)
    requires InOrder(t) == Firsts(cmp, s) && InOrder(t') == Firsts(cmp, Inserted(cmp, s, x, 0))
    ensures Ids(t') == Ids(t) + if IsNewKey(cmp, s, x) then {x} else {}
  {
    forall z ensures z in Ids(t') <==> z in Ids(t) || (z == x && IsNewKey(cmp, s, x)) {
      FirstsGrow(cmp, s, x, z);
      InOrderIds(t, z);
      InOrderIds(t', z);
    }
  }

  lemma {:induction false} MembersSplit(s: seq<Ptr>, n: nat)
    requires n <= |s| && NoRepeat(s)
    ensures Members(s[..n]) + Members(s[n..]) == Members(s) && Members(s[..n]) !! Members(s[n..])
  {
    assert s == s[..n] + s[n..];
    forall x | x in s[..n] ensures x !in s[n..] {
      var i :| 0 <= i < n && s[i] == x;
    }
  }

  lemma {:induction false} MembersGrow(keys: Cmp<Ptr>, was: seq<Ptr>, n: nat, l: seq<Ptr>)
    requires n < |was| && NoRepeat(was) && l == InsertedAll(keys, was[..n]) && Members(l) == Members(was[..n])
    ensures Inserted(keys, l, was[n], 0) == InsertedAll(keys, was[..n + 1])
    ensures Members(Inserted(keys, l, was[n], 0)) == Members(was[..n + 1])
    ensures was[n + 1..] == was[n..][1..]
  {
    assert was[..n + 1][..n] == was[..n];
    assert was[..n + 1] == was[..n] + [was[n]];
    InsertAtMembers(l, InsertPos(keys, l, was[n], 0), was[n]);
    forall x ensures x in Members(Inserted(keys, l, was[n], 0)) <==> x in Members(was[..n + 1]) {
      assert x in l <==> x in Members(l);
      assert x in was[..n] <==> x in Members(was[..n]);
    }
  }

  lemma {:induction false} MovedStep(h: Heap, h': Heap, ids: set<Ptr>, ids': set<Ptr>, cmp: Cmp<Ptr>, keys: Cmp<Ptr>,
                                     was: seq<Ptr>, n: nat, l: seq<Ptr>)
    requires n < |was| && NoRepeat(was) && Moved(h, ids, cmp, keys, was, n) && Members(l) == Members(was[..n])
    requires ids <= Members(was[..n]) && SameOutside(h, h', Members(was[n..]) + ids)
    requires ids' == ids + if IsNewKey(keys, l, was[n]) then {was[n]} else {}
    requires was[n] !in ids' ==>
             was[n] in h' && (h'[was[n]].parent == was[n] <==> RunGoesOn(cmp, was[n], was[n..][1..]))
    ensures Moved(h', ids', cmp, keys, was, n + 1)
  {
    MembersSplit(was, n);
    assert was[n..][1..] == was[n + 1..] && was[n] == was[n..][0] && was[n] in Members(was[n..]);
    forall j | 0 <= j <= n ensures MovedAt(h', ids', cmp, keys, was, j) {
      if j < n {
        assert MovedAt(h, ids, cmp, keys, was, j) && was[j] == was[..n][j] && was[j] in Members(was[..n]);
      } else {
        NewKeyMeansNoTwin(keys, was, n, l);
      }
    }
  }

  lemma {:induction false} NewKeyMeansNoTwin(keys: Cmp<Ptr>, was: seq<Ptr>, n: nat, l: seq<Ptr>)
    requires n < |was| && Members(l) == Members(was[..n])
    ensures IsNewKey(keys, l, was[n]) <==> !HasTwinBefore(keys, was, n)
  {
    forall y ensures y in l <==> y in was[..n] {
      assert y in l <==> y in Members(l);
      assert y in was[..n] <==> y in Members(was[..n]);
    }
    if HasTwinBefore(keys, was, n) {
      var j :| 0 <= j < n && keys(was[n], was[j]) == 0;
      assert was[..n][j] in was[..n];
    } else {
      forall y | y in l ensures keys(was[n], y) != 0 {
        var j :| 0 <= j < n && was[..n][j] == y;
        assert was[j] == y;
      }
    }
  }

  lemma {:induction false} MarksAfter(h: Heap, t: Tree, cmp: Cmp<Ptr>, keys: Cmp<Ptr>, was: seq<Ptr>, l: seq<Ptr>)
    requires Moved(h, Ids(t), cmp, keys, was, |was|) && Members(l) == Members(was)
    ensures MarkedIn(h, l, t) <==> MarksSurvive(cmp, keys, was)
  {
    forall y ensures y in l <==> y in was {
      assert y in l <==> y in Members(l);
      assert y in was <==> y in Members(was);
    }
    if MarkedIn(h, l, t) {
      forall i | 0 <= i < |was| && HasTwinBefore(keys, was, i) ensures RunGoesOn(cmp, was[i], was[i + 1..]) {
        assert MovedAt(h, Ids(t), cmp, keys, was, i) && was[i] in was;
      }
    }
    if MarksSurvive(cmp, keys, was) {
      forall x | x in l && x !in Ids(t) ensures x in h && h[x].parent == x {
        var i :| 0 <= i < |was| && was[i] == x;
        assert MovedAt(h, Ids(t), cmp, keys, was, i);
      }
    }
  }

  /** Where the first `n` tracks of `was` stand during a rebuild: which are in the new tree, and how the others are
      marked. */
  ghost predicate Moved(h: Heap, ids: set<Ptr>, cmp: Cmp<Ptr>, keys: Cmp<Ptr>, was: seq<Ptr>, n: nat) {
    n <= |was| && forall j :: 0 <= j < n ==> MovedAt(h, ids, cmp, keys, was, j)
  }

  ghost predicate MovedAt(h: Heap, ids: set<Ptr>, cmp: Cmp<Ptr>, keys: Cmp<Ptr>, was: seq<Ptr>, j: nat)
    requires j < |was|
  {
    var x := was[j];
    && (x in ids <==> !HasTwinBefore(keys, was, j))
    && (x !in ids ==> x in h && (h[x].parent == x <==> RunGoesOn(cmp, x, was[j + 1..])))
  }

  /** Tree nodes are list members. */
  lemma {:induction false} TreeInList(cmp: Cmp<Ptr>, list: seq<Ptr>, t: Tree)
    requires InOrder(t) == Firsts(cmp, list)
    ensures forall x :: x in Ids(t) ==> x in list
    ensures Ids(t) <= Members(list)
  {
    forall x | x in Ids(t) ensures x in list {
      InOrderIds(t, x);
      FirstsSubset(cmp, list, x);
    }
  }

  lemma {:induction false} GoLeft(cmp: Cmp<Ptr>, x: Ptr, k: Ctx, s: Tree)
    requires TotalPreorder(cmp) && s.Node? && Strict(cmp, InOrder(Plug(k, s))) && cmp(x, s.id) < 0
    requires forall y :: y in After(k) ==> cmp(x, y) < 0
    ensures forall y :: y in After(Step(Left, s.color, s.id, s.right, k)) ==> cmp(x, y) < 0
  {
    PlugInOrder(k, s);
    Regroup(Before(k), InOrder(s.left), s.id, InOrder(s.right), After(k));
    var r := InOrder(s.right);
    forall y | y in r ensures cmp(x, y) < 0 {
      StrictMiddle(cmp, Before(k) + InOrder(s.left), s.id, r + After(k));
      CmpTransitive(cmp, x, s.id, y);
    }
  }

  lemma {:induction false} GoRight(cmp: Cmp<Ptr>, x: Ptr, k: Ctx, s: Tree)
    requires TotalPreorder(cmp) && s.Node? && Strict(cmp, InOrder(Plug(k, s))) && cmp(x, s.id) > 0
    requires forall y :: y in Before(k) ==> cmp(x, y) > 0
    ensures forall y :: y in Before(Step(Right, s.color, s.id, s.left, k)) ==> cmp(x, y) > 0
  {
    PlugInOrder(k, s);
    Regroup(Before(k), InOrder(s.left), s.id, InOrder(s.right), After(k));
    var l := InOrder(s.left);
    forall y | y in l ensures cmp(x, y) > 0 {
      StrictMiddle(cmp, Before(k) + l, s.id, InOrder(s.right) + After(k));
      CmpFlip(cmp, x, s.id);
      CmpTransitive(cmp, y, s.id, x);
      CmpFlip(cmp, x, y);
    }
  }

  lemma {:induction false} StrictMiddle(cmp: Cmp<Ptr>, a: seq<Ptr>, x: Ptr, b: seq<Ptr>)
    requires Strict(cmp, a + [x] + b)
    ensures forall y :: y in a ==> cmp(y, x) < 0
    ensures forall y :: y in b ==> cmp(x, y) < 0
  {
    var s := a + [x] + b;
    assert s[|a|] == x;
    forall y | y in a ensures cmp(y, x) < 0 {
      var i :| 0 <= i < |a| && a[i] == y;
      assert s[i] == y;
    }
    forall y | y in b ensures cmp(x, y) < 0 {
      var i :| 0 <= i < |b| && b[i] == y;
      assert s[|a| + 1 + i] == y;
    }
  }
}
