/** The bottom-up merge sort of src/common/mergesort.c on circular doubly linked lists (src/common/list.h). */
module MergeSort {
  import opened Order

  type Node = nat

  datatype Link = Link(next: Node, prev: Node)
  type Links = map<Node, Link>

  // ---- rings ----

  predicate Linked(h: Links, x: Node, y: Node) { x in h && y in h && h[x].next == y && h[y].prev == x }

  ghost predicate Chain(h: Links, c: seq<Node>) {
    forall i :: 0 <= i < |c| - 1 ==> Linked(h, c[i], c[i + 1])
  }

  function Circle(head: Node, s: seq<Node>): seq<Node> { [head] + s + [head] }

  /** From `head` the nodes `s` follow in one ring, consistently in both directions. */
  ghost predicate Ring(h: Links, head: Node, s: seq<Node>) {
    Chain(h, Circle(head, s)) && NoRepeat([head] + s)
  }

  function SetNext(h: Links, x: Node, y: Node): Links
    requires x in h
  { h[x := h[x].(next := y)] }

  function SetPrev(h: Links, x: Node, y: Node): Links
    requires x in h
  { h[x := h[x].(prev := y)] }

  /** Only the links between two nodes change: the first gets a new successor, the second a new predecessor. */
  lemma ChainJoin(h: Links, h': Links, a: seq<Node>, b: seq<Node>)
    requires a != [] && b != [] && Chain(h, a) && Chain(h, b)
    requires var p, n := a[|a| - 1], b[0]; p in h && n in h && h' == SetNext(SetPrev(h, n, p), p, n)
    requires forall i :: 0 <= i < |a| - 1 ==> a[i] != a[|a| - 1]
    requires forall i :: 0 < i < |b| ==> b[i] != b[0]
    requires forall i :: 0 < i < |a| ==> a[i] != b[0]
    requires forall i :: 0 <= i < |b| - 1 ==> b[i] != a[|a| - 1]
    ensures Chain(h', a + b)
  {
    var c := a + b;
    forall i | 0 <= i < |c| - 1 ensures Linked(h', c[i], c[i + 1]) {
      if i < |a| - 1 {
        assert Linked(h, a[i], a[i + 1]);
      } else if i >= |a| {
        assert Linked(h, b[i - |a|], b[i - |a| + 1]);
      }
    }
  }

  lemma ChainParts(h: Links, a: seq<Node>, b: seq<Node>)
    requires Chain(h, a + b)
    ensures Chain(h, a) && Chain(h, b)
    ensures a != [] && b != [] ==> Linked(h, a[|a| - 1], b[0])
  {
    var c := a + b;
    forall i | 0 <= i < |a| - 1 ensures Linked(h, a[i], a[i + 1]) { assert Linked(h, c[i], c[i + 1]); }
    forall i | 0 <= i < |b| - 1 ensures Linked(h, b[i], b[i + 1]) { assert Linked(h, c[|a| + i], c[|a| + i + 1]); }
    if a != [] && b != [] { assert Linked(h, c[|a| - 1], c[|a|]); }
  }

  lemma ChainFrame(h: Links, h': Links, c: seq<Node>)
    requires Chain(h, c) && forall x :: x in c && x in h ==> x in h' && h'[x] == h[x]
    ensures Chain(h', c)
  {
    forall i | 0 <= i < |c| - 1 ensures Linked(h', c[i], c[i + 1]) {
      assert Linked(h, c[i], c[i + 1]) && c[i] in c && c[i + 1] in c;
    }
  }

  ghost predicate SameExcept(h: Links, h': Links, c: seq<Node>) {
    h'.Keys == h.Keys && forall x :: x in h && x !in c ==> h'[x] == h[x]
  }

  function Deleted(h: Links, e: Node): Links
    requires e in h && h[e].prev in h && h[e].next in h
  { SetNext(SetPrev(h, h[e].next, h[e].prev), h[e].prev, h[e].next) }

  lemma CircleParts(head: Node, u: seq<Node>, e: Node, v: seq<Node>)
    ensures Circle(head, u + [e] + v) == ([head] + u) + ([e] + (v + [head]))
    ensures Circle(head, u + [e] + v) == ([head] + u + [e]) + (v + [head])
    ensures Circle(head, u + v) == ([head] + u) + (v + [head])
    ensures [head] + (u + [e] + v) == ([head] + u) + [e] + v && [head] + (u + v) == ([head] + u) + v
  {
  }

  lemma NoRepeatParts(a: seq<Node>, e: Node, v: seq<Node>)
    requires NoRepeat(a + [e] + v)
    ensures NoRepeat(a + v) && NoRepeat(v) && NoRepeat(a) && e !in a && e !in v
    ensures forall i, j :: 0 <= i < |a| && 0 <= j < |v| ==> a[i] != v[j]
  {
    var s := a + [e] + v;
    forall i | 0 <= i < |a| ensures s[i] == a[i] {}
    forall j | 0 <= j < |v| ensures s[|a| + 1 + j] == v[j] {}
    assert s[|a|] == e;
  }

  /** list_del. */
  lemma RingDelete(h: Links, head: Node, u: seq<Node>, e: Node, v: seq<Node>)
    requires Ring(h, head, u + [e] + v)
    ensures e in h && h[e].prev in h && h[e].next in h && Ring(Deleted(h, e), head, u + v)
    ensures SameExcept(h, Deleted(h, e), [head] + (u + v))
    ensures h[e].next == if v == [] then head else v[0]
  {
    var a, b := [head] + u, v + [head];
    CircleParts(head, u, e, v);
    ChainParts(h, a, [e] + b);
    ChainParts(h, a + [e], b);
    NoRepeatParts(a, e, v);
    assert a[0] == head;
    ChainJoin(h, Deleted(h, e), a, b);
  }

  function Appended(h: Links, head: Node, e: Node): Links
    requires head in h && e in h && h[head].prev in h
  { SetNext(SetPrev(SetNext(SetPrev(h, e, h[head].prev), h[head].prev, e), head, e), e, head) }

  /** list_add_tail. */
  lemma RingAppend(h: Links, head: Node, s: seq<Node>, e: Node)
    requires Ring(h, head, s) && e in h && e != head && e !in s
    ensures head in h && h[head].prev in h && Ring(Appended(h, head, e), head, s + [e])
    ensures SameExcept(h, Appended(h, head, e), [head] + (s + [e]))
  {
    var a := [head] + s;
    assert Circle(head, s) == a + [head] && Circle(head, s + [e]) == (a + [e]) + [head];
    ChainParts(h, a, [head]);
    var p := h[head].prev;
    assert a[0] == head && a[|a| - 1] == p;
    var h1 := SetNext(SetPrev(h, e, p), p, e);
    ChainJoin(h, h1, a, [e]);
    ChainJoin(h1, Appended(h, head, e), a + [e], [head]);
    assert [head] + (s + [e]) == a + [e];
  }

  function Nodes(s: seq<Node>): set<Node> { set x | x in s }

  ghost predicate Within(all: set<Node>, s: seq<Node>) { forall x :: x in s ==> x in all }

  /** Nothing but links of `all` differ. */
  ghost predicate SameElse(h: Links, h': Links, all: set<Node>) {
    h'.Keys == h.Keys && forall x :: x in h && x !in all ==> h'[x] == h[x]
  }

  class Lists {
    var h: Links

    method Delete(e: Node)
      requires e in h && h[e].prev in h && h[e].next in h
      modifies this
      ensures h == Deleted(old(h), e)
    {
      var prev, next := h[e].prev, h[e].next;
      h := SetPrev(h, next, prev);
      h := SetNext(h, prev, next);
    }

    method AddTail(e: Node, head: Node)
      requires head in h && e in h && h[head].prev in h && e != head && e != h[head].prev
      modifies this
      ensures h == Appended(old(h), head, e)
    {
      var prev := h[head].prev;
      h := SetPrev(h, head, e);
      h := SetNext(h, e, head);
      h := SetPrev(h, e, prev);
      h := SetNext(h, prev, e);
    }

    /** Two rings over different nodes, all of them in `all`. */
    ghost predicate Rings(all: set<Node>, a: Node, s: seq<Node>, b: Node, t: seq<Node>)
      reads this
    { Ring(h, a, s) && Ring(h, b, t) && Apart([a] + s, [b] + t) && Within(all, [a] + s) && Within(all, [b] + t) }

    /** A node leaves one ring and goes to the end of the other. */
    method Move(ghost all: set<Node>, e: Node, from: Node, to: Node, ghost u: seq<Node>, ghost v: seq<Node>,
                ghost t: seq<Node>)
      requires Rings(all, from, u + [e] + v, to, t)
      modifies this
      ensures Rings(all, from, u + v, to, t + [e]) && SameElse(old(h), h, all)
    {
      RingDelete(h, from, u, e, v);
      ghost var h0 := h;
      Delete(e);
      MoveApart(from, u, e, v, to, t);
      RingFrame(h0, h, [from] + (u + v), to, t);
      RingAppend(h, to, t, e);
      ghost var h1 := h;
      TailIs(h, to, t);
      AddTail(e, to);
      RingFrame(h1, h, [to] + (t + [e]), from, u + v);
    }

    /** The first loop of a merge: how long the left run is, and where the right one starts. */
    method MeasureRun(from: Node, p: Node, k: nat, ghost s: seq<Node>) returns (psize: nat, q: Node)
      requires Ring(h, from, s) && p == First(s, from)
      ensures psize == Min(k, |s|) && q == First(s[psize..], from)
    {
      q, psize := p, 0;
      while psize < k
        invariant psize <= k && psize <= |s| && q == First(s[psize..], from)
      {
        HeadNotIn(from, s, psize);
        if q == from { break; }
        NextAt(h, from, s, psize);
        psize := psize + 1;
        q := h[q].next;
      }
    }

    method TakeLeftNode(ghost all: set<Node>, cmp: Cmp<Node>, from: Node, to: Node, e: Node, ghost runs: seq<Node>,
                        ghost l: seq<Node>, ghost r: seq<Node>, ghost rest: seq<Node>, ghost t: seq<Node>,
                        ghost m: seq<Node>) returns (p: Node)
      requires TotalPreorder(cmp) && Rings(all, from, l + (r + rest), to, t + m) && Merging(cmp, runs, m, l, r)
      requires l != [] && e == l[0] && (r != [] ==> cmp(e, r[0]) <= 0)
      modifies this
      ensures Rings(all, from, l[1..] + (r + rest), to, t + (m + [e])) && Merging(cmp, runs, m + [e], l[1..], r)
      ensures (l[1..] != [] ==> p == l[1..][0]) && SameElse(old(h), h, all)
    {
      TakeLeft(cmp, runs, m, l, r);
      LeftParts(l, r + rest, t, m);
      RingDelete(h, from, [], e, l[1..] + (r + rest));
      p := h[e].next;
      Move(all, e, from, to, [], l[1..] + (r + rest), t + m);
    }

    method TakeRightNode(ghost all: set<Node>, cmp: Cmp<Node>, from: Node, to: Node, e: Node, ghost runs: seq<Node>,
                         ghost l: seq<Node>, ghost r: seq<Node>, ghost rest: seq<Node>, ghost t: seq<Node>,
                         ghost m: seq<Node>) returns (q: Node)
      requires TotalPreorder(cmp) && Rings(all, from, l + (r + rest), to, t + m) && Merging(cmp, runs, m, l, r)
      requires r != [] && e == r[0] && (l != [] ==> cmp(l[0], e) > 0)
      modifies this
      ensures Rings(all, from, l + (r[1..] + rest), to, t + (m + [e])) && Merging(cmp, runs, m + [e], l, r[1..])
      ensures q == First(r[1..] + rest, from) && SameElse(old(h), h, all)
    {
      TakeRight(cmp, runs, m, l, r);
      RightParts(l, r, rest, t, m);
      RingDelete(h, from, l, e, r[1..] + rest);
      q := h[e].next;
      Move(all, e, from, to, l, r[1..] + rest, t + m);
    }

    /** The second loop of a merge: the smaller of the first nodes of the two runs goes to the sorted list. */
    method MergeRuns(ghost all: set<Node>, cmp: Cmp<Node>, from: Node, to: Node, p0: Node, q0: Node, psize0: nat,
                     k: nat, ghost left: seq<Node>, ghost right: seq<Node>, ghost rest: seq<Node>, ghost t: seq<Node>)
      returns (next: Node, ghost m: seq<Node>)
      requires TotalPreorder(cmp) && Sorted(cmp, left) && Sorted(cmp, right)
      requires Rings(all, from, left + (right + rest), to, t) && psize0 == |left| && |right| == Min(k, |right + rest|)
      requires (left != [] ==> p0 == left[0]) && q0 == First(right + rest, from)
      modifies this
      ensures Rings(all, from, rest, to, t + m) && next == First(rest, from) && SameElse(old(h), h, all)
      ensures Merging(cmp, left + right, m, [], []) && |m| == |left| + |right|
    {
      var p, q, psize, qsize := p0, q0, psize0, k;
      ghost var runs, l, r := left + right, left, right;
      m := [];
      StartMerging(cmp, left, right);
      NilRight(t);
      while true
        invariant psize == |l| && |r| == Min(qsize, |r + rest|) && |m| + |l| + |r| == |runs|
        invariant (l != [] ==> p == l[0]) && q == First(r + rest, from) && SameElse(old(h), h, all)
        invariant Rings(all, from, l + (r + rest), to, t + m) && Merging(cmp, runs, m, l, r)
        decreases |l| + |r|
      {
        AtHead(from, l, r + rest, q);
        if q == from { qsize := 0; }
        if psize == 0 && qsize == 0 { break; }
        if psize == 0 || (qsize > 0 && cmp(p, q) > 0) {
          ghost var e := q;
          q := TakeRightNode(all, cmp, from, to, q, runs, l, r, rest, t, m);
          m, r := m + [e], r[1..];
          qsize := qsize - 1;
        } else {
          ghost var e := p;
          p := TakeLeftNode(all, cmp, from, to, p, runs, l, r, rest, t, m);
          m, l := m + [e], l[1..];
          psize := psize - 1;
        }
      }
      NilLeft(rest);
      next := q;
    }

    /** One pass: runs of length `k` become runs of twice the length. */
    method Pass(ghost all: set<Node>, cmp: Cmp<Node>, from: Node, to: Node, k: nat, ghost s: seq<Node>)
      returns (count: nat, ghost t: seq<Node>)
      requires TotalPreorder(cmp) && Rings(all, from, s, to, []) && s != [] && k > 0 && Blocks(cmp, s, k)
      modifies this
      ensures Rings(all, from, [], to, t) && SameElse(old(h), h, all) && t != []
      ensures Blocks(cmp, t, 2 * k) && SameClasses(cmp, t, s) && |t| == |s|
      ensures count == 1 <==> |s| <= 2 * k
    {
      TailIs(h, from, s);
      var p := h[from].next;
      count, t := 0, [];
      ghost var u := s;
      assert [] + s == s;
      while true
        invariant Rings(all, from, u, to, t) && u != [] && p == First(u, from) && SameElse(old(h), h, all)
        invariant Blocks(cmp, u, k) && FullBlocks(cmp, t, 2 * k, count) && |t| == 2 * k * count
        invariant SameClasses(cmp, t + u, s) && |t| + |u| == |s|
        decreases |u|
      {
        ghost var l, r, rest := TwoRuns(cmp, u, k);
        var psize, q := MeasureRun(from, p, k, u);
        SecondPart(l, r + rest);
        ghost var m;
        p, m := MergeRuns(all, cmp, from, to, p, q, psize, k, l, r, rest, t);
        MergedSorted(cmp, l + r, m);
        AppendBlock(cmp, t, 2 * k, count, m);
        assert u == (l + r) + rest;
        ReplaceRuns(cmp, t, l + r, m, rest, s);
        count, t, u := count + 1, t + m, rest;
        HeadNotIn(from, u, 0);
        if p == from { break; }
      }
      NilRight(t);
    }

    /** list_mergesort.  `empty` is the address of the local list head. */
    method Sort(head: Node, empty: Node, cmp: Cmp<Node>, ghost s: seq<Node>) returns (ghost t: seq<Node>)
      requires TotalPreorder(cmp) && Ring(h, head, s) && Ring(h, empty, []) && Apart([head] + s, [empty])
      modifies this
      ensures Ring(h, head, t) && StablySorted(cmp, s, t)
      ensures SameElse(old(h), h, Nodes([head] + s + [empty]))
    {
      ghost var all := Nodes([head] + s + [empty]);
      assert [empty] + [] == [empty];
      TailIs(h, head, s);
      HeadNotIn(head, s, 0);
      t := s;
      if h[head].next == head { return; }
      SingleBlocks(cmp, s);
      var unsorted, sorted := head, empty;
      var k, count := 1, 0;
      while true
        invariant k > 0 && SameElse(old(h), h, all) && t != [] && |t| == |s|
        invariant Rings(all, unsorted, t, sorted, []) && Blocks(cmp, t, k) && SameClasses(cmp, t, s)
        invariant (unsorted == head && sorted == empty) || (unsorted == empty && sorted == head)
        decreases |s| - k
      {
        ghost var before := t;
        count, t := Pass(all, cmp, unsorted, sorted, k, t);
        if count == 1 { break; }
        unsorted, sorted := sorted, unsorted;
        k := k * 2;
      }
      Sorted1(cmp, t, 2 * k);
      TailNodes(h, sorted, t);
      assert head in [head] + [];
      TakeOver(head, sorted, t);
    }

    /** The caller's head takes the place of the head the sorted list ended up under. */
    method TakeOver(head: Node, sorted: Node, ghost t: seq<Node>)
      requires t != [] && Ring(h, sorted, t) && head in h && head !in t
      modifies this
      ensures Ring(h, head, t) && SameElse(old(h), h, Nodes(t) + {head})
    {
      TailIs(h, sorted, t);
      ghost var h0 := h;
      var first, last := h[sorted].next, h[sorted].prev;
      assert ([sorted] + t)[|t|] == t[|t| - 1];
      assert Circle(sorted, t)[1] == t[0] && Linked(h, Circle(sorted, t)[0], Circle(sorted, t)[1]);
      assert Circle(sorted, t)[|t|] == last && Linked(h, Circle(sorted, t)[|t|], Circle(sorted, t)[|t| + 1]);
      h := SetNext(h, head, first);
      h := SetPrev(h, head, last);
      h := SetNext(h, last, head);
      h := SetPrev(h, first, head);
      TailNodes(h0, sorted, t);
      HeadReplaced(h0, h, head, sorted, t);
    }
  }

  lemma TailNodes(h: Links, head: Node, t: seq<Node>)
    requires Ring(h, head, t)
    ensures NoRepeat(t) && head !in t && forall i :: 0 <= i < |t| ==> t[i] in h
  {
    var s := [head] + t;
    forall i | 0 <= i < |t| ensures t[i] in h && t[i] != head {
      assert Linked(h, Circle(head, t)[i], Circle(head, t)[i + 1]);
      assert s[0] == head && s[i + 1] == t[i];
    }
    forall i, j | 0 <= i < j < |t| ensures t[i] != t[j] { assert s[i + 1] != s[j + 1]; }
  }

  lemma HeadReplaced(h: Links, h': Links, head: Node, sorted: Node, t: seq<Node>)
    requires t != [] && Ring(h, sorted, t) && head !in t && head in h' && h'.Keys == h.Keys
    requires h'[head] == Link(t[0], t[|t| - 1])
    requires forall i :: 0 <= i < |t| ==> t[i] in h
    requires forall i :: 0 < i < |t| ==> h'[t[i]].prev == h[t[i]].prev
    requires forall i :: 0 <= i < |t| - 1 ==> h'[t[i]].next == h[t[i]].next
    requires h'[t[0]].prev == head && h'[t[|t| - 1]].next == head
    ensures Ring(h', head, t)
  {
    var c, c' := Circle(sorted, t), Circle(head, t);
    forall i | 0 <= i < |c'| - 1 ensures Linked(h', c'[i], c'[i + 1]) {
      assert Linked(h, c[i], c[i + 1]);
      if 0 < i < |t| { assert c'[i] == t[i - 1] == c[i] && c'[i + 1] == t[i] == c[i + 1]; }
    }
    assert ([sorted] + t)[1..] == t;
    forall i, j | 0 <= i < j < |t| + 1 ensures ([head] + t)[i] != ([head] + t)[j] {
      assert ([sorted] + t)[i] != ([sorted] + t)[j];
    }
  }

  lemma StartMerging(cmp: Cmp<Node>, l: seq<Node>, r: seq<Node>)
    requires Sorted(cmp, l) && Sorted(cmp, r)
    ensures Merging(cmp, l + r, [], l, r)
  {
    assert [] + l + r == l + r;
  }

  lemma NilRight(t: seq<Node>)
    ensures t + [] == t
  {
  }

  lemma NilLeft(t: seq<Node>)
    ensures [] + ([] + t) == t
  {
  }

  lemma MergedSorted(cmp: Cmp<Node>, runs: seq<Node>, m: seq<Node>)
    requires Merging(cmp, runs, m, [], [])
    ensures Sorted(cmp, m) && SameClasses(cmp, m, runs)
  {
    assert m + [] + [] == m;
  }

  lemma ReplaceRuns(cmp: Cmp<Node>, t: seq<Node>, runs: seq<Node>, m: seq<Node>, rest: seq<Node>, s: seq<Node>)
    requires SameClasses(cmp, m, runs) && SameClasses(cmp, t + (runs + rest), s)
    ensures SameClasses(cmp, (t + m) + rest, s)
  {
    forall x ensures Class(cmp, x, (t + m) + rest) == Class(cmp, x, s) {
      ClassConcat(cmp, x, t + m, rest);
      ClassConcat(cmp, x, t, m);
      ClassConcat(cmp, x, t, runs + rest);
      ClassConcat(cmp, x, runs, rest);
    }
  }

  lemma Sorted1(cmp: Cmp<Node>, t: seq<Node>, n: nat)
    requires Blocks(cmp, t, n) && |t| <= n
    ensures Sorted(cmp, t)
  {
  }

  lemma HeadNotIn(head: Node, s: seq<Node>, i: nat)
    requires NoRepeat([head] + s) && i <= |s|
    ensures First(s[i..], head) == head <==> i == |s|
  {
    if i < |s| { assert ([head] + s)[i + 1] == s[i] && ([head] + s)[0] == head; }
  }

  /** The pointer behind the left run is at the head iff nothing is left there. */
  lemma AtHead(head: Node, l: seq<Node>, u: seq<Node>, q: Node)
    requires NoRepeat([head] + (l + u)) && q == First(u, head)
    ensures q == head <==> u == []
  {
    SecondPart(l, u);
    HeadNotIn(head, l + u, |l|);
  }

  lemma SecondPart(a: seq<Node>, b: seq<Node>)
    ensures (a + b)[|a|..] == b
  {
  }

  lemma NextAt(h: Links, head: Node, s: seq<Node>, i: nat)
    requires Ring(h, head, s) && i < |s|
    ensures s[i] in h && h[s[i]].next == First(s[i + 1..], head)
  {
    assert s == s[..i] + [s[i]] + s[i + 1..];
    RingDelete(h, head, s[..i], s[i], s[i + 1..]);
  }

  lemma LeftParts(l: seq<Node>, b: seq<Node>, t: seq<Node>, m: seq<Node>)
    requires l != []
    ensures l + b == [] + [l[0]] + (l[1..] + b) && [] + (l[1..] + b) == l[1..] + b
            && (t + m) + [l[0]] == t + (m + [l[0]])
    ensures l[1..] != [] ==> (l[1..] + b) != [] && (l[1..] + b)[0] == l[1..][0]
  {
  }

  lemma RightParts(l: seq<Node>, r: seq<Node>, rest: seq<Node>, t: seq<Node>, m: seq<Node>)
    requires r != []
    ensures l + (r + rest) == l + [r[0]] + (r[1..] + rest) && (t + m) + [r[0]] == t + (m + [r[0]])
  {
  }

  /** A head spliced into a ring as sorted_list_rebuild does it: `_list_add(head, other->prev, other->next)`. */
  function Spliced(h: Links, head: Node, other: Node): Links
    requires head in h && other in h && h[other].next in h && h[other].prev in h
  {
    var prev, next := h[other].prev, h[other].next;
    SetNext(SetPrev(SetNext(SetPrev(h, next, head), head, next), head, prev), prev, head)
  }

  /** For an empty ring that is wrong: the head is then linked to the other head, whose storage ends with the call. */
  lemma SpliceEmpty(h: Links, head: Node, other: Node)
    requires Ring(h, other, []) && head in h && head != other
    ensures other in h && h[other].next in h && h[other].prev in h
    ensures Ring(Spliced(h, head, other), head, [other]) && !Ring(Spliced(h, head, other), head, [])
  {
    TailIs(h, other, []);
    assert Spliced(h, head, other)[head].next == other;
    EmptyNext(Spliced(h, head, other), head);
  }

  lemma EmptyNext(h: Links, head: Node)
    ensures Ring(h, head, []) ==> head in h && h[head].next == head
  {
    var c := Circle(head, []);
    assert c[0] == c[1] == head;
    assert Ring(h, head, []) ==> Linked(h, c[0], c[1]);
  }

  /** For any other ring the head takes the other head's place. */
  lemma SpliceOther(h: Links, head: Node, other: Node, t: seq<Node>)
    requires Ring(h, other, t) && t != [] && head in h && head != other && head !in t
    ensures other in h && h[other].next in h && h[other].prev in h && Ring(Spliced(h, head, other), head, t)
  {
    TailIs(h, other, t);
    TailNodes(h, other, t);
    var c := Circle(other, t);
    assert ([other] + t)[|t|] == t[|t| - 1];
    assert Linked(h, c[0], c[1]) && Linked(h, c[|t|], c[|t| + 1]);
    HeadReplaced(h, Spliced(h, head, other), head, other, t);
  }

  ghost predicate Apart(s: seq<Node>, t: seq<Node>) { forall x :: x in s ==> x !in t }

  lemma MoveApart(from: Node, u: seq<Node>, e: Node, v: seq<Node>, to: Node, t: seq<Node>)
    requires Apart([from] + (u + [e] + v), [to] + t) && NoRepeat([from] + (u + [e] + v))
    ensures Apart([from] + (u + v), [to] + (t + [e])) && Apart([from] + (u + v), [to] + t) && e != to && e !in t
  {
    CircleParts(from, u, e, v);
    NoRepeatParts([from] + u, e, v);
    assert e in [from] + (u + [e] + v) && to in [to] + t;
    forall x | x in [from] + (u + v) ensures x !in [to] + (t + [e]) {
      assert x in [from] + (u + [e] + v);
    }
  }

  lemma RingFrame(h: Links, h': Links, c: seq<Node>, head: Node, s: seq<Node>)
    requires Ring(h, head, s) && SameExcept(h, h', c) && Apart(c, [head] + s)
    ensures Ring(h', head, s)
  {
    forall x | x in Circle(head, s) && x in h ensures h'[x] == h[x] {
      assert x in [head] + s;
    }
    ChainFrame(h, h', Circle(head, s));
  }

  lemma TailIs(h: Links, head: Node, s: seq<Node>)
    requires Ring(h, head, s)
    ensures head in h && h[head].prev == ([head] + s)[|s|] && (h[head].next == if s == [] then head else s[0])
  {
    assert Circle(head, s) == ([head] + s) + [head];
    ChainParts(h, [head] + s, [head]);
    assert Circle(head, s) == [head] + (s + [head]);
    ChainParts(h, [head], s + [head]);
  }

  // ---- merging ----

  ghost predicate SameClasses(cmp: Cmp<Node>, s: seq<Node>, r: seq<Node>) {
    forall x :: Class(cmp, x, s) == Class(cmp, x, r)
  }

  ghost predicate Below(cmp: Cmp<Node>, m: seq<Node>, s: seq<Node>) {
    forall i, j :: 0 <= i < |m| && 0 <= j < |s| ==> cmp(m[i], s[j]) <= 0
  }

  /** `m` is merged so far, `p` and `q` are what is left of the two runs. */
  ghost predicate Merging(cmp: Cmp<Node>, runs: seq<Node>, m: seq<Node>, p: seq<Node>, q: seq<Node>) {
    && Sorted(cmp, m) && Sorted(cmp, p) && Sorted(cmp, q) && Below(cmp, m, p) && Below(cmp, m, q)
    && SameClasses(cmp, m + p + q, runs)
  }

  lemma SortedAppend(cmp: Cmp<Node>, m: seq<Node>, x: Node, s: seq<Node>)
    requires TotalPreorder(cmp) && Sorted(cmp, m) && Below(cmp, m, s) && Sorted(cmp, s) && s != [] && s[0] == x
    ensures Sorted(cmp, m + [x]) && Below(cmp, m + [x], s[1..]) && Sorted(cmp, s[1..])
  {
    var m' := m + [x];
    forall i, j | 0 <= i < j < |m'| ensures cmp(m'[i], m'[j]) <= 0 {
      if j == |m| { assert cmp(m[i], s[0]) <= 0; }
    }
    forall i, j | 0 <= i < |m'| && 0 <= j < |s| - 1 ensures cmp(m'[i], s[1..][j]) <= 0 {
      if i < |m| { assert cmp(m[i], s[j + 1]) <= 0; } else { assert cmp(s[0], s[j + 1]) <= 0; }
    }
  }

  lemma BelowAppend(cmp: Cmp<Node>, m: seq<Node>, x: Node, s: seq<Node>)
    requires TotalPreorder(cmp) && Below(cmp, m, s) && Sorted(cmp, s) && (s != [] ==> cmp(x, s[0]) <= 0)
    ensures Below(cmp, m + [x], s)
  {
    var m' := m + [x];
    forall i, j | 0 <= i < |m'| && 0 <= j < |s| ensures cmp(m'[i], s[j]) <= 0 {
      if i == |m| && j > 0 { CmpTransitive(cmp, x, s[0], s[j]); }
    }
  }

  lemma TakeLeft(cmp: Cmp<Node>, runs: seq<Node>, m: seq<Node>, p: seq<Node>, q: seq<Node>)
    requires TotalPreorder(cmp) && Merging(cmp, runs, m, p, q) && p != [] && (q != [] ==> cmp(p[0], q[0]) <= 0)
    ensures Merging(cmp, runs, m + [p[0]], p[1..], q)
  {
    SortedAppend(cmp, m, p[0], p);
    BelowAppend(cmp, m, p[0], q);
    assert (m + [p[0]]) + p[1..] + q == m + p + q;
  }

  /** The right run gives way only to strictly smaller nodes, so equal nodes keep their order. */
  lemma TakeRight(cmp: Cmp<Node>, runs: seq<Node>, m: seq<Node>, p: seq<Node>, q: seq<Node>)
    requires TotalPreorder(cmp) && Merging(cmp, runs, m, p, q) && q != [] && (p != [] ==> cmp(p[0], q[0]) > 0)
    ensures Merging(cmp, runs, m + [q[0]], p, q[1..])
  {
    var y := q[0];
    SortedAppend(cmp, m, y, q);
    if p != [] { CmpFlip(cmp, p[0], y); }
    BelowAppend(cmp, m, y, p);
    forall x ensures Class(cmp, x, (m + [y]) + p + q[1..]) == Class(cmp, x, runs) {
      if cmp(x, y) == 0 {
        forall i | 0 <= i < |p| ensures cmp(x, p[i]) != 0 { Above(cmp, x, y, p, i); }
        ClassEmpty(cmp, x, p);
      }
      ClassPast(cmp, x, m, y, p, q[1..]);
      assert [y] + q[1..] == q;
    }
  }

  lemma Above(cmp: Cmp<Node>, x: Node, y: Node, p: seq<Node>, i: nat)
    requires TotalPreorder(cmp) && Sorted(cmp, p) && i < |p| && cmp(p[0], y) > 0 && cmp(x, y) == 0
    ensures cmp(x, p[i]) != 0
  {
    CmpFlip(cmp, p[0], y);
    CmpFlip(cmp, x, p[i]);
    CmpFlip(cmp, p[0], p[0]);
    CmpTransitive(cmp, y, p[0], p[i]);
    CmpTransitive(cmp, x, y, p[i]);
  }

  lemma ClassPast(cmp: Cmp<Node>, x: Node, m: seq<Node>, y: Node, p: seq<Node>, q: seq<Node>)
    requires cmp(x, y) == 0 ==> Class(cmp, x, p) == []
    ensures Class(cmp, x, (m + [y]) + p + q) == Class(cmp, x, m + p + ([y] + q))
  {
    ClassConcat(cmp, x, m + [y] + p, q);
    ClassConcat(cmp, x, m + [y], p);
    ClassConcat(cmp, x, m, [y]);
    ClassConcat(cmp, x, m + p, [y] + q);
    ClassConcat(cmp, x, m, p);
    ClassConcat(cmp, x, [y], q);
  }

  // ---- runs ----

  /** `s` is sorted in stretches of `n`. */
  ghost predicate Blocks(cmp: Cmp<Node>, s: seq<Node>, n: nat)
    decreases |s|
  {
    if |s| <= n || n == 0 then Sorted(cmp, s) else Sorted(cmp, s[..n]) && Blocks(cmp, s[n..], n)
  }

  /** In exactly `count` of them. */
  ghost predicate FullBlocks(cmp: Cmp<Node>, s: seq<Node>, n: nat, count: nat)
    decreases count
  {
    if count == 0 then s == [] else |s| >= n && Sorted(cmp, s[..n]) && FullBlocks(cmp, s[n..], n, count - 1)
  }

  lemma {:induction false} AppendBlock(cmp: Cmp<Node>, s: seq<Node>, n: nat, count: nat, m: seq<Node>)
    requires n > 0 && FullBlocks(cmp, s, n, count) && Sorted(cmp, m) && 0 < |m| <= n
    ensures Blocks(cmp, s + m, n) && (|m| == n ==> FullBlocks(cmp, s + m, n, count + 1))
    decreases count
  {
    if count == 0 {
      assert s + m == m;
      if |m| == n { assert m[..n] == m && m[n..] == []; }
    } else {
      assert (s + m)[..n] == s[..n] && (s + m)[n..] == s[n..] + m;
      AppendBlock(cmp, s[n..], n, count - 1, m);
    }
  }

  lemma {:induction false} SingleBlocks(cmp: Cmp<Node>, s: seq<Node>)
    ensures Blocks(cmp, s, 1)
    decreases |s|
  {
    if |s| <= 1 {
    } else {
      SingleBlocks(cmp, s[1..]);
    }
  }

  function Min(a: int, b: int): int { if a < b then a else b }

  function First(s: seq<Node>, head: Node): Node { if s == [] then head else s[0] }

  /** The first two runs of `s` and the rest. */
  lemma TwoRuns(cmp: Cmp<Node>, s: seq<Node>, n: nat) returns (p: seq<Node>, q: seq<Node>, rest: seq<Node>)
    requires n > 0 && Blocks(cmp, s, n)
    ensures s == p + (q + rest) && |p| == Min(n, |s|) && |q| == Min(n, |q + rest|)
    ensures Sorted(cmp, p) && Sorted(cmp, q) && Blocks(cmp, rest, n)
  {
    if |s| <= n {
      p, q, rest := s, [], [];
      assert Sorted(cmp, q);
    } else {
      var t := s[n..];
      p := s[..n];
      if |t| <= n { q, rest := t, []; } else { q, rest := t[..n], t[n..]; }
      assert t == q + rest && s == p + t;
    }
  }
}
