/** The list side of src/core/track.c as values: where a track is inserted into a sorted list, which tracks
    start a run of equal keys, and how both change when a track comes or goes. */
module TrackOrder {
  import opened RbShape
  import opened Order

  /** The first track of every run of equal keys. */
  function Firsts(cmp: Cmp<Ptr>, s: seq<Ptr>): seq<Ptr> {
    if s == [] then [] else
      var n := |s| - 1;
      Firsts(cmp, s[..n]) + if n == 0 || cmp(s[n - 1], s[n]) != 0 then [s[n]] else []
  }

  /** Where the insertion stops: at the first larger element, or for a negative tiebreak the first not smaller one. */
  predicate StopsAt(cmp: Cmp<Ptr>, x: Ptr, tiebreak: int, y: Ptr) {
    if tiebreak < 0 then cmp(x, y) <= 0 else cmp(x, y) < 0
  }

  function InsertPos(cmp: Cmp<Ptr>, s: seq<Ptr>, x: Ptr, tiebreak: int): (p: nat)
    ensures p <= |s|
    ensures forall i :: 0 <= i < p ==> !StopsAt(cmp, x, tiebreak, s[i])
    ensures p < |s| ==> StopsAt(cmp, x, tiebreak, s[p])
  {
    if s == [] || StopsAt(cmp, x, tiebreak, s[0]) then 0 else 1 + InsertPos(cmp, s[1..], x, tiebreak)
  }

  function InsertAt(s: seq<Ptr>, p: nat, x: Ptr): seq<Ptr>
    requires p <= |s|
  { s[..p] + [x] + s[p..] }

  function Inserted(cmp: Cmp<Ptr>, s: seq<Ptr>, x: Ptr, tiebreak: int): seq<Ptr> {
    InsertAt(s, InsertPos(cmp, s, x, tiebreak), x)
  }

  lemma {:induction false} InsertPosAfter(cmp: Cmp<Ptr>, s: seq<Ptr>, x: Ptr, tiebreak: int)
    requires TotalPreorder(cmp) && Sorted(cmp, s)
    ensures var p := InsertPos(cmp, s, x, tiebreak);
            forall i :: p <= i < |s| ==> StopsAt(cmp, x, tiebreak, s[i])
  {
    var p := InsertPos(cmp, s, x, tiebreak);
    forall i | p < i < |s| ensures StopsAt(cmp, x, tiebreak, s[i]) {
      CmpTransitive(cmp, x, s[p], s[i]);
    }
  }

  lemma {:induction false} InsertedSorted(cmp: Cmp<Ptr>, s: seq<Ptr>, x: Ptr, tiebreak: int)
    requires TotalPreorder(cmp) && Sorted(cmp, s)
    ensures Sorted(cmp, Inserted(cmp, s, x, tiebreak))
  {
    var p, r := InsertPos(cmp, s, x, tiebreak), Inserted(cmp, s, x, tiebreak);
    InsertPosAfter(cmp, s, x, tiebreak);
    forall i, j | 0 <= i < j < |r| ensures cmp(r[i], r[j]) <= 0 {
      var a: Ptr := if i < p then s[i] else if i == p then x else s[i - 1];
      var b: Ptr := if j < p then s[j] else if j == p then x else s[j - 1];
      assert r[i] == a && r[j] == b;
      CmpFlip(cmp, a, b);
    }
  }

  // ---- run starts ----

  /** Position `p` does not cut through a run. */
  predicate Boundary(cmp: Cmp<Ptr>, s: seq<Ptr>, p: nat) {
    p <= |s| && (0 < p < |s| ==> cmp(s[p - 1], s[p]) != 0)
  }

  lemma {:induction false} FirstsSplit(cmp: Cmp<Ptr>, s: seq<Ptr>, p: nat)
    requires Boundary(cmp, s, p)
    ensures Firsts(cmp, s) == Firsts(cmp, s[..p]) + Firsts(cmp, s[p..])
  {
    if p == |s| {
      assert s[..p] == s;
    } else {
      var n := |s| - 1;
      var u := s[p..];
      assert u[..|u| - 1] == s[..n][p..] && s[..n][..p] == s[..p];
      FirstsSplit(cmp, s[..n], p);
      assert |u| > 1 ==> u[|u| - 2] == s[n - 1];
    }
  }

  lemma {:induction false} FirstsSubset(cmp: Cmp<Ptr>, s: seq<Ptr>, x: Ptr)
    requires x in Firsts(cmp, s)
    ensures x in s
  {
    if x in Firsts(cmp, s[..|s| - 1]) { FirstsSubset(cmp, s[..|s| - 1], x); }
  }

  lemma {:induction false} FirstsHead(cmp: Cmp<Ptr>, s: seq<Ptr>)
    ensures s == [] <==> Firsts(cmp, s) == []
    ensures s != [] ==> Firsts(cmp, s)[0] == s[0]
  {
    if |s| <= 1 {
    } else {
      FirstsHead(cmp, s[..|s| - 1]);
    }
  }

  /** A run start is in the list of starts exactly where it stands. */
  lemma {:induction false} FirstsAt(cmp: Cmp<Ptr>, s: seq<Ptr>, i: nat)
    requires NoRepeat(s) && i < |s|
    ensures s[i] in Firsts(cmp, s) <==> i == 0 || cmp(s[i - 1], s[i]) != 0
  {
    if Boundary(cmp, s, i) {
      FirstsSplit(cmp, s, i);
      FirstsHead(cmp, s[i..]);
    } else {
      FirstsNot(cmp, s, i);
    }
  }

  lemma {:induction false} FirstsNot(cmp: Cmp<Ptr>, s: seq<Ptr>, i: nat)
    requires NoRepeat(s) && 0 < i < |s| && cmp(s[i - 1], s[i]) == 0
    ensures s[i] !in Firsts(cmp, s)
  {
    var n := |s| - 1;
    if i < n {
      FirstsNot(cmp, s[..n], i);
    } else if s[n] in Firsts(cmp, s[..n]) {
      FirstsSubset(cmp, s[..n], s[n]);
    }
  }

  ghost predicate Strict(cmp: Cmp<Ptr>, s: seq<Ptr>) {
    forall i, j :: 0 <= i < j < |s| ==> cmp(s[i], s[j]) < 0
  }

  /** Starts of different runs differ strictly. */
  lemma {:induction false} FirstsStrict(cmp: Cmp<Ptr>, s: seq<Ptr>)
    requires TotalPreorder(cmp) && Sorted(cmp, s)
    ensures Strict(cmp, Firsts(cmp, s))
  {
    if s == [] {
    } else {
      var n := |s| - 1;
      var g := Firsts(cmp, s[..n]);
      FirstsStrict(cmp, s[..n]);
      if n == 0 || cmp(s[n - 1], s[n]) != 0 {
        forall i | 0 <= i < |g| ensures cmp(g[i], s[n]) < 0 { StartBelow(cmp, s, g[i]); }
        StrictAppend(cmp, g, s[n]);
      }
    }
  }

  /** A start below a new start at the end. */
  lemma StartBelow(cmp: Cmp<Ptr>, s: seq<Ptr>, y: Ptr)
    requires TotalPreorder(cmp) && Sorted(cmp, s) && s != [] && y in Firsts(cmp, s[..|s| - 1])
    requires |s| > 1 ==> cmp(s[|s| - 2], s[|s| - 1]) != 0
    ensures cmp(y, s[|s| - 1]) < 0
  {
    var n := |s| - 1;
    FirstsSubset(cmp, s[..n], y);
    var m :| 0 <= m < n && s[m] == y;
    assert cmp(s[n - 1], s[n]) <= 0;
    if m < n - 1 { CmpTransitive(cmp, s[m], s[n - 1], s[n]); }
  }

  lemma StrictAppend(cmp: Cmp<Ptr>, g: seq<Ptr>, x: Ptr)
    requires Strict(cmp, g) && forall i :: 0 <= i < |g| ==> cmp(g[i], x) < 0
    ensures Strict(cmp, g + [x])
  {
  }

  // ---- how the run starts change ----

  /** A track equal to the first of a run takes its place when put before it. */
  lemma {:induction false} FirstsSwapHead(cmp: Cmp<Ptr>, x: Ptr, u: seq<Ptr>)
    requires u != [] && cmp(x, u[0]) == 0
    ensures Firsts(cmp, u) != [] && Firsts(cmp, [x] + u) == [x] + Firsts(cmp, u)[1..]
  {
    var n := |u| - 1;
    FirstsHead(cmp, u);
    assert ([x] + u)[..n + 1] == [x] + u[..n];
    if n == 0 {
      assert Firsts(cmp, [x] + u[..n]) == [x];
    } else {
      FirstsSwapHead(cmp, x, u[..n]);
      assert ([x] + u)[n] == u[n - 1];
    }
  }

  lemma {:induction false} FirstsConcat(cmp: Cmp<Ptr>, a: seq<Ptr>, b: seq<Ptr>)
    requires a != [] && b != [] ==> cmp(a[|a| - 1], b[0]) != 0
    ensures Firsts(cmp, a + b) == Firsts(cmp, a) + Firsts(cmp, b)
  {
    assert (a + b)[..|a|] == a && (a + b)[|a|..] == b;
    FirstsSplit(cmp, a + b, |a|);
  }

  /** A track with a key of its own is a start. */
  lemma {:induction false} FirstsBetween(cmp: Cmp<Ptr>, a: seq<Ptr>, x: Ptr, b: seq<Ptr>)
    requires (a != [] ==> cmp(a[|a| - 1], x) != 0) && (b != [] ==> cmp(x, b[0]) != 0)
    ensures Firsts(cmp, a + [x] + b) == Firsts(cmp, a) + [x] + Firsts(cmp, b)
  {
    FirstsConcat(cmp, a + [x], b);
    FirstsConcat(cmp, a, [x]);
    assert Firsts(cmp, [x]) == [x];
  }

  /** A track put before a run it is equal to becomes that run's start. */
  lemma {:induction false} FirstsBefore(cmp: Cmp<Ptr>, a: seq<Ptr>, x: Ptr, b: seq<Ptr>)
    requires (a != [] ==> cmp(a[|a| - 1], x) != 0) && b != [] && cmp(x, b[0]) == 0
    ensures Firsts(cmp, b) != [] && Firsts(cmp, a + [x] + b) == Firsts(cmp, a) + [x] + Firsts(cmp, b)[1..]
  {
    assert a + [x] + b == a + ([x] + b);
    FirstsConcat(cmp, a, [x] + b);
    FirstsSwapHead(cmp, x, b);
  }

  /** A track inside a run comes and goes without changing the starts. */
  lemma {:induction false} FirstsInner(cmp: Cmp<Ptr>, a: seq<Ptr>, x: Ptr, b: seq<Ptr>)
    requires a != [] && cmp(a[|a| - 1], x) == 0
    requires b != [] ==> (cmp(a[|a| - 1], b[0]) == 0 <==> cmp(x, b[0]) == 0)
    ensures Firsts(cmp, a + [x] + b) == Firsts(cmp, a + b)
  {
    var s, r := a + [x] + b, a + b;
    if b == [] {
      assert s[..|s| - 1] == a && r == a;
    } else {
      var n := |b| - 1;
      assert s[..|s| - 1] == a + [x] + b[..n] && r[..|r| - 1] == a + b[..n];
      FirstsInner(cmp, a, x, b[..n]);
      assert s[|s| - 1] == r[|r| - 1] == b[n];
    }
  }

  /** Two ways to cut a sequence between elements failing and meeting `StopsAt` are the same. */
  lemma {:induction false} SameCut(cmp: Cmp<Ptr>, x: Ptr, tiebreak: int, l: seq<Ptr>, r: seq<Ptr>, l': seq<Ptr>,
                                   r': seq<Ptr>)
    requires l + r == l' + r'
    requires forall i :: 0 <= i < |l| ==> !StopsAt(cmp, x, tiebreak, l[i])
    requires forall i :: 0 <= i < |l'| ==> !StopsAt(cmp, x, tiebreak, l'[i])
    requires forall i :: 0 <= i < |r| ==> StopsAt(cmp, x, tiebreak, r[i])
    requires forall i :: 0 <= i < |r'| ==> StopsAt(cmp, x, tiebreak, r'[i])
    ensures l == l' && r == r'
  {
    assert (l != [] ==> l[0] == (l + r)[0]) && (l' != [] ==> l'[0] == (l' + r')[0]);
    if l == [] { assert l + r == r; }
    if l' == [] { assert l' + r' == r'; }
    if l != [] && l' != [] {
      assert l[0] == (l + r)[0] == l'[0];
      assert l[1..] + r == (l + r)[1..] == l'[1..] + r';
      SameCut(cmp, x, tiebreak, l[1..], r, l'[1..], r');
    }
  }

  /** If the starts of sorted `s` are `l + r`, cut where insertion of `x` stops, then `s` is cut there too. */
  lemma {:induction false} CutAtInsertPos(cmp: Cmp<Ptr>, s: seq<Ptr>, x: Ptr, tiebreak: int, l: seq<Ptr>, r: seq<Ptr>)
    requires TotalPreorder(cmp) && Sorted(cmp, s) && Firsts(cmp, s) == l + r
    requires forall i :: 0 <= i < |l| ==> !StopsAt(cmp, x, tiebreak, l[i])
    requires forall i :: 0 <= i < |r| ==> StopsAt(cmp, x, tiebreak, r[i])
    ensures var p := InsertPos(cmp, s, x, tiebreak);
            Boundary(cmp, s, p) && Firsts(cmp, s[..p]) == l && Firsts(cmp, s[p..]) == r
            && if r == [] then p == |s| else p < |s| && s[p] == r[0]
  {
    var p := InsertPos(cmp, s, x, tiebreak);
    InsertPosAfter(cmp, s, x, tiebreak);
    if 0 < p < |s| && cmp(s[p - 1], s[p]) == 0 {
      CmpFlip(cmp, x, s[p - 1]);
      CmpFlip(cmp, x, s[p]);
      CmpFlip(cmp, s[p - 1], s[p]);
      CmpTransitive(cmp, x, s[p], s[p - 1]);
    }
    FirstsSplit(cmp, s, p);
    var l', r' := Firsts(cmp, s[..p]), Firsts(cmp, s[p..]);
    forall i | 0 <= i < |l'| ensures !StopsAt(cmp, x, tiebreak, l'[i]) { FirstsSubset(cmp, s[..p], l'[i]); }
    forall i | 0 <= i < |r'| ensures StopsAt(cmp, x, tiebreak, r'[i]) { FirstsSubset(cmp, s[p..], r'[i]); }
    SameCut(cmp, x, tiebreak, l, r, l', r');
    FirstsHead(cmp, s[p..]);
  }

  /** Starts after inserting a track with a new key. */
  lemma {:induction false} FirstsNewKey(cmp: Cmp<Ptr>, s: seq<Ptr>, x: Ptr, tiebreak: int, l: seq<Ptr>, r: seq<Ptr>)
    requires TotalPreorder(cmp) && Sorted(cmp, s) && Firsts(cmp, s) == l + r
    requires forall i :: 0 <= i < |l| ==> cmp(x, l[i]) > 0
    requires forall i :: 0 <= i < |r| ==> cmp(x, r[i]) < 0
    ensures Firsts(cmp, Inserted(cmp, s, x, tiebreak)) == l + [x] + r
    ensures var p := InsertPos(cmp, s, x, tiebreak); if r == [] then p == |s| else p < |s| && s[p] == r[0]
  {
    CutAtInsertPos(cmp, s, x, tiebreak, l, r);
    var p := InsertPos(cmp, s, x, tiebreak);
    if p > 0 {
      CmpFlip(cmp, x, s[p - 1]);
      NoEqualKey(cmp, s, x, l, r, p - 1);
    }
    if p < |s| { NoEqualKey(cmp, s, x, l, r, p); }
    FirstsBetween(cmp, s[..p], x, s[p..]);
  }

  /** Every element has the key of some start. */
  lemma {:induction false} StartOf(cmp: Cmp<Ptr>, s: seq<Ptr>, i: nat) returns (y: Ptr)
    requires TotalPreorder(cmp) && i < |s|
    ensures y in Firsts(cmp, s) && cmp(y, s[i]) == 0
  {
    CmpFlip(cmp, s[i], s[i]);
    var n := |s| - 1;
    if i < n {
      y := StartOf(cmp, s[..n], i);
    } else if n > 0 && cmp(s[n - 1], s[n]) == 0 {
      y := StartOf(cmp, s[..n], n - 1);
      CmpTransitive(cmp, y, s[n - 1], s[n]);
    } else {
      y := s[n];
    }
  }

  lemma {:induction false} NoEqualKey(cmp: Cmp<Ptr>, s: seq<Ptr>, x: Ptr, l: seq<Ptr>, r: seq<Ptr>, i: nat)
    requires TotalPreorder(cmp) && Firsts(cmp, s) == l + r && i < |s|
    requires forall j :: 0 <= j < |l| ==> cmp(x, l[j]) > 0
    requires forall j :: 0 <= j < |r| ==> cmp(x, r[j]) < 0
    ensures cmp(x, s[i]) != 0
  {
    var y := StartOf(cmp, s, i);
    CmpFlip(cmp, y, s[i]);
    assert y in l || y in r;
    if cmp(x, s[i]) == 0 { CmpTransitive(cmp, x, s[i], y); }
  }

  /** Starts after inserting a track before the run of its equals, which `y` starts. */
  lemma {:induction false} FirstsEqualBefore(cmp: Cmp<Ptr>, s: seq<Ptr>, x: Ptr, tiebreak: int, l: seq<Ptr>, y: Ptr,
                                             r: seq<Ptr>)
    requires TotalPreorder(cmp) && Sorted(cmp, s) && Firsts(cmp, s) == l + [y] + r && cmp(x, y) == 0 && tiebreak < 0
    requires forall i :: 0 <= i < |l| ==> cmp(x, l[i]) > 0
    requires forall i :: 0 <= i < |r| ==> cmp(x, r[i]) < 0
    ensures Firsts(cmp, Inserted(cmp, s, x, tiebreak)) == l + [x] + r
    ensures var p := InsertPos(cmp, s, x, tiebreak); p < |s| && s[p] == y
  {
    var p := InsertPos(cmp, s, x, tiebreak);
    var yr := [y] + r;
    assert l + yr == l + [y] + r;
    assert forall i :: 0 <= i < |yr| ==> StopsAt(cmp, x, tiebreak, yr[i]);
    CutAtInsertPos(cmp, s, x, tiebreak, l, yr);
    if p > 0 { CmpFlip(cmp, x, s[p - 1]); }
    FirstsBeforeAt(cmp, s, p, x, l, y, r);
  }

  lemma {:induction false} FirstsBeforeAt(cmp: Cmp<Ptr>, s: seq<Ptr>, p: nat, x: Ptr, l: seq<Ptr>, y: Ptr, r: seq<Ptr>)
    requires p < |s| && Firsts(cmp, s[..p]) == l && Firsts(cmp, s[p..]) == [y] + r
    requires cmp(x, s[p]) == 0 && (p > 0 ==> cmp(s[p - 1], x) != 0)
    ensures Firsts(cmp, InsertAt(s, p, x)) == l + [x] + r
  {
    FirstsBefore(cmp, s[..p], x, s[p..]);
  }

  /** Starts after inserting a track at the end of the run of its equals, which `y` starts. */
  lemma {:induction false} FirstsEqualAfter(cmp: Cmp<Ptr>, s: seq<Ptr>, x: Ptr, tiebreak: int, l: seq<Ptr>, y: Ptr,
                                            r: seq<Ptr>)
    requires TotalPreorder(cmp) && Sorted(cmp, s) && Firsts(cmp, s) == l + [y] + r && cmp(x, y) == 0 && tiebreak >= 0
    requires forall i :: 0 <= i < |l| ==> cmp(x, l[i]) > 0
    requires forall i :: 0 <= i < |r| ==> cmp(x, r[i]) < 0
    ensures Firsts(cmp, Inserted(cmp, s, x, tiebreak)) == Firsts(cmp, s)
    ensures var p := InsertPos(cmp, s, x, tiebreak); if r == [] then p == |s| else p < |s| && s[p] == r[0]
  {
    var p := InsertPos(cmp, s, x, tiebreak);
    var ly := l + [y];
    assert forall i :: 0 <= i < |ly| ==> !StopsAt(cmp, x, tiebreak, ly[i]);
    CutAtInsertPos(cmp, s, x, tiebreak, ly, r);
    assert ly[|l|] == y;
    RunEnd(cmp, s, x, y, p);
    FirstsInnerAt(cmp, s, p, x);
  }

  lemma {:induction false} FirstsInnerAt(cmp: Cmp<Ptr>, s: seq<Ptr>, p: nat, x: Ptr)
    requires 0 < p <= |s| && cmp(s[p - 1], x) == 0 && Boundary(cmp, s, p) && (p < |s| ==> cmp(x, s[p]) < 0)
    ensures Firsts(cmp, InsertAt(s, p, x)) == Firsts(cmp, s)
  {
    FirstsInner(cmp, s[..p], x, s[p..]);
    assert s[..p] + s[p..] == s;
  }

  lemma {:induction false} RunEnd(cmp: Cmp<Ptr>, s: seq<Ptr>, x: Ptr, y: Ptr, p: nat)
    requires TotalPreorder(cmp) && Sorted(cmp, s) && p <= |s| && forall i :: 0 <= i < p ==> cmp(x, s[i]) >= 0
    requires y in Firsts(cmp, s[..p]) && cmp(x, y) == 0
    ensures p > 0 && cmp(s[p - 1], x) == 0
  {
    FirstsSubset(cmp, s[..p], y);
    var i :| 0 <= i < p && s[i] == y;
    CmpFlip(cmp, x, y);
    CmpFlip(cmp, x, s[p - 1]);
    if i < p - 1 { CmpTransitive(cmp, x, y, s[p - 1]); }
  }

  function Removed(s: seq<Ptr>, i: nat): seq<Ptr>
    requires i < |s|
  { s[..i] + s[i + 1..] }

  predicate RunInside(cmp: Cmp<Ptr>, a: seq<Ptr>, x: Ptr) { a != [] && cmp(a[|a| - 1], x) == 0 }

  predicate RunGoesOn(cmp: Cmp<Ptr>, x: Ptr, b: seq<Ptr>) { b != [] && cmp(x, b[0]) == 0 }

  /** Starts after removing element `x` from sorted `a + [x] + b`: nothing changes when `x` is inside a run, its
      successor takes over when it shares the key of `x`, and otherwise one start disappears. */
  lemma {:induction false} FirstsRemoved(cmp: Cmp<Ptr>, a: seq<Ptr>, x: Ptr, b: seq<Ptr>)
    requires TotalPreorder(cmp) && Sorted(cmp, a + [x] + b)
    ensures RunInside(cmp, a, x) ==> Firsts(cmp, a + [x] + b) == Firsts(cmp, a + b)
    ensures !RunInside(cmp, a, x) && RunGoesOn(cmp, x, b) ==>
              Firsts(cmp, b) != []
              && Firsts(cmp, a + [x] + b) == Firsts(cmp, a) + [x] + Firsts(cmp, b)[1..]
              && Firsts(cmp, a + b) == Firsts(cmp, a) + [b[0]] + Firsts(cmp, b)[1..]
    ensures !RunInside(cmp, a, x) && !RunGoesOn(cmp, x, b) ==>
              Firsts(cmp, a + [x] + b) == Firsts(cmp, a) + [x] + Firsts(cmp, b)
              && Firsts(cmp, a + b) == Firsts(cmp, a) + Firsts(cmp, b)
  {
    var s := a + [x] + b;
    FirstsHead(cmp, b);
    if a != [] && b != [] {
      var y := a[|a| - 1];
      assert s[|a| - 1] == y && s[|a|] == x && s[|a| + 1] == b[0];
      CmpTransitive(cmp, y, x, b[0]);
      CmpFlip(cmp, y, x);
      if cmp(y, x) == 0 && cmp(y, b[0]) == 0 { CmpTransitive(cmp, x, y, b[0]); }
    }
    if RunInside(cmp, a, x) {
      FirstsInner(cmp, a, x, b);
    } else {
      FirstsConcat(cmp, a, b);
      if RunGoesOn(cmp, x, b) {
        FirstsBefore(cmp, a, x, b);
        assert Firsts(cmp, b) == [b[0]] + Firsts(cmp, b)[1..];
      } else {
        FirstsBetween(cmp, a, x, b);
      }
    }
  }

  // ---- rebuilding by repeated insertion ----

  function InsertedAll(cmp: Cmp<Ptr>, s: seq<Ptr>): seq<Ptr> {
    if s == [] then [] else Inserted(cmp, InsertedAll(cmp, s[..|s| - 1]), s[|s| - 1], 0)
  }

  lemma {:induction false} InsertedClass(cmp: Cmp<Ptr>, s: seq<Ptr>, y: Ptr, x: Ptr)
    requires TotalPreorder(cmp) && Sorted(cmp, s)
    ensures Class(cmp, x, Inserted(cmp, s, y, 0)) == Class(cmp, x, s + [y])
  {
    var p := InsertPos(cmp, s, y, 0);
    var a, b := s[..p], s[p..];
    assert s == a + b;
    if cmp(x, y) == 0 {
      InsertPosAfter(cmp, s, y, 0);
      forall i | 0 <= i < |b| ensures cmp(x, b[i]) != 0 { CmpTransitive(cmp, x, y, s[p + i]); }
      ClassEmpty(cmp, x, b);
    }
    ClassMoved(cmp, x, a, y, b);
  }

  lemma {:induction false} ClassMoved(cmp: Cmp<Ptr>, x: Ptr, a: seq<Ptr>, y: Ptr, b: seq<Ptr>)
    requires cmp(x, y) == 0 ==> Class(cmp, x, b) == []
    ensures Class(cmp, x, a + [y] + b) == Class(cmp, x, (a + b) + [y])
  {
    ClassConcat(cmp, x, a + [y], b);
    ClassConcat(cmp, x, a, [y]);
    ClassConcat(cmp, x, a, b);
    ClassConcat(cmp, x, a + b, [y]);
  }

  /** Inserting every track in turn after its equals is a stable sort. */
  lemma {:induction false} InsertedAllStable(cmp: Cmp<Ptr>, s: seq<Ptr>)
    requires TotalPreorder(cmp)
    ensures StablySorted(cmp, s, InsertedAll(cmp, s))
  {
    if s == [] {
    } else {
      var n := |s| - 1;
      var r := InsertedAll(cmp, s[..n]);
      InsertedAllStable(cmp, s[..n]);
      InsertedSorted(cmp, r, s[n], 0);
      forall x ensures Class(cmp, x, InsertedAll(cmp, s)) == Class(cmp, x, s) {
        InsertedClass(cmp, r, s[n], x);
        ClassConcat(cmp, x, r, [s[n]]);
        ClassConcat(cmp, x, s[..n], [s[n]]);
        assert s == s[..n] + [s[n]];
      }
    }
  }

  /** With tiebreak 0 the only possible new start is the inserted track, when its key is new. */
  lemma {:induction false} FirstsGrow(cmp: Cmp<Ptr>, s: seq<Ptr>, x: Ptr, z: Ptr)
    requires TotalPreorder(cmp) && Sorted(cmp, s)
    ensures z in Firsts(cmp, Inserted(cmp, s, x, 0)) <==>
              z in Firsts(cmp, s) || (z == x && forall y :: y in s ==> cmp(x, y) != 0)
  {
    var f := Firsts(cmp, s);
    FirstsStrict(cmp, s);
    assert Sorted(cmp, f);
    var p := InsertPos(cmp, f, x, 0);
    InsertPosAfter(cmp, f, x, 0);
    var l, r := f[..p], f[p..];
    assert f == l + r;
    if p > 0 && cmp(x, l[p - 1]) == 0 {
      var y := l[p - 1];
      assert l == l[..p - 1] + [y];
      forall i | 0 <= i < p - 1 ensures cmp(x, l[i]) > 0 {
        CmpFlip(cmp, x, l[i]);
        CmpFlip(cmp, x, y);
        CmpTransitive(cmp, l[i], y, x);
      }
      FirstsEqualAfter(cmp, s, x, 0, l[..p - 1], y, r);
      FirstsSubset(cmp, s, y);
    } else {
      forall i | 0 <= i < p ensures cmp(x, l[i]) > 0 {
        CmpFlip(cmp, x, l[i]);
        CmpFlip(cmp, x, l[p - 1]);
        if i < p - 1 { CmpTransitive(cmp, l[i], l[p - 1], x); }
      }
      FirstsNewKey(cmp, s, x, 0, l, r);
      forall y | y in s ensures cmp(x, y) != 0 {
        var i :| 0 <= i < |s| && s[i] == y;
        NoEqualKey(cmp, s, x, l, r, i);
      }
    }
  }

  /** Track `i` has a smaller index twin under `cmp`. */
  ghost predicate HasTwinBefore(cmp: Cmp<Ptr>, s: seq<Ptr>, i: nat)
    requires i < |s|
  { exists j :: 0 <= j < i && cmp(s[i], s[j]) == 0 }

  /** A rebuild from `cmp` to `keys` leaves every track outside the tree marked as such. */
  ghost predicate MarksSurvive(cmp: Cmp<Ptr>, keys: Cmp<Ptr>, s: seq<Ptr>) {
    forall i :: 0 <= i < |s| && HasTwinBefore(keys, s, i) ==> RunGoesOn(cmp, s[i], s[i + 1..])
  }

  /** They do not always: two tracks told apart by `cmp` and not by `keys`. */
  lemma MarksLost(a: Ptr, b: Ptr, cmp: Cmp<Ptr>, keys: Cmp<Ptr>)
    requires cmp(a, b) < 0 && keys(b, a) == 0
    ensures !MarksSurvive(cmp, keys, [a, b])
  {
    var s := [a, b];
    assert keys(s[1], s[0]) == 0;
    assert HasTwinBefore(keys, s, 1);
    assert s[1 + 1..] == [];
  }
}
