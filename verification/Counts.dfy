/** How many characters u_strlen_safe counts when strings are put together or cut (src/common/uchar.c), for any bytes: a
    step may begin in the one string and end in the other. */
module Counts {
  import opened Common
  import opened Utf8

  /** How many bytes, besides its first, has the character that lies across place `n`; none iff `n` is a boundary. */
  function Across(s: Str, from: nat, n: nat): nat
    requires from <= n <= |s|
    decreases n - from
  {
    if from == n then 0
    else if from + Step(s, from) > n then Step(s, from) - 1
    else Across(s, from + Step(s, from), n)
  }

  function Joined(s: Str, n: nat): nat
    requires n <= |s|
  { Across(s, 0, n) }

  lemma {:induction false} AcrossNone(s: Str, from: nat, n: nat)
    requires from <= n <= |s|
    ensures Across(s, from, n) == 0 <==> Reaches(s, from, n)
    decreases n - from
  {
    if from < n && from + Step(s, from) <= n { AcrossNone(s, from + Step(s, from), n); }
  }

  // ---- counting from a place ----

  lemma StepShift(s: Str, i: nat, t: Str, j: nat)
    requires i < |s| && j < |t| && s[i..] == t[j..]
    ensures Step(s, i) == Step(t, j)
  {
    SameFrom(s, i, t, j, 0);
    var l := Len(s[i]);
    if Continued(s, i, l) {
      forall m | j < m < j + l ensures Len(At(t, m)) == 0 { SameFrom(s, i, t, j, m - j); }
    }
    if Continued(t, j, l) {
      forall m | i < m < i + l ensures Len(At(s, m)) == 0 { SameFrom(s, i, t, j, m - i); }
    }
  }

  lemma SameFrom(s: Str, i: nat, t: Str, j: nat, k: nat)
    requires i < |s| && j < |t| && s[i..] == t[j..]
    ensures |s| - i == |t| - j && At(s, i + k) == At(t, j + k)
  {
    assert |s[i..]| == |t[j..]|;
    if i + k < |s| { assert s[i..][k] == t[j..][k]; }
  }

  /** Counting depends on the rest of the string only. */
  lemma {:induction false} StepsShift(s: Str, i: nat, t: Str, j: nat)
    requires i <= |s| && j <= |t| && s[i..] == t[j..]
    ensures Steps(s, i) == Steps(t, j)
    decreases |s| - i
  {
    assert |s[i..]| == |t[j..]|;
    if i == |s| {
    } else {
      var n := Step(s, i);
      StepShift(s, i, t, j);
      assert s[i + n..] == s[i..][n..] == t[j..][n..] == t[j + n..];
      StepsShift(s, i + n, t, j + n);
    }
  }

  /** Continuation bytes that no character takes in count one each. */
  lemma {:induction false} StepsContinued(s: Str, i: nat, n: nat)
    requires i <= n <= |s| && forall j :: i <= j < n ==> Len(At(s, j)) == 0
    ensures Steps(s, i) == (n - i) + Steps(s, n)
    decreases n - i
  {
    if i == n {
    } else {
      assert Len(At(s, i)) == 0;
      StepsContinued(s, i + 1, n);
    }
  }

  /** Places reached later have fewer characters behind them. */
  lemma {:induction false} StepsFall(s: Str, i: nat, n: nat)
    requires i <= n <= |s| && Reaches(s, i, n)
    ensures if i == n then Steps(s, i) == Steps(s, n) else Steps(s, i) > Steps(s, n)
    decreases n - i
  {
    if i == n {
    } else {
      StepsFall(s, i + Step(s, i), n);
    }
  }

  lemma {:induction false} BoundaryStep(s: Str, from: nat, i: nat)
    requires i < |s| && Reaches(s, from, i)
    ensures Reaches(s, from, i + Step(s, i))
    decreases i - from
  {
    if from >= i {
    } else {
      BoundaryStep(s, from + Step(s, from), i);
    }
  }

  lemma EndBoundary(s: Str)
    ensures Boundary(s, |s|)
  {
    assert Len(At(s, |s|)) != 0;
    FirstByteBoundary(s, 0, |s|);
  }

  // ---- joining ----

  /** A step that ends in `p` is the same in `p` alone; one that does not is one byte there. */
  lemma StepPrefix(p: Str, s: Str, i: nat)
    requires i < |p| <= |s| && s[..|p|] == p
    ensures if i + Step(s, i) <= |p| then Step(p, i) == Step(s, i) else Step(p, i) == 1
  {
    var n, l := |p|, Len(s[i]);
    forall j | 0 <= j < n ensures p[j] == s[j] { assert s[..n][j] == s[j]; }
    assert Len(At(p, n)) != 0;
    if l > 1 && Continued(s, i, l) {
      if i + l <= n {
        forall j | i < j < i + l ensures Len(At(p, j)) == 0 { assert Len(At(s, j)) == 0; }
      }
    } else if l > 1 {
      var j :| i < j < i + l && Len(At(s, j)) != 0;
      assert Len(At(p, j)) != 0;
    }
  }

  lemma {:induction false} JoinFrom(p: Str, s: Str, i: nat)
    requires i <= |p| <= |s| && s[..|p|] == p
    ensures Steps(s, i) + Across(s, i, |p|) == Steps(p, i) + Steps(s, |p|)
    decreases |p| - i
  {
    if i == |p| {
    } else {
      StepPrefix(p, s, i);
      if i + Step(s, i) <= |p| { JoinFrom(p, s, i + Step(s, i)); } else { SwallowFrom(p, s, i); }
    }
  }

  /** The character across the end of `p` was counted byte by byte on both sides. */
  lemma SwallowFrom(p: Str, s: Str, i: nat)
    requires i < |p| <= |s| && s[..|p|] == p && i + Step(s, i) > |p|
    ensures Steps(s, i) + Step(s, i) - 1 == Steps(p, i) + Steps(s, |p|)
  {
    var n, k := |p|, Step(s, i);
    forall j | i < j < i + k ensures Len(At(s, j)) == 0 { assert Continued(s, i, k); }
    forall j | i < j < n ensures Len(At(p, j)) == 0 {
      assert Len(At(s, j)) == 0 && s[..n][j] == p[j];
    }
    StepPrefix(p, s, i);
    StepsContinued(p, i + 1, n);
    StepsContinued(s, n, i + k);
  }

  /** Two strings put together have as many characters as both, less those that become one. */
  lemma JoinCount(p: Str, q: Str, s: Str)
    requires s == p + q
    ensures Steps(s, 0) + Joined(s, |p|) == Steps(p, 0) + Steps(q, 0) && Steps(s, |p|) == Steps(q, 0)
    ensures Joined(s, |p|) == 0 <==> Boundary(s, |p|)
  {
    JoinFrom(p, s, 0);
    assert q[0..] == s[|p|..];
    StepsShift(s, |p|, q, 0);
    AcrossNone(s, 0, |p|);
  }

  // ---- inserting ----

  lemma RawOne(ch: nat)
    requires 0 !in Raw(ch)
    ensures forall i :: 0 <= i < |Raw(ch)| ==> Raw(ch)[i] != 0
    ensures Raw(ch) != [] && Steps(Raw(ch), 0) == 1
  {
    var r: Str := Raw(ch);
    if ch <= MAX_CODE {
      assert ch != 0 by { assert Encode(0) == [0]; }
      assert r[0..|r|] == r;
      ReadsBack(r, 0, ch);
    }
  }

  /** One character's bytes `r` put into a string at a boundary.  The count rises by one iff they neither complete a
      character before them nor take in continuation bytes behind them. */
  lemma InsertCount(s: Str, b: nat, r: Str, t: Str)
    requires b <= |s| && Boundary(s, b) && t == s[..b] + r + s[b..] && r != [] && Steps(r, 0) == 1
    ensures Steps(t, 0) <= Steps(s, 0) + 1
    ensures Steps(t, 0) == Steps(s, 0) + 1 <==> Boundary(t, b) && Step(t, b) == |r|
  {
    var p: Str, q: Str := s[..b], s[b..];
    var u := Glued(r, q);
    Cuts(s, b, r, t, p, q, u);
    InsertParts(p, q, r, u, s, t);
    OneStep(r, q, u);
    InnerStep(p, u, t);
  }

  lemma Cuts(s: seq<Byte>, b: nat, r: seq<Byte>, t: seq<Byte>, p: seq<Byte>, q: seq<Byte>, u: seq<Byte>)
    requires b <= |s| && p == s[..b] && q == s[b..] && u == r + q && t == p + r + q
    ensures |p| == b && s == p + q && t == p + u
  {
  }

  lemma InsertParts(p: Str, q: Str, r: Str, u: Str, s: Str, t: Str)
    requires s == p + q && u == r + q && t == p + u && Boundary(s, |p|) && Steps(r, 0) == 1
    ensures Steps(t, 0) <= Steps(s, 0) + 1
    ensures Steps(t, 0) == Steps(s, 0) + 1 <==> Boundary(t, |p|) && Boundary(u, |r|)
  {
    JoinCount(p, q, s);
    JoinCount(p, u, t);
    JoinCount(r, q, u);
  }

  lemma InnerStep(p: Str, u: Str, t: Str)
    requires t == p + u && u != []
    ensures Step(t, |p|) == Step(u, 0)
  {
    assert t[|p|..] == u[0..];
    StepShift(t, |p|, u, 0);
  }

  function Glued(r: Str, q: Str): (u: Str)
    ensures u == r + q
  { r + q }

  lemma OneStep(r: Str, q: Str, u: Str)
    requires u == r + q && r != [] && Steps(r, 0) == 1
    ensures Boundary(u, |r|) <==> Step(u, 0) == |r|
  {
    assert u[..|r|] == r;
    StepPrefix(r, u, 0);
    assert Steps(r, 0) == 1 + Steps(r, Step(r, 0));
    assert Step(r, 0) == |r|;
    assert Boundary(u, |r|) <==> Reaches(u, Step(u, 0), |r|);
  }

  /** When the count is right, so is the place behind the new character. */
  lemma InsertCursor(s: Str, b: nat, r: Str, t: Str)
    requires b <= |s| && t == s[..b] + r + s[b..] && r != [] && Boundary(t, b) && Step(t, b) == |r|
    ensures Boundary(t, b + |r|) && Steps(t, b + |r|) == Steps(s, b)
  {
    BoundaryStep(t, 0, b);
    StepsShift(t, b + |r|, s, b);
  }

  /** A valid character keeps the count on any string. */
  lemma InsertValid(s: Str, b: nat, u: Code, t: Str)
    requires b <= |s| && t == s[..b] + Raw(u) + s[b..]
    ensures Boundary(t, b) && Step(t, b) == |Raw(u)|
  {
    EncodeNoNul(u);
    assert t[b] == Encode(u)[0];
    FirstByteBoundary(t, 0, b);
    assert t[b..b + |Encode(u)|] == Encode(u);
    ReadsBack(t, b, u);
  }

  // ---- removing ----

  /** `n` bytes taken out at a boundary `a`, from the character there: the count falls by one iff as many bytes of that
      character are left as the character now across `a` has taken in. */
  lemma RemoveCount(s: Str, a: nat, n: nat, t: Str)
    requires a < |s| && Boundary(s, a) && n <= Step(s, a) && n > 0 && t == s[..a] + s[a + n..]
    ensures Steps(t, 0) + 1 == Steps(s, 0) <==> Joined(t, a) == Step(s, a) - n
    ensures Joined(t, a) == 0 <==> Boundary(t, a)
    ensures Steps(t, a) == Step(s, a) - n + Steps(s, a + Step(s, a))
  {
    var p: Str, q: Str, u: Str := s[..a], s[a..], s[a + n..];
    assert s == p + q;
    JoinCount(p, q, s);
    JoinCount(p, u, t);
    RestCount(s, a, n, u);
  }

  lemma RestCount(s: Str, a: nat, n: nat, u: Str)
    requires a < |s| && 0 < n <= Step(s, a) && u == s[a + n..]
    ensures Steps(s, a) == 1 + Steps(s, a + Step(s, a))
    ensures Steps(u, 0) == Step(s, a) - n + Steps(s, a + Step(s, a))
  {
    assert u[0..] == s[a + n..];
    StepsShift(u, 0, s, a + n);
    StepRest(s, a, n);
  }

  /** What is left of a character after its first `n` bytes counts one a byte. */
  lemma StepRest(s: Str, a: nat, n: nat)
    requires a < |s| && 0 < n <= Step(s, a)
    ensures Steps(s, a) == 1 + Steps(s, a + Step(s, a))
    ensures Steps(s, a + n) == Step(s, a) - n + Steps(s, a + Step(s, a))
  {
    var l := Step(s, a);
    forall j | a + n <= j < a + l ensures Len(At(s, j)) == 0 { assert Continued(s, a, l); }
    StepsContinued(s, a + n, a + l);
  }

  /** u_char_size of a character that was read is at most what reading it passed. */
  lemma RawFits(s: Str, i: nat)
    requires i < |s|
    ensures 0 < |Raw(Char(s, i))| <= Step(s, i)
  {
    var l := Len(s[i]);
    if l > 1 && Continued(s, i, l) {
      assert Len(At(s, i + l - 1)) == 0;
      BitsOf(s, i, l);
    }
  }
}
