/** Normalising a path in place (path_strip in src/common/path.c). */
module PathStrip {

  type Name = string

  function NextSlash(t: string, i: nat): (j: nat)
    requires i <= |t|
    ensures i <= j <= |t| && (j < |t| ==> t[j] == '/') && forall k :: i <= k < j ==> t[k] != '/'
    decreases |t| - i
  { if i == |t| || t[i] == '/' then i else NextSlash(t, i + 1) }

  /** What stands between slashes. */
  function Parts(rest: string): seq<Name>
    decreases |rest|
  {
    if rest == "" then [] else
      var k := NextSlash(rest, 0);
      if k == |rest| then [rest] else [rest[..k]] + Parts(rest[k + 1..])
  }

  /** The components of a path from place `i` on. */
  function Components(t: string, i: nat): seq<Name>
    requires i <= |t|
  { Parts(t[i..]) }

  /** Empty components and `.` say nothing, `..` takes back the last component, but never goes above the root. */
  function Applied(dir: seq<Name>, c: Name): seq<Name> {
    if c == "" || c == "." then dir
    else if c == ".." then (if dir == [] then [] else dir[..|dir| - 1])
    else dir + [c]
  }

  function Resolved(dir: seq<Name>, cs: seq<Name>): seq<Name>
    decreases |cs|
  { if cs == [] then dir else Resolved(Applied(dir, cs[0]), cs[1..]) }

  /** The path of a directory with a slash at the end. */
  function Dir(dir: seq<Name>): string
  { if dir == [] then "/" else Dir(dir[..|dir| - 1]) + dir[|dir| - 1] + "/" }

  function Render(dir: seq<Name>): string
  { if dir == [] then "/" else Dir(dir[..|dir| - 1]) + dir[|dir| - 1] }

  predicate Proper(c: Name) { c != "" && c != "." && c != ".." && '/' !in c }

  predicate Slashless(dir: seq<Name>) { forall i :: 0 <= i < |dir| ==> '/' !in dir[i] }

  predicate Clean(dir: seq<Name>) { forall i :: 0 <= i < |dir| ==> Proper(dir[i]) }

  function Normalized(path: string): string
    requires path != "" && path[0] == '/'
  { Render(Resolved([], Components(path, 1))) }

  /** The components behind the first one. */
  function Later(path: string): seq<Name>
    requires path != ""
  {
    var e := NextSlash(path, 0);
    if e == |path| then [] else Components(path, e + 1)
  }

  /** Where a path leads that does not start with a slash.  Its first character takes the place of the root, and what is
      left of the first component is not looked at. */
  function RelativeGoal(path: string): seq<Name>
    requires path != "" && path[0] != '/'
  { Resolved([path[1..NextSlash(path, 0)]], Later(path)) }

  function GoalOf(path: string): seq<Name>
    requires path != ""
  { if path[0] == '/' then Resolved([], Components(path, 1)) else RelativeGoal(path) }

  function Strip(path: string): string
  { if path == "" then "" else [path[0]] + Render(GoalOf(path))[1..] }

  lemma StripAbsolute(path: string)
    requires path != "" && path[0] == '/'
    ensures Strip(path) == Normalized(path)
  {
    RenderSome(GoalOf(path));
  }

  /** Starting `n` levels deep, the components never lead up to the start. */
  predicate Stays(n: nat, cs: seq<Name>)
    decreases |cs|
  { n > 0 && (cs == [] || Stays(Depth(n, cs[0]), cs[1..])) }

  function Depth(n: nat, c: Name): nat
    requires n > 0
  { if c == "" || c == "." then n else if c == ".." then n - 1 else n + 1 }

  /** The first name of a directory makes no difference until it is taken back, and none at all afterwards. */
  lemma {:induction false} FirstRides(f: Name, g: Name, d: seq<Name>, cs: seq<Name>) returns (d': seq<Name>)
    ensures if Stays(|d| + 1, cs)
            then Resolved([f] + d, cs) == [f] + d' && Resolved([g] + d, cs) == [g] + d'
            else Resolved([f] + d, cs) == Resolved([g] + d, cs)
    decreases |cs|
  {
    d' := d;
    if cs == [] {
    } else {
      var c := cs[0];
      if c == "" || c == "." {
        d' := FirstRides(f, g, d, cs[1..]);
      } else if c != ".." {
        assert Applied([f] + d, c) == [f] + (d + [c]) && Applied([g] + d, c) == [g] + (d + [c]);
        d' := FirstRides(f, g, d + [c], cs[1..]);
      } else if d == [] {
        assert Applied([f] + d, c) == [] == Applied([g] + d, c);
        assert !Stays(Depth(|d| + 1, c), cs[1..]);
      } else {
        var up := d[..|d| - 1];
        assert Applied([f] + d, c) == [f] + up && Applied([g] + d, c) == [g] + up;
        d' := FirstRides(f, g, up, cs[1..]);
      }
    }
  }

  lemma {:induction false} FirstInDir(x: char, f: Name, d: seq<Name>)
    ensures Dir([[x] + f] + d) == "/" + [x] + Dir([f] + d)[1..] && Dir([f] + d) != "" && Dir([f] + d)[0] == '/'
  {
    DirSlashes([f] + d);
    if d == [] {
      OneDir([x] + f);
      OneDir(f);
      assert [[x] + f] + d == [[x] + f] && [f] + d == [f];
    } else {
      var up, c := d[..|d| - 1], d[|d| - 1];
      FirstInDir(x, f, up);
      LastBehind([x] + f, d);
      LastBehind(f, d);
      CharBefore(x, Dir([f] + up), c + "/");
      assert Dir([f] + up) + c + "/" == Dir([f] + up) + (c + "/");
    }
  }

  lemma LastBehind(f: Name, d: seq<Name>)
    requires d != []
    ensures var up, c := d[..|d| - 1], d[|d| - 1];
            Dir([f] + d) == Dir([f] + up) + c + "/" && Render([f] + d) == Dir([f] + up) + c
  {
    assert ([f] + d)[..|d|] == [f] + d[..|d| - 1];
  }

  lemma CharBefore(x: char, p: string, c: string)
    requires p != ""
    ensures ("/" + [x] + p[1..]) + c == "/" + [x] + (p + c)[1..]
  {
    assert (p + c)[1..] == p[1..] + c;
  }

  lemma FirstInRender(x: char, f: Name, d: seq<Name>)
    ensures Render([[x] + f] + d) == "/" + [x] + Render([f] + d)[1..]
  {
    if d == [] {
      OneDir([x] + f);
      OneDir(f);
      assert [[x] + f] + d == [[x] + f] && [f] + d == [f];
    } else {
      var up, c := d[..|d| - 1], d[|d| - 1];
      FirstInDir(x, f, up);
      LastBehind([x] + f, d);
      LastBehind(f, d);
      CharBefore(x, Dir([f] + up), c);
    }
  }

  lemma Longer(x: char, r: string)
    ensures [x] + r != r && ("/" + [x] + r)[1..] == [x] + r
  {
    assert |[x] + r| == |r| + 1;
  }

  /** A path without a slash in front comes out as its components say iff `..` never takes back the first of them. */
  lemma RelativeRight(path: string)
    requires path != "" && path[0] != '/'
    ensures Strip(path) == Render(Resolved([path[..NextSlash(path, 0)]], Later(path)))[1..] <==> Stays(1, Later(path))
  {
    var e, cs := NextSlash(path, 0), Later(path);
    var f, x := path[1..e], path[0];
    assert path[..e] == [x] + f;
    FirstMatters(x, f, cs, Resolved([f], cs), Resolved([[x] + f], cs));
  }

  lemma FirstMatters(x: char, f: Name, cs: seq<Name>, goal: seq<Name>, right: seq<Name>)
    requires goal == Resolved([f], cs) && right == Resolved([[x] + f], cs)
    ensures Render(goal) != "" && Render(right) != ""
    ensures [x] + Render(goal)[1..] == Render(right)[1..] <==> Stays(1, cs)
  {
    var d := FirstRides([x] + f, f, [], cs);
    assert [[x] + f] + [] == [[x] + f] && [f] + [] == [f];
    DirSlashes(goal);
    DirSlashes(right);
    RenderSome(goal);
    RenderSome(right);
    Longer(x, Render(goal)[1..]);
    if Stays(1, cs) { FirstInRender(x, f, d); }
  }

  lemma RenderSome(dir: seq<Name>)
    ensures Render(dir) != "" && Render(dir)[0] == '/'
  {
    if dir != [] { DirSlashes(dir[..|dir| - 1]); }
  }

  /** So it is wrong when `..` takes back the first component. */
  lemma FirstTakenBack()
    ensures Strip("a/../b") == "ab"
  {
    var p := "a/../b";
    GoalThere(p);
    OneDir("b");
  }

  lemma GoalThere(p: string)
    requires p == "a/../b"
    ensures GoalOf(p) == ["b"]
  {
    LaterThere(p);
    assert p[1..1] == "";
    Only("", "b");
  }

  lemma Only(f: Name, c: Name)
    requires Proper(c)
    ensures Resolved([f], ["..", c]) == [c]
  {
    ResolvedCons([f], "..", [c]);
    ResolvedCons([], c, []);
    assert [".."] + [c] == ["..", c] && [f][..0] == [] && [] + [c] == [c];
  }

  lemma LaterThere(p: string)
    requires p == "a/../b"
    ensures NextSlash(p, 0) == 1 && Later(p) == ["..", "b"]
  {
    NextSlashIs(p, 0, 1);
    NextSlashIs(p, 2, 4);
    NextSlashIs(p, 5, 6);
    assert p[2..4] == ".." && p[5..6] == "b";
    ComponentsOne(p, 5, 6, "b");
    ComponentsCons(p, 2, 4, "..", ["b"]);
  }

  // ---- the result is a fixed point ----

  lemma {:induction false} NextSlashShift(t: string, i: nat, k: nat)
    requires i + k <= |t|
    ensures NextSlash(t, i + k) == i + NextSlash(t[i..], k)
    decreases |t| - k
  {
    if i + k < |t| && t[i + k] != '/' { NextSlashShift(t, i, k + 1); }
  }

  lemma ComponentsCons(t: string, i: nat, e: nat, c: Name, cs: seq<Name>)
    requires i <= e < |t| && e == NextSlash(t, i) && c == t[i..e] && cs == Components(t, e + 1)
    ensures Components(t, i) == [c] + cs
  {
    NextSlashShift(t, i, 0);
    assert t[i..][..e - i] == c;
    assert t[i..][e - i + 1..] == t[e + 1..];
  }

  lemma ComponentsOne(t: string, i: nat, e: nat, c: Name)
    requires i < |t| && e == |t| == NextSlash(t, i) && c == t[i..e]
    ensures Components(t, i) == [c]
  {
    NextSlashShift(t, i, 0);
    assert t[i..] == c;
  }

  lemma {:induction false} PartsSlashless(rest: string)
    ensures Slashless(Parts(rest))
  {
    if rest != "" && NextSlash(rest, 0) < |rest| { PartsSlashless(rest[NextSlash(rest, 0) + 1..]); }
  }

  lemma {:induction false} ResolvedClean(dir: seq<Name>, cs: seq<Name>)
    requires Clean(dir) && Slashless(cs)
    ensures Clean(Resolved(dir, cs))
    decreases |cs|
  {
    if cs == [] {
    } else {
      ResolvedClean(Applied(dir, cs[0]), cs[1..]);
    }
  }

  lemma {:induction false} NextSlashIs(t: string, i: nat, j: nat)
    requires i <= j <= |t| && (j < |t| ==> t[j] == '/') && forall k :: i <= k < j ==> t[k] != '/'
    ensures NextSlash(t, i) == j
    decreases j - i
  {
    if i == j {
    } else {
      NextSlashIs(t, i + 1, j);
    }
  }

  lemma {:induction false} DirSlashes(dir: seq<Name>)
    ensures Dir(dir) != "" && Dir(dir)[0] == '/' && Dir(dir)[|Dir(dir)| - 1] == '/'
  {
    if dir == [] {
    } else {
      DirSlashes(dir[..|dir| - 1]);
    }
  }

  lemma Last(dir: seq<Name>, cs: seq<Name>)
    requires dir != []
    ensures dir[..|dir| - 1] + ([dir[|dir| - 1]] + cs) == dir + cs && dir[..|dir| - 1] + [dir[|dir| - 1]] == dir
  {
  }

  /** Component `c` stands between `up` and a slash. */
  lemma Between(t: string, up: string, c: Name)
    requires '/' !in c && up + c + "/" <= t
    ensures up <= t && NextSlash(t, |up|) == |up| + |c| && t[|up|..|up| + |c|] == c
  {
    var whole := up + c + "/";
    assert t[..|whole|] == whole;
    assert t[|up|..|up| + |c|] == whole[|up|..|up| + |c|] == c;
    forall k | |up| <= k < |up| + |c| ensures t[k] != '/' { assert t[k] == whole[k] == c[k - |up|]; }
    assert t[|up| + |c|] == whole[|up| + |c|] == '/';
    NextSlashIs(t, |up|, |up| + |c|);
    assert t[..|up|] == whole[..|up|] == up;
  }

  lemma AtEnd(t: string, up: string, c: Name)
    requires '/' !in c && t == up + c
    ensures up <= t && NextSlash(t, |up|) == |t| && t[|up|..|t|] == c
  {
    forall k | |up| <= k < |t| ensures t[k] != '/' { assert t[k] == c[k - |up|]; }
    NextSlashIs(t, |up|, |t|);
  }

  /** Reading back a rendered directory, with more behind it. */
  lemma {:induction false} DirComponents(dir: seq<Name>, t: string)
    requires Clean(dir) && Dir(dir) <= t
    ensures 1 <= |Dir(dir)| <= |t| && Components(t, 1) == dir + Components(t, |Dir(dir)|)
  {
    if dir == [] {
      assert dir + Components(t, 1) == Components(t, 1);
    } else {
      var up, c := dir[..|dir| - 1], dir[|dir| - 1];
      Between(t, Dir(up), c);
      ComponentsCons(t, |Dir(up)|, |Dir(dir)| - 1, c, Components(t, |Dir(dir)|));
      DirComponents(up, t);
      Last(dir, Components(t, |Dir(dir)|));
    }
  }

  lemma RenderComponents(dir: seq<Name>)
    requires Clean(dir)
    ensures Render(dir) != "" && Render(dir)[0] == '/' && Components(Render(dir), 1) == dir
  {
    if dir != [] {
      var up, c := dir[..|dir| - 1], dir[|dir| - 1];
      var t := Render(dir);
      DirSlashes(up);
      DirComponents(up, t);
      AtEnd(t, Dir(up), c);
      ComponentsOne(t, |Dir(up)|, |t|, c);
      Last(dir, []);
    }
  }

  lemma {:induction false} ResolvedSelf(dir: seq<Name>, cs: seq<Name>)
    requires Clean(cs)
    ensures Resolved(dir, cs) == dir + cs
    decreases |cs|
  {
    if cs != [] {
      ResolvedSelf(dir + [cs[0]], cs[1..]);
      assert (dir + [cs[0]]) + cs[1..] == dir + cs;
    } else {
      assert dir + cs == dir;
    }
  }

  /** Normalising twice is normalising once. */
  lemma NormalizedTwice(path: string)
    requires path != "" && path[0] == '/'
    ensures var n := Normalized(path); n != "" && n[0] == '/' && Normalized(n) == n
  {
    var cs := Components(path, 1);
    PartsSlashless(path[1..]);
    ResolvedClean([], cs);
    var dir := Resolved([], cs);
    RenderComponents(dir);
    ResolvedSelf([], dir);
    assert [] + dir == dir;
  }

  // ---- what components say ----

  lemma {:induction false} ResolvedConcat(dir: seq<Name>, cs: seq<Name>, ds: seq<Name>)
    ensures Resolved(dir, cs + ds) == Resolved(Resolved(dir, cs), ds)
    decreases |cs|
  {
    if cs == [] {
      assert cs + ds == ds;
    } else {
      assert (cs + ds)[1..] == cs[1..] + ds;
      ResolvedConcat(Applied(dir, cs[0]), cs[1..], ds);
    }
  }

  /** Anywhere in a path nothing and `.` say nothing, going down and up again says nothing, and above the root is the
      root. */
  lemma ComponentLaws(cs: seq<Name>, c: Name, ds: seq<Name>)
    requires Proper(c)
    ensures Resolved([], cs + [""] + ds) == Resolved([], cs + ds) == Resolved([], cs + ["."] + ds)
    ensures Resolved([], cs + [c, ".."] + ds) == Resolved([], cs + ds)
    ensures Resolved([], [".."] + ds) == Resolved([], ds)
    ensures Resolved([], cs + [c]) == Resolved([], cs) + [c]
  {
    var dir := Resolved([], cs);
    ResolvedConcat([], cs, ds);
    ResolvedConcat([], cs, [c]);
    ResolvedConcat([], cs + [""], ds);
    ResolvedConcat([], cs, [""]);
    ResolvedConcat([], cs + ["."], ds);
    ResolvedConcat([], cs, ["."]);
    ResolvedConcat([], cs + [c, ".."], ds);
    ResolvedConcat([], cs, [c, ".."]);
    ResolvedCons(dir, "", []);
    ResolvedCons(dir, ".", []);
    ResolvedCons(dir, c, []);
    ResolvedCons(dir, c, [".."]);
    ResolvedCons(dir + [c], "..", []);
    ResolvedCons([], "..", ds);
    assert [c] + [".."] == [c, ".."] && (dir + [c])[..|dir|] == dir;
  }

  // ---- the algorithm ----

  /** The string in the buffer ends at `n`. */
  predicate Holds(str: array<char>, n: nat)
    reads str
  { n < str.Length && str[n] == '\0' && forall k :: 0 <= k < n ==> str[k] != '\0' }

  /** The buffer holds `t`, but for its first character, which stands for the root: the code never looks at it. */
  predicate Reads(str: array<char>, t: string)
    reads str
  { t != "" && Holds(str, |t|) && forall k :: 0 < k < |t| ==> str[k] == t[k] }

  /** Before place `i` the path is a normalised directory, and the rest of it leads to `goal`. */
  ghost predicate Going(t: string, i: nat, dir: seq<Name>, goal: seq<Name>) {
    i <= |t| && Slashless(dir) && t[..i] == Dir(dir) && Resolved(dir, Components(t, i)) == goal
  }

  /** Either that or all of it is normalised, without a last slash. */
  ghost predicate Stripped(t: string, i: nat, dir: seq<Name>, goal: seq<Name>) {
    || Going(t, i, dir, goal)
    || (i == |t| && t != "" && t == Render(dir) && dir == goal && (|t| > 1 ==> t[|t| - 1] != '/'))
  }

  lemma {:induction false} SkipSlashes(dir: seq<Name>, t: string, i: nat, j: nat)
    requires i <= j <= |t| && forall k :: i <= k < j ==> t[k] == '/'
    ensures Resolved(dir, Components(t, i)) == Resolved(dir, Components(t, j))
    decreases j - i
  {
    if i == j {
    } else {
      ComponentsCons(t, i, i, "", Components(t, i + 1));
      ResolvedCons(dir, "", Components(t, i + 1));
      SkipSlashes(dir, t, i + 1, j);
    }
  }

  lemma ResolvedCons(dir: seq<Name>, c: Name, cs: seq<Name>)
    ensures Resolved(dir, [c] + cs) == Resolved(Applied(dir, c), cs) && Resolved(dir, [c]) == Applied(dir, c)
  {
    assert ([c] + cs)[1..] == cs && [c][1..] == [];
  }

  /** The component from `i` to `j` is applied. */
  lemma TakeComponent(dir: seq<Name>, t: string, i: nat, j: nat)
    requires i < |t| && j == NextSlash(t, i)
    ensures j < |t| ==> Resolved(dir, Components(t, i)) == Resolved(Applied(dir, t[i..j]), Components(t, j + 1))
    ensures j == |t| ==> Resolved(dir, Components(t, i)) == Applied(dir, t[i..j])
  {
    if j < |t| {
      ComponentsCons(t, i, j, t[i..j], Components(t, j + 1));
      ResolvedCons(dir, t[i..j], Components(t, j + 1));
    } else {
      ComponentsOne(t, i, j, t[i..j]);
      ResolvedCons(dir, t[i..j], []);
    }
  }

  /** Copies the bytes from place `s1` on, the NUL included, down to `d0`. */
  method Shift(str: array<char>, d0: nat, s1: nat, ghost t: string)
    requires Reads(str, t) && 0 < d0 < s1 <= |t|
    modifies str
    ensures Reads(str, t[..d0] + t[s1..]) && str[0] == old(str[0])
  {
    var d, s := d0, s1 - 1;
    ghost var m := |t| - (s1 - d0);
    while true
      invariant d0 <= d && s1 - 1 <= s < |t| && s - d == s1 - 1 - d0
      invariant forall k :: 0 <= k < d0 ==> str[k] == old(str[k])
      invariant forall k :: d0 <= k < d ==> str[k] == old(str[k + (s1 - d0)])
      invariant forall k :: s < k <= |t| ==> str[k] == old(str[k])
      decreases |t| - s
    {
      str[d] := str[s + 1];
      d, s := d + 1, s + 1;
      if str[s] == '\0' { break; }
    }
    assert s == |t| && d == m + 1;
  }

  lemma Pushed(dir: seq<Name>, c: Name)
    requires Slashless(dir) && Proper(c)
    ensures Slashless(dir + [c]) && Applied(dir, c) == dir + [c] && dir + [c] != []
    ensures Dir(dir + [c]) == Dir(dir) + c + "/" && Render(dir + [c]) == Dir(dir) + c
  {
    assert (dir + [c])[..|dir|] == dir;
  }

  lemma Extend(t: string, i: nat, j: nat)
    requires i <= j < |t| && t[j] == '/'
    ensures t[..j + 1] == t[..i] + t[i..j] + "/"
  {
  }

  lemma PushSlash(t: string, i: nat, j: nat, dir: seq<Name>, goal: seq<Name>)
    requires Going(t, i, dir, goal) && i < j < |t| && j == NextSlash(t, i) && Proper(t[i..j])
    ensures Stripped(t, j + 1, dir + [t[i..j]], goal)
  {
    TakeComponent(dir, t, i, j);
    Pushed(dir, t[i..j]);
    Extend(t, i, j);
  }

  lemma PushLast(t: string, i: nat, j: nat, dir: seq<Name>, goal: seq<Name>)
    requires Going(t, i, dir, goal) && i < j == |t| && j == NextSlash(t, i) && Proper(t[i..j])
    ensures Stripped(t, j, dir + [t[i..j]], goal)
  {
    TakeComponent(dir, t, i, j);
    Pushed(dir, t[i..j]);
    assert t == t[..i] + t[i..j];
  }

  /** The place after the component at `i` and its slash. */
  method SkipComponent(str: array<char>, i: nat, ghost t: string, ghost dir: seq<Name>, ghost goal: seq<Name>)
    returns (j: nat, ghost dir': seq<Name>)
    requires Reads(str, t) && 0 < i < |t| && Going(t, i, dir, goal) && Proper(t[i..NextSlash(t, i)])
    ensures i < j <= |t| && Stripped(t, j, dir', goal)
  {
    j := ScanComponent(str, i, t);
    dir' := dir + [t[i..j]];
    PushComponent(t, i, j, dir, goal);
    if str[j] != '\0' { j := j + 1; }
  }

  lemma PushComponent(t: string, i: nat, j: nat, dir: seq<Name>, goal: seq<Name>)
    requires Going(t, i, dir, goal) && i < |t| && j == NextSlash(t, i) && Proper(t[i..j])
    ensures i < j
    ensures j < |t| ==> Stripped(t, j + 1, dir + [t[i..j]], goal)
    ensures j == |t| ==> Stripped(t, j, dir + [t[i..j]], goal)
  {
    if j < |t| { PushSlash(t, i, j, dir, goal); } else { PushLast(t, i, j, dir, goal); }
  }

  method ScanComponent(str: array<char>, i: nat, ghost t: string) returns (j: nat)
    requires Reads(str, t) && i < |t| && (i == 0 ==> str[0] == t[0])
    ensures j == NextSlash(t, i) && (str[j] == '\0' <==> j == |t|)
  {
    j := i;
    while str[j] != '\0' && str[j] != '/'
      invariant i <= j <= |t| && forall k :: i <= k < j ==> t[k] != '/'
      decreases |t| - j
    {
      assert t[j] == str[j];
      j := j + 1;
    }
    assert j < |t| ==> t[j] == str[j];
    NextSlashIs(t, i, j);
  }

  function Parent(dir: seq<Name>): seq<Name> { if dir == [] then [] else dir[..|dir| - 1] }

  /** Where the last component of the directory before place `i` starts; place 1 at the root. */
  method ParentStart(str: array<char>, i: nat, ghost t: string, ghost dir: seq<Name>) returns (d: nat)
    requires Reads(str, t) && i <= |t| && t[..i] == Dir(dir) && Slashless(dir)
    ensures d <= i && t[..d] == Dir(Parent(dir))
  {
    ghost var e := LastSlash(t, i, dir);
    DirSlashes(dir);
    d := i - 1;
    while d > 0
      invariant d < i && (dir == [] ==> d == 0) && (dir != [] ==> e <= d || d == 0 == e - 1)
    {
      d := d - 1;
      if str[d] == '/' { break; }
    }
    d := d + 1;
  }

  /** Behind the parent's path the last component and a slash are all there is. */
  lemma LastSlash(t: string, i: nat, dir: seq<Name>) returns (e: nat)
    requires i <= |t| && t[..i] == Dir(dir) && Slashless(dir)
    ensures 0 < e <= i && t[..e] == Dir(Parent(dir)) && t[e - 1] == '/' && (dir == [] ==> i == 1)
    ensures dir != [] ==> e <= i - 1 && forall k :: e <= k < i - 1 ==> t[k] != '/'
  {
    var up := Parent(dir);
    DirSlashes(up);
    e := |Dir(up)|;
    if dir == [] {
      assert t[..1] == "/";
    } else {
      var c := dir[|dir| - 1];
      var p := t[..i];
      assert p == Dir(up) + c + "/";
      assert p[..e] == Dir(up) == t[..e] && p[e..i - 1] == c;
      forall k | e <= k < i - 1 ensures t[k] != '/' { assert t[k] == p[k] == c[k - e]; }
      assert t[e - 1] == Dir(up)[e - 1];
    }
  }

  /** The part from `i` to `j` taken out of the path. */
  lemma CutOut(t: string, i: nat, j: nat, d: nat, dir: seq<Name>, dir': seq<Name>, goal: seq<Name>)
    requires d <= i <= j <= |t| && Slashless(dir') && t[..d] == Dir(dir') && Resolved(dir', Components(t, j)) == goal
    ensures Going(t[..d] + t[j..], d, dir', goal)
  {
    var t' := t[..d] + t[j..];
    assert t'[..d] == t[..d] && t'[d..] == t[j..];
  }

  /** A run of slashes at `i` goes. */
  method StripSlashes(str: array<char>, i: nat, ghost t: string, ghost dir: seq<Name>, ghost goal: seq<Name>)
    returns (ghost t': string)
    requires Reads(str, t) && i < |t| && t[i] == '/' && Going(t, i, dir, goal)
    modifies str
    ensures str[0] == old(str[0])
    ensures Reads(str, t') && i <= |t'| < |t| && Going(t', i, dir, goal)
  {
    var s := ScanSlashes(str, i, t);
    SkipSlashes(dir, t, i, s);
    CutOut(t, i, s, i, dir, dir, goal);
    t' := t[..i] + t[s..];
    Shift(str, i, s, t);
  }

  method ScanSlashes(str: array<char>, i: nat, ghost t: string) returns (s: nat)
    requires Reads(str, t) && i < |t| && t[i] == '/'
    ensures i < s <= |t| && forall k :: i <= k < s ==> t[k] == '/'
  {
    s := i + 1;
    while str[s] != '\0' && str[s] == '/'
      invariant i < s <= |t| && forall k :: i <= k < s ==> t[k] == '/'
      decreases |t| - s
    {
      assert t[s] == str[s];
      s := s + 1;
    }
  }

  /** `.` says nothing. */
  lemma DotStep(t: string, i: nat, dir: seq<Name>)
    requires i < |t| && t[i] == '.' && (i + 1 < |t| ==> t[i + 1] == '/')
    ensures i + 1 < |t| ==> Resolved(dir, Components(t, i)) == Resolved(dir, Components(t, i + 2))
    ensures i + 1 == |t| ==> Resolved(dir, Components(t, i)) == dir
  {
    NextSlashIs(t, i, i + 1);
    TakeComponent(dir, t, i, i + 1);
    assert t[i..i + 1] == ".";
  }

  method StripDot(str: array<char>, i: nat, ghost t: string, ghost dir: seq<Name>, ghost goal: seq<Name>)
    returns (ghost t': string)
    requires Reads(str, t) && i + 1 < |t| && t[i] == '.' && t[i + 1] == '/'
             && Going(t, i, dir, goal)
    modifies str
    ensures str[0] == old(str[0])
    ensures Reads(str, t') && i <= |t'| < |t| && Going(t', i, dir, goal)
  {
    DotStep(t, i, dir);
    CutOut(t, i, i + 2, i, dir, dir, goal);
    t' := t[..i] + t[i + 2..];
    Shift(str, i, i + 2, t);
  }

  method StripLastDot(str: array<char>, i: nat, ghost t: string, ghost dir: seq<Name>, ghost goal: seq<Name>)
    requires Reads(str, t) && i + 1 == |t| && t[i] == '.' && Going(t, i, dir, goal)
    modifies str
    ensures str[0] == old(str[0])
    ensures Reads(str, t[..i]) && Going(t[..i], i, dir, goal)
  {
    DotStep(t, i, dir);
    DirSlashes(dir);
    assert t[..i][..i] == t[..i];
    str[i] := '\0';
  }

  /** `..` takes back the last component. */
  method StripUp(str: array<char>, i: nat, ghost t: string, ghost dir: seq<Name>, ghost goal: seq<Name>)
    returns (d: nat, ghost t': string)
    requires Reads(str, t) && 0 < i && i + 1 < |t| && Going(t, i, dir, goal)
    requires t[i] == '.' && t[i + 1] == '.' && (str[i + 2] == '/' || str[i + 2] == '\0')
    modifies str
    ensures str[0] == old(str[0])
    ensures Reads(str, t') && 0 < d <= |t'| < |t| && |t'| - d < |t| - i
            && Going(t', d, Parent(dir), goal)
  {
    var s := if str[i + 2] != '\0' then i + 3 else i + 2;
    assert i + 2 < |t| ==> t[i + 2] == str[i + 2];
    d := ParentStart(str, i, t, dir);
    UpGoing(t, i, s, d, dir, goal);
    t' := t[..d] + t[s..];
    Shift(str, d, s, t);
  }

  lemma UpGoing(t: string, i: nat, s: nat, d: nat, dir: seq<Name>, goal: seq<Name>)
    requires i + 1 < |t| && t[i] == '.' && t[i + 1] == '.' && s <= |t|
    requires if i + 2 < |t| then t[i + 2] == '/' && s == i + 3 else s == i + 2
    requires Going(t, i, dir, goal) && d <= i && t[..d] == Dir(Parent(dir))
    ensures 0 < d && Going(t[..d] + t[s..], d, Parent(dir), goal)
  {
    UpStep(t, i, s, dir);
    DirSlashes(Parent(dir));
    CutOut(t, i, s, d, dir, Parent(dir), goal);
  }

  lemma UpStep(t: string, i: nat, s: nat, dir: seq<Name>)
    requires i + 1 < |t| && t[i] == '.' && t[i + 1] == '.' && s <= |t|
    requires if i + 2 < |t| then t[i + 2] == '/' && s == i + 3 else s == i + 2
    ensures Resolved(dir, Components(t, i)) == Resolved(Parent(dir), Components(t, s))
  {
    NextSlashIs(t, i, i + 2);
    TakeComponent(dir, t, i, i + 2);
    assert t[i..i + 2] == "..";
  }

  /** Anything else before the next slash is a component. */
  lemma ProperHead(t: string, i: nat)
    requires i < |t| && t[i] != '/'
    requires t[i] == '.' ==> i + 1 < |t| && t[i + 1] != '/'
    requires t[i] == '.' && t[i + 1] == '.' ==> i + 2 < |t| && t[i + 2] != '/'
    ensures Proper(t[i..NextSlash(t, i)])
  {
    var j := NextSlash(t, i);
    var c := t[i..j];
    assert j > i && c[0] == t[i];
    if t[i] == '.' {
      assert j > i + 1 && c[1] == t[i + 1];
      if t[i + 1] == '.' { assert j > i + 2; }
    }
    forall k | 0 <= k < |c| ensures c[k] != '/' { assert c[k] == t[i + k]; }
  }

  /** At the end only the slash after the last component is too much. */
  lemma FinishDir(t: string, dir: seq<Name>, goal: seq<Name>)
    requires Stripped(t, |t|, dir, goal) && t != ""
    ensures if |t| > 1 && t[|t| - 1] == '/' then t[..|t| - 1] == Render(goal) else t == Render(goal)
  {
    DirSlashes(dir);
    if Going(t, |t|, dir, goal) {
      assert t[..|t|] == t;
      if dir != [] {
        DirSlashes(dir[..|dir| - 1]);
        assert t == Render(dir) + "/";
      }
    }
  }

  /** path_strip. */
  method PathStrip(str: array<char>, ghost path: string) returns (ghost t: string)
    requires Holds(str, |path|) && str[..|path|] == path
    modifies str
    ensures Holds(str, |t|) && str[..|t|] == t && |t| <= |path| && t == Strip(path)
  {
    if str[0] == '\0' { return path; }
    assert str[0] == path[0];
    var i;
    ghost var dir;
    i, t, dir := FirstRound(str, path);
    t := StripRest(str, i, t, dir, GoalOf(path));
    RenderSome(GoalOf(path));
    ReadsAll(str, t, path[0]);
    t := [path[0]] + t[1..];
  }

  lemma ReadsAll(str: array<char>, t: string, x: char)
    requires Reads(str, t) && str[0] == x
    ensures str[..|t|] == [x] + t[1..]
  {
  }

  method FirstRound(str: array<char>, ghost path: string) returns (i: nat, ghost t: string, ghost dir: seq<Name>)
    requires Reads(str, path) && path[0] == str[0]
    ensures |t| == |path| && Reads(str, t) && 0 < i <= |t| && Stripped(t, i, dir, GoalOf(path))
  {
    t := "/" + path[1..];
    if str[0] == '/' {
      assert t == path && t[..1] == "/";
      i, dir := 1, [];
    } else {
      i, dir := FirstComponent(str, path, t);
    }
  }

  /** The rounds from place 1 on, and the last slash. */
  method StripRest(str: array<char>, i0: nat, ghost t0: string, ghost dir0: seq<Name>, ghost goal: seq<Name>)
    returns (ghost t: string)
    requires Reads(str, t0) && 0 < i0 <= |t0| && Stripped(t0, i0, dir0, goal)
    modifies str
    ensures Reads(str, t) && |t| <= |t0| && t == Render(goal) && str[0] == old(str[0])
  {
    var i, done := i0, false;
    ghost var dir := dir0;
    t := t0;
    while !done && str[i] != '\0'
      invariant 0 < i <= |t| <= |t0| && Reads(str, t) && Stripped(t, i, dir, goal) && str[0] == old(str[0])
      invariant done ==> i == |t|
      decreases |t| - i, !done
    {
      i, done, t, dir := StripStep(str, i, t, dir, goal);
    }
    t := CutSlash(str, i, t, dir, goal);
  }

  /** The round at place 0 of a path that does not start with a slash: whatever is there is kept. */
  method FirstComponent(str: array<char>, ghost path: string, ghost t: string)
    returns (i: nat, ghost dir: seq<Name>)
    requires Reads(str, path) && path[0] == str[0] != '/' && t == "/" + path[1..]
    ensures 0 < i <= |t| && Stripped(t, i, dir, RelativeGoal(path))
  {
    i := ScanComponent(str, 0, path);
    ghost var c := path[1..i];
    dir := [c];
    FirstKept(path, t, i, c);
    if str[i] != '\0' { i := i + 1; }
  }

  lemma FirstKept(path: string, t: string, j: nat, c: Name)
    requires path != "" && path[0] != '/' && j == NextSlash(path, 0) && t == "/" + path[1..] && c == path[1..j]
    ensures j < |path| ==> Going(t, j + 1, [c], RelativeGoal(path))
    ensures j == |path| ==> Stripped(t, j, [c], RelativeGoal(path))
  {
    forall k | 0 <= k < |c| ensures c[k] != '/' { assert c[k] == path[k + 1]; }
    OneDir(c);
    if j < |path| { FirstCut(path, t, j, c); } else { assert t == "/" + c; }
  }

  lemma OneDir(c: Name)
    ensures ('/' !in c ==> Slashless([c])) && Dir([c]) == "/" + c + "/" && Render([c]) == "/" + c
  {
    assert [c][..0] == [];
  }

  lemma FirstCut(path: string, t: string, j: nat, c: Name)
    requires 0 < j < |path| && path[j] == '/' && t == "/" + path[1..] && c == path[1..j]
    ensures t[..j + 1] == "/" + c + "/" && Components(t, j + 1) == Components(path, j + 1)
  {
    assert t[j + 1..] == path[j + 1..];
  }

  /** One round of the loop; `done` is its break. */
  method StripStep(str: array<char>, i: nat, ghost t: string, ghost dir: seq<Name>, ghost goal: seq<Name>)
    returns (i': nat, done: bool, ghost t': string, ghost dir': seq<Name>)
    requires Reads(str, t) && 0 < i < |t| && Going(t, i, dir, goal)
    modifies str
    ensures str[0] == old(str[0])
    ensures Reads(str, t') && 0 < i' <= |t'| <= |t| && Stripped(t', i', dir', goal)
    ensures |t'| - i' < |t| - i && (done ==> i' == |t'|)
  {
    i', done, t', dir' := i, false, t, dir;
    assert t[i] == str[i] && (i + 1 < |t| ==> t[i + 1] == str[i + 1]) && (i + 2 < |t| ==> t[i + 2] == str[i + 2]);
    if str[i] == '/' {
      t' := StripSlashes(str, i, t, dir, goal);
    } else if str[i] == '.' && str[i + 1] == '/' {
      t' := StripDot(str, i, t, dir, goal);
    } else if str[i] == '.' && str[i + 1] == '\0' {
      StripLastDot(str, i, t, dir, goal);
      t', done := t[..i], true;
    } else if str[i] == '.' && str[i + 1] == '.' && (str[i + 2] == '/' || str[i + 2] == '\0') {
      i', t' := StripUp(str, i, t, dir, goal);
      dir' := Parent(dir);
    } else {
      ProperHead(t, i);
      i', dir' := SkipComponent(str, i, t, dir, goal);
    }
  }

  method CutSlash(str: array<char>, i: nat, ghost t: string, ghost dir: seq<Name>, ghost goal: seq<Name>)
    returns (ghost t': string)
    requires Reads(str, t) && i == |t| && Stripped(t, i, dir, goal)
    modifies str
    ensures str[0] == old(str[0])
    ensures Reads(str, t') && |t'| <= |t| && t' == Render(goal)
  {
    FinishDir(t, dir, goal);
    t' := t;
    assert i > 1 ==> t[i - 1] == str[i - 1];
    if i > 1 && str[i - 1] == '/' {
      str[i - 1] := '\0';
      t' := t[..i - 1];
    }
  }

  /** path_absolute_cwd. */
  method AbsoluteCwd(src: string, cwd: string) returns (str: array<char>, ghost t: string)
    requires '\0' !in src && '\0' !in cwd
    ensures fresh(str) && Holds(str, |t|) && str[..|t|] == t
    ensures t == Strip(if src != "" && src[0] == '/' then src else cwd + "/" + src)
    ensures src != "" && src[0] == '/' ==> t == Normalized(src)
    ensures (src == "" || src[0] != '/') && (cwd == "" || cwd[0] == '/') ==> t == Normalized(cwd + "/" + src)
  {
    ghost var whole;
    if src != "" && src[0] == '/' {
      str := CopyOf(src);
      whole := src;
    } else {
      str := CopyOf(cwd + "/" + src);
      whole := cwd + "/" + src;
    }
    t := PathStrip(str, whole);
    if whole[0] == '/' { StripAbsolute(whole); }
  }

  method CopyOf(s: string) returns (str: array<char>)
    requires '\0' !in s
    ensures fresh(str) && Holds(str, |s|) && str[..|s|] == s
  {
    str := new char[|s| + 1];
    var i := 0;
    while i < |s|
      invariant i <= |s| && forall k :: 0 <= k < i ==> str[k] == s[k]
    {
      str[i] := s[i];
      i := i + 1;
    }
    str[|s|] := '\0';
    assert forall k :: 0 <= k < |s| ==> s[k] in s;
  }
}
