/** Glob patterns (src/common/glob.c): compiling, simplifying and matching.  Patterns are sequences of characters; the
    text is matched on its UTF-8 bytes.  `eq` is the comparison of folded base characters. */
module Glob {
  import opened Common
  import opened Utf8

  type Fold = (char, char) -> bool

  datatype Item = Star | QMark | Text(text: seq<char>)

  // ---- what a pattern means ----

  predicate Literally(eq: Fold, t: seq<char>, text: seq<char>) {
    |t| <= |text| && forall k :: 0 <= k < |t| ==> eq(t[k], text[k])
  }

  predicate Wild(c: char) { c == '*' || c == '?' }

  /** A backslash quotes the character after it, if there is one. */
  predicate Quotes(p: seq<char>, i: nat)
    requires i < |p|
  { p[i] == '\\' && i + 1 < |p| }

  /** The character written literally at place `i`, and the place after it. */
  function Literal(p: seq<char>, i: nat): char
    requires i < |p|
  { if Quotes(p, i) then p[i + 1] else p[i] }

  function Next(p: seq<char>, i: nat): (j: nat)
    requires i < |p|
    ensures i < j <= |p|
  { if Quotes(p, i) then i + 2 else i + 1 }

  /** What the pattern from place `i` on means: `*` stands for any text, `?` for any character. */
  ghost predicate Means(eq: Fold, p: seq<char>, i: nat, text: seq<char>)
    requires i <= |p|
    decreases |p| - i
  {
    if i == |p| then text == []
    else if p[i] == '*' then exists k :: 0 <= k <= |text| && Means(eq, p, i + 1, text[k..])
    else if p[i] == '?' then text != [] && Means(eq, p, i + 1, text[1..])
    else text != [] && eq(Literal(p, i), text[0]) && Means(eq, p, Next(p, i), text[1..])
  }

  /** A text with a backslash before every character that would mean something else. */
  function Quoted(s: seq<char>): seq<char> {
    if s == [] then []
    else (if s[0] == '*' || s[0] == '?' || s[0] == '\\' then ['\\', s[0]] else [s[0]]) + Quoted(s[1..])
  }

  /** It means exactly itself. */
  lemma QuotedMeans(eq: Fold, s: seq<char>, text: seq<char>)
    ensures Means(eq, Quoted(s), 0, text) <==> |text| == |s| && Literally(eq, s, text)
  {
    QuotedTail(eq, s, Quoted(s), 0, text);
  }

  lemma {:induction false} QuotedTail(eq: Fold, s: seq<char>, p: seq<char>, i: nat, text: seq<char>)
    requires i <= |p| && p[i..] == Quoted(s)
    ensures Means(eq, p, i, text) <==> |text| == |s| && Literally(eq, s, text)
    decreases |s|
  {
    if s == [] {
      assert |p[i..]| == 0;
    } else {
      var j := QuotedNext(s, p, i);
      if text != [] {
        QuotedTail(eq, s[1..], p, j, text[1..]);
        if |text| == |s| { LiterallyCons(eq, s, text); }
      }
    }
  }

  lemma QuotedNext(s: seq<char>, p: seq<char>, i: nat) returns (j: nat)
    requires i <= |p| && p[i..] == Quoted(s) && s != []
    ensures i < |p| && !Wild(p[i]) && Literal(p, i) == s[0] && j == Next(p, i) && p[j..] == Quoted(s[1..])
  {
    var q := Quoted(s[1..]);
    assert p[i] == p[i..][0];
    j := i + if s[0] == '*' || s[0] == '?' || s[0] == '\\' then 2 else 1;
    assert p[j..] == p[i..][j - i..] == q;
    if j == i + 2 { assert p[i + 1] == p[i..][1]; }
  }

  lemma LiterallyCons(eq: Fold, s: seq<char>, text: seq<char>)
    requires s != [] && text != [] && |s| == |text|
    ensures Literally(eq, s, text) <==> eq(s[0], text[0]) && Literally(eq, s[1..], text[1..])
  {
    if Literally(eq, s, text) {
      forall k | 0 <= k < |s| - 1 ensures eq(s[1..][k], text[1..][k]) { assert eq(s[k + 1], text[k + 1]); }
    }
    if eq(s[0], text[0]) && Literally(eq, s[1..], text[1..]) {
      forall k | 0 <= k < |s| ensures eq(s[k], text[k]) { assert k > 0 ==> eq(s[1..][k - 1], text[1..][k - 1]); }
    }
  }

  /** A star means any text, a question mark any one character, and a backslash at the end itself. */
  lemma WildMeans(eq: Fold, text: seq<char>)
    ensures Means(eq, ['*'], 0, text)
    ensures Means(eq, ['?'], 0, text) <==> |text| == 1
    ensures Means(eq, ['\\'], 0, text) <==> |text| == 1 && eq('\\', text[0])
  {
    assert text[|text|..] == [];
    assert Means(eq, ['*'], 1, text[|text|..]);
    assert text != [] ==> |text[1..]| == |text| - 1;
  }

  ghost predicate Matches(eq: Fold, g: seq<Item>, text: seq<char>)
    decreases |g|
  {
    if g == [] then text == []
    else match g[0]
         case Star => exists k :: 0 <= k <= |text| && Matches(eq, g[1..], text[k..])
         case QMark => text != [] && Matches(eq, g[1..], text[1..])
         case Text(t) => Literally(eq, t, text) && Matches(eq, g[1..], text[|t|..])
  }

  // ---- compiling ----

  /** The literal text from place `i` on, unquoted, and where it ends. */
  function LiteralText(p: seq<char>, i: nat): seq<char>
    requires i <= |p|
    decreases |p| - i
  { if i == |p| || Wild(p[i]) then [] else [Literal(p, i)] + LiteralText(p, Next(p, i)) }

  function LiteralEnd(p: seq<char>, i: nat): (j: nat)
    requires i <= |p|
    ensures i <= j <= |p| && (i < |p| && !Wild(p[i]) ==> i < j)
    decreases |p| - i
  { if i == |p| || Wild(p[i]) then i else LiteralEnd(p, Next(p, i)) }

  function Parsed(p: seq<char>, i: nat): seq<Item>
    requires i <= |p|
    decreases |p| - i
  {
    if i == |p| then []
    else if p[i] == '*' then [Star] + Parsed(p, i + 1)
    else if p[i] == '?' then [QMark] + Parsed(p, i + 1)
    else [Text(LiteralText(p, i))] + Parsed(p, LiteralEnd(p, i))
  }

  /** A text item that starts with `c`. */
  lemma MatchesChar(eq: Fold, c: char, t: seq<char>, g: seq<Item>, text: seq<char>)
    ensures Matches(eq, [Text([c] + t)] + g, text)
            <==> text != [] && eq(c, text[0]) && Matches(eq, [Text(t)] + g, text[1..])
  {
    var u := [c] + t;
    assert ([Text(u)] + g)[1..] == g && ([Text(t)] + g)[1..] == g;
    if text != [] {
      assert |u| <= |text| ==> text[|u|..] == text[1..][|t|..];
      if Literally(eq, u, text) {
        forall k | 0 <= k < |t| ensures eq(t[k], text[1..][k]) { assert eq(u[k + 1], text[k + 1]); }
        assert eq(u[0], text[0]);
      }
    }
  }

  lemma {:induction false} LiteralMeans(eq: Fold, p: seq<char>, i: nat, g: seq<Item>, text: seq<char>)
    requires i <= |p| && forall rest :: Matches(eq, g, rest) <==> Means(eq, p, LiteralEnd(p, i), rest)
    ensures Matches(eq, [Text(LiteralText(p, i))] + g, text) <==> Means(eq, p, i, text)
    decreases |p| - i
  {
    if i == |p| || Wild(p[i]) {
      assert ([Text([])] + g)[1..] == g && text[0..] == text;
      assert Matches(eq, g, text) <==> Means(eq, p, i, text);
    } else {
      MatchesChar(eq, Literal(p, i), LiteralText(p, Next(p, i)), g, text);
      if text != [] { LiteralMeans(eq, p, Next(p, i), g, text[1..]); }
    }
  }

  /** Compiling keeps the meaning. */
  lemma {:induction false} ParsedMeans(eq: Fold, p: seq<char>, i: nat, text: seq<char>)
    requires i <= |p|
    ensures Matches(eq, Parsed(p, i), text) <==> Means(eq, p, i, text)
    decreases |p| - i
  {
    if i == |p| {
    } else {
      if p[i] == '*' {
        var g := Parsed(p, i + 1);
        assert Parsed(p, i)[1..] == g;
        forall k | 0 <= k <= |text| ensures Matches(eq, g, text[k..]) <==> Means(eq, p, i + 1, text[k..]) {
          ParsedMeans(eq, p, i + 1, text[k..]);
        }
      } else if p[i] == '?' {
        assert Parsed(p, i)[1..] == Parsed(p, i + 1);
        if text != [] { ParsedMeans(eq, p, i + 1, text[1..]); }
      } else {
        var j := LiteralEnd(p, i);
        forall rest ensures Matches(eq, Parsed(p, j), rest) <==> Means(eq, p, j, rest) { ParsedMeans(eq, p, j, rest); }
        LiteralMeans(eq, p, i, Parsed(p, j), text);
      }
    }
  }

  // ---- simplifying ----

  /** `q` question marks and `s` stars. */
  function Wilds(q: nat, s: nat): (r: seq<Item>)
    ensures |r| == q + s
    decreases q + s
  {
    if q > 0 then [QMark] + Wilds(q - 1, s) else if s > 0 then [Star] + Wilds(q, s - 1) else []
  }

  lemma {:induction false} WildsAt(q: nat, s: nat, i: nat)
    requires i < q + s
    ensures Wilds(q, s)[i] == if i < q then QMark else Star
    decreases q + s
  {
    if i > 0 { if q > 0 { WildsAt(q - 1, s, i - 1); } else { WildsAt(q, s - 1, i - 1); } }
  }

  lemma {:induction false} WildsGrow(q: nat, s: nat)
    ensures Wilds(q, s) + [Star] == Wilds(q, s + 1)
    decreases q + s
  {
    if q > 0 {
      WildsGrow(q - 1, s);
      assert Wilds(q, s) + [Star] == [QMark] + (Wilds(q - 1, s) + [Star]);
    } else if s > 0 {
      WildsGrow(q, s - 1);
      assert Wilds(q, s) + [Star] == [Star] + (Wilds(q, s - 1) + [Star]);
    }
  }

  function Count(x: Item, g: seq<Item>): (n: nat)
    ensures n > 0 <==> x in g
  { if g == [] then 0 else (if g[|g| - 1] == x then 1 else 0) + Count(x, g[..|g| - 1]) }

  predicate NoText(g: seq<Item>) { forall i :: 0 <= i < |g| ==> !g[i].Text? }

  /** A run of wildcards: with a star, all question marks come first and one star remains. */
  function NormalRun(g: seq<Item>): seq<Item> {
    if Count(Star, g) > 0 then Wilds(Count(QMark, g), 1) else g
  }

  /** The wildcards before the next text, and the rest of the items. */
  function Run(g: seq<Item>): seq<Item> {
    if g == [] || g[0].Text? then [] else [g[0]] + Run(g[1..])
  }

  function AfterRun(g: seq<Item>): (r: seq<Item>)
    ensures |r| <= |g|
  {
    if g == [] || g[0].Text? then g else AfterRun(g[1..])
  }

  function Normal(g: seq<Item>): seq<Item>
    decreases |g|, 1
  { NormalRun(Run(g)) + NormalTail(AfterRun(g)) }

  function NormalTail(g: seq<Item>): seq<Item>
    decreases |g|, 0
  { if g == [] then [] else [g[0]] + Normal(g[1..]) }

  lemma RunParts(g: seq<Item>)
    ensures g == Run(g) + AfterRun(g) && NoText(Run(g)) && (AfterRun(g) != [] ==> AfterRun(g)[0].Text?)
  {
    RunConcat(g);
    RunNoText(g);
  }

  lemma {:induction false} RunConcat(g: seq<Item>)
    ensures g == Run(g) + AfterRun(g) && (AfterRun(g) != [] ==> AfterRun(g)[0].Text?)
  {
    if g != [] && !g[0].Text? {
      RunConcat(g[1..]);
      assert g == [g[0]] + g[1..];
    }
  }

  lemma {:induction false} RunNoText(g: seq<Item>)
    ensures NoText(Run(g))
  {
    if g != [] && !g[0].Text? { RunNoText(g[1..]); }
  }

  /** A star is followed by text or by nothing. */
  predicate Guarded(g: seq<Item>) {
    forall i :: 0 <= i < |g| - 1 && g[i].Star? ==> g[i + 1].Text?
  }

  /** No text is empty. */
  predicate Solid(g: seq<Item>) { forall i :: 0 <= i < |g| && g[i].Text? ==> g[i].text != [] }

  lemma {:induction false} ParsedSolid(p: seq<char>, i: nat)
    requires i <= |p|
    ensures Solid(Parsed(p, i))
    decreases |p| - i
  {
    if i == |p| {
    } else {
      ParsedSolid(p, if Wild(p[i]) then i + 1 else LiteralEnd(p, i));
    }
  }

  lemma {:induction false} NormalSolid(g: seq<Item>)
    requires Solid(g)
    ensures Solid(Normal(g))
    decreases |g|
  {
    RunParts(g);
    var run, tail := Run(g), AfterRun(g);
    assert NoText(NormalRun(run)) by { NormalRunNoText(run); }
    if tail == [] {
    } else {
      assert g[|run|] == tail[0] && g[|run| + 1..] == tail[1..];
      NormalSolid(tail[1..]);
    }
  }

  lemma NormalRunNoText(run: seq<Item>)
    requires NoText(run)
    ensures NoText(NormalRun(run))
  {
    if Count(Star, run) > 0 {
      forall i | 0 <= i < |NormalRun(run)| ensures !NormalRun(run)[i].Text? { WildsAt(Count(QMark, run), 1, i); }
    }
  }

  lemma {:induction false} NormalGuarded(g: seq<Item>)
    ensures Guarded(Normal(g))
    decreases |g|
  {
    RunParts(g);
    var run, tail := Run(g), AfterRun(g);
    var r := NormalRun(run);
    if Count(Star, run) > 0 {
      forall i | 0 <= i < |r| && r[i].Star? ensures i == |r| - 1 { WildsAt(Count(QMark, run), 1, i); }
    } else {
      forall i | 0 <= i < |r| ensures !r[i].Star? { assert r[i] in run; }
    }
    if tail == [] {
      assert Normal(g) == r;
    } else {
      NormalGuarded(tail[1..]);
      GuardedConcat(r, tail[0], Normal(tail[1..]));
    }
  }

  lemma GuardedConcat(r: seq<Item>, x: Item, s: seq<Item>)
    requires (forall i :: 0 <= i < |r| && r[i].Star? ==> i == |r| - 1) && x.Text? && Guarded(s)
    ensures Guarded(r + ([x] + s))
  {
    var all := r + ([x] + s);
    forall i | 0 <= i < |all| - 1 && all[i].Star? ensures all[i + 1].Text? {
      if i > |r| { assert all[i] == s[i - |r| - 1] && all[i + 1] == s[i - |r|]; }
    }
  }

  /** Equal meanings stay equal behind a common prefix. */
  lemma {:induction false} SamePrefix(eq: Fold, a: seq<Item>, g: seq<Item>, h: seq<Item>, text: seq<char>)
    requires forall rest :: Matches(eq, g, rest) <==> Matches(eq, h, rest)
    ensures Matches(eq, a + g, text) <==> Matches(eq, a + h, text)
  {
    if a == [] {
      assert a + g == g && a + h == h;
      assert Matches(eq, g, text) <==> Matches(eq, h, text);
    } else {
      assert (a + g)[1..] == a[1..] + g && (a + h)[1..] == a[1..] + h;
      match a[0]
      case Star =>
        forall k | 0 <= k <= |text| ensures Matches(eq, a[1..] + g, text[k..]) <==> Matches(eq, a[1..] + h, text[k..]) {
          SamePrefix(eq, a[1..], g, h, text[k..]);
        }
      case QMark => if text != [] { SamePrefix(eq, a[1..], g, h, text[1..]); }
      case Text(t) => if |t| <= |text| { SamePrefix(eq, a[1..], g, h, text[|t|..]); }
    }
  }

  ghost predicate SomeTail(eq: Fold, g: seq<Item>, text: seq<char>, least: nat) {
    exists k :: least <= k <= |text| && Matches(eq, g, text[k..])
  }

  /** Question marks and a star take any text of at least their number. */
  lemma {:induction false} QMarksStar(eq: Fold, n: nat, g: seq<Item>, text: seq<char>)
    ensures Matches(eq, Wilds(n, 1) + g, text) <==> SomeTail(eq, g, text, n)
  {
    var all := Wilds(n, 1) + g;
    if n == 0 {
      assert all == [Star] + g && all[1..] == g by { assert Wilds(0, 0) == []; }
    } else {
      assert all[0] == QMark && all[1..] == Wilds(n - 1, 1) + g;
      if text != [] {
        QMarksStar(eq, n - 1, g, text[1..]);
        forall k | 0 <= k < |text| ensures text[1..][k..] == text[k + 1..] {}
        if SomeTail(eq, g, text[1..], n - 1) {
          var k :| n - 1 <= k <= |text| - 1 && Matches(eq, g, text[1..][k..]);
          assert n <= k + 1 <= |text| && Matches(eq, g, text[k + 1..]);
        }
        if SomeTail(eq, g, text, n) {
          var k :| n <= k <= |text| && Matches(eq, g, text[k..]);
          assert n - 1 <= k - 1 <= |text[1..]| && Matches(eq, g, text[1..][k - 1..]);
        }
      }
    }
  }

  /** So does any run of wildcards with that many question marks, when it has a star. */
  lemma {:induction false} RunWithStar(eq: Fold, r: seq<Item>, g: seq<Item>, text: seq<char>)
    requires NoText(r) && Star in r
    ensures Matches(eq, r + g, text) <==> SomeTail(eq, g, text, Count(QMark, r))
  {
    var s := r[1..];
    CountHead(QMark, r);
    assert r == [r[0]] + s && (r + g)[1..] == s + g && (r + g)[0] == r[0];
    var n := Count(QMark, s);
    if r[0] == QMark {
      if text != [] {
        RunWithStar(eq, s, g, text[1..]);
        ShiftTail(eq, g, text, n);
      }
    } else if Star in s {
      forall k | 0 <= k <= |text| ensures Matches(eq, s + g, text[k..]) <==> SomeTail(eq, g, text[k..], n) {
        RunWithStar(eq, s, g, text[k..]);
      }
      TailOfTail(eq, g, text, n);
    } else {
      StarQMarks(eq, s, g, text);
    }
  }

  lemma StarQMarks(eq: Fold, s: seq<Item>, g: seq<Item>, text: seq<char>)
    requires NoText(s) && Star !in s
    ensures SomeTail(eq, s + g, text, 0) <==> SomeTail(eq, g, text, Count(QMark, s))
  {
    var n := Count(QMark, s);
    forall k | 0 <= k <= |text| && n <= |text| - k ensures text[k..][n..] == text[k + n..] {}
    if SomeTail(eq, s + g, text, 0) {
      var k :| 0 <= k <= |text| && Matches(eq, s + g, text[k..]);
      QMarksOnly(eq, s, g, text[k..]);
      assert Matches(eq, g, text[k + n..]);
    }
    if SomeTail(eq, g, text, n) {
      var k :| n <= k <= |text| && Matches(eq, g, text[k..]);
      QMarksOnly(eq, s, g, text[k - n..]);
      assert text[k - n..][n..] == text[k..];
      assert Matches(eq, s + g, text[k - n..]);
    }
  }

  lemma {:induction false} CountHead(x: Item, g: seq<Item>)
    requires g != []
    ensures Count(x, g) == (if g[0] == x then 1 else 0) + Count(x, g[1..])
  {
    var n := |g| - 1;
    if n == 0 {
    } else {
      CountHead(x, g[..n]);
      assert g[..n][1..] == g[1..][..n - 1];
    }
  }

  lemma {:induction false} QMarksOnly(eq: Fold, r: seq<Item>, g: seq<Item>, text: seq<char>)
    requires NoText(r) && Star !in r
    ensures Matches(eq, r + g, text) <==> |text| >= Count(QMark, r) && Matches(eq, g, text[Count(QMark, r)..])
  {
    if r == [] {
      assert r + g == g && text[0..] == text;
    } else {
      assert r[0] == QMark;
      CountHead(QMark, r);
      assert (r + g)[1..] == r[1..] + g;
      if text != [] {
        QMarksOnly(eq, r[1..], g, text[1..]);
        var n := Count(QMark, r[1..]);
        if n < |text| { assert text[1..][n..] == text[n + 1..]; }
      }
    }
  }

  lemma ShiftTail(eq: Fold, g: seq<Item>, text: seq<char>, n: nat)
    requires text != []
    ensures SomeTail(eq, g, text[1..], n) <==> SomeTail(eq, g, text, n + 1)
  {
    if SomeTail(eq, g, text[1..], n) {
      var k :| n <= k <= |text[1..]| && Matches(eq, g, text[1..][k..]);
      assert text[1..][k..] == text[k + 1..];
    }
    if SomeTail(eq, g, text, n + 1) {
      var k :| n + 1 <= k <= |text| && Matches(eq, g, text[k..]);
      assert text[1..][k - 1..] == text[k..];
    }
  }

  lemma TailOfTail(eq: Fold, g: seq<Item>, text: seq<char>, n: nat)
    ensures (exists k :: 0 <= k <= |text| && SomeTail(eq, g, text[k..], n)) <==> SomeTail(eq, g, text, n)
  {
    if k :| 0 <= k <= |text| && SomeTail(eq, g, text[k..], n) {
      var m :| n <= m <= |text[k..]| && Matches(eq, g, text[k..][m..]);
      assert text[k..][m..] == text[k + m..];
    }
    if SomeTail(eq, g, text, n) {
      assert text[0..] == text;
      assert SomeTail(eq, g, text[0..], n);
    }
  }

  /** Simplifying keeps the meaning. */
  lemma {:induction false} NormalMeans(eq: Fold, g: seq<Item>, text: seq<char>)
    ensures Matches(eq, Normal(g), text) <==> Matches(eq, g, text)
    decreases |g|
  {
    RunParts(g);
    var run, tail := Run(g), AfterRun(g);
    forall rest ensures Matches(eq, tail, rest) <==> Matches(eq, NormalTail(tail), rest) {
      if tail != [] && |tail[0].text| <= |rest| { NormalMeans(eq, tail[1..], rest[|tail[0].text|..]); }
    }
    SamePrefix(eq, NormalRun(run), tail, NormalTail(tail), text);
    if Count(Star, run) > 0 {
      QMarksStar(eq, Count(QMark, run), tail, text);
      RunWithStar(eq, run, tail, text);
    }
  }

  // ---- the code ----

  lemma Regroup<T>(a: seq<T>, x: T, b: seq<T>)
    ensures a + ([x] + b) == (a + [x]) + b
  {
  }

  /** Looking at the next item of a run: a question mark moves to the front, a star stays. */
  lemma MoveStep(items: seq<Item>, front: seq<Item>, q: nat, s: nat, rest: seq<Item>, tail: seq<Item>)
    requires rest != [] && items == front + (Wilds(q, s) + rest) + tail
    ensures var at, i := |front|, |front| + q + s;
            && items[i] == rest[0]
            && (rest[0] == QMark ==>
                  items[..at] + [items[i]] + items[at..i] + items[i + 1..] ==
                    front + (Wilds(q + 1, s) + rest[1..]) + tail)
            && (rest[0] == Star ==> items == front + (Wilds(q, s + 1) + rest[1..]) + tail)
  {
    var w := Wilds(q, s);
    MoveToFront(items, front, w, rest, tail);
    if rest[0] == Star {
      WildsGrow(q, s);
      Regroup(w, Star, rest[1..]);
      assert rest == [Star] + rest[1..];
    }
  }

  lemma MoveToFront<T>(items: seq<T>, front: seq<T>, w: seq<T>, rest: seq<T>, tail: seq<T>)
    requires rest != [] && items == front + (w + rest) + tail
    ensures var at, i := |front|, |front| + |w|;
            && items[i] == rest[0]
            && items[..at] + [items[i]] + items[at..i] + items[i + 1..] == front + ([rest[0]] + w + rest[1..]) + tail
  {
    var at, i := |front|, |front| + |w|;
    assert items[..at] == front && items[at..i] == w;
    assert items[i + 1..] == rest[1..] + tail;
  }

  /** When all question marks are out, only stars are left behind them. */
  lemma {:induction false} OnlyStars(q: nat, s: nat, rest: seq<Item>)
    requires NoText(rest) && Count(QMark, rest) == 0
    ensures Wilds(q, s) + rest == Wilds(q, s + Count(Star, rest))
    decreases |rest|
  {
    if rest == [] {
      assert Wilds(q, s) + rest == Wilds(q, s);
    } else {
      assert rest[0] != QMark by { CountHead(QMark, rest); }
      CountHead(QMark, rest);
      CountHead(Star, rest);
      WildsGrow(q, s);
      OnlyStars(q, s + 1, rest[1..]);
      Regroup(Wilds(q, s), Star, rest[1..]);
      assert rest == [Star] + rest[1..];
    }
  }

  lemma {:induction false} CountTotal(g: seq<Item>)
    requires NoText(g)
    ensures Count(QMark, g) + Count(Star, g) == |g|
  {
    if g == [] {
    } else {
      CountTotal(g[..|g| - 1]);
    }
  }

  lemma NoWilds(run: seq<Item>)
    ensures Wilds(0, 0) + run == run
  {
    assert Wilds(0, 0) == [];
  }

  lemma Assoc<T>(s: seq<T>, n: nat, a: seq<T>, b: seq<T>)
    requires n <= |s| && s[n..] == a + b
    ensures s == s[..n] + a + b
  {
    assert s == s[..n] + s[n..];
  }

  lemma RunSlice(items: seq<Item>, at: nat, end: nat, g: seq<Item>, run: seq<Item>)
    requires at <= end <= |items| && g == items[at..] && run == Run(g) && AfterRun(g) == items[end..]
    ensures items[at..end] == run
  {
    RunConcat(g);
    assert items[at..end] == g[..|run|];
  }

  lemma RunStep(run: seq<Item>, rest: seq<Item>)
    requires rest != [] && !rest[0].Text?
    ensures run + Run(rest) == (run + [rest[0]]) + Run(rest[1..]) && AfterRun(rest) == AfterRun(rest[1..])
    ensures Count(QMark, run + [rest[0]]) == (if rest[0] == QMark then 1 else 0) + Count(QMark, run)
    ensures Count(Star, run + [rest[0]]) == (if rest[0] == Star then 1 else 0) + Count(Star, run)
  {
    assert (run + [rest[0]])[..|run|] == run;
    Regroup(run, rest[0], Run(rest[1..]));
  }

  // ---- texts as bytes ----

  function Size(c: char): nat { |Encode(c as int)| }

  function Bytes(text: seq<char>): seq<Byte> { if text == [] then [] else Encode(text[0] as int) + Bytes(text[1..]) }

  /** From place `at` on the string is `rest`. */
  ghost predicate Spells(str: Str, at: nat, rest: seq<char>) { at <= |str| && str[at..] == Bytes(rest) }

  /** So it is after `j` bytes that are left of the character before. */
  ghost predicate Near(str: Str, at: nat, j: nat, rest: seq<char>) {
    at + j <= |str| && (forall k :: at <= k < at + j ==> Len(str[k]) == 0) && Spells(str, at + j, rest)
  }

  lemma ReadHead(str: Str, at: nat, rest: seq<char>)
    requires Spells(str, at, rest) && rest != []
    ensures at < |str| && Char(str, at) == rest[0] as int != 0 && Step(str, at) == Size(rest[0])
    ensures Spells(str, at + Size(rest[0]), rest[1..]) && Near(str, at + 1, Size(rest[0]) - 1, rest[1..])
  {
    var u, e, b := rest[0] as int, Encode(rest[0] as int), Bytes(rest[1..]);
    assert str[at..] == e + b;
    assert (e + b)[0] == e[0] == str[at];
    ReadsFront(str, at, u, b);
    EncodeNoNul(u);
    assert str[at + |e|..] == (e + b)[|e|..] == b;
    forall k | at < k < at + |e| ensures Len(str[k]) == 0 { assert str[k] == (e + b)[k - at] == e[k - at]; }
  }

  lemma SpellsEnd(str: Str, at: nat, rest: seq<char>)
    requires Spells(str, at, rest)
    ensures at == |str| <==> rest == []
  {
    if rest != [] { ReadHead(str, at, rest); }
  }

  lemma {:induction false} BytesNoNul(text: seq<char>)
    requires '\0' !in text
    ensures forall i :: 0 <= i < |Bytes(text)| ==> Bytes(text)[i] != 0
  {
    if text == [] {
    } else {
      EncodeNoNul(text[0] as int);
      BytesNoNul(text[1..]);
    }
  }

  lemma {:induction false} BytesLong(text: seq<char>)
    ensures |text| <= |Bytes(text)|
  {
    if text == [] {
    } else {
      BytesLong(text[1..]);
    }
  }

  /** Whether the character `u` that was read equals `c`; an invalid one equals none. */
  predicate Agree(eq: Fold, c: char, u: nat) {
    (0 < u < 0xd800 || 0xe000 <= u <= MAX_CODE) && eq(c, u as char)
  }

  /** Where characters of `t` and `text` are equal, they have the same number of bytes. */
  ghost predicate SameSizes(eq: Fold, t: seq<char>, text: seq<char>) {
    forall j, k :: 0 <= j < |t| && 0 <= k < |text| && eq(t[j], text[k]) ==> Size(t[j]) == Size(text[k])
  }

  ghost predicate Sized(eq: Fold, g: seq<Item>, text: seq<char>) {
    forall i :: 0 <= i < |g| && g[i].Text? ==> SameSizes(eq, g[i].text, text)
  }

  lemma SizedTail(eq: Fold, g: seq<Item>, n: nat, text: seq<char>, k: nat)
    requires Sized(eq, g, text) && n <= |g| && k <= |text|
    ensures Sized(eq, g[n..], text[k..])
  {
    forall i | 0 <= i < |g| - n && g[n..][i].Text? ensures SameSizes(eq, g[n..][i].text, text[k..]) {
      assert SameSizes(eq, g[n + i].text, text);
    }
  }

  /** Then going on by the bytes of `t` goes past the text that equals it. */
  lemma {:induction false} SkipText(eq: Fold, t: seq<char>, str: Str, at: nat, rest: seq<char>)
    requires Spells(str, at, rest) && Literally(eq, t, rest) && SameSizes(eq, t, rest)
    ensures Spells(str, at + |Bytes(t)|, rest[|t|..])
  {
    if t != [] {
      var next, u, left := at + Size(rest[0]), t[1..], rest[1..];
      ReadHead(str, at, rest);
      LiterallyTail(eq, t, rest);
      SkipText(eq, u, str, next, left);
      assert left[|u|..] == rest[|t|..];
      assert next + |Bytes(u)| == at + |Bytes(t)|;
    } else {
      assert rest[0..] == rest;
    }
  }

  lemma LiterallyTail(eq: Fold, t: seq<char>, text: seq<char>)
    requires t != [] && Literally(eq, t, text) && SameSizes(eq, t, text)
    ensures Literally(eq, t[1..], text[1..]) && SameSizes(eq, t[1..], text[1..])
    ensures |Bytes(t)| == Size(text[0]) + |Bytes(t[1..])|
  {
    assert eq(t[0], text[0]);
    forall k | 0 <= k < |t| - 1 ensures eq(t[1..][k], text[1..][k]) { assert eq(t[k + 1], text[k + 1]); }
  }

  lemma BytesOne(c: char)
    ensures Bytes([c]) == Encode(c as int)
  {
    assert [c][1..] == [] && Encode(c as int) + [] == Encode(c as int);
  }

  /** u_strncase_equal_base, on the string from place `at`. */
  method EqualAt(eq: Fold, t: seq<char>, str: Str, at: nat, ghost rest: seq<char>) returns (r: bool)
    requires at <= |str|
    ensures Spells(str, at, rest) ==> (r <==> Literally(eq, t, rest))
    ensures t != [] ==> r ==> at < |str| && Len(str[at]) != 0
    ensures t == [] ==> r
  {
    var ai, bi := 0, at;
    ghost var fits, left := Spells(str, at, rest), rest;
    while ai < |t|
      invariant ai <= |t| && at <= bi <= |str| && (ai == 0 ==> bi == at)
      invariant ai > 0 ==> at < |str| && Len(str[at]) != 0
      invariant fits ==> ai <= |rest| && left == rest[ai..] && Spells(str, bi, left)
      invariant fits ==> forall k :: 0 <= k < ai ==> eq(t[k], rest[k])
    {
      if fits { SpellsEnd(str, bi, left); }
      if bi == |str| { return false; }
      if fits { ReadHead(str, bi, left); }
      var bu, next := GetChar(str, bi);
      if !Agree(eq, t[ai], bu) {
        assert fits ==> left[0] == rest[ai];
        return false;
      }
      ai, bi := ai + 1, next;
      if fits { left := left[1..]; }
    }
    return true;
  }

  /** u_strcasestr_base: the first place from `from` on where `t` stands. */
  method Find(eq: Fold, t: seq<char>, str: Str, from: nat, ghost j: nat, ghost rest: seq<char>)
    returns (found: bool, pos: nat, ghost p: nat, ghost here: seq<char>)
    requires from <= |str| && (t == [] ==> j == 0)
    ensures found ==> from <= pos <= |str| && (t != [] ==> pos < |str|)
    ensures Near(str, from, j, rest) && found ==>
              p <= |rest| && here == rest[p..] && Spells(str, pos, here) && Literally(eq, t, here)
    ensures Near(str, from, j, rest) ==>
              forall k :: 0 <= k < (if found then p else |rest| + 1) ==> !Literally(eq, t, rest[k..])
  {
    pos, p, here := from, 0, rest;
    ghost var fits, i := Near(str, from, j, rest), j;
    while true
      invariant from <= pos <= |str| && (t == [] ==> pos == from && i == 0)
      invariant fits ==> p <= |rest| && here == rest[p..] && Near(str, pos, i, here)
      invariant fits ==> forall k :: 0 <= k < p ==> !Literally(eq, t, rest[k..])
      decreases |str| - pos
    {
      if |str| - pos < |t| {
        BytesLong(here);
        return false, pos, p, here;
      }
      found := EqualAt(eq, t, str, pos, here);
      if found { return; }
      if fits && i == 0 { SpellsEnd(str, pos, here); }
      var u, next := GetChar(str, pos);
      if fits {
        if i > 0 {
          i := i - 1;
        } else {
          ReadHead(str, pos, here);
          p, here := p + 1, here[1..];
        }
      }
      pos := next;
    }
  }

  class Glob {
    /** The list of items. */
    var items: seq<Item>

    /** The wildcards from place `at`, and the place of the text that ends them. */
    method CountRun(at: nat) returns (q: nat, s: nat, end: nat)
      requires at <= |items|
      ensures at <= end <= |items|
      ensures items[at..end] == Run(items[at..]) && items[end..] == AfterRun(items[at..])
      ensures q == Count(QMark, items[at..end]) && s == Count(Star, items[at..end])
    {
      q, s, end := 0, 0, at;
      ghost var g, run, rest := items[at..], [], items[at..];
      assert [] + Run(g) == Run(g);
      while end < |items| && !items[end].Text?
        invariant at <= end <= |items| && rest == items[end..]
        invariant Run(g) == run + Run(rest) && AfterRun(g) == AfterRun(rest)
        invariant q == Count(QMark, run) && s == Count(Star, run)
      {
        RunStep(run, rest);
        run, rest := run + [rest[0]], rest[1..];
        if items[end].Star? { s := s + 1; } else { q := q + 1; }
        end := end + 1;
      }
      assert run + [] == run;
      RunSlice(items, at, end, g, run);
    }

    /** Moves the item at `i` to place `at` if it is a question mark. */
    method MoveItem(at: nat, i: nat, ghost q: nat, ghost s: nat, ghost front: seq<Item>, ghost rest: seq<Item>,
                    ghost tail: seq<Item>) returns (moved: bool)
      requires rest != [] && NoText(rest) && items == front + (Wilds(q, s) + rest) + tail
      requires at == |front| && i == at + q + s
      modifies this`items
      ensures moved == (rest[0] == QMark)
      ensures moved ==> items == front + (Wilds(q + 1, s) + rest[1..]) + tail
      ensures !moved ==> items == front + (Wilds(q, s + 1) + rest[1..]) + tail
    {
      MoveStep(items, front, q, s, rest, tail);
      moved := items[i].QMark?;
      if moved { items := items[..at] + [items[i]] + items[at..i] + items[i + 1..]; }
    }

    /** Moves the `q` question marks of a run to its front. */
    method MoveQMarks(at: nat, q: nat, ghost front: seq<Item>, ghost run: seq<Item>, ghost tail: seq<Item>)
      requires |front| == at && items == front + run + tail && NoText(run) && q == Count(QMark, run)
      modifies this`items
      ensures items == front + Wilds(q, Count(Star, run)) + tail
    {
      NoWilds(run);
      ghost var stars, rest := MoveLoop(at, q, front, run, tail);
      OnlyStars(q, stars, rest);
    }

    method MoveLoop(at: nat, q: nat, ghost front: seq<Item>, ghost run: seq<Item>, ghost tail: seq<Item>)
      returns (ghost stars: nat, ghost rest: seq<Item>)
      requires |front| == at && items == front + (Wilds(0, 0) + run) + tail && NoText(run) && q == Count(QMark, run)
      modifies this`items
      ensures items == front + (Wilds(q, stars) + rest) + tail && NoText(rest) && Count(QMark, rest) == 0
      ensures stars + Count(Star, rest) == Count(Star, run)
    {
      stars, rest := 0, run;
      ghost var m: nat := 0;
      var i, left := at, q;
      while left > 0
        invariant m + left == q && i == at + m + stars && NoText(rest)
        invariant items == front + (Wilds(m, stars) + rest) + tail
        invariant left == Count(QMark, rest) && stars + Count(Star, rest) == Count(Star, run)
        decreases |rest|
      {
        CountHead(QMark, rest);
        CountHead(Star, rest);
        var moved := MoveItem(at, i, m, stars, front, rest, tail);
        rest := rest[1..];
        if moved { left, m := left - 1, m + 1; } else { stars := stars + 1; }
        i := i + 1;
      }
    }

    /** Deletes all stars of a run but the last; its question marks stand at the front. */
    method DropStars(at: nat, s: nat, ghost q: nat, ghost front: seq<Item>, ghost tail: seq<Item>)
      requires |front| == at && items == front + Wilds(q, s) + tail && s > 0
      modifies this`items
      ensures items == front + Wilds(q, 1) + tail
    {
      var i, left := at, s;
      while left > 1
        invariant at <= i <= at + q && left >= 1 && items == front + Wilds(q, left) + tail
        decreases left, at + q - i
      {
        assert items[i] == Wilds(q, left)[i - at];
        WildsAt(q, left, i - at);
        if items[i].Star? {
          DeleteAt(front, Wilds(q, left), q, tail);
          WildsWithout(q, left);
          items := items[..i] + items[i + 1..];
          left := left - 1;
        } else {
          i := i + 1;
        }
      }
    }

    method Simplify()
      modifies this`items
      ensures items == Normal(old(items))
    {
      ghost var g := items;
      var item := 0;
      while item < |items|
        invariant item <= |items| && Normal(g) == items[..item] + Normal(items[item..])
        decreases |items| - item
      {
        item := SimplifyRun(item);
      }
      assert items[item..] == [] && items[..item] == items;
    }

    /** One run and the text that ends it. */
    method SimplifyRun(item: nat) returns (next: nat)
      requires item < |items|
      modifies this`items
      ensures item <= next <= |items| && |items| - next < |old(items)| - item
      ensures items[..next] + Normal(items[next..]) == old(items[..item] + Normal(items[item..]))
    {
      ghost var front, rest := items[..item], items[item..];
      var q, s, end := CountRun(item);
      ghost var run, tail := Run(rest), AfterRun(rest);
      RunParts(rest);
      CountBound(run);
      Assoc(items, item, run, tail);
      end := NormalizeRun(item, q, s, end, front, run, tail);
      next := if end < |items| then end + 1 else end;
      CutAfter(items, front, NormalRun(run), tail, next);
    }

    method NormalizeRun(item: nat, q: nat, s: nat, end: nat, ghost front: seq<Item>, ghost run: seq<Item>,
                        ghost tail: seq<Item>) returns (end': nat)
      requires |front| == item && items == front + run + tail && end == item + |run|
      requires NoText(run) && q == Count(QMark, run) && s == Count(Star, run)
      modifies this`items
      ensures items == front + NormalRun(run) + tail && end' == item + |NormalRun(run)|
    {
      end' := end;
      if s > 0 {
        MoveQMarks(item, q, front, run, tail);
        DropStars(item, s, q, front, tail);
        end' := item + q + 1;
      }
    }

    /** glob_compile. */
    method Compile(pattern: seq<char>)
      modifies this`items
      ensures items == Normal(Parsed(pattern, 0)) && Guarded(items) && Solid(items)
      ensures forall eq: Fold, text :: Matches(eq, items, text) <==> Means(eq, pattern, 0, text)
    {
      items := [];
      var i := 0;
      while i < |pattern|
        invariant i <= |pattern| && Parsed(pattern, 0) == items + Parsed(pattern, i)
        decreases |pattern| - i
      {
        ghost var done, rest := items, Parsed(pattern, i);
        var item: Item;
        if pattern[i] == '*' {
          item, i := Star, i + 1;
        } else if pattern[i] == '?' {
          item, i := QMark, i + 1;
        } else {
          var text;
          text, i := TextItem(pattern, i);
          item := Text(text);
        }
        assert rest == [item] + Parsed(pattern, i);
        items := items + [item];
        Regroup(done, item, Parsed(pattern, i));
      }
      assert items == Parsed(pattern, 0);
      Simplify();
      NormalGuarded(Parsed(pattern, 0));
      ParsedSolid(pattern, 0);
      NormalSolid(Parsed(pattern, 0));
      forall eq: Fold, text ensures Matches(eq, items, text) <==> Means(eq, pattern, 0, text) {
        NormalMeans(eq, Parsed(pattern, 0), text);
        ParsedMeans(eq, pattern, 0, text);
      }
    }

    /** The literal text at `start`: measured first, then copied. */
    method TextItem(pattern: seq<char>, start: nat) returns (text: seq<char>, end: nat)
      requires start < |pattern|
      ensures text == LiteralText(pattern, start) && end == LiteralEnd(pattern, start)
    {
      var len := 0;
      end := start;
      while end < |pattern| && pattern[end] != '*' && pattern[end] != '?'
        invariant start <= end <= |pattern| && |LiteralText(pattern, start)| == len + |LiteralText(pattern, end)|
        invariant LiteralEnd(pattern, start) == LiteralEnd(pattern, end)
      {
        if pattern[end] == '\\' {
          end := end + 1;
          len := len + 1;
          if end < |pattern| { end := end + 1; }
        } else {
          end := end + 1;
          len := len + 1;
        }
      }
      text := CopyText(pattern, start, len);
    }

    method CopyText(pattern: seq<char>, start: nat, len: nat) returns (text: seq<char>)
      requires start <= |pattern| && len == |LiteralText(pattern, start)|
      ensures text == LiteralText(pattern, start)
    {
      var i := start;
      text := [];
      while |text| < len
        invariant start <= i <= |pattern| && LiteralText(pattern, start) == text + LiteralText(pattern, i)
        decreases |pattern| - i
      {
        Regroup(text, Literal(pattern, i), LiteralText(pattern, Next(pattern, i)));
        if pattern[i] == '\\' {
          i := i + 1;
          if i < |pattern| {
            text := text + [pattern[i]];
            i := i + 1;
          } else {
            text := text + ['\\'];
          }
        } else {
          text := text + [pattern[i]];
          i := i + 1;
        }
      }
    }

    /** One text or question mark, and the place behind it. */
    method MatchOne(eq: Fold, str: Str, at: nat, ghost g: seq<Item>, item: Item, ghost rest: seq<char>)
      returns (same: bool, next: nat, ghost rest': seq<char>)
      requires at <= |str| && g != [] && item == g[0] && !item.Star?
      ensures Spells(str, at, rest) && Sized(eq, g, rest) ==>
                if same then
                  Spells(str, next, rest') && Sized(eq, g[1..], rest')
                  && (Matches(eq, g, rest) <==> Matches(eq, g[1..], rest'))
                else !Matches(eq, g, rest)
      ensures same && item.Text? ==> next == at + |Bytes(item.text)|
    {
      same, next, rest' := false, at, rest;
      ghost var fits := Spells(str, at, rest) && Sized(eq, g, rest);
      if item.Text? {
        same := EqualAt(eq, item.text, str, at, rest);
        if same && fits { rest' := PastText(eq, g, str, at, rest); }
        next := at + |Bytes(item.text)|;
      } else {
        if fits { SpellsEnd(str, at, rest); }
        if at < |str| {
          if fits { rest' := PastAny(eq, g, str, at, rest); }
          var u;
          u, next := GetChar(str, at);
          same := true;
        }
      }
    }

    /** do_glob_match, on the items from `first` and the string from `start`.  `None` is a text pointer beyond the NUL.
        */
    method DoMatch(eq: Fold, first: nat, str: Str, start: nat, ghost text: seq<char>) returns (r: Option<bool>)
      requires first <= |items| && Guarded(items) && Solid(items)
      ensures Spells(str, start, text) && Sized(eq, items[first..], text) ==>
                r.Some? && (r.value <==> Matches(eq, items[first..], text))
      ensures r == Some(true) && first + 1 == |items| && items[first].Text? ==>
                start + |Bytes(items[first].text)| == |str|
      decreases |items| - first
    {
      var item, at: nat := first, start;
      ghost var fits, rest := Spells(str, start, text) && Sized(eq, items[first..], text), text;
      ghost var g, goal := items[first..], Matches(eq, items[first..], text);
      ghost var end := if first < |items| && items[first].Text? then start + |Bytes(items[first].text)| else start;
      while item < |items|
        invariant first <= item <= |items| && g == items[item..]
        invariant fits ==> Spells(str, at, rest) && Sized(eq, g, rest) && (goal <==> Matches(eq, g, rest))
        invariant item == first ==> at == start
        invariant item == first + 1 && items[first].Text? ==> at == end
      {
        if at > |str| { return None; }
        if items[item].Star? {
          if item + 1 == |items| {
            assert rest[|rest|..] == [];
            return Some(true);
          }
          r := MatchStar(eq, item, str, at, rest);
          return;
        }
        var same;
        same, at, rest := MatchOne(eq, str, at, g, items[item], rest);
        if !same { return Some(false); }
        item, g := item + 1, g[1..];
      }
      if at > |str| { return None; }
      if fits { SpellsEnd(str, at, rest); }
      r := Some(at == |str|);
    }

    /** A star at `item` and the text after it, tried at every place where that text stands. */
    method MatchStar(eq: Fold, item: nat, str: Str, start: nat, ghost text: seq<char>) returns (r: Option<bool>)
      requires item + 1 < |items| && items[item].Star? && start <= |str| && Guarded(items) && Solid(items)
      ensures Spells(str, start, text) && Sized(eq, items[item..], text) ==>
                r.Some? && (r.value <==> Matches(eq, items[item..], text))
      decreases |items| - item, 0
    {
      var t := items[item + 1].text;
      ghost var g, fits := items[item..], Spells(str, start, text) && Sized(eq, items[item..], text);
      ghost var after, goal := g[2..], Matches(eq, g, text);
      assert after == items[item + 2..];
      StarStart(eq, g, text);
      var at := start;
      ghost var j: nat, left := 0, text;
      while true
        invariant start <= at <= |str|
        invariant fits ==> Seeking(eq, t, after, goal, str, left, at, j) && Sized(eq, g, left)
        decreases |str| - at
      {
        var found, pos, p, here := Find(eq, t, str, at, j, left);
        if !found {
          if fits { FoundNone(eq, t, after, goal, str, left, at, j); }
          return Some(false);
        }
        ghost var tail, later, k := [], [], 0;
        if fits { tail, later, k := FoundOne(eq, t, after, goal, str, left, at, j, pos, p, here, g); }
        r := DoMatch(eq, item + 2, str, pos + |Bytes(t)|, tail);
        if r != Some(false) { return; }
        at, j, left := pos + 1, k, later;
      }
    }

    /** glob_match.  It decides the meaning if characters that are equal have the same number of bytes. */
    method Match(eq: Fold, str: Str, ghost text: seq<char>) returns (r: Option<bool>)
      requires Guarded(items) && Solid(items) && str == Bytes(text)
      ensures Sized(eq, items, text) ==> r.Some? && (r.value <==> Matches(eq, items, text))
      ensures r == Some(true) && |items| == 1 && items[0].Text? ==> |Bytes(items[0].text)| == |str|
    {
      assert items[0..] == items && str[0..] == str;
      r := DoMatch(eq, 0, str, 0, text);
    }
  }

  lemma PastText(eq: Fold, g: seq<Item>, str: Str, at: nat, rest: seq<char>) returns (rest': seq<char>)
    requires g != [] && g[0].Text? && Spells(str, at, rest) && Sized(eq, g, rest) && Literally(eq, g[0].text, rest)
    ensures Spells(str, at + |Bytes(g[0].text)|, rest') && Sized(eq, g[1..], rest')
    ensures Matches(eq, g, rest) <==> Matches(eq, g[1..], rest')
  {
    var t := g[0].text;
    assert SameSizes(eq, t, rest);
    SkipText(eq, t, str, at, rest);
    SizedTail(eq, g, 1, rest, |t|);
    rest' := rest[|t|..];
  }

  lemma PastAny(eq: Fold, g: seq<Item>, str: Str, at: nat, rest: seq<char>) returns (rest': seq<char>)
    requires g != [] && g[0].QMark? && Spells(str, at, rest) && Sized(eq, g, rest) && rest != []
    ensures at < |str| && Spells(str, at + Step(str, at), rest') && Sized(eq, g[1..], rest')
    ensures Matches(eq, g, rest) <==> Matches(eq, g[1..], rest')
  {
    ReadHead(str, at, rest);
    SizedTail(eq, g, 1, rest, 1);
    rest' := rest[1..];
  }

  /** The loop over the places where `t` stands: it has to be found in `left`, which is near byte `at`, and followed. */
  ghost predicate Seeking(eq: Fold, t: seq<char>, after: seq<Item>, goal: bool, str: Str, left: seq<char>, at: nat,
                          j: nat) {
    Near(str, at, j, left) && (goal <==> StandsFrom(eq, t, after, left, 0))
  }

  lemma StarStart(eq: Fold, g: seq<Item>, text: seq<char>)
    requires |g| > 1 && g[0].Star? && g[1].Text?
    ensures Matches(eq, g, text) <==> StandsFrom(eq, g[1].text, g[2..], text, 0)
  {
    StarText(eq, g, text, 0);
    assert text[0..] == text;
  }

  lemma FoundNone(eq: Fold, t: seq<char>, after: seq<Item>, goal: bool, str: Str, left: seq<char>, at: nat, j: nat)
    requires Seeking(eq, t, after, goal, str, left, at, j)
    requires forall k :: 0 <= k < |left| + 1 ==> !Literally(eq, t, left[k..])
    ensures !goal
  {
    StandsNext(eq, t, after, left, 0, |left| + 1);
  }

  /** Where `t` was found it is followed right by `tail`, or the search goes on behind the first byte of that place. */
  lemma FoundOne(eq: Fold, t: seq<char>, after: seq<Item>, goal: bool, str: Str, left: seq<char>, at: nat, j: nat,
                 pos: nat, p: nat, here: seq<char>, g: seq<Item>)
    returns (tail: seq<char>, later: seq<char>, k: nat)
    requires Seeking(eq, t, after, goal, str, left, at, j) && p <= |left| && here == left[p..] && t != []
    requires Spells(str, pos, here) && Literally(eq, t, here)
    requires forall k :: 0 <= k < p ==> !Literally(eq, t, left[k..])
    requires |g| > 1 && g[1] == Text(t) && after == g[2..] && Sized(eq, g, left)
    ensures Spells(str, pos + |Bytes(t)|, tail) && Sized(eq, after, tail) && Sized(eq, g, later)
    ensures Matches(eq, after, tail) ==> goal
    ensures !Matches(eq, after, tail) ==> Seeking(eq, t, after, goal, str, later, pos + 1, k)
  {
    tail, later := here[|t|..], left[p + 1..];
    k := FoundPast(eq, g, str, left, pos, p, here, tail, later);
    StandsHere(eq, t, after, left, p, here, tail, later);
  }

  lemma FoundPast(eq: Fold, g: seq<Item>, str: Str, left: seq<char>, pos: nat, p: nat, here: seq<char>,
                  tail: seq<char>, later: seq<char>) returns (k: nat)
    requires |g| > 1 && g[1].Text? && Sized(eq, g, left) && p < |left| && here == left[p..]
    requires Spells(str, pos, here) && Literally(eq, g[1].text, here)
    requires tail == here[|g[1].text|..] && later == left[p + 1..]
    ensures Spells(str, pos + |Bytes(g[1].text)|, tail) && Sized(eq, g[2..], tail)
    ensures Near(str, pos + 1, k, later) && Sized(eq, g, later)
  {
    var t := g[1].text;
    SizedTail(eq, g, 0, left, p);
    assert g[0..] == g;
    assert SameSizes(eq, g[1].text, here);
    SkipText(eq, t, str, pos, here);
    SizedTail(eq, g, 2, here, |t|);
    ReadHead(str, pos, here);
    assert here[1..] == later;
    k := Size(here[0]) - 1;
    SizedTail(eq, g, 0, left, p + 1);
  }

  lemma StandsHere(eq: Fold, t: seq<char>, after: seq<Item>, left: seq<char>, p: nat, here: seq<char>,
                   tail: seq<char>, later: seq<char>)
    requires p < |left| && here == left[p..] && Literally(eq, t, here) && tail == here[|t|..] && later == left[p + 1..]
    requires forall k :: 0 <= k < p ==> !Literally(eq, t, left[k..])
    ensures StandsFrom(eq, t, after, left, 0) <==> Matches(eq, after, tail) || StandsFrom(eq, t, after, later, 0)
  {
    assert left[p + |t|..] == tail;
    StandsNext(eq, t, after, left, 0, p);
    StandsLater(eq, t, after, left, p + 1);
  }

  lemma StandsLater(eq: Fold, t: seq<char>, after: seq<Item>, left: seq<char>, n: nat)
    requires n <= |left|
    ensures StandsFrom(eq, t, after, left, n) <==> StandsFrom(eq, t, after, left[n..], 0)
  {
    forall k | n <= k <= |left| ensures StandsAt(eq, t, after, left, k) <==> StandsAt(eq, t, after, left[n..], k - n) {
      assert left[n..][k - n..] == left[k..];
      if k + |t| <= |left| { assert left[n..][k - n + |t|..] == left[k + |t|..]; }
    }
    if k :| k >= n && StandsAt(eq, t, after, left, k) { assert StandsAt(eq, t, after, left[n..], k - n); }
    if k: nat :| StandsAt(eq, t, after, left[n..], k) { assert StandsAt(eq, t, after, left, k + n); }
  }

  lemma DeleteAt<T>(front: seq<T>, mid: seq<T>, k: nat, tail: seq<T>)
    requires k < |mid|
    ensures var all, i := front + mid + tail, |front| + k;
            all[..i] + all[i + 1..] == front + (mid[..k] + mid[k + 1..]) + tail
  {
  }

  lemma {:induction false} WildsWithout(q: nat, s: nat)
    requires s > 0
    ensures Wilds(q, s)[..q] + Wilds(q, s)[q + 1..] == Wilds(q, s - 1)
  {
    if q == 0 {
    } else {
      WildsWithout(q - 1, s);
      var w, v := Wilds(q, s), Wilds(q - 1, s);
      assert w[..q] == [QMark] + v[..q - 1] && w[q + 1..] == v[q..];
    }
  }

  lemma CountBound(run: seq<Item>)
    requires NoText(run)
    ensures |NormalRun(run)| <= |run|
  {
    CountTotal(run);
  }

  /** The run just handled, and the text after it, join the finished part. */
  lemma CutAfter(items: seq<Item>, front: seq<Item>, run: seq<Item>, tail: seq<Item>, next: nat)
    requires items == front + run + tail && next == |front| + |run| + if tail == [] then 0 else 1
    ensures items[..next] + Normal(items[next..]) == front + (run + NormalTail(tail))
  {
    if tail == [] {
      NormalEmpty();
      CutEnd(items, front, run, next);
    } else {
      CutText(items, front, run, tail, next, Normal(tail[1..]));
    }
  }

  lemma NormalEmpty()
    ensures Normal([]) == []
  {
  }

  lemma CutEnd<T>(items: seq<T>, front: seq<T>, run: seq<T>, next: nat)
    requires items == front + run && next == |items|
    ensures items[next..] == [] && items[..next] + [] == front + (run + [])
  {
  }

  lemma CutText<T>(items: seq<T>, front: seq<T>, run: seq<T>, tail: seq<T>, next: nat, after: seq<T>)
    requires items == front + run + tail && tail != [] && next == |front| + |run| + 1
    ensures items[next..] == tail[1..] && items[..next] + after == front + (run + ([tail[0]] + after))
  {
    assert items[..next] == front + run + [tail[0]];
    assert (front + run + [tail[0]]) + after == front + (run + ([tail[0]] + after));
  }

  /** Text `t` stands at place `k` and what follows it matches `rest`. */
  ghost predicate StandsAt(eq: Fold, t: seq<char>, rest: seq<Item>, text: seq<char>, k: nat) {
    k <= |text| && Literally(eq, t, text[k..]) && Matches(eq, rest, text[k + |t|..])
  }

  ghost predicate StandsFrom(eq: Fold, t: seq<char>, rest: seq<Item>, text: seq<char>, from: nat) {
    exists k :: k >= from && StandsAt(eq, t, rest, text, k)
  }

  /** Between `from` and `pos` the text does not stand; so it stands at `pos` and is followed right, or later. */
  lemma StandsNext(eq: Fold, t: seq<char>, rest: seq<Item>, text: seq<char>, from: nat, pos: nat)
    requires from <= pos <= |text| + 1 && forall k :: from <= k < pos ==> !Literally(eq, t, text[k..])
    ensures StandsFrom(eq, t, rest, text, from) <==>
              StandsAt(eq, t, rest, text, pos) || (pos < |text| && StandsFrom(eq, t, rest, text, pos + 1))
  {
    if StandsFrom(eq, t, rest, text, from) {
      var k :| k >= from && StandsAt(eq, t, rest, text, k);
      assert k >= pos;
    }
  }

  lemma StarText(eq: Fold, g: seq<Item>, text: seq<char>, at: nat)
    requires |g| > 1 && g[0].Star? && g[1].Text? && at <= |text|
    ensures Matches(eq, g, text[at..]) <==> StandsFrom(eq, g[1].text, g[2..], text, at)
  {
    var t := g[1].text;
    assert g[1..][1..] == g[2..];
    forall k | at <= k <= |text| ensures Matches(eq, g[1..], text[k..]) <==> StandsAt(eq, t, g[2..], text, k) {
      if k + |t| <= |text| { assert text[k..][|t|..] == text[k + |t|..]; }
    }
    StarFrom(eq, g, text, at);
  }

  lemma StarFrom(eq: Fold, g: seq<Item>, text: seq<char>, at: nat)
    requires g != [] && g[0].Star? && at <= |text|
    ensures Matches(eq, g, text[at..]) <==> exists k :: at <= k <= |text| && Matches(eq, g[1..], text[k..])
  {
    forall k | 0 <= k <= |text| - at ensures text[at..][k..] == text[at + k..] {}
    if k :| at <= k <= |text| && Matches(eq, g[1..], text[k..]) {
      assert text[at..][k - at..] == text[k..];
    }
  }

  /** Otherwise it does not: a pattern of one character that equals one of another size is not found to match it. */
  method SizesMatter(eq: Fold, a: char, b: char) returns (glob: Glob, r: Option<bool>)
    requires !Wild(a) && a != '\\' && b != '\0' && eq(a, b) && Size(a) != Size(b)
    ensures fresh(glob) && Means(eq, [a], 0, [b]) && r != Some(true)
  {
    glob := new Glob;
    glob.Compile([a]);
    OneItem(a);
    EncodeNoNul(b as int);
    BytesOne(a);
    BytesOne(b);
    r := glob.Match(eq, Bytes([b]), [b]);
  }

  lemma OneItem(a: char)
    requires !Wild(a) && a != '\\'
    ensures Normal(Parsed([a], 0)) == [Text([a])]
  {
    assert LiteralText([a], 0) == [a] + LiteralText([a], 1) == [a];
    assert LiteralEnd([a], 0) == 1;
    assert Parsed([a], 0) == [Text([a])] + Parsed([a], 1) == [Text([a])];
    var g := [Text([a])];
    assert Run(g) == [] && AfterRun(g) == g && g[1..] == [];
    NormalEmpty();
  }
}
