/** The line editor of src/app/cmdline.c: byte and character positions move together on valid UTF-8, and on other bytes
    exactly as long as no two pieces join into one character. */
module CmdLine {
  import opened Common
  import opened Utf8
  import opened Counts

  /** The byte position of character position `c`. */
  function Off(us: seq<Code>, c: nat): nat
    requires c <= |us|
  { |EncodeAll(us[..c])| }

  lemma {:induction false} EncodeConcat(a: seq<Code>, b: seq<Code>)
    ensures EncodeAll(a + b) == EncodeAll(a) + EncodeAll(b)
  {
    if a == [] {
      assert a + b == b;
    } else {
      assert (a + b)[1..] == a[1..] + b;
      EncodeConcat(a[1..], b);
      Assoc(Encode(a[0]), EncodeAll(a[1..]), EncodeAll(b));
    }
  }

  lemma Assoc(a: seq<Byte>, b: seq<Byte>, c: seq<Byte>)
    ensures (a + b) + c == a + (b + c)
  {
  }

  lemma EncodeOne(u: Code)
    ensures EncodeAll([u]) == Encode(u)
  {
    assert [u][1..] == [] && EncodeAll([]) == [];
  }

  /** Cutting the text cuts the line at the byte position. */
  lemma Cut(us: seq<Code>, c: nat)
    requires c <= |us|
    ensures Off(us, c) <= |EncodeAll(us)|
    ensures EncodeAll(us)[..Off(us, c)] == EncodeAll(us[..c]) && EncodeAll(us)[Off(us, c)..] == EncodeAll(us[c..])
  {
    EncodeConcat(us[..c], us[c..]);
    assert us[..c] + us[c..] == us;
  }

  lemma OffEnds(us: seq<Code>)
    ensures Off(us, 0) == 0 && Off(us, |us|) == |EncodeAll(us)|
  {
    assert us[..0] == [] && us[..|us|] == us;
  }

  lemma {:induction false} OffPositive(us: seq<Code>, c: nat)
    requires c <= |us|
    ensures (Off(us, c) == 0 <==> c == 0) && Off(us, c) <= |EncodeAll(us)|
    ensures Off(us, c) == |EncodeAll(us)| <==> c == |us|
  {
    Cut(us, c);
    OffEnds(us);
  }

  lemma OffNext(us: seq<Code>, c: nat)
    requires c < |us|
    ensures Off(us, c + 1) == Off(us, c) + |Encode(us[c])|
  {
    assert us[..c + 1] == us[..c] + [us[c]];
    EncodeConcat(us[..c], [us[c]]);
    EncodeOne(us[c]);
  }

  /** Reading at a character position. */
  lemma ReadAt(s: Str, us: seq<Code>, c: nat)
    requires s == EncodeAll(us) && c < |us|
    ensures Off(us, c) < |s| && Char(s, Off(us, c)) == us[c] && Off(us, c) + Step(s, Off(us, c)) == Off(us, c + 1)
  {
    Cut(us, c);
    EncodeHead(us, c);
    ReadsFront(s, Off(us, c), us[c], EncodeAll(us[c + 1..]));
    OffNext(us, c);
  }

  lemma EncodeHead(us: seq<Code>, c: nat)
    requires c < |us|
    ensures EncodeAll(us[c..]) == Encode(us[c]) + EncodeAll(us[c + 1..])
  {
    assert us[c..][1..] == us[c + 1..];
  }

  lemma {:induction false} OffBoundary(s: Str, us: seq<Code>, c: nat)
    requires s == EncodeAll(us) && c <= |us|
    ensures Off(us, c) <= |s| && Boundary(s, Off(us, c))
  {
    if c < |us| { EncodeNoNul(us[c]); }
    Cut(us, c);
    var i := Off(us, c);
    if c < |us| {
      EncodeHead(us, c);
      assert s[i..][0] == Encode(us[c])[0];
      assert Len(At(s, i)) != 0;
      FirstByteBoundary(s, 0, i);
    } else {
      OffEnds(us);
      EndBoundary(s);
    }
  }

  /** Stepping back from a character position. */
  lemma BackAt(s: Str, us: seq<Code>, c: nat, p: nat)
    requires s == EncodeAll(us) && 0 < c <= |us|
    requires p < Off(us, c) <= |s| && Boundary(s, p) && p + Step(s, p) == Off(us, c)
    ensures p == Off(us, c - 1)
  {
    var q := Off(us, c - 1);
    ReadAt(s, us, c - 1);
    OffBoundary(s, us, c - 1);
    if p < q { NoBoundaryInside(s, 0, p, q); }
    if q < p { NoBoundaryInside(s, 0, q, p); }
  }

  /** u_get_char at a character position. */
  method ReadChar(str: Str, bpos: nat, ghost us: seq<Code>, ghost c: nat) returns (ch: nat, next: nat)
    requires str == EncodeAll(us) && c < |us| && bpos == Off(us, c)
    ensures ch == us[c] && next == Off(us, c + 1) <= |str|
  {
    ReadAt(str, us, c);
    Cut(us, c + 1);
    ch, next := GetChar(str, bpos);
  }

  /** u_prev_char_pos at a character position. */
  method StepBack(str: Str, bpos: nat, ghost us: seq<Code>, ghost c: nat) returns (p: nat)
    requires str == EncodeAll(us) && 0 < c <= |us| && bpos == Off(us, c)
    ensures p == Off(us, c - 1) < bpos <= |str|
  {
    OffBoundary(str, us, c);
    OffPositive(us, c);
    p := PrevCharPos(str, bpos);
    BackAt(str, us, c, p);
  }

  // ---- words ----

  /** Over delimiters and then to the end of the word. */
  function WordRight(us: seq<Code>, c: nat, delim: seq<Code>): (r: nat)
    requires c <= |us|
    ensures c <= r <= |us|
    decreases |us| - c
  { if c == |us| then c else if us[c] in delim then WordRight(us, c + 1, delim) else WordEnd(us, c + 1, delim) }

  function WordEnd(us: seq<Code>, c: nat, delim: seq<Code>): (r: nat)
    requires c <= |us|
    ensures c <= r <= |us|
    decreases |us| - c
  { if c == |us| || us[c] in delim then c else WordEnd(us, c + 1, delim) }

  /** Back over delimiters and then to the start of the word. */
  function WordLeft(us: seq<Code>, c: nat, delim: seq<Code>): (r: nat)
    requires c <= |us|
    ensures r <= c
  { if c == 0 then c else if us[c - 1] in delim then WordLeft(us, c - 1, delim) else WordStart(us, c - 1, delim) }

  function WordStart(us: seq<Code>, c: nat, delim: seq<Code>): (r: nat)
    requires c <= |us|
    ensures r <= c
  { if c == 0 || us[c - 1] in delim then c else WordStart(us, c - 1, delim) }

  /** From `c` first delimiters and then a word lead to `r`, and the word is not empty and ends there. */
  ghost predicate WordAhead(us: seq<Code>, c: nat, r: nat, delim: seq<Code>) {
    exists m: nat :: SkipThenWord(us, c, m, r, delim) && (m < r || r == |us|) && (r < |us| ==> us[r] in delim)
  }

  /** Back from `c` first delimiters and then a word lead to `r`, and the word is not empty and starts there. */
  ghost predicate WordBehind(us: seq<Code>, r: nat, c: nat, delim: seq<Code>) {
    exists m: nat :: WordThenSkip(us, r, m, c, delim) && (r < m || r == 0) && (r > 0 ==> us[r - 1] in delim)
  }

  predicate SkipThenWord(us: seq<Code>, c: nat, m: nat, r: nat, delim: seq<Code>) {
    && c <= m <= r <= |us|
    && (forall k :: c <= k < m ==> us[k] in delim) && forall k :: m <= k < r ==> us[k] !in delim
  }

  predicate WordThenSkip(us: seq<Code>, r: nat, m: nat, c: nat, delim: seq<Code>) {
    && r <= m <= c <= |us|
    && (forall k :: r <= k < m ==> us[k] !in delim) && forall k :: m <= k < c ==> us[k] in delim
  }

  lemma {:induction false} WordEndMeans(us: seq<Code>, c: nat, delim: seq<Code>)
    requires c <= |us|
    ensures var r := WordEnd(us, c, delim);
            SkipThenWord(us, c, c, r, delim) && (r < |us| ==> us[r] in delim)
    decreases |us| - c
  {
    if c == |us| || us[c] in delim {
    } else {
      WordEndMeans(us, c + 1, delim);
    }
  }

  lemma {:induction false} WordRightMeans(us: seq<Code>, c: nat, delim: seq<Code>)
    requires c <= |us|
    ensures WordAhead(us, c, WordRight(us, c, delim), delim)
    decreases |us| - c
  {
    var r := WordRight(us, c, delim);
    if c == |us| {
      assert SkipThenWord(us, c, c, r, delim);
    } else if us[c] in delim {
      WordRightMeans(us, c + 1, delim);
      var m: nat :| SkipThenWord(us, c + 1, m, r, delim) && (m < r || r == |us|);
      assert SkipThenWord(us, c, m, r, delim);
    } else {
      WordEndMeans(us, c + 1, delim);
      assert SkipThenWord(us, c, c, r, delim);
    }
  }

  lemma {:induction false} WordStartMeans(us: seq<Code>, c: nat, delim: seq<Code>)
    requires c <= |us|
    ensures var r := WordStart(us, c, delim);
            WordThenSkip(us, r, c, c, delim) && (r > 0 ==> us[r - 1] in delim)
  {
    if c == 0 || us[c - 1] in delim {
    } else {
      WordStartMeans(us, c - 1, delim);
    }
  }

  lemma {:induction false} WordLeftMeans(us: seq<Code>, c: nat, delim: seq<Code>)
    requires c <= |us|
    ensures WordBehind(us, WordLeft(us, c, delim), c, delim)
  {
    var r := WordLeft(us, c, delim);
    if c == 0 {
      assert WordThenSkip(us, r, c, c, delim);
    } else if us[c - 1] in delim {
      WordLeftMeans(us, c - 1, delim);
      var m: nat :| WordThenSkip(us, r, m, c - 1, delim) && (r < m || r == 0);
      assert WordThenSkip(us, r, m, c, delim);
    } else {
      WordStartMeans(us, c - 1, delim);
      assert WordThenSkip(us, r, c, c, delim);
    }
  }

  /** There is only one such place. */
  lemma WordAheadOnce(us: seq<Code>, c: nat, r: nat, r': nat, delim: seq<Code>)
    requires WordAhead(us, c, r, delim) && WordAhead(us, c, r', delim)
    ensures r == r'
  {
    var m: nat :| SkipThenWord(us, c, m, r, delim) && (m < r || r == |us|);
    var m': nat :| SkipThenWord(us, c, m', r', delim) && (m' < r' || r' == |us|);
    assert m < |us| ==> us[m] !in delim;
    assert m' < |us| ==> us[m'] !in delim;
    assert m == m';
  }

  lemma WordBehindOnce(us: seq<Code>, r: nat, r': nat, c: nat, delim: seq<Code>)
    requires WordBehind(us, r, c, delim) && WordBehind(us, r', c, delim)
    ensures r == r'
  {
    var m: nat :| WordThenSkip(us, r, m, c, delim) && (r < m || r == 0);
    var m': nat :| WordThenSkip(us, r', m', c, delim) && (r' < m' || r' == 0);
    assert m > 0 ==> us[m - 1] !in delim;
    assert m' > 0 ==> us[m' - 1] !in delim;
    assert m == m';
  }

  /** u_strchr, whether the character occurs. */
  method Occurs(str: Str, uch: nat) returns (r: bool)
    requires ValidFrom(str, 0)
    ensures r <==> uch in Decoded(str, 0)
  {
    var idx := 0;
    while idx < |str|
      invariant idx <= |str| && ValidFrom(str, idx) && (uch in Decoded(str, 0) <==> uch in Decoded(str, idx))
    {
      var u;
      u, idx := GetChar(str, idx);
      if uch == u { return true; }
    }
    return false;
  }

  /** next_word forwards. */
  method NextWord(str: Str, bpos0: nat, delim: Str, ghost us: seq<Code>, ghost c: nat) returns (bpos: nat, cdiff: int)
    requires str == EncodeAll(us) && c <= |us| && bpos0 == Off(us, c) && ValidFrom(delim, 0)
    ensures 0 <= c + cdiff <= |us| && bpos == Off(us, c + cdiff) && c + cdiff == WordRight(us, c, Decoded(delim, 0))
    ensures WordAhead(us, c, c + cdiff, Decoded(delim, 0))
  {
    WordRightMeans(us, c, Decoded(delim, 0));
    ghost var d, at: nat := Decoded(delim, 0), c;
    var skipDelim := true;
    bpos, cdiff := bpos0, 0;
    OffPositive(us, at);
    while bpos < |str|
      invariant at <= |us| && at == c + cdiff && bpos == Off(us, at) <= |str| && (bpos == |str| <==> at == |us|)
      invariant skipDelim ==> WordRight(us, c, d) == WordRight(us, at, d)
      invariant !skipDelim ==> WordRight(us, c, d) == WordEnd(us, at, d)
      decreases |us| - at
    {
      var oldp, ch := bpos, 0;
      ch, bpos := ReadChar(str, bpos, us, at);
      var isDelim := Occurs(delim, ch);
      if isDelim {
        if !skipDelim {
          bpos := oldp;
          break;
        }
      } else {
        skipDelim := false;
      }
      cdiff := cdiff + 1;
      at := at + 1;
      OffPositive(us, at);
    }
  }

  /** next_word backwards. */
  method PrevWord(str: Str, bpos0: nat, delim: Str, ghost us: seq<Code>, ghost c: nat) returns (bpos: nat, cdiff: int)
    requires str == EncodeAll(us) && c <= |us| && bpos0 == Off(us, c) && ValidFrom(delim, 0)
    ensures 0 <= c + cdiff <= c && bpos == Off(us, c + cdiff) && c + cdiff == WordLeft(us, c, Decoded(delim, 0))
    ensures WordBehind(us, c + cdiff, c, Decoded(delim, 0))
  {
    WordLeftMeans(us, c, Decoded(delim, 0));
    ghost var d, at: nat := Decoded(delim, 0), c;
    var skipDelim := true;
    bpos, cdiff := bpos0, 0;
    OffPositive(us, at);
    while bpos > 0
      invariant at <= |us| && at == c + cdiff && at <= c && bpos == Off(us, at) && (bpos == 0 <==> at == 0)
      invariant skipDelim ==> WordLeft(us, c, d) == WordLeft(us, at, d)
      invariant !skipDelim ==> WordLeft(us, c, d) == WordStart(us, at, d)
      decreases at
    {
      bpos := StepBack(str, bpos, us, at);
      var ch, oldp := ReadChar(str, bpos, us, at - 1);
      var isDelim := Occurs(delim, ch);
      if isDelim {
        if !skipDelim {
          bpos := oldp;
          break;
        }
      } else {
        skipDelim := false;
      }
      cdiff := cdiff - 1;
      at := at - 1;
      OffPositive(us, at);
    }
  }

  // ---- lines ----

  ghost predicate Means(s: Str, text: seq<Code>, blen: nat, clen: nat, bpos: nat, cpos: nat) {
    s == EncodeAll(text) && blen == |s| && clen == |text| && cpos <= |text| && bpos == Off(text, cpos)
  }

  ghost predicate InStep(s: Str, blen: nat, clen: nat, bpos: nat, cpos: nat) {
    blen == |s| && bpos <= blen && Boundary(s, bpos) && clen == Steps(s, 0) && cpos + Steps(s, bpos) == clen
  }

  /** `p` is the boundary before `b`. */
  predicate Before(s: Str, b: nat, p: nat) { p < b <= |s| && Boundary(s, p) && p + Step(s, p) == b }

  /** At `b` the string has a character of its own, of `n` bytes. */
  predicate Alone(s: Str, b: nat, n: nat) { b < |s| && Boundary(s, b) && Step(s, b) == n }

  /** u_char_size of the character that u_get_char reads. */
  function CutSize(s: Str, b: nat): (n: nat)
    requires b < |s|
    ensures 0 < n <= Step(s, b)
  {
    RawFits(s, b);
    |Raw(Char(s, b))|
  }

  function Omit<T>(s: seq<T>, i: nat, j: nat): seq<T>
    requires i <= j <= |s|
  { s[..i] + s[j..] }

  function Without(s: Str, from: nat, to: nat): Str
    requires from <= to <= |s|
  { Omit(s, from, to) }

  lemma MeansInStep(s: Str, text: seq<Code>, blen: nat, clen: nat, bpos: nat, cpos: nat)
    requires Means(s, text, blen, clen, bpos, cpos)
    ensures InStep(s, blen, clen, bpos, cpos) && (bpos == 0 <==> cpos == 0) && (bpos == blen <==> cpos == |text|)
  {
    Cut(text, cpos);
    assert s[0..] == s;
    DecodeEncoded(s, 0, text);
    DecodeEncoded(s, bpos, text[cpos..]);
    OffBoundary(s, text, cpos);
    OffPositive(text, cpos);
  }

  /** The character's bytes stand in the line, and the counts are right or not. */
  lemma Inserted(s: Str, b: nat, ch: nat, t: seq<Byte>)
    requires b <= |s| && 0 !in Raw(ch) && t == s[..b] + Raw(ch) + s[b..]
    ensures forall i :: 0 <= i < |t| ==> t[i] != 0
    ensures Boundary(s, b) ==> (Steps(t, 0) == Steps(s, 0) + 1 <==> Alone(t, b, |Raw(ch)|))
    ensures Alone(t, b, |Raw(ch)|) ==>
              Boundary(t, b + |Raw(ch)|) && Steps(t, b + |Raw(ch)|) == Steps(s, b)
    ensures 0 < ch <= MAX_CODE ==> Alone(t, b, |Raw(ch)|)
  {
    RawOne(ch);
    var r: Str := Raw(ch);
    if Boundary(s, b) { InsertCount(s, b, r, t); }
    if 0 < ch <= MAX_CODE { InsertValid(s, b, ch, t); }
    if Alone(t, b, |r|) { InsertCursor(s, b, r, t); }
  }

  lemma InsertedInStep(s: Str, blen: nat, clen: nat, b: nat, cpos: nat, ch: nat, t: Str)
    requires InStep(s, blen, clen, b, cpos) && 0 !in Raw(ch) && t == s[..b] + Raw(ch) + s[b..]
    ensures clen + 1 == Steps(t, 0) <==> Alone(t, b, |Raw(ch)|)
    ensures InStep(t, blen + |Raw(ch)|, clen + 1, b + |Raw(ch)|, cpos + 1) <==> clen + 1 == Steps(t, 0)
    ensures 0 < ch <= MAX_CODE ==> clen + 1 == Steps(t, 0)
  {
    Inserted(s, b, ch, t);
  }

  lemma InsertedText(s: Str, text: seq<Code>, blen: nat, clen: nat, b: nat, cpos: nat, ch: Code, t: Str)
    returns (text': seq<Code>)
    requires Means(s, text, blen, clen, b, cpos) && b <= |s| && t == s[..b] + Raw(ch) + s[b..]
    ensures text' == text[..cpos] + [ch] + text[cpos..]
    ensures Means(t, text', blen + |Raw(ch)|, clen + 1, b + |Raw(ch)|, cpos + 1)
  {
    InsertBytes(text, cpos, ch, s, b, t);
    text' := text[..cpos] + [ch] + text[cpos..];
  }

  lemma Backspaced(s: Str, blen: nat, clen: nat, b: nat, cpos: nat, p: nat, t: Str)
    requires InStep(s, blen, clen, b, cpos) && Before(s, b, p) && t == Without(s, p, b)
    ensures cpos > 0 && clen > 0 && InStep(s, blen, clen, p, cpos - 1)
    ensures clen - 1 == Steps(t, 0) <==> Boundary(t, p)
    ensures InStep(t, |t|, clen - 1, p, cpos - 1) <==> Boundary(t, p)
  {
    StepsFall(s, 0, b);
    RemoveCount(s, p, b - p, t);
  }

  lemma BackspacedText(s: Str, text: seq<Code>, blen: nat, clen: nat, b: nat, cpos: nat, p: nat, t: Str)
    requires Means(s, text, blen, clen, b, cpos) && Before(s, b, p) && t == Without(s, p, b)
    ensures cpos > 0 && Means(s, text, blen, clen, p, cpos - 1)
    ensures Means(t, Omit(text, cpos - 1, cpos), |t|, clen - 1, p, cpos - 1)
  {
    OffPositive(text, cpos);
    BackAt(s, text, cpos, p);
    RemovedBytes(text, cpos - 1, cpos);
  }

  lemma Deleted(s: Str, blen: nat, clen: nat, b: nat, cpos: nat, n: nat, t: Str)
    requires InStep(s, blen, clen, b, cpos) && b < blen && 0 < n <= Step(s, b) && t == Without(s, b, b + n)
    ensures clen > 0
    ensures clen - 1 == Steps(t, 0) <==> Joined(t, b) == Step(s, b) - n
    ensures InStep(t, |t|, clen - 1, b, cpos) <==> Boundary(t, b) && n == Step(s, b)
  {
    StepsFall(s, 0, b);
    RemoveCount(s, b, n, t);
  }

  lemma DeletedText(s: Str, text: seq<Code>, blen: nat, clen: nat, b: nat, cpos: nat, n: nat, t: Str)
    returns (text': seq<Code>)
    requires Means(s, text, blen, clen, b, cpos) && b < blen && n == Step(s, b)
    requires t == Without(s, b, b + n)
    ensures cpos < |text| && text' == Omit(text, cpos, cpos + 1) && Means(t, text', |t|, clen - 1, b, cpos)
  {
    OffPositive(text, cpos);
    ReadAt(s, text, cpos);
    OffNext(text, cpos);
    text' := TextWithout(s, text, cpos, cpos + 1, b, b + n, t);
  }

  lemma WholeCut(s: Str, text: seq<Code>, blen: nat, clen: nat, b: nat, cpos: nat)
    requires Means(s, text, blen, clen, b, cpos) && b < blen
    ensures CutSize(s, b) == Step(s, b)
  {
    OffPositive(text, cpos);
    ReadAt(s, text, cpos);
    OffNext(text, cpos);
  }

  lemma TextWithout(s: Str, text: seq<Code>, i: nat, j: nat, from: nat, to: nat, t: Str) returns (text': seq<Code>)
    requires s == EncodeAll(text) && i <= j <= |text| && from == Off(text, i) && to == Off(text, j)
    requires from <= to <= |s| && t == Without(s, from, to)
    ensures text' == Omit(text, i, j) && |text'| == |text| - (j - i)
    ensures t == EncodeAll(text') && |t| == |s| - (to - from) && Off(text', i) == from
  {
    RemovedBytes(text, i, j);
    text' := Omit(text, i, j);
  }

  lemma OffOrder(text: seq<Code>, i: nat, j: nat)
    requires i <= j <= |text|
    ensures Off(text, i) <= Off(text, j) <= |EncodeAll(text)|
  {
    RemovedBytes(text, i, j);
  }

  lemma Advanced(s: Str, blen: nat, clen: nat, b: nat, cpos: nat)
    requires InStep(s, blen, clen, b, cpos) && b < blen
    ensures InStep(s, blen, clen, b + Step(s, b), cpos + 1) && Before(s, b + Step(s, b), b)
  {
    BoundaryStep(s, 0, b);
  }

  lemma AdvancedText(s: Str, text: seq<Code>, blen: nat, clen: nat, b: nat, cpos: nat)
    requires Means(s, text, blen, clen, b, cpos) && b < blen
    ensures Means(s, text, blen, clen, b + Step(s, b), cpos + 1)
  {
    OffPositive(text, cpos);
    ReadAt(s, text, cpos);
  }

  lemma KeepFront(s: Str, blen: nat, clen: nat, b: nat, cpos: nat, p: Str)
    requires InStep(s, blen, clen, b, cpos) && p == s[..b]
    ensures InStep(p, b, Steps(p, 0), b, cpos)
  {
    var q: Str := s[b..];
    assert s == p + q;
    JoinCount(p, q, s);
    EndBoundary(p);
  }

  lemma KeepFrontText(s: Str, text: seq<Code>, blen: nat, clen: nat, b: nat, cpos: nat, p: Str)
    requires Means(s, text, blen, clen, b, cpos) && b <= |s| && p == s[..b]
    ensures Means(p, text[..cpos], b, Steps(p, 0), b, cpos)
  {
    Cut(text, cpos);
    var a := text[..cpos];
    assert p[0..] == p && a[..cpos] == a;
    DecodeEncoded(p, 0, a);
  }

  class CmdLine {
    var blen: nat
    var clen: nat
    var bpos: nat
    var cpos: nat
    /** The bytes up to the NUL. */
    var line: Str
    ghost var text: seq<Code>

    /** The line is the text, and lengths and positions agree in bytes and characters. */
    ghost predicate Valid()
      reads this
    { Means(line, text, blen, clen, bpos, cpos) }

    /** Whatever the bytes are, lengths and positions agree in bytes and characters as u_strlen_safe counts them. */
    ghost predicate Counted()
      reads this
    { InStep(line, blen, clen, bpos, cpos) }

    constructor ()
      ensures Valid() && Counted() && text == []
    {
      blen, clen, bpos, cpos, line, text := 0, 0, 0, 0, [], [];
    }

    /** On any line the counts stay right iff the bytes of the character neither complete one before the cursor nor take
        in bytes behind it; a valid character keeps them right.  A NUL ends the line. */
    method InsertCh(ch: nat)
      requires blen == |line| && bpos <= blen
      modifies this
      ensures blen == old(blen) + |Raw(ch)| && bpos == old(bpos) + |Raw(ch)|
      ensures cpos == old(cpos) + 1 && clen == old(clen) + 1
      ensures line == if 0 in Raw(ch) then old(line[..bpos]) else old(line[..bpos]) + Raw(ch) + old(line[bpos..])
      ensures old(Counted()) && 0 !in Raw(ch) ==>
                && (clen == Steps(line, 0) <==> Alone(line, old(bpos), |Raw(ch)|))
                && (Counted() <==> clen == Steps(line, 0))
      ensures old(Counted()) && 0 < ch <= MAX_CODE ==> Counted()
      ensures old(Valid()) && 0 < ch <= MAX_CODE ==> Valid() && text == old(text[..cpos] + [ch] + text[cpos..])
    {
      var bytes := Placed(line, bpos, ch);
      if 0 in Raw(ch) {
        assert Raw(ch) == [0];
        line := line[..bpos];
        bpos, cpos, blen, clen := bpos + 1, cpos + 1, blen + 1, clen + 1;
      } else {
        Inserted(line, bpos, ch, bytes);
        Grow(bytes, ch);
      }
    }

    method Grow(bytes: Str, ch: nat)
      requires blen == |line| && bpos <= blen && 0 !in Raw(ch) && bytes == line[..bpos] + Raw(ch) + line[bpos..]
      modifies this
      ensures blen == old(blen) + |Raw(ch)| && bpos == old(bpos) + |Raw(ch)|
      ensures cpos == old(cpos) + 1 && clen == old(clen) + 1 && line == bytes
      ensures old(Counted()) ==> (clen == Steps(line, 0) <==> Alone(line, old(bpos), |Raw(ch)|))
      ensures old(Counted()) ==> (Counted() <==> clen == Steps(line, 0))
      ensures old(Counted()) && 0 < ch <= MAX_CODE ==> Counted()
      ensures old(Valid()) && 0 < ch <= MAX_CODE ==> Valid() && text == old(text[..cpos] + [ch] + text[cpos..])
    {
      var size := |Raw(ch)|;
      if Counted() { InsertedInStep(line, blen, clen, bpos, cpos, ch, bytes); }
      if Valid() && 0 < ch <= MAX_CODE { text := InsertedText(line, text, blen, clen, bpos, cpos, ch, bytes); }
      line, bpos, cpos := bytes, bpos + size, cpos + 1;
      blen, clen := blen + size, clen + 1;
    }

    /** The character before the cursor goes.  The counts stay right iff what is before it and what is behind it do not
        join. */
    method Backspace()
      requires Counted()
      modifies this
      ensures old(bpos) == 0 ==> Counted() && line == old(line) && text == old(text) && bpos == 0 && cpos == old(cpos)
      ensures old(bpos) > 0 ==>
                && Before(old(line), old(bpos), bpos) && line == Without(old(line), bpos, old(bpos))
                && cpos == old(cpos) - 1 && clen == old(clen) - 1 && blen == |line|
                && (clen == Steps(line, 0) <==> Boundary(line, bpos)) && (Counted() <==> Boundary(line, bpos))
      ensures old(Valid()) ==> Valid()
      ensures old(Valid()) && old(cpos) == 0 ==> text == old(text) && cpos == 0
      ensures old(Valid()) && old(cpos) > 0 ==>
                text == old(Omit(text, cpos - 1, cpos)) && cpos == old(cpos) - 1
    {
      if Valid() { MeansInStep(line, text, blen, clen, bpos, cpos); }
      if bpos == 0 { return; }
      var p := PrevCharPos(line, bpos);
      Backspaced(line, blen, clen, bpos, cpos, p, Without(line, p, bpos));
      if Valid() {
        BackspacedText(line, text, blen, clen, bpos, cpos, p, Without(line, p, bpos));
        text := Omit(text, cpos - 1, cpos);
      }
      line := Without(line, p, bpos);
      blen := blen - (bpos - p);
      bpos := p;
      cpos := cpos - 1;
      clen := clen - 1;
    }

    method BackspaceToBol()
      requires Valid()
      modifies this
      ensures Valid() && text == old(text[cpos..]) && cpos == 0
    {
      ghost var rest := text[cpos..];
      OffPositive(text, cpos);
      while bpos > 0
        invariant Valid() && text[cpos..] == rest && (bpos == 0 <==> cpos == 0)
        decreases cpos
      {
        ghost var t0, c := text, cpos;
        MeansInStep(line, text, blen, clen, bpos, cpos);
        Backspace();
        assert t0[c..] == (t0[..c - 1] + t0[c..])[c - 1..];
        OffPositive(text, cpos);
      }
      assert text[0..] == text;
    }

    /** The character at the cursor goes, or as many of its bytes as its code point has in shortest form.  The counts
        stay right iff as many bytes are left of it as what is before the cursor takes in. */
    method DeleteCh()
      requires Counted()
      modifies this
      ensures bpos == old(bpos) && cpos == old(cpos) && blen == |line|
      ensures old(bpos) == old(blen) ==> Counted() && line == old(line) && text == old(text)
      ensures old(bpos) < old(blen) ==>
                && line == Without(old(line), bpos, bpos + CutSize(old(line), bpos)) && clen == old(clen) - 1
                && (clen == Steps(line, 0) <==> Joined(line, bpos) == Step(old(line), bpos) - CutSize(old(line), bpos))
                && (Counted() <==> Boundary(line, bpos) && CutSize(old(line), bpos) == Step(old(line), bpos))
      ensures old(Valid()) ==> Valid()
      ensures old(Valid()) && old(cpos) == old(|text|) ==> text == old(text)
      ensures old(Valid()) && old(cpos) < old(|text|) ==> text == old(Omit(text, cpos, cpos + 1))
    {
      if Valid() { MeansInStep(line, text, blen, clen, bpos, cpos); }
      if bpos == blen { return; }
      var ch, next := GetChar(line, bpos);
      var size := |Raw(ch)|;
      assert size == CutSize(line, bpos);
      if Valid() { WholeCut(line, text, blen, clen, bpos, cpos); }
      Shrink(size);
    }

    method Shrink(size: nat)
      requires Counted() && bpos < blen && 0 < size <= Step(line, bpos) && (Valid() ==> size == Step(line, bpos))
      modifies this
      ensures bpos == old(bpos) && cpos == old(cpos) && clen == old(clen) - 1 && blen == |line|
      ensures line == Without(old(line), bpos, bpos + size)
      ensures clen == Steps(line, 0) <==> Joined(line, bpos) == Step(old(line), bpos) - size
      ensures Counted() <==> Boundary(line, bpos) && size == Step(old(line), bpos)
      ensures old(Valid()) ==> Valid() && cpos < old(|text|) && text == old(Omit(text, cpos, cpos + 1))
    {
      var rest := Without(line, bpos, bpos + size);
      Deleted(line, blen, clen, bpos, cpos, size, rest);
      if Valid() { text := DeletedText(line, text, blen, clen, bpos, cpos, size, rest); }
      line := rest;
      blen := blen - size;
      clen := clen - 1;
    }

    /** Any text can be set; it is counted right, and consists of characters iff it is valid. */
    method SetText(s: Str)
      modifies this
      ensures Counted() && line == s && bpos == |s| && cpos == clen
      ensures Valid() <==> ValidFrom(s, 0)
      ensures ValidFrom(s, 0) ==> text == Decoded(s, 0) && cpos == |text|
    {
      ValidIffEncoded(s);
      EndBoundary(s);
      line := s;
      if ValidFrom(s, 0) {
        EncodeDecoded(s, 0);
        assert s[0..] == s;
        text := Decoded(s, 0);
        DecodeEncoded(s, 0, text);
        OffEnds(text);
      }
      cpos := StrLenSafe(line);
      bpos := |s|;
      clen := cpos;
      blen := |s|;
      assert Valid() ==> s == EncodeAll(text);
    }

    method Clear()
      modifies this
      ensures Valid() && Counted() && text == []
    {
      blen, clen, bpos, cpos, line, text := 0, 0, 0, 0, [], [];
    }

    method ClearEnd()
      requires Counted()
      modifies this
      ensures Counted() && line == old(line[..bpos]) && bpos == old(bpos) && cpos == old(cpos)
      ensures old(Valid()) ==> Valid() && text == old(text[..cpos])
    {
      var front: Str := line[..bpos];
      KeepFront(line, blen, clen, bpos, cpos, front);
      if Valid() {
        KeepFrontText(line, text, blen, clen, bpos, cpos, front);
        text := text[..cpos];
      }
      line := front;
      clen := StrLenSafe(line);
      blen := |line|;
    }

    method MoveLeft()
      requires Counted()
      modifies this`bpos, this`cpos
      ensures Counted()
      ensures if old(bpos) == 0 then bpos == 0 && cpos == old(cpos)
              else Before(line, old(bpos), bpos) && cpos == old(cpos) - 1
      ensures old(Valid()) ==> Valid()
    {
      if bpos > 0 {
        var p := PrevCharPos(line, bpos);
        Backspaced(line, blen, clen, bpos, cpos, p, Without(line, p, bpos));
        if Valid() { BackspacedText(line, text, blen, clen, bpos, cpos, p, Without(line, p, bpos)); }
        bpos := p;
        cpos := cpos - 1;
      }
    }

    method MoveRight()
      requires Counted()
      modifies this`bpos, this`cpos
      ensures Counted()
      ensures if old(bpos) == blen then bpos == blen && cpos == old(cpos)
              else Before(line, bpos, old(bpos)) && cpos == old(cpos) + 1
      ensures old(Valid()) ==> Valid()
    {
      if bpos < blen {
        Advanced(line, blen, clen, bpos, cpos);
        if Valid() { AdvancedText(line, text, blen, clen, bpos, cpos); }
        var ch;
        ch, bpos := GetChar(line, bpos);
        cpos := cpos + 1;
      }
    }

    method MoveHome()
      requires Counted()
      modifies this`bpos, this`cpos
      ensures Counted() && bpos == cpos == 0 && (old(Valid()) ==> Valid())
    {
      if Valid() { OffEnds(text); }
      cpos, bpos := 0, 0;
    }

    method MoveEnd()
      requires Counted()
      modifies this`bpos, this`cpos
      ensures Counted() && bpos == blen && cpos == clen && (old(Valid()) ==> Valid())
    {
      if Valid() { OffEnds(text); }
      EndBoundary(line);
      cpos, bpos := clen, blen;
    }

    method ForwardWord(delim: Str)
      requires Valid() && ValidFrom(delim, 0)
      modifies this`bpos, this`cpos
      ensures Valid() && WordAhead(text, old(cpos), cpos, Decoded(delim, 0))
    {
      var cdiff;
      bpos, cdiff := NextWord(line, bpos, delim, text, cpos);
      cpos := cpos + cdiff;
    }

    method BackwardWord(delim: Str)
      requires Valid() && ValidFrom(delim, 0)
      modifies this`bpos, this`cpos
      ensures Valid() && WordBehind(text, cpos, old(cpos), Decoded(delim, 0))
    {
      var cdiff;
      bpos, cdiff := PrevWord(line, bpos, delim, text, cpos);
      cpos := cpos + cdiff;
    }

    method DeleteWord(delim: Str)
      requires Valid() && ValidFrom(delim, 0)
      modifies this
      ensures Valid() && cpos == old(cpos)
      ensures text == old(Omit(text, cpos, WordRight(text, cpos, Decoded(delim, 0))))
      ensures old(WordAhead(text, cpos, WordRight(text, cpos, Decoded(delim, 0)), Decoded(delim, 0)))
    {
      var to, cdiff := NextWord(line, bpos, delim, text, cpos);
      RemoveBetween(bpos, to, cdiff, cpos, cpos + cdiff);
    }

    /** The `n` characters from place `i` to place `j`, at the bytes `from` and `to`, go. */
    method RemoveBetween(from: nat, to: nat, n: nat, ghost i: nat, ghost j: nat)
      requires line == EncodeAll(text) && blen == |line| && clen == |text|
      requires i <= j <= |text| && n == j - i && from == Off(text, i) && to == Off(text, j)
      modifies this`line, this`text, this`blen, this`clen
      ensures line == EncodeAll(text) && blen == |line| && clen == |text|
      ensures text == old(Omit(text, i, j)) && |text| == old(|text|) - n && Off(text, i) == from
    {
      OffOrder(text, i, j);
      var rest := Without(line, from, to);
      text := TextWithout(line, text, i, j, from, to, rest);
      line := rest;
      blen := blen - (to - from);
      clen := clen - n;
    }

    method BackwardDeleteWord(delim: Str)
      requires Valid() && ValidFrom(delim, 0)
      modifies this
      ensures Valid() && cpos == old(WordLeft(text, cpos, Decoded(delim, 0)))
      ensures text == old(Omit(text, WordLeft(text, cpos, Decoded(delim, 0)), cpos))
      ensures old(WordBehind(text, WordLeft(text, cpos, Decoded(delim, 0)), cpos, Decoded(delim, 0)))
    {
      var to, cdiff := PrevWord(line, bpos, delim, text, cpos);
      RemoveBetween(to, bpos, -cdiff, cpos + cdiff, cpos);
      bpos := to;
      cpos := cpos + cdiff;
    }
  }

  /** memmove and u_set_char_raw. */
  method Placed(line: Str, bpos: nat, ch: nat) returns (bytes: seq<Byte>)
    requires bpos <= |line|
    ensures bytes == line[..bpos] + Raw(ch) + line[bpos..]
  {
    bytes := line[..bpos] + Zeros(|Raw(ch)|) + line[bpos..];
    Middle(line[..bpos], Zeros(|Raw(ch)|), line[bpos..]);
    var next;
    bytes, next := SetCharRaw(bytes, bpos, ch);
  }

  function Zeros(n: nat): (r: seq<Byte>)
    ensures |r| == n
  { if n == 0 then [] else [0] + Zeros(n - 1) }

  lemma Spliced(a: seq<Code>, m: seq<Code>, b: seq<Code>)
    ensures EncodeAll(a + m + b) == EncodeAll(a) + EncodeAll(m) + EncodeAll(b)
    ensures (a + m + b)[..|a|] == a && (a + m + b)[..|a| + |m|] == a + m && (a + m + b)[|a| + |m|..] == b
    ensures Off(a + m + b, |a|) == |EncodeAll(a)| && Off(a + m + b, |a| + |m|) == |EncodeAll(a)| + |EncodeAll(m)|
  {
    EncodeConcat(a + m, b);
    EncodeConcat(a, m);
  }

  lemma InsertBytes(us: seq<Code>, c: nat, ch: Code, line: seq<Byte>, bpos: nat, bytes: seq<Byte>)
    requires c <= |us| && line == EncodeAll(us) && bpos == Off(us, c) <= |line|
    requires bytes == line[..bpos] + Raw(ch) + line[bpos..]
    ensures var vs := us[..c] + [ch] + us[c..];
            bytes == EncodeAll(vs) && (forall i :: 0 <= i < |bytes| ==> bytes[i] != 0)
            && Off(vs, c + 1) == bpos + |Raw(ch)|
  {
    var a, b := us[..c], us[c..];
    Cut(us, c);
    Spliced(a, [ch], b);
    EncodeOne(ch);
    EncodeAllNoNul(a + [ch] + b);
  }

  lemma Middle(a: seq<Byte>, z: seq<Byte>, b: seq<Byte>)
    ensures (a + z + b)[..|a|] == a && (a + z + b)[|a| + |z|..] == b
  {
  }

  lemma RemovedBytes(us: seq<Code>, i: nat, j: nat)
    requires i <= j <= |us|
    ensures var vs, s := us[..i] + us[j..], EncodeAll(us);
            && Off(us, i) <= Off(us, j) <= |s| && EncodeAll(vs) == s[..Off(us, i)] + s[Off(us, j)..]
            && (forall k :: 0 <= k < |EncodeAll(vs)| ==> EncodeAll(vs)[k] != 0) && Off(vs, i) == Off(us, i)
  {
    var a, m, b := us[..i], us[i..j], us[j..];
    assert us[..j] == a + m;
    EncodeConcat(a, m);
    Cut(us, i);
    Cut(us, j);
    EncodeConcat(a, b);
    EncodeAllNoNul(a + b);
    assert (a + b)[..i] == a;
  }

  /** Two bytes inserted as invalid characters can be one character together: then the count is wrong. */
  method HalvesJoin() returns (c: CmdLine)
    ensures fresh(c) && c.clen == 2 && Steps(c.line, 0) == 1
  {
    c := new CmdLine();
    c.InsertCh(U_INVALID_MASK + 0xc3);
    c.InsertCh(U_INVALID_MASK + 0xa9);
    assert c.line == [0xc3, 0xa9];
    assert Continued(c.line, 0, 2);
    assert Step(c.line, 0) == 2;
  }

  /** A code point beyond the last is read with four bytes and removed with one: three are left, and counted. */
  method BeyondLast() returns (c: CmdLine)
    ensures fresh(c) && c.clen == 0 && Steps(c.line, 0) == 3
  {
    c := new CmdLine();
    var s: Str := [0xf4, 0x90, 0x80, 0x80];
    CutsOne(s);
    c.SetText(s);
    c.MoveHome();
    c.DeleteCh();
  }

  lemma CutsOne(s: Str)
    requires s == [0xf4, 0x90, 0x80, 0x80]
    ensures Step(s, 0) == 4 && Steps(s, 0) == 1 && CutSize(s, 0) == 1 && Steps(Without(s, 0, 1), 0) == 3
  {
    assert Continued(s, 0, 4);
    BitsOf(s, 0, 4);
    assert Bits4(0xf4, 0x90, 0x80, 0x80) == 0x110000;
    assert Char(s, 0) == 0x110000;
    assert |Raw(0x110000)| == 1;
    assert Steps(s, 4) == 0;
    assert Without(s, 0, 1) == [0x90, 0x80, 0x80];
    StepsContinued([0x90, 0x80, 0x80], 0, 3);
  }
}
