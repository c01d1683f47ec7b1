/** UTF-8 on NUL-terminated strings (src/common/uchar.c).  A string is the bytes before its NUL; bit fields of a byte or
    of a code point are written as division and remainder by powers of two. */
module Utf8 {
  import opened Common

  type Str = s: seq<Byte> | forall i :: 0 <= i < |s| ==> s[i] != 0

  const MAX_CODE: nat := 0x10ffff
  const U_INVALID_MASK: nat := 0x1000_0000

  /** len_tab: the length a first byte announces, 0 for a continuation byte, -1 for a byte that is never valid. */
  function Len(b: Byte): int {
    if b < 128 then 1 else if b < 192 then 0 else if b < 224 then 2 else if b < 240 then 3 else if b < 245 then 4
    else -1
  }

  /** Reading one place past the end finds the NUL. */
  function At(s: Str, i: nat): Byte { if i < |s| then s[i] else 0 }

  /** The bytes after `i`, `n` of them with `i` itself, are continuation bytes. */
  predicate Continued(s: Str, i: nat, n: int) { forall j :: i < j < i + n ==> Len(At(s, j)) == 0 }

  /** How far u_get_char goes from `i`: a whole sequence, or one byte that starts none. */
  function Step(s: Str, i: nat): (n: nat)
    requires i < |s|
    ensures 1 <= n <= 4 && i + n <= |s|
  {
    var l := Len(s[i]);
    if l > 1 && Continued(s, i, l) then
      assert Len(At(s, i + l - 1)) == 0;
      l
    else 1
  }

  /** The boundaries are the places reached from the start by steps. */
  predicate Reaches(s: Str, from: nat, i: nat)
    decreases |s| - from
  { from == i || (from < i <= |s| && Reaches(s, from + Step(s, from), i)) }

  predicate Boundary(s: Str, i: nat) { Reaches(s, 0, i) }

  function Steps(s: Str, i: nat): nat
    requires i <= |s|
    decreases |s| - i
  { if i == |s| then 0 else 1 + Steps(s, i + Step(s, i)) }

  /** The bits of the first `n` bytes of a sequence of length `l`. */
  function Bits(s: Str, i: nat, l: nat, n: nat): nat
    requires i < |s| && 1 < l <= 4 && 0 < n
  {
    if n == 1 then s[i] % (if l == 2 then 32 else if l == 3 then 16 else 8)
    else Bits(s, i, l, n - 1) * 64 + At(s, i + n - 1) % 64
  }

  /** What u_get_char returns. */
  function Char(s: Str, i: nat): nat
    requires i < |s|
  {
    var l := Len(s[i]);
    if l == 1 then s[i] else if l > 1 && Continued(s, i, l) then Bits(s, i, l, l) else U_INVALID_MASK + s[i]
  }

  // ---- stepping back ----

  /** The last boundary before `b` is the place whose step leads to `b`. */
  lemma {:induction false} LastStep(s: Str, from: nat, b: nat) returns (p: nat)
    requires from < b <= |s| && Reaches(s, from, b)
    ensures from <= p < b && Reaches(s, from, p) && p + Step(s, p) == b
    decreases b - from
  {
    var next := from + Step(s, from);
    if next == b { p := from; } else { p := LastStep(s, next, b); }
  }

  /** No step of another place leads to `b`, nor does any pass over a byte that is not a continuation byte. */
  lemma {:induction false} NoBoundaryInside(s: Str, from: nat, p: nat, i: nat)
    requires p < |s| && Reaches(s, from, p) && p < i < p + Step(s, p)
    ensures !Reaches(s, from, i)
    decreases p - from
  {
    if from >= p {
    } else {
      NoBoundaryInside(s, from + Step(s, from), p, i);
    }
  }

  lemma {:induction false} FirstByteBoundary(s: Str, from: nat, i: nat)
    requires from <= i <= |s| && Len(At(s, i)) != 0
    ensures Reaches(s, from, i)
    decreases i - from
  {
    if from == i {
    } else {
      var n := Step(s, from);
      assert n > 1 ==> Len(At(s, i)) == 0 || i >= from + n;
      FirstByteBoundary(s, from + n, i);
    }
  }

  /** What u_prev_char_pos finds: a first byte whose announced length is exactly its distance, else one byte back. */
  predicate Fits(s: Str, b: nat, c: nat)
    requires b <= |s|
  { 1 < c <= 4 && c <= b && Len(s[b - c]) == c && Continued(s, b - c, c) }

  lemma PrevIs(s: Str, b: nat, p: nat, c: nat)
    requires 0 < b <= |s| && Boundary(s, b) && p < b && Boundary(s, p) && p + Step(s, p) == b
    requires Fits(s, b, c)
    ensures p == b - c
  {
    FirstByteBoundary(s, 0, b - c);
    if p < b - c { NoBoundaryInside(s, 0, p, b - c); }
    if b - c < p { NoBoundaryInside(s, 0, b - c, p); }
  }

  lemma PrevOne(s: Str, b: nat, p: nat)
    requires 0 < b <= |s| && p < b && p + Step(s, p) == b && forall c :: !Fits(s, b, c)
    ensures p == b - 1
  {
    if p < b - 1 { assert Fits(s, b, Step(s, p)); }
  }

  /** u_prev_char_pos: from any boundary, of any string, back to the boundary before it. */
  method PrevCharPos(s: Str, idx: nat) returns (p: nat)
    requires 0 < idx <= |s| && Boundary(s, idx)
    ensures p < idx && Boundary(s, p) && p + Step(s, p) == idx
  {
    ghost var last := LastStep(s, 0, idx);
    p := PrevPlace(s, idx);
    if p < idx - 1 { PrevIs(s, idx, last, idx - p); } else if forall c :: !Fits(s, idx, c) { PrevOne(s, idx, last); }
  }

  /** Nothing fits when the bytes before `b` were looked at up to distance `c`. */
  lemma NoneFit(s: Str, b: nat, c: nat)
    requires 1 <= c <= 4 && c <= b <= |s| && forall j :: b - c < j < b ==> Len(At(s, j)) == 0
    requires c == b || c == 4 || Len(s[b - c]) != 0
    requires Len(s[b - c]) != c || c == 1
    ensures forall k :: !Fits(s, b, k)
  {
    forall k: nat ensures !Fits(s, b, k) {
      if k < c { assert 0 < k ==> Len(At(s, b - k)) == 0; }
      if c < k <= b { assert Len(At(s, b - c)) == 0 || !Continued(s, b - k, k); }
    }
  }

  method PrevPlace(s: Str, idx: nat) returns (p: nat)
    requires 0 < idx <= |s|
    ensures p < idx && (p == idx - 1 ==> forall c :: !Fits(s, idx, c)) && (p < idx - 1 ==> Fits(s, idx, idx - p))
  {
    var i, len := idx - 1, Len(s[idx - 1]);
    if len != 0 {
      assert forall c :: Fits(s, idx, c) ==> Len(At(s, idx - 1)) == 0;
      return idx - 1;
    }
    var c := 1;
    while true
      invariant c == idx - i && 1 <= c < 4
      invariant forall j :: i <= j < idx ==> Len(At(s, j)) == 0
      decreases i
    {
      if i == 0 {
        assert Len(At(s, i)) == 0;
        NoneFit(s, idx, c);
        break;
      }
      i := i - 1;
      len := Len(s[i]);
      c := c + 1;
      if len == 0 {
        if c < 4 { continue; }
        NoneFit(s, idx, c);
        break;
      }
      if len != c {
        NoneFit(s, idx, c);
        break;
      }
      return i;
    }
    return idx - 1;
  }

  // ---- reading ----

  method GetChar(s: Str, idx: nat) returns (u: nat, next: nat)
    requires idx < |s|
    ensures u == Char(s, idx) && next == idx + Step(s, idx)
  {
    var ch := s[idx];
    if ch < 128 { return ch, idx + 1; }
    var len := Len(ch);
    if len < 1 { return U_INVALID_MASK + ch, idx + 1; }
    u := ch % (if len == 2 then 32 else if len == 3 then 16 else 8);
    var i := 1;
    while i < len
      invariant 1 <= i <= len && Continued(s, idx, i) && u == Bits(s, idx, len, i)
    {
      ch := At(s, idx + i);
      if Len(ch) != 0 { return U_INVALID_MASK + s[idx], idx + 1; }
      u := u * 64 + ch % 64;
      i := i + 1;
    }
    next := idx + len;
  }

  /** u_strlen_safe counts the steps. */
  method StrLenSafe(s: Str) returns (len: nat)
    ensures len == Steps(s, 0)
  {
    var i := 0;
    len := 0;
    while i < |s|
      invariant i <= |s| && len + Steps(s, i) == Steps(s, 0)
    {
      var l := Len(s[i]);
      var whole := false;
      if l > 1 {
        var c := 1;
        while c < l && Len(At(s, i + c)) == 0
          invariant 1 <= c <= l && Continued(s, i, c)
        {
          c := c + 1;
        }
        whole := c == l;
      }
      i := i + if whole then l else 1;
      len := len + 1;
    }
  }

  // ---- encoding ----

  /** The shortest form of a code point, surrogates included. */
  function Encode(u: nat): (r: seq<Byte>)
    requires u <= MAX_CODE
    ensures 1 <= |r| <= 4
  {
    if u <= 0x7f then [u]
    else if u <= 0x7ff then [0xc0 + u / 64, 0x80 + u % 64]
    else if u <= 0xffff then [0xe0 + u / 64 / 64, 0x80 + u / 64 % 64, 0x80 + u % 64]
    else [0xf0 + u / 64 / 64 / 64, 0x80 + u / 64 / 64 % 64, 0x80 + u / 64 % 64, 0x80 + u % 64]
  }

  type Code = u: int | 0 < u <= MAX_CODE witness 1

  function EncodeAll(us: seq<Code>): seq<Byte> {
    if us == [] then [] else Encode(us[0]) + EncodeAll(us[1..])
  }

  lemma EncodeNoNul(u: Code)
    ensures forall i :: 0 <= i < |Encode(u)| ==> Encode(u)[i] != 0
    ensures Len(Encode(u)[0]) == |Encode(u)| && forall i :: 0 < i < |Encode(u)| ==> Len(Encode(u)[i]) == 0
  {
  }

  lemma {:induction false} EncodeAllNoNul(us: seq<Code>)
    ensures forall i :: 0 <= i < |EncodeAll(us)| ==> EncodeAll(us)[i] != 0
  {
    if us == [] {
    } else {
      EncodeNoNul(us[0]);
      EncodeAllNoNul(us[1..]);
    }
  }

  /** Code point `u` is written at place `i`. */
  predicate Written(s: Str, i: nat, u: Code) { i + |Encode(u)| <= |s| && s[i..i + |Encode(u)|] == Encode(u) }

  lemma SixBits(u: nat)
    ensures u == u / 64 * 64 + u % 64 && (0x80 + u % 64) % 64 == u % 64
  {
  }

  /** Reading what was written: the code point comes back and the whole of it is passed. */
  lemma {:induction false} ReadsBack(s: Str, i: nat, u: Code)
    requires Written(s, i, u)
    ensures i < |s| && Char(s, i) == u && Step(s, i) == |Encode(u)|
  {
    var e, l := Encode(u), |Encode(u)|;
    EncodeNoNul(u);
    var t := s[i..i + l];
    assert t[0] == s[i];
    forall j | i < j < i + l ensures Len(At(s, j)) == 0 { assert t[j - i] == s[j] && e[j - i] == s[j]; }
    if l > 1 { BitsBack(s, i, u, l); }
  }

  /** The value of the bits of two, three or four bytes. */
  function Bits2(a: int, b: int): int { a % 32 * 64 + b % 64 }
  function Bits3(a: int, b: int, c: int): int { (a % 16 * 64 + b % 64) * 64 + c % 64 }
  function Bits4(a: int, b: int, c: int, d: int): int { ((a % 8 * 64 + b % 64) * 64 + c % 64) * 64 + d % 64 }

  lemma BitsOf(s: Str, i: nat, l: nat)
    requires 1 < l <= 4 && i + l <= |s|
    ensures l == 2 ==> Bits(s, i, l, l) == Bits2(s[i], s[i + 1])
    ensures l == 3 ==> Bits(s, i, l, l) == Bits3(s[i], s[i + 1], s[i + 2])
    ensures l == 4 ==> Bits(s, i, l, l) == Bits4(s[i], s[i + 1], s[i + 2], s[i + 3])
  {
    assert Bits(s, i, l, 2) == Bits(s, i, l, 1) * 64 + s[i + 1] % 64;
    if l >= 3 { assert Bits(s, i, l, 3) == Bits(s, i, l, 2) * 64 + s[i + 2] % 64; }
  }

  lemma Join64(v: nat, w: nat)
    requires w < 64
    ensures (v * 64 + w) / 64 == v && (v * 64 + w) % 64 == w
  {
  }

  lemma FirstBits(q: nat)
    ensures q < 32 ==> (0xc0 + q) % 32 == q
    ensures q < 16 ==> (0xe0 + q) % 16 == q
    ensures q < 8 ==> (0xf0 + q) % 8 == q
    ensures q < 64 ==> (0x80 + q) % 64 == q
  {
  }

  lemma EncodedBits(u: Code)
    ensures var e := Encode(u);
            && (|e| == 2 ==> Bits2(e[0], e[1]) == u)
            && (|e| == 3 ==> Bits3(e[0], e[1], e[2]) == u)
            && (|e| == 4 ==> Bits4(e[0], e[1], e[2], e[3]) == u)
  {
    var v := u / 64;
    var w := v / 64;
    SixBits(u);
    SixBits(v);
    SixBits(w);
    if u > 0xffff { FirstBits(w / 64); } else if u > 0x7ff { FirstBits(w); } else if u > 0x7f { FirstBits(v); }
  }

  lemma BitsBack(s: Str, i: nat, u: Code, l: nat)
    requires l == |Encode(u)| > 1 && i + l <= |s| && s[i..i + l] == Encode(u)
    ensures Bits(s, i, l, l) == u
  {
    BitsOf(s, i, l);
    EncodedBits(u);
    var t := s[i..i + l];
    assert t[0] == s[i] && t[1] == s[i + 1];
    if l >= 3 { assert t[2] == s[i + 2]; }
    if l == 4 { assert t[3] == s[i + 3]; }
  }

  function MinOf(l: nat): nat { if l == 1 then 0 else if l == 2 then 0x80 else if l == 3 then 0x800 else 0x10000 }
  function MaxOf(l: nat): nat { if l == 1 then 0x7f else if l == 2 then 0x7ff else if l == 3 then 0xffff else MAX_CODE }

  /** At `i` stands a sequence that u_is_valid passes. */
  predicate Shortest(s: Str, i: nat)
    requires i < |s|
  {
    var l := Len(s[i]);
    l == 1 || (l > 1 && Continued(s, i, l) && MinOf(l) <= Bits(s, i, l, l) <= MaxOf(l))
  }

  /** Those are the shortest forms. */
  lemma {:induction false} ShortestIsWritten(s: Str, i: nat)
    requires i < |s| && Shortest(s, i)
    ensures 0 < Char(s, i) <= MAX_CODE && Written(s, i, Char(s, i))
  {
    var l := Len(s[i]);
    if l == 1 {
      assert s[i..i + 1] == [s[i]];
    } else {
      assert Len(At(s, i + l - 1)) == 0;
      assert Len(At(s, i + 1)) == 0;
      WrittenBits(s, i, l);
    }
  }

  lemma WrittenBits(s: Str, i: nat, l: nat)
    requires 1 < l <= 4 && i + l <= |s| && l == Len(s[i]) && Continued(s, i, l)
             && MinOf(l) <= Bits(s, i, l, l) <= MaxOf(l)
    ensures 0 < Bits(s, i, l, l) <= MAX_CODE && s[i..i + l] == Encode(Bits(s, i, l, l))
  {
    BitsOf(s, i, l);
    assert Len(At(s, i + 1)) == 0;
    if l == 2 {
      Encodes2(s[i], s[i + 1]);
    } else if l == 3 {
      assert Len(At(s, i + 2)) == 0;
      Encodes3(s[i], s[i + 1], s[i + 2]);
    } else {
      assert Len(At(s, i + 2)) == 0 && Len(At(s, i + 3)) == 0;
      Encodes4(s[i], s[i + 1], s[i + 2], s[i + 3]);
    }
  }

  lemma Encodes2(a: Byte, b: Byte)
    requires 192 <= a < 224 && 128 <= b < 192 && 0x80 <= Bits2(a, b) <= 0x7ff
    ensures Encode(Bits2(a, b)) == [a, b]
  {
    FirstBits(a - 0xc0);
    FirstBits(b - 0x80);
    Join64(a - 0xc0, b - 0x80);
    var u := Bits2(a, b);
    assert u == (a - 0xc0) * 64 + (b - 0x80);
    assert u / 64 == a - 0xc0 && u % 64 == b - 0x80;
  }

  lemma Encodes3(a: Byte, b: Byte, c: Byte)
    requires 224 <= a < 240 && 128 <= b < 192 && 128 <= c < 192 && 0x800 <= Bits3(a, b, c) <= 0xffff
    ensures Encode(Bits3(a, b, c)) == [a, b, c]
  {
    FirstBits(a - 0xe0);
    FirstBits(b - 0x80);
    FirstBits(c - 0x80);
    var v := (a - 0xe0) * 64 + (b - 0x80);
    Join64(a - 0xe0, b - 0x80);
    Join64(v, c - 0x80);
  }

  lemma Encodes4(a: Byte, b: Byte, c: Byte, d: Byte)
    requires 240 <= a < 248 && 128 <= b < 192 && 128 <= c < 192 && 128 <= d < 192
             && 0x10000 <= Bits4(a, b, c, d) <= MAX_CODE
    ensures Encode(Bits4(a, b, c, d)) == [a, b, c, d]
  {
    FirstBits(a - 0xf0);
    FirstBits(b - 0x80);
    FirstBits(c - 0x80);
    FirstBits(d - 0x80);
    var w := (a - 0xf0) * 64 + (b - 0x80);
    var v := w * 64 + (c - 0x80);
    Join64(a - 0xf0, b - 0x80);
    Join64(w, c - 0x80);
    Join64(v, d - 0x80);
  }

  lemma WrittenShortest(s: Str, i: nat, u: Code)
    requires Written(s, i, u)
    ensures i < |s| && Shortest(s, i) && Len(s[i]) == |Encode(u)|
  {
    ReadsBack(s, i, u);
    EncodeNoNul(u);
    var t := s[i..i + |Encode(u)|];
    assert t[0] == s[i];
    if |t| > 1 { BitsBack(s, i, u, |t|); }
  }

  // ---- validity ----

  /** u_is_valid from place `i` on. */
  predicate ValidFrom(s: Str, i: nat)
    decreases |s| - i
  { i == |s| || (i < |s| && Shortest(s, i) && ValidFrom(s, i + Step(s, i))) }

  function Decoded(s: Str, i: nat): (us: seq<Code>)
    requires ValidFrom(s, i)
    decreases |s| - i
  {
    if i == |s| then [] else
      ShortestIsWritten(s, i);
      [Char(s, i)] + Decoded(s, i + Step(s, i))
  }

  lemma SliceCons(s: Str, i: nat, n: nat, a: seq<Byte>, b: seq<Byte>)
    requires i + n <= |s| && s[i..i + n] == a && s[i + n..] == b
    ensures s[i..] == a + b
  {
  }

  lemma SliceSplit(s: Str, i: nat, a: seq<Byte>, b: seq<Byte>)
    requires i <= |s| && s[i..] == a + b
    ensures i + |a| <= |s| && s[i..i + |a|] == a && s[i + |a|..] == b
  {
    assert s[i..][..|a|] == a && s[i..][|a|..] == b;
  }

  lemma ReadsFront(s: Str, i: nat, u: Code, rest: seq<Byte>)
    requires i <= |s| && s[i..] == Encode(u) + rest
    ensures i < |s| && Char(s, i) == u && Step(s, i) == |Encode(u)|
  {
    SliceSplit(s, i, Encode(u), rest);
    ReadsBack(s, i, u);
  }

  /** Encoding what was decoded gives the string back. */
  lemma {:induction false} EncodeDecoded(s: Str, i: nat)
    requires ValidFrom(s, i)
    ensures i <= |s| && s[i..] == EncodeAll(Decoded(s, i))
    decreases |s| - i
  {
    if i < |s| {
      ShortestIsWritten(s, i);
      var u, us := Char(s, i), Decoded(s, i);
      ReadsBack(s, i, u);
      EncodeDecoded(s, i + Step(s, i));
      assert us[1..] == Decoded(s, i + Step(s, i));
      SliceCons(s, i, Step(s, i), Encode(u), EncodeAll(us[1..]));
    }
  }

  /** Decoding what was encoded gives the code points back, and every one of them is a step. */
  lemma {:induction false} DecodeEncoded(s: Str, i: nat, us: seq<Code>)
    requires i <= |s| && s[i..] == EncodeAll(us)
    ensures ValidFrom(s, i) && Decoded(s, i) == us && Steps(s, i) == |us|
    decreases |us|
  {
    if us != [] {
      var u, vs := us[0], us[1..];
      var n := |Encode(u)|;
      SliceSplit(s, i, Encode(u), EncodeAll(vs));
      ReadsBack(s, i, u);
      WrittenShortest(s, i, u);
      DecodeEncoded(s, i + n, vs);
      assert us == [u] + vs;
    }
  }

  /** Exactly the concatenations of shortest forms are valid. */
  lemma ValidIffEncoded(s: Str)
    ensures ValidFrom(s, 0) <==> exists us :: s == EncodeAll(us)
  {
    assert s[0..] == s;
    if ValidFrom(s, 0) { EncodeDecoded(s, 0); }
    if us :| s == EncodeAll(us) { DecodeEncoded(s, 0, us); }
  }

  /** u_is_valid. */
  method IsValid(s: Str) returns (valid: bool)
    ensures valid <==> exists us :: s == EncodeAll(us)
  {
    ValidIffEncoded(s);
    var i := 0;
    while i < |s|
      invariant i <= |s| && (ValidFrom(s, 0) <==> ValidFrom(s, i))
    {
      var start, ch := i, s[i];
      i := i + 1;
      var len := Len(ch);
      if len <= 0 { return false; }
      if len > 1 {
        var ok;
        ok, i := CheckSequence(s, start, len);
        if !ok { return false; }
      }
    }
    return true;
  }

  /** The continuation bytes of a sequence and its range. */
  method CheckSequence(s: Str, start: nat, len: nat) returns (ok: bool, i: nat)
    requires start < |s| && len == Len(s[start]) > 1
    ensures ok <==> Shortest(s, start)
    ensures ok ==> i == start + Step(s, start)
  {
    i := start + 1;
    var u := s[start] % (if len == 2 then 32 else if len == 3 then 16 else 8);
    while i < start + len
      invariant start < i <= start + len && Continued(s, start, i - start) && u == Bits(s, start, len, i - start)
    {
      var ch := At(s, i);
      if Len(ch) != 0 { return false, i; }
      u := u * 64 + ch % 64;
      i := i + 1;
    }
    ok := MinOf(len) <= u <= MaxOf(len);
  }

  /** What u_set_char_raw writes: the shortest form, or for an invalid character its one byte. */
  function Raw(u: nat): seq<Byte> { if u <= MAX_CODE then Encode(u) else [u % 256] }

  /** Writing what was read gives the bytes back, for a single byte of any kind and for a shortest form. */
  lemma WritesBack(s: Str, i: nat)
    requires i < |s| && (Step(s, i) == 1 || Shortest(s, i))
    ensures Raw(Char(s, i)) == s[i..i + Step(s, i)]
  {
    if Shortest(s, i) {
      ShortestIsWritten(s, i);
    } else {
      assert s[i..i + 1] == [s[i]];
      if Len(s[i]) != 1 { assert Char(s, i) == U_INVALID_MASK + s[i]; }
    }
  }

  /** The table of lengths: continuation bytes are those a code point has after its first byte; a first byte of three or
      four is that of a code point as long; no code point starts with a byte of length -1. */
  lemma LenMeans(b: Byte)
    ensures b != 0 ==> (Len(b) == 1 <==> exists u: Code :: Encode(u) == [b])
    ensures Len(b) == 0 <==> exists u: Code, k :: LaterByte(u, k, b)
    ensures Len(b) == 3 <==> exists u: Code :: |Encode(u)| == 3 && Encode(u)[0] == b
    ensures Len(b) == 4 <==> exists u: Code :: |Encode(u)| == 4 && Encode(u)[0] == b
    ensures Len(b) == -1 ==> forall u: Code, k :: 0 <= k < |Encode(u)| ==> Encode(u)[k] != b
  {
    forall u: Code ensures Len(Encode(u)[0]) == |Encode(u)| && forall k :: 0 < k < |Encode(u)| ==>
      Len(Encode(u)[k]) == 0 {
      EncodeNoNul(u);
    }
    if Len(b) == 1 && b != 0 {
      assert Encode(b) == [b];
    } else if Len(b) == 0 {
      LaterExample(b);
    } else if Len(b) == 3 || Len(b) == 4 {
      FirstExample(b);
    }
  }

  predicate LaterByte(u: Code, k: int, b: Byte) { 0 < k < |Encode(u)| && Encode(u)[k] == b }

  lemma LaterExample(b: Byte)
    requires Len(b) == 0
    ensures exists u: Code, k :: LaterByte(u, k, b)
  {
    var u := 128 + b % 64;
    assert LaterByte(u, 1, b);
  }

  lemma FirstExample(b: Byte)
    requires Len(b) == 3 || Len(b) == 4
    ensures exists u: Code :: |Encode(u)| == Len(b) && Encode(u)[0] == b
  {
    if Len(b) == 3 {
      var u := if b == 224 then 0x800 else (b - 224) * 4096;
      assert Encode(u)[0] == b;
    } else {
      var u := if b == 240 then 0x10000 else (b - 240) * 0x40000;
      assert Encode(u)[0] == b;
    }
  }

  /** u_set_char_raw. */
  method SetCharRaw(str: seq<Byte>, idx: nat, u: nat) returns (str': seq<Byte>, next: nat)
    requires idx + |Raw(u)| <= |str|
    ensures next == idx + |Raw(u)| && str' == str[..idx] + Raw(u) + str[next..]
  {
    var uch, i := u, idx;
    str' := str;
    if uch <= 0x7f {
      str' := str'[i := uch];
      next := i + 1;
    } else if uch <= 0x7ff {
      str' := str'[i + 1 := 0x80 + uch % 64];
      uch := uch / 64;
      str' := str'[i := 0xc0 + uch];
      next := i + 2;
    } else if uch <= 0xffff {
      str' := str'[i + 2 := 0x80 + uch % 64];
      uch := uch / 64;
      str' := str'[i + 1 := 0x80 + uch % 64];
      uch := uch / 64;
      str' := str'[i := 0xe0 + uch];
      next := i + 3;
    } else if uch <= MAX_CODE {
      str' := str'[i + 3 := 0x80 + uch % 64];
      uch := uch / 64;
      str' := str'[i + 2 := 0x80 + uch % 64];
      uch := uch / 64;
      str' := str'[i + 1 := 0x80 + uch % 64];
      uch := uch / 64;
      str' := str'[i := 0xf0 + uch];
      next := i + 4;
    } else {
      str' := str'[i := uch % 256];
      next := i + 1;
    }
  }
}
