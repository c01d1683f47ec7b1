/** The track cache file (src/library/cache.c): written track by track in filename order, read back entry by entry.
    Numbers are little-endian, as on the usual 64-bit host. */
module Cache {
  import opened Common

  type Str = seq<int>

  const ENTRY_SIZE: nat := 80
  const RESERVED: nat := 52
  const HEADER: seq<int> := [67, 84, 67, 0x0d, 0, 0, 0, 1]

  datatype Info = Info(filename: Str, codec: Option<Str>, profile: Option<Str>, comments: seq<(Str, Str)>,
                       duration: int, bitrate: int, mtime: int, playCount: int, bpm: int)

  // ---- numbers ----

  const TWO32: int := 0x1_0000_0000
  const TWO64: int := 0x1_0000_0000_0000_0000

  /** The four bytes of a 32-bit number and back. */
  function Bytes4(n: int): seq<int> { [n % 256, n / 256 % 256, n / 256 / 256 % 256, n / 256 / 256 / 256] }

  function Number(b: seq<int>, at: nat): int
    requires at + 4 <= |b|
  { b[at] + 256 * (b[at + 1] + 256 * (b[at + 2] + 256 * b[at + 3])) }

  lemma NumberBack(n: int, b: seq<int>, at: nat)
    requires at + 4 <= |b| && b[at..at + 4] == Bytes4(n)
    ensures Number(b, at) == n
  {
    var s := b[at..at + 4];
    assert s[0] == b[at] && s[1] == b[at + 1] && s[2] == b[at + 2] && s[3] == b[at + 3];
    var q := n / 256;
    var p := q / 256;
    assert n == 256 * q + n % 256 && q == 256 * p + q % 256 && p == 256 * (p / 256) + p % 256;
    assert s[3] == p / 256 && s[2] == p % 256;
  }

  function Field32(v: int): seq<int> { Bytes4(if v < 0 then v + TWO32 else v) }

  function Field64(v: int): seq<int> {
    var n := if v < 0 then v + TWO64 else v;
    Bytes4(n % TWO32) + Bytes4(n / TWO32)
  }

  function Signed32(b: seq<int>, at: nat): int
    requires at + 4 <= |b|
  { var n := Number(b, at); if 2 * n >= TWO32 then n - TWO32 else n }

  function Signed64(b: seq<int>, at: nat): int
    requires at + 8 <= |b|
  { var n := Number(b, at) + TWO32 * Number(b, at + 4); if 2 * n >= TWO64 then n - TWO64 else n }

  /** Signed numbers of 32 and of 64 bits. */
  predicate Is32(v: int) { -TWO32 <= 2 * v < TWO32 }
  predicate Is64(v: int) { -TWO64 <= 2 * v < TWO64 }

  lemma Field32Back(v: int, b: seq<int>, at: nat)
    requires Is32(v) && at + 4 <= |b| && b[at..at + 4] == Field32(v)
    ensures Signed32(b, at) == v
  {
    NumberBack(if v < 0 then v + TWO32 else v, b, at);
  }

  lemma Field64Back(v: int, b: seq<int>, at: nat)
    requires Is64(v) && at + 8 <= |b| && b[at..at + 8] == Field64(v)
    ensures Signed64(b, at) == v
  {
    var n := if v < 0 then v + TWO64 else v;
    var s, lo, hi := b[at..at + 8], Bytes4(n % TWO32), Bytes4(n / TWO32);
    assert s[..4] == lo && s[4..] == hi;
    assert b[at..at + 4] == s[..4] && b[at + 4..at + 4 + 4] == s[4..];
    NumberBack(n % TWO32, b, at);
    NumberBack(n / TWO32, b, at + 4);
  }

  // ---- strings ----

  /** Strings one after the other, each with its NUL. */
  function Joined(ss: seq<Str>): seq<int> { if ss == [] then [] else (ss[0] + [0]) + Joined(ss[1..]) }

  /** The strings in a block, each up to its NUL. */
  function Split(b: seq<int>): seq<Str> {
    if b == [] then []
    else if b[0] == 0 then [[]] + Split(b[1..])
    else Prefixed(b[0], Split(b[1..]))
  }

  function Prefixed(c: int, ss: seq<Str>): seq<Str> { if ss == [] then [] else [[c] + ss[0]] + ss[1..] }

  function Nuls(b: seq<int>): nat { if b == [] then 0 else (if b[0] == 0 then 1 else 0) + Nuls(b[1..]) }

  predicate NoNul(s: Str) { s == [] || (s[0] != 0 && NoNul(s[1..])) }

  predicate NoNuls(ss: seq<Str>) { ss == [] || (NoNul(ss[0]) && NoNuls(ss[1..])) }

  lemma {:induction false} SplitOne(s: Str, b: seq<int>)
    requires NoNul(s)
    ensures Split((s + [0]) + b) == [s] + Split(b) && Nuls((s + [0]) + b) == 1 + Nuls(b)
  {
    var all := (s + [0]) + b;
    if s == [] {
      assert all[1..] == b;
    } else {
      assert all[1..] == (s[1..] + [0]) + b;
      SplitOne(s[1..], b);
      assert [s[0]] + s[1..] == s;
      assert ([s[1..]] + Split(b))[1..] == Split(b);
    }
  }

  lemma {:induction false} SplitJoined(ss: seq<Str>)
    requires NoNuls(ss)
    ensures Split(Joined(ss)) == ss && Nuls(Joined(ss)) == |ss|
    ensures ss != [] ==> Joined(ss) != [] && Joined(ss)[|Joined(ss)| - 1] == 0
  {
    if ss == [] {
    } else {
      SplitOne(ss[0], Joined(ss[1..]));
      SplitJoined(ss[1..]);
    }
  }

  /** A block that ends with a NUL is the strings it splits into. */
  lemma {:induction false} JoinedSplit(b: seq<int>)
    requires b != [] ==> b[|b| - 1] == 0
    ensures Joined(Split(b)) == b && |Split(b)| == Nuls(b)
  {
    if b == [] {
    } else {
      JoinedSplit(b[1..]);
      var ss := Split(b[1..]);
      if b[0] == 0 {
        assert ([[]] + ss)[1..] == ss && b == ([] + [0]) + b[1..];
      } else {
        assert ss != [] by { assert |b| > 1; }
        var r := Prefixed(b[0], ss);
        assert r[1..] == ss[1..];
        assert b == (r[0] + [0]) + Joined(r[1..]);
      }
    }
  }

  // ---- an entry ----

  function Text(o: Option<Str>): Str { match o case None => [] case Some(s) => s }

  /** The reader knows an empty codec only as no codec. */
  function Known(s: Str): Option<Str> { if s == [] then None else Some(s) }

  function Flat(cs: seq<(Str, Str)>): seq<Str> { if cs == [] then [] else [cs[0].0, cs[0].1] + Flat(cs[1..]) }

  function Pairs(ss: seq<Str>): seq<(Str, Str)>
    decreases |ss|
  { if |ss| < 2 then [] else [(ss[0], ss[1])] + Pairs(ss[2..]) }

  lemma {:induction false} PairsFlat(cs: seq<(Str, Str)>)
    ensures Pairs(Flat(cs)) == cs && |Flat(cs)| == 2 * |cs|
  {
    if cs == [] {
    } else {
      PairsFlat(cs[1..]);
      assert Flat(cs)[2..] == Flat(cs[1..]);
    }
  }

  function Strings(ti: Info): seq<Str> { [ti.filename, Text(ti.codec), Text(ti.profile)] + Flat(ti.comments) }

  function Filled(b: int, n: nat): (r: seq<int>)
    ensures |r| == n
  { if n == 0 then [] else [b] + Filled(b, n - 1) }

  function EntrySize(ti: Info): nat { ENTRY_SIZE + |Joined(Strings(ti))| }

  /** A track the format can hold: strings without NUL, numbers of their width, and not too long. */
  predicate Fits(ti: Info) {
    && NoNuls(Strings(ti)) && EntrySize(ti) < TWO32
    && Is32(ti.playCount) && Is64(ti.mtime) && Is32(ti.duration) && Is32(ti.bitrate) && Is32(ti.bpm)
  }

  /** struct cache_entry up to its strings. */
  function Fixed(ti: Info): seq<int> {
    Bytes4(EntrySize(ti)) + Field32(ti.playCount) + Field64(ti.mtime) + Field32(ti.duration) + Field32(ti.bitrate)
    + Field32(ti.bpm) + Filled(0xff, RESERVED)
  }

  function Entry(ti: Info): seq<int> { Fixed(ti) + Joined(Strings(ti)) }

  /** The strings of the entry at `off`. */
  function Block(b: seq<int>, off: nat): seq<int>
    requires off + ENTRY_SIZE <= |b| && ENTRY_SIZE <= Number(b, off) <= |b| - off
  { b[off + ENTRY_SIZE..off + Number(b, off)] }

  predicate GoodBlock(block: seq<int>) { Nuls(block) % 2 == 1 && block != [] && block[|block| - 1] == 0 }

  /** valid_cache_entry. */
  predicate ValidEntry(b: seq<int>, off: nat)
    requires off <= |b|
  { ENTRY_SIZE <= |b| - off && ENTRY_SIZE <= Number(b, off) <= |b| - off && GoodBlock(Block(b, off)) }

  /** A track from its strings and the fixed part of its entry. */
  function InfoOf(ss: seq<Str>, b: seq<int>, off: nat): Info
    requires |ss| >= 3 && off + ENTRY_SIZE <= |b|
  {
    Info(ss[0], Known(ss[1]), Known(ss[2]), Pairs(ss[3..]), Signed32(b, off + 16), Signed32(b, off + 20),
         Signed64(b, off + 8), Signed32(b, off + 4), Signed32(b, off + 24))
  }

  /** cache_entry_to_ti. */
  function EntryInfo(b: seq<int>, off: nat): Info
    requires off <= |b| && ValidEntry(b, off) && |Split(Block(b, off))| >= 3
  { InfoOf(Split(Block(b, off)), b, off) }

  /** What comes back of a track. */
  function Stored(ti: Info): Info { ti.(codec := Known(Text(ti.codec)), profile := Known(Text(ti.profile))) }

  /** `r` is `ti`, but that an empty codec or profile has become none. */
  predicate SameTrack(r: Info, ti: Info) {
    && r.filename == ti.filename && r.comments == ti.comments
    && r.codec == (if ti.codec == Some([]) then None else ti.codec)
    && r.profile == (if ti.profile == Some([]) then None else ti.profile)
    && r.duration == ti.duration && r.bitrate == ti.bitrate && r.mtime == ti.mtime && r.playCount == ti.playCount
    && r.bpm == ti.bpm
  }

  /** Codec and profile are absent or say something, as the decoders leave them. */
  predicate Plain(ti: Info) { ti.codec != Some([]) && ti.profile != Some([]) }

  lemma StoredSame(ti: Info)
    ensures SameTrack(Stored(ti), ti) && (Plain(ti) <==> Stored(ti) == ti)
  {
  }

  predicate AllSame(rs: seq<Info>, tis: seq<Info>) {
    |rs| == |tis| && forall i :: 0 <= i < |tis| ==> SameTrack(rs[i], tis[i])
  }

  lemma {:induction false} StoredAllSame(tis: seq<Info>)
    ensures AllSame(StoredAll(tis), tis)
    ensures (forall i :: 0 <= i < |tis| ==> Plain(tis[i])) ==> StoredAll(tis) == tis
  {
    if tis == [] {
    } else {
      StoredSame(tis[0]);
      StoredAllSame(tis[1..]);
      assert tis == [tis[0]] + tis[1..];
    }
  }

  lemma Pieces(b: seq<int>, c: seq<int>, d: seq<int>, e: seq<int>, f: seq<int>, g: seq<int>, h: seq<int>, i: seq<int>)
    requires |b| == |c| == |e| == |f| == |g| == 4 && |d| == 8 && |h| == RESERVED
    ensures var s := (b + c + d + e + f + g + h) + i;
            && |s| == ENTRY_SIZE + |i| && s[0..4] == b && s[4..8] == c && s[8..16] == d && s[16..20] == e
            && s[20..24] == f
            && s[24..28] == g && s[28..ENTRY_SIZE] == h && s[ENTRY_SIZE..] == i
  {
  }

  /** The fixed part of an entry, read by itself. */
  lemma NumbersBack(ti: Info)
    requires Fits(ti)
    ensures var e := Entry(ti);
            && |e| == EntrySize(ti) == Number(e, 0) && e[ENTRY_SIZE..] == Joined(Strings(ti))
            && Signed32(e, 4) == ti.playCount && Signed64(e, 8) == ti.mtime && Signed32(e, 16) == ti.duration
            && Signed32(e, 20) == ti.bitrate && Signed32(e, 24) == ti.bpm
            && e[28..ENTRY_SIZE] == Filled(0xff, RESERVED)
  {
    var e := Entry(ti);
    Pieces(Bytes4(EntrySize(ti)), Field32(ti.playCount), Field64(ti.mtime), Field32(ti.duration), Field32(ti.bitrate),
           Field32(ti.bpm), Filled(0xff, RESERVED), Joined(Strings(ti)));
    FieldsBack(e, ti);
  }

  lemma FieldsBack(e: seq<int>, ti: Info)
    requires Fits(ti) && |e| >= ENTRY_SIZE && e[0..4] == Bytes4(EntrySize(ti)) && e[4..8] == Field32(ti.playCount)
    requires e[8..16] == Field64(ti.mtime) && e[16..20] == Field32(ti.duration) && e[20..24] == Field32(ti.bitrate)
    requires e[24..28] == Field32(ti.bpm)
    ensures Number(e, 0) == EntrySize(ti) && Signed32(e, 4) == ti.playCount && Signed64(e, 8) == ti.mtime
    ensures Signed32(e, 16) == ti.duration && Signed32(e, 20) == ti.bitrate && Signed32(e, 24) == ti.bpm
  {
    NumberBack(EntrySize(ti), e, 0);
    Field32Back(ti.playCount, e, 4);
    Field64Back(ti.mtime, e, 8);
    Field32Back(ti.duration, e, 16);
    Field32Back(ti.bitrate, e, 20);
    Field32Back(ti.bpm, e, 24);
  }

  /** The least significant byte of a number comes first. */
  lemma LittleEndian()
    ensures Bytes4(0x0a0b0c0d) == [0x0d, 0x0c, 0x0b, 0x0a] && Number([0x0d, 0x0c, 0x0b, 0x0a], 0) == 0x0a0b0c0d
  {
  }

  /** Read by itself, `e` is the entry of `ti`. */
  ghost predicate Readable(e: seq<int>, ti: Info) {
    && ENTRY_SIZE <= |e| == Number(e, 0) && GoodBlock(e[ENTRY_SIZE..]) && |Split(e[ENTRY_SIZE..])| >= 3
    && InfoOf(Split(e[ENTRY_SIZE..]), e, 0) == Stored(ti)
  }

  lemma EntryReads(ti: Info)
    requires Fits(ti)
    ensures Readable(Entry(ti), ti) && SameTrack(InfoOf(Split(Entry(ti)[ENTRY_SIZE..]), Entry(ti), 0), ti)
  {
    NumbersBack(ti);
    StringsBack(ti);
    Assemble(Entry(ti), ti, Strings(ti));
  }

  lemma Assemble(e: seq<int>, ti: Info, ss: seq<Str>)
    requires ENTRY_SIZE <= |e| == Number(e, 0) && GoodBlock(e[ENTRY_SIZE..]) && Split(e[ENTRY_SIZE..]) == ss
             && |ss| >= 3
    requires ss[0] == ti.filename && ss[1] == Text(ti.codec) && ss[2] == Text(ti.profile)
             && Pairs(ss[3..]) == ti.comments
    requires Signed32(e, 4) == ti.playCount && Signed64(e, 8) == ti.mtime && Signed32(e, 16) == ti.duration
    requires Signed32(e, 20) == ti.bitrate && Signed32(e, 24) == ti.bpm
    ensures Readable(e, ti)
  {
  }

  /** An entry reads the same wherever it stands. */
  lemma EntryShift(b: seq<int>, r: nat, e: seq<int>, ti: Info)
    requires r + |e| <= |b| && b[r..r + |e|] == e && Readable(e, ti)
    ensures ValidEntry(b, r) && Number(b, r) == |e| && |Split(Block(b, r))| >= 3 && EntryInfo(b, r) == Stored(ti)
  {
    SameBytes(b, r, e);
    assert b[r + ENTRY_SIZE..r + |e|] == b[r..r + |e|][ENTRY_SIZE..];
  }

  lemma SameBytes(b: seq<int>, r: nat, e: seq<int>)
    requires r + |e| <= |b| && b[r..r + |e|] == e && |e| >= ENTRY_SIZE
    ensures Number(b, r) == Number(e, 0) && Signed32(b, r + 4) == Signed32(e, 4) && Signed64(b, r + 8) == Signed64(e, 8)
    ensures Signed32(b, r + 16) == Signed32(e, 16) && Signed32(b, r + 20) == Signed32(e, 20)
            && Signed32(b, r + 24) == Signed32(e, 24)
  {
    SameNumber(b, r, e, 0);
    SameNumber(b, r, e, 4);
    SameNumber(b, r, e, 8);
    SameNumber(b, r, e, 12);
    SameNumber(b, r, e, 16);
    SameNumber(b, r, e, 20);
    SameNumber(b, r, e, 24);
  }

  lemma SameNumber(b: seq<int>, r: nat, e: seq<int>, i: nat)
    requires r + |e| <= |b| && b[r..r + |e|] == e && i + 4 <= |e|
    ensures Number(b, r + i) == Number(e, i)
  {
    var t := b[r..r + |e|];
    assert t[i] == b[r + i] && t[i + 1] == b[r + i + 1] && t[i + 2] == b[r + i + 2] && t[i + 3] == b[r + i + 3];
  }

  lemma StringsBack(ti: Info)
    requires NoNuls(Strings(ti))
    ensures var ss := Strings(ti);
            && GoodBlock(Joined(ss)) && Split(Joined(ss)) == ss && |ss| >= 3 && Pairs(ss[3..]) == ti.comments
            && ss[0] == ti.filename && ss[1] == Text(ti.codec) && ss[2] == Text(ti.profile)
  {
    SplitJoined(Strings(ti));
    PairsFlat(ti.comments);
    assert Strings(ti)[3..] == Flat(ti.comments);
  }

  // ---- the file ----

  function Align(n: nat): (a: nat)
    ensures n <= a < n + 8 && a % 8 == 0
  { (n + 7) / 8 * 8 }

  /** What the writer appends for the entries `es`, from file offset `offset` on: each after padding. */
  function Body(offset: nat, es: seq<seq<int>>): seq<int>
    decreases |es|
  {
    if es == [] then []
    else Filled(0, Align(offset) - offset) + es[0] + Body(Align(offset) + |es[0]|, es[1..])
  }

  /** The padding is zero. */
  lemma Padding(offset: nat, es: seq<seq<int>>, k: nat)
    requires es != [] && k < Align(offset) - offset
    ensures k < |Body(offset, es)| && Body(offset, es)[k] == 0
  {
    FilledAt(0, Align(offset) - offset, k);
  }

  lemma {:induction false} FilledAt(b: int, n: nat, k: nat)
    requires k < n
    ensures Filled(b, n)[k] == b
  {
    if k == 0 {
    } else {
      FilledAt(b, n - 1, k - 1);
    }
  }

  function EntriesOf(tis: seq<Info>): seq<seq<int>> { if tis == [] then [] else [Entry(tis[0])] + EntriesOf(tis[1..]) }

  function File(tis: seq<Info>): seq<int> { HEADER + Body(|HEADER|, EntriesOf(tis)) }

  datatype Outcome = Good | Corrupt | Overrun

  /** The NUL that ends the string at `pos`, or the end of the block if there is none. */
  function NextNul(block: seq<int>, pos: nat): (e: nat)
    requires pos <= |block|
    ensures pos <= e <= |block|
    decreases |block| - pos
  { if pos == |block| || block[pos] == 0 then pos else NextNul(block, pos + 1) }

  /** Each of `n` strings, read one after the other from `pos` on, ends inside the block. */
  predicate ReadsInside(block: seq<int>, pos: nat, n: nat)
    requires pos <= |block|
    decreases n
  { n == 0 || (NextNul(block, pos) < |block| && ReadsInside(block, NextNul(block, pos) + 1, n - 1)) }

  /** The strings cache_entry_to_ti reads: three, and a key and a value for every pair it counts. */
  function StringsRead(block: seq<int>): nat {
    var count := (Nuls(block) - 3) / 2;
    3 + if count > 0 then 2 * count else 0
  }

  /** Reading the entry stays inside it. */
  predicate Inside(block: seq<int>) { ReadsInside(block, 0, StringsRead(block)) }

  lemma {:induction false} ReadsInsideIff(block: seq<int>, pos: nat, n: nat)
    requires pos <= |block|
    ensures ReadsInside(block, pos, n) <==> n <= Nuls(block[pos..])
    decreases |block| - pos
  {
    if pos == |block| {
    } else {
      assert block[pos..][1..] == block[pos + 1..];
      if block[pos] == 0 {
        if n > 0 { ReadsInsideIff(block, pos + 1, n - 1); }
      } else {
        ReadsInsideIff(block, pos + 1, n);
      }
    }
  }

  /** What valid_cache_entry lets pass is read inside its bounds iff it does not hold exactly one string. */
  lemma InsideIff(block: seq<int>)
    requires GoodBlock(block)
    ensures Inside(block) <==> Nuls(block) != 1
    ensures Inside(block) <==> |Split(block)| >= 3
  {
    assert block[0..] == block;
    ReadsInsideIff(block, 0, StringsRead(block));
    JoinedSplit(block);
  }

  lemma EntryInside(b: seq<int>, off: nat)
    requires off <= |b| && ValidEntry(b, off)
    ensures Inside(Block(b, off)) <==> Nuls(Block(b, off)) != 1
  {
    InsideIff(Block(b, off));
  }

  /** An entry with the single string "a" is such a one: it is valid, and reading it leaves it. */
  lemma OneString()
    ensures var b := Bytes4(82) + Filled(0, 76) + [97, 0];
            ValidEntry(b, 0) && !Inside(Block(b, 0)) && Entries(b, 0) == (Overrun, [])
  {
    var b := Bytes4(82) + Filled(0, 76) + [97, 0];
    assert b[0..4] == Bytes4(82);
    NumberBack(82, b, 0);
    assert Block(b, 0) == [97, 0];
    assert [97, 0][1..] == [0] && [0][1..] == [];
    assert Nuls([97, 0]) == 1;
    EntryInside(b, 0);
  }

  /** What read_cache makes of the entries from `offset` on; the model stops where reading leaves an entry. */
  function Entries(b: seq<int>, offset: nat): (Outcome, seq<Info>)
    decreases if offset < |b| then |b| - offset else 0
  {
    if offset >= |b| then (Good, [])
    else if !ValidEntry(b, offset) then (Corrupt, [])
    else if !Inside(Block(b, offset)) then (Overrun, [])
    else
      InsideIff(Block(b, offset));
      var r := Entries(b, offset + Align(Number(b, offset)));
      (r.0, [EntryInfo(b, offset)] + r.1)
  }

  function StoredAll(tis: seq<Info>): seq<Info> { if tis == [] then [] else [Stored(tis[0])] + StoredAll(tis[1..]) }

  lemma AlignSum(a: nat, n: nat)
    requires a % 8 == 0
    ensures Align(a + n) == a + Align(n)
  {
  }

  ghost predicate AllReadable(es: seq<seq<int>>, tis: seq<Info>) {
    |es| == |tis| && (es == [] || (Readable(es[0], tis[0]) && AllReadable(es[1..], tis[1..])))
  }

  ghost predicate AllFit(tis: seq<Info>) { tis == [] || (Fits(tis[0]) && AllFit(tis[1..])) }

  lemma {:induction false} EntriesReadable(tis: seq<Info>)
    requires AllFit(tis)
    ensures AllReadable(EntriesOf(tis), tis)
  {
    if tis == [] {
    } else {
      EntryReads(tis[0]);
      EntriesReadable(tis[1..]);
      assert EntriesOf(tis)[1..] == EntriesOf(tis[1..]);
    }
  }

  lemma EntryPlace(b: seq<int>, w: nat, pad: seq<int>, e: seq<int>, rest: seq<int>)
    requires w <= |b| && b[w..] == pad + e + rest
    ensures w + |pad| + |e| <= |b| && b[w + |pad|..w + |pad| + |e|] == e && b[w + |pad| + |e|..] == rest
  {
    var t, i, j := b[w..], |pad|, |pad| + |e|;
    assert t[i..j] == e && t[j..] == rest;
    assert b[w + i..w + j] == t[i..j] && b[w + j..] == t[j..];
  }

  /** The entries `es` stand where a reader that aligns after each of them looks, from `offset` on. */
  ghost predicate Laid(b: seq<int>, offset: nat, es: seq<seq<int>>)
    decreases |es|
  {
    if es == [] then offset >= |b|
    else offset + |es[0]| <= |b| && b[offset..offset + |es[0]|] == es[0] && Laid(b, offset + Align(|es[0]|), es[1..])
  }

  /** The writer, which pads before an entry, puts them there. */
  lemma {:induction false} BodyLaid(b: seq<int>, w: nat, es: seq<seq<int>>)
    requires w <= |b| && b[w..] == Body(w, es)
    ensures Laid(b, Align(w), es)
    decreases |es|
  {
    if es == [] {
      assert |b| == w;
    } else {
      var r := Align(w);
      var next := r + |es[0]|;
      EntryPlace(b, w, Filled(0, r - w), es[0], Body(next, es[1..]));
      AlignSum(r, |es[0]|);
      BodyLaid(b, next, es[1..]);
    }
  }

  lemma {:induction false} LaidEntries(b: seq<int>, offset: nat, es: seq<seq<int>>, tis: seq<Info>)
    requires Laid(b, offset, es) && AllReadable(es, tis)
    ensures Entries(b, offset) == (Good, StoredAll(tis))
    decreases |es|
  {
    if es == [] {
      EntriesEnd(b, offset);
    } else {
      var next := offset + Align(|es[0]|);
      LaidEntries(b, next, es[1..], tis[1..]);
      EntryCons(b, offset, es[0], tis[0], next, StoredAll(tis[1..]));
    }
  }

  lemma EntryCons(b: seq<int>, r: nat, e: seq<int>, ti: Info, next: nat, rest: seq<Info>)
    requires r + |e| <= |b| && b[r..r + |e|] == e && Readable(e, ti)
    requires next == r + Align(|e|) && Entries(b, next) == (Good, rest)
    ensures Entries(b, r) == (Good, [Stored(ti)] + rest)
  {
    EntryShift(b, r, e, ti);
    EntriesCons(b, r, ti, next, rest);
  }

  lemma EntriesEnd(b: seq<int>, offset: nat)
    requires offset >= |b|
    ensures Entries(b, offset) == (Good, [])
  {
  }

  lemma EntriesCons(b: seq<int>, r: nat, ti: Info, next: nat, rest: seq<Info>)
    requires r < |b| && ValidEntry(b, r) && |Split(Block(b, r))| >= 3 && EntryInfo(b, r) == Stored(ti)
    requires next == r + Align(Number(b, r)) && Entries(b, next) == (Good, rest)
    ensures Entries(b, r) == (Good, [Stored(ti)] + rest)
  {
    InsideIff(Block(b, r));
  }

  /** read_cache on a whole file. */
  function ReadBack(b: seq<int>): (Outcome, seq<Info>) {
    if |b| < |HEADER| || b[..|HEADER|] != HEADER then (Corrupt, []) else Entries(b, |HEADER|)
  }

  /** Reading a written file gives back every track, in the order written. */
  lemma RoundTrip(tis: seq<Info>)
    requires AllFit(tis)
    ensures ReadBack(File(tis)) == (Good, StoredAll(tis)) && AllSame(ReadBack(File(tis)).1, tis)
    ensures (forall i :: 0 <= i < |tis| ==> Plain(tis[i])) ==> ReadBack(File(tis)) == (Good, tis)
  {
    StoredAllSame(tis);
    var body := Body(8, EntriesOf(tis));
    HeaderFirst(HEADER, body);
    BodyBack(HEADER + body, tis);
  }

  lemma BodyBack(b: seq<int>, tis: seq<Info>)
    requires 8 <= |b| && b[8..] == Body(8, EntriesOf(tis)) && AllFit(tis)
    ensures Entries(b, 8) == (Good, StoredAll(tis))
  {
    EntriesReadable(tis);
    BodyLaid(b, 8, EntriesOf(tis));
    LaidEntries(b, 8, EntriesOf(tis), tis);
  }

  lemma HeaderFirst(h: seq<int>, body: seq<int>)
    ensures (h + body)[..|h|] == h && (h + body)[|h|..] == body
  {
  }

  // ---- writing ----

  /** The file being written: what was flushed, what is still in the buffer, and the offset after both. */
  class Writer {
    var flushed: seq<int>
    var buf: seq<int>
    var offset: nat

    constructor ()
      ensures flushed + buf == HEADER && offset == 8
    {
      flushed, buf, offset := [], HEADER, 8;
      assert [] + HEADER == HEADER;
    }

    method Flush()
      modifies this`flushed, this`buf
      ensures flushed == old(flushed + buf) && buf == [] && flushed + buf == old(flushed + buf)
    {
      flushed := flushed + buf;
      buf := [];
    }

    /** write_ti: the size first, then the padding, the entry and its strings. */
    method WriteTi(ti: Info)
      modifies this
      ensures flushed + buf == old(flushed + buf) + (Filled(0, Align(old(offset)) - old(offset)) + Entry(ti))
      ensures offset == Align(old(offset)) + EntrySize(ti)
    {
      var size := Measure(ti);
      var pad := Align(offset) - offset;
      MakeRoom();
      var strings := Collect(ti);
      AppendEntry(ti, size, pad, strings);
      offset := offset + pad + size;
    }

    /** The buffer is flushed when it lacks room for the entry; how large it is does not matter here. */
    method MakeRoom()
      modifies this`flushed, this`buf
      ensures flushed + buf == old(flushed + buf)
    {
      var room: bool := *;
      if !room { Flush(); }
    }

    method AppendEntry(ti: Info, size: nat, pad: nat, strings: seq<int>)
      requires size == EntrySize(ti) && strings == Joined(Strings(ti))
      modifies this`buf
      ensures flushed + buf == old(flushed + buf) + (Filled(0, pad) + Entry(ti))
    {
      var fixed := Bytes4(size) + Field32(ti.playCount) + Field64(ti.mtime) + Field32(ti.duration) + Field32(ti.bitrate)
                   + Field32(ti.bpm) + Filled(0xff, RESERVED);
      AppendParts(flushed, buf, Filled(0, pad), fixed, strings);
      buf := buf + Filled(0, pad) + fixed + strings;
    }
  }

  lemma AppendParts(a: seq<int>, b: seq<int>, p: seq<int>, f: seq<int>, s: seq<int>)
    ensures a + (b + p + f + s) == (a + b) + (p + (f + s))
  {
  }

  method Measure(ti: Info) returns (size: nat)
    ensures size == EntrySize(ti)
  {
    StringsStart(ti);
    size := ENTRY_SIZE + (|ti.filename| + 1) + (|Text(ti.codec)| + 1) + (|Text(ti.profile)| + 1);
    var i := 0;
    assert ti.comments[0..] == ti.comments;
    while i < |ti.comments|
      invariant i <= |ti.comments| && size + |Joined(Flat(ti.comments[i..]))| == EntrySize(ti)
    {
      FlatStep(ti.comments, i);
      size := size + (|ti.comments[i].0| + 1) + (|ti.comments[i].1| + 1);
      i := i + 1;
    }
  }

  /** The strings of a track as they are appended, each with its NUL. */
  method Collect(ti: Info) returns (strings: seq<int>)
    ensures strings == Joined(Strings(ti))
  {
    StringsStart(ti);
    strings := ti.filename + [0] + (Text(ti.codec) + [0]) + (Text(ti.profile) + [0]);
    var i := 0;
    assert ti.comments[0..] == ti.comments;
    while i < |ti.comments|
      invariant i <= |ti.comments| && strings + Joined(Flat(ti.comments[i..])) == Joined(Strings(ti))
    {
      FlatStep(ti.comments, i);
      Regroup(strings, ti.comments[i].0 + [0], ti.comments[i].1 + [0], Joined(Flat(ti.comments[i + 1..])));
      strings := strings + (ti.comments[i].0 + [0]) + (ti.comments[i].1 + [0]);
      i := i + 1;
    }
    assert Joined(Flat(ti.comments[i..])) == [] && strings + [] == strings;
  }

  lemma Regroup(a: seq<int>, b: seq<int>, c: seq<int>, d: seq<int>)
    ensures a + (b + (c + d)) == ((a + b) + c) + d
  {
  }

  lemma StringsStart(ti: Info)
    ensures Joined(Strings(ti))
            == (ti.filename + [0] + (Text(ti.codec) + [0]) + (Text(ti.profile) + [0])) + Joined(Flat(ti.comments))
  {
    var f := Flat(ti.comments);
    var s2 := [Text(ti.profile)] + f;
    var s1 := [Text(ti.codec)] + s2;
    JoinedCons(Text(ti.profile), f);
    JoinedCons(Text(ti.codec), s2);
    JoinedCons(ti.filename, s1);
    assert Strings(ti) == [ti.filename] + s1;
    Regroup(ti.filename + [0], Text(ti.codec) + [0], Text(ti.profile) + [0], Joined(f));
  }

  lemma JoinedCons(s: Str, ss: seq<Str>)
    ensures Joined([s] + ss) == (s + [0]) + Joined(ss)
  {
    assert ([s] + ss)[1..] == ss;
  }

  lemma FlatStep(cs: seq<(Str, Str)>, i: nat)
    requires i < |cs|
    ensures Joined(Flat(cs[i..])) == (cs[i].0 + [0]) + ((cs[i].1 + [0]) + Joined(Flat(cs[i + 1..])))
  {
    assert cs[i..][1..] == cs[i + 1..];
    var f := Flat(cs[i + 1..]);
    assert ([cs[i].0, cs[i].1] + f)[1..] == [cs[i].1] + f && ([cs[i].1] + f)[1..] == f;
  }

  // ---- reading ----

  method CountNuls(block: seq<int>) returns (count: nat)
    ensures count == Nuls(block)
  {
    count := 0;
    var i := 0;
    while i < |block|
      invariant i <= |block| && count + Nuls(block[i..]) == Nuls(block)
    {
      if block[i] == 0 { count := count + 1; }
      i := i + 1;
    }
  }

  /** valid_cache_entry. */
  method CheckEntry(b: seq<int>, off: nat) returns (valid: bool)
    requires off <= |b|
    ensures valid <==> ValidEntry(b, off)
  {
    var avail := |b| - off;
    if avail < ENTRY_SIZE { return false; }
    var size := Number(b, off);
    if size < ENTRY_SIZE || size > avail { return false; }
    var block := b[off + ENTRY_SIZE..off + size];
    var count := CountNuls(block);
    if count % 2 == 0 { return false; }
    valid := block[|block| - 1] == 0;
  }

  /** strlen from `pos` on, and the place after the NUL; not `ok` when the block ends before one. */
  method ReadString(block: seq<int>, pos: nat) returns (ok: bool, s: Str, next: nat)
    requires pos <= |block|
    ensures ok <==> NextNul(block, pos) < |block|
    ensures ok ==> s == block[pos..NextNul(block, pos)] && next == NextNul(block, pos) + 1
  {
    next := pos;
    while next < |block| && block[next] != 0
      invariant pos <= next <= |block| && NextNul(block, pos) == NextNul(block, next)
    {
      next := next + 1;
    }
    if next == |block| { return false, [], next; }
    ok, s, next := true, block[pos..next], next + 1;
  }

  /** Where strings follow each other, the next one is read. */
  lemma StringStep(block: seq<int>, pos: nat, ss: seq<Str>)
    requires pos <= |block| && ss != [] && NoNuls(ss) && block[pos..] == Joined(ss)
    ensures var e := NextNul(block, pos); e < |block| && block[pos..e] == ss[0] && block[e + 1..] == Joined(ss[1..])
  {
    var first := ss[0];
    StringAt(block, pos, first, Joined(ss[1..]));
    forall k | pos <= k < pos + |first| ensures block[k] != 0 { NulAt(block, pos, first, k); }
    NextNulIs(block, pos, pos + |first|);
  }

  lemma {:induction false} NextNulIs(block: seq<int>, pos: nat, e: nat)
    requires pos <= e < |block| && block[e] == 0 && forall k :: pos <= k < e ==> block[k] != 0
    ensures NextNul(block, pos) == e
    decreases e - pos
  {
    if pos == e {
    } else {
      NextNulIs(block, pos + 1, e);
    }
  }

  lemma StringAt(block: seq<int>, pos: nat, first: Str, rest: seq<int>)
    requires pos <= |block| && block[pos..] == (first + [0]) + rest
    ensures pos + |first| < |block| && block[pos + |first|] == 0 && block[pos..pos + |first|] == first
    ensures block[pos + |first| + 1..] == rest
  {
    var t := block[pos..];
    assert t[..|first|] == first && t[|first|] == 0 && t[|first| + 1..] == rest;
  }

  lemma {:induction false} NulAt(block: seq<int>, pos: nat, first: Str, at: nat)
    requires NoNul(first) && pos <= at <= pos + |first| < |block| && block[pos..pos + |first|] == first
    ensures at < pos + |first| ==> block[at] != 0
  {
    if at < pos + |first| {
      assert block[at] == first[at - pos];
      NoNulAt(first, at - pos);
    }
  }

  lemma {:induction false} NoNulAt(s: Str, i: nat)
    requires NoNul(s) && i < |s|
    ensures s[i] != 0
  {
    if i == 0 {
    } else {
      NoNulAt(s[1..], i - 1);
    }
  }

  lemma {:induction false} SplitNoNuls(b: seq<int>)
    ensures NoNuls(Split(b))
  {
    if b == [] {
    } else {
      SplitNoNuls(b[1..]);
      var ss := Split(b[1..]);
      if b[0] == 0 {
        assert ([[]] + ss)[1..] == ss;
      } else if ss != [] {
        var r := Prefixed(b[0], ss);
        assert r[1..] == ss[1..] && r[0][1..] == ss[0];
      }
    }
  }

  /** cache_entry_to_ti; nothing when it would read past the entry. */
  method ReadEntry(b: seq<int>, off: nat) returns (ti: Option<Info>)
    requires off <= |b| && ValidEntry(b, off)
    ensures ti.Some? <==> Inside(Block(b, off))
    ensures ti.Some? ==> |Split(Block(b, off))| >= 3 && ti.value == EntryInfo(b, off)
  {
    var block := b[off + ENTRY_SIZE..off + Number(b, off)];
    InsideIff(block);
    var ok, filename, codec, profile, comments := ReadStrings(block);
    if !ok { return None; }
    ti := Some(Info(filename, Known(codec), Known(profile), comments, Signed32(b, off + 16), Signed32(b, off + 20),
                    Signed64(b, off + 8), Signed32(b, off + 4), Signed32(b, off + 24)));
  }

  method ReadStrings(block: seq<int>)
    returns (ok: bool, filename: Str, codec: Str, profile: Str, comments: seq<(Str, Str)>)
    requires GoodBlock(block)
    ensures ok <==> |Split(block)| >= 3
    ensures var ss := Split(block);
            ok ==> filename == ss[0] && codec == ss[1] && profile == ss[2] && comments == Pairs(ss[3..])
  {
    ghost var ss := Split(block);
    JoinedSplit(block);
    SplitNoNuls(block);
    comments := [];
    var count: int := CountNuls(block);
    var pairs: int := (count - 3) / 2;
    var pos;
    ok, filename, codec, profile, pos := ReadThree(block, ss);
    if ok {
      NoNulsTail(ss, 3);
      comments := ReadPairs(block, pos, pairs, ss[3..]);
    }
  }

  /** The next of the strings left, if there is one. */
  method ReadNext(block: seq<int>, pos: nat, ghost rest: seq<Str>) returns (ok: bool, s: Str, next: nat)
    requires pos <= |block| && NoNuls(rest) && block[pos..] == Joined(rest)
    ensures ok <==> rest != []
    ensures ok ==> s == rest[0] && next <= |block| && NoNuls(rest[1..]) && block[next..] == Joined(rest[1..])
  {
    SplitJoined(rest);
    ReadsInsideIff(block, pos, 1);
    assert ReadsInside(block, pos, 1) <==> NextNul(block, pos) < |block|;
    if rest != [] { StringStep(block, pos, rest); }
    ok, s, next := ReadString(block, pos);
  }

  method ReadThree(block: seq<int>, ghost ss: seq<Str>)
    returns (ok: bool, filename: Str, codec: Str, profile: Str, pos: nat)
    requires NoNuls(ss) && block == Joined(ss)
    ensures ok <==> |ss| >= 3
    ensures ok ==> filename == ss[0] && codec == ss[1] && profile == ss[2]
    ensures ok ==> pos <= |block| && block[pos..] == Joined(ss[3..])
  {
    assert block[0..] == block;
    filename, codec, profile := [], [], [];
    ok, filename, pos := ReadNext(block, 0, ss);
    if !ok { return; }
    ok, codec, pos := ReadNext(block, pos, ss[1..]);
    if !ok { return; }
    assert ss[1..][1..] == ss[2..];
    ok, profile, pos := ReadNext(block, pos, ss[2..]);
    if !ok { return; }
    assert ss[2..][1..] == ss[3..];
  }

  lemma {:induction false} NoNulsTail(ss: seq<Str>, k: nat)
    requires NoNuls(ss) && k <= |ss|
    ensures NoNuls(ss[k..])
  {
    if k > 0 {
      NoNulsTail(ss[1..], k - 1);
      assert ss[1..][k - 1..] == ss[k..];
    } else {
      assert ss[0..] == ss;
    }
  }

  method ReadPairs(block: seq<int>, pos0: nat, count: nat, ghost ss: seq<Str>) returns (comments: seq<(Str, Str)>)
    requires pos0 <= |block| && NoNuls(ss) && block[pos0..] == Joined(ss) && |ss| == 2 * count
    ensures comments == Pairs(ss)
  {
    comments := [];
    var pos: nat, i := pos0, 0;
    ghost var rest := ss;
    while i < count
      invariant 0 <= i <= count && 0 <= pos <= |block| && NoNuls(rest) && block[pos..] == Joined(rest)
      invariant |rest| == 2 * (count - i)
      invariant comments + Pairs(rest) == Pairs(ss)
    {
      var ok, key, val;
      ok, key, pos := ReadNext(block, pos, rest);
      ok, val, pos := ReadNext(block, pos, rest[1..]);
      PairsStep(comments, rest);
      comments := comments + [(key, val)];
      NoNulsTail(rest, 2);
      assert rest[1..][1..] == rest[2..];
      rest := rest[2..];
      i := i + 1;
    }
    assert comments + [] == comments;
  }

  lemma PairsStep(done: seq<(Str, Str)>, ss: seq<Str>)
    requires |ss| >= 2
    ensures done + Pairs(ss) == (done + [(ss[0], ss[1])]) + Pairs(ss[2..])
  {
  }

  // ---- the cache in memory ----

  const HASH_SIZE: nat := 1023

  /** strcmp: negative, zero or positive. */
  function StrCmp(a: Str, b: Str): int {
    if a == [] then (if b == [] then 0 else -1)
    else if b == [] then 1
    else if a[0] != b[0] then a[0] - b[0]
    else StrCmp(a[1..], b[1..])
  }

  lemma {:induction false} StrCmpFlip(a: Str, b: Str)
    ensures StrCmp(a, b) < 0 <==> StrCmp(b, a) > 0
  {
    if a != [] && b != [] && a[0] == b[0] { StrCmpFlip(a[1..], b[1..]); }
  }

  /** It is the order of the dictionary, by the first byte that differs or, without one, by length. */
  lemma {:induction false} StrCmpMeans(a: Str, b: Str)
    ensures StrCmp(a, b) == 0 <==> a == b
    ensures StrCmp(a, b) < 0 <==> exists k :: FirstDiffers(a, b, k)
  {
    if a != [] && b != [] && a[0] == b[0] {
      StrCmpMeans(a[1..], b[1..]);
      assert a == b <==> a[1..] == b[1..] by { assert a == [a[0]] + a[1..] && b == [b[0]] + b[1..]; }
      if k :| FirstDiffers(a, b, k) {
        assert a[..k] == b[..k] && k > 0;
        assert a[1..][..k - 1] == a[..k][1..] == b[1..][..k - 1];
        assert FirstDiffers(a[1..], b[1..], k - 1);
      }
      if k :| FirstDiffers(a[1..], b[1..], k) {
        assert a[..k + 1] == [a[0]] + a[1..][..k] && b[..k + 1] == [b[0]] + b[1..][..k];
        assert FirstDiffers(a, b, k + 1);
      }
    } else {
      FirstsAgree(a, b);
      if StrCmp(a, b) < 0 { assert FirstDiffers(a, b, 0); }
    }
  }

  lemma FirstsAgree(a: Str, b: Str)
    ensures forall k :: FirstDiffers(a, b, k) ==> k == 0 || (a != [] && b != [] && a[0] == b[0])
  {
    forall k | FirstDiffers(a, b, k) && k != 0 ensures a != [] && b != [] && a[0] == b[0] {
      assert a[..k][0] == b[..k][0];
    }
  }

  /** `a` and `b` agree before place `k`, and there `a` ends or has the smaller byte. */
  ghost predicate FirstDiffers(a: Str, b: Str, k: int) {
    0 <= k <= |a| && k < |b| && a[..k] == b[..k] && (k < |a| ==> a[k] < b[k])
  }

  predicate InFileOrder(tis: seq<Info>) {
    forall i :: 0 < i < |tis| ==> StrCmp(tis[i - 1].filename, tis[i].filename) <= 0
  }

  function All(table: seq<seq<Info>>): seq<Info> { if table == [] then [] else table[0] + All(table[1..]) }

  lemma {:induction false} AllPut(table: seq<seq<Info>>, pos: nat, ti: Info)
    requires pos < |table|
    ensures multiset(All(table[pos := [ti] + table[pos]])) == multiset(All(table)) + multiset{ti}
  {
    if pos == 0 {
      assert table[0 := [ti] + table[0]][1..] == table[1..];
    } else {
      assert table[pos := [ti] + table[pos]][1..] == table[1..][pos - 1 := [ti] + table[1..][pos - 1]];
      AllPut(table[1..], pos - 1, ti);
    }
  }

  lemma {:induction false} AllCut(table: seq<seq<Info>>, pos: nat, i: nat)
    requires pos < |table| && i < |table[pos]|
    ensures multiset(All(table)) ==
            multiset(All(table[pos := table[pos][..i] + table[pos][i + 1..]])) + multiset{table[pos][i]}
  {
    var c := table[pos];
    var c' := c[..i] + c[i + 1..];
    if pos == 0 {
      assert table[0 := c'][1..] == table[1..];
      assert c == c[..i] + [c[i]] + c[i + 1..];
    } else {
      assert table[pos := c'][1..] == table[1..][pos - 1 := c'];
      AllCut(table[1..], pos - 1, i);
    }
  }

  lemma {:induction false} AllIn(table: seq<seq<Info>>, pos: nat, ti: Info)
    requires pos < |table| && ti in table[pos]
    ensures ti in multiset(All(table))
  {
    if pos == 0 {
    } else {
      AllIn(table[1..], pos - 1, ti);
    }
  }

  lemma {:induction false} AllFrom(table: seq<seq<Info>>, ti: Info) returns (k: nat)
    requires ti in multiset(All(table))
    ensures k < |table| && ti in table[k]
  {
    if ti in table[0] {
      k := 0;
    } else {
      k := AllFrom(table[1..], ti);
      k := k + 1;
    }
  }

  lemma {:induction false} AllSplit(table: seq<seq<Info>>, i: nat)
    requires i < |table|
    ensures All(table[..i + 1]) == All(table[..i]) + table[i]
  {
    if i == 0 {
      assert table[..1][1..] == [] && table[..0] == [];
    } else {
      assert table[..i + 1][1..] == table[1..][..i] && table[..i][1..] == table[1..][..i - 1];
      AllSplit(table[1..], i - 1);
    }
  }

  /** qsort by file name. */
  method SortByName(tis: seq<Info>) returns (sorted: seq<Info>)
    ensures InFileOrder(sorted) && multiset(sorted) == multiset(tis)
  {
    sorted := [];
    var i := 0;
    while i < |tis|
      invariant i <= |tis| && InFileOrder(sorted) && multiset(sorted) == multiset(tis[..i])
    {
      assert tis[..i + 1] == tis[..i] + [tis[i]];
      sorted := Place(sorted, tis[i]);
      i := i + 1;
    }
    assert tis[..i] == tis;
  }

  method Place(sorted: seq<Info>, ti: Info) returns (r: seq<Info>)
    requires InFileOrder(sorted)
    ensures InFileOrder(r) && multiset(r) == multiset(sorted) + multiset{ti}
  {
    var k := 0;
    while k < |sorted| && StrCmp(sorted[k].filename, ti.filename) <= 0
      invariant k <= |sorted| && (k > 0 ==> StrCmp(sorted[k - 1].filename, ti.filename) <= 0)
    {
      k := k + 1;
    }
    if k < |sorted| { StrCmpFlip(ti.filename, sorted[k].filename); }
    PlacedInOrder(sorted, k, ti);
    r := sorted[..k] + [ti] + sorted[k..];
    assert sorted == sorted[..k] + sorted[k..];
  }

  lemma PlacedInOrder(sorted: seq<Info>, k: nat, ti: Info)
    requires InFileOrder(sorted) && k <= |sorted|
    requires k > 0 ==> StrCmp(sorted[k - 1].filename, ti.filename) <= 0
    requires k < |sorted| ==> StrCmp(ti.filename, sorted[k].filename) <= 0
    ensures InFileOrder(sorted[..k] + [ti] + sorted[k..])
  {
    var r := sorted[..k] + [ti] + sorted[k..];
    forall i | 0 < i < |r| ensures StrCmp(r[i - 1].filename, r[i].filename) <= 0 {
      if i < k { assert r[i] == sorted[i] && r[i - 1] == sorted[i - 1]; }
      if i > k + 1 { assert r[i] == sorted[i - 1] && r[i - 1] == sorted[i - 2]; }
    }
  }

  /** What the file will be once the tracks from `i` on are written too. */
  ghost function Whole(w: Writer, tis: seq<Info>, i: nat): seq<int>
    requires i <= |tis|
    reads w
  { (w.flushed + w.buf) + Body(w.offset, EntriesOf(tis[i..])) }

  method WriteAll(w: Writer, tis: seq<Info>)
    modifies w
    ensures w.flushed + w.buf == old(Whole(w, tis, 0))
  {
    var i := 0;
    while i < |tis|
      invariant i <= |tis| && Whole(w, tis, i) == old(Whole(w, tis, 0))
    {
      WriteNext(w, tis, i);
      i := i + 1;
    }
    BodyEnd(w.offset, w.flushed + w.buf, tis[i..]);
  }

  method WriteNext(w: Writer, tis: seq<Info>, i: nat)
    requires i < |tis|
    modifies w
    ensures Whole(w, tis, i + 1) == old(Whole(w, tis, i))
  {
    ghost var front, offset := w.flushed + w.buf, w.offset;
    w.WriteTi(tis[i]);
    WriteStep(front, offset, tis, i, w.flushed + w.buf);
  }

  lemma WriteStep(front: seq<int>, offset: nat, tis: seq<Info>, i: nat, now: seq<int>)
    requires i < |tis| && now == front + (Filled(0, Align(offset) - offset) + Entry(tis[i]))
    ensures now + Body(Align(offset) + EntrySize(tis[i]), EntriesOf(tis[i + 1..])) ==
            front + Body(offset, EntriesOf(tis[i..]))
  {
    BodyStep(offset, tis, i);
    Assoc(front, Filled(0, Align(offset) - offset) + Entry(tis[i]),
          Body(Align(offset) + EntrySize(tis[i]), EntriesOf(tis[i + 1..])));
  }

  lemma BodyEnd(offset: nat, b: seq<int>, tis: seq<Info>)
    requires tis == []
    ensures b + Body(offset, EntriesOf(tis)) == b
  {
  }

  /** One round of the reading loop. */
  method ReadOne(b: seq<int>, offset: nat) returns (outcome: Outcome, ti: Option<Info>, next: nat)
    requires offset < |b|
    ensures outcome != Good ==> Entries(b, offset) == (outcome, [])
    ensures outcome == Good ==>
              ti.Some? && next > offset && Entries(b, offset) == (Entries(b, next).0, [ti.value] + Entries(b, next).1)
  {
    ti, next := None, offset;
    var valid := CheckEntry(b, offset);
    if !valid { return Corrupt, None, offset; }
    ti := ReadEntry(b, offset);
    if ti == None { return Overrun, None, offset; }
    outcome, next := Good, offset + Align(Number(b, offset));
  }

  class Cache {
    const hash: Str -> nat
    var table: seq<seq<Info>>
    var total: nat

    ghost predicate Valid()
      reads this
    { |table| == HASH_SIZE && total == |All(table)| && forall i :: 0 <= i < HASH_SIZE ==> InBucket(table[i], i) }

    ghost predicate InBucket(chain: seq<Info>, i: nat) { forall ti :: ti in chain ==> Slot(ti.filename) == i }

    function Slot(filename: Str): (i: nat)
      ensures i < HASH_SIZE
    { hash(filename) % HASH_SIZE }

    ghost function Tracks(): multiset<Info>
      reads this
    { multiset(All(table)) }

    constructor (hash: Str -> nat)
      ensures Valid() && Tracks() == multiset{} && this.hash == hash
    {
      this.hash := hash;
      table := Empty(HASH_SIZE);
      total := 0;
      new;
      EmptyAt(HASH_SIZE);
    }

    /** lookup_cache_entry: a track with that file name, iff there is one. */
    method Lookup(filename: Str) returns (ti: Option<Info>)
      requires Valid()
      ensures ti.Some? ==> ti.value in Tracks() && ti.value.filename == filename
      ensures ti.None? ==> forall t :: t in Tracks() ==> t.filename != filename
    {
      var chain := table[Slot(filename)];
      var i := 0;
      while i < |chain|
        invariant i <= |chain| && forall j :: 0 <= j < i ==> chain[j].filename != filename
      {
        if chain[i].filename == filename {
          AllIn(table, Slot(filename), chain[i]);
          return Some(chain[i]);
        }
        i := i + 1;
      }
      forall t | t in Tracks() ensures t.filename != filename {
        var k := AllFrom(table, t);
        assert t in table[k];
      }
      return None;
    }

    /** do_cache_remove_ti. */
    method RemoveTi(ti: Info)
      requires Valid()
      modifies this`table, this`total
      ensures Valid() && Tracks() == old(Tracks()) - multiset{ti}
    {
      var pos := Slot(ti.filename);
      var chain := table[pos];
      var i := 0;
      while i < |chain|
        invariant i <= |chain| && table == old(table) && total == old(total) && ti !in chain[..i]
      {
        if chain[i] == ti {
          AllCut(table, pos, i);
          assert |multiset(All(table))| == |All(table)|;
          table := table[pos := chain[..i] + chain[i + 1..]];
          assert |multiset(All(table))| == |All(table)|;
          total := total - 1;
          return;
        }
        i := i + 1;
      }
      forall t | t in Tracks() ensures t != ti {
        var k := AllFrom(table, t);
        assert t in table[k];
      }
    }

    method AddTi(ti: Info)
      requires Valid()
      modifies this`table, this`total
      ensures Valid() && Tracks() == old(Tracks()) + multiset{ti}
    {
      var pos := Slot(ti.filename);
      AllPut(table, pos, ti);
      assert |multiset(All(table))| == |All(table)|;
      table := table[pos := [ti] + table[pos]];
      assert |multiset(All(table))| == |All(table)|;
      total := total + 1;
    }

    method GetTrackInfos() returns (tis: seq<Info>)
      requires Valid()
      ensures InFileOrder(tis) && multiset(tis) == Tracks() && |tis| == total
    {
      tis := [];
      var i := 0;
      while i < HASH_SIZE
        invariant i <= HASH_SIZE && tis == All(table[..i])
      {
        AllSplit(table, i);
        tis := tis + table[i];
        i := i + 1;
      }
      assert table[..i] == table;
      tis := SortByName(tis);
      assert |multiset(tis)| == |tis| && |Tracks()| == |All(table)|;
    }

    /** cache_close: the bytes of the file. */
    method Close() returns (file: seq<int>, ghost tis: seq<Info>)
      requires Valid()
      ensures file == File(tis) && InFileOrder(tis) && multiset(tis) == Tracks()
    {
      var all := GetTrackInfos();
      tis := all;
      var w := new Writer();
      assert all[0..] == all;
      WriteAll(w, all);
      w.Flush();
      file := w.flushed;
    }

    /** read_cache: the tracks of all entries up to the first that is not valid. */
    method Read(b: seq<int>) returns (outcome: Outcome)
      requires Valid()
      modifies this`table, this`total
      ensures Valid() && outcome == ReadBack(b).0 && Tracks() == old(Tracks()) + multiset(ReadBack(b).1)
    {
      if |b| < |HEADER| || b[..|HEADER|] != HEADER { return Corrupt; }
      var offset := |HEADER|;
      ghost var rest := Entries(b, offset);
      while offset < |b|
        invariant Valid() && rest == Entries(b, offset)
        invariant Tracks() + multiset(rest.1) == old(Tracks()) + multiset(ReadBack(b).1) && ReadBack(b).0 == rest.0
        decreases |b| - offset
      {
        var ti, next;
        outcome, ti, next := ReadOne(b, offset);
        if outcome != Good { return; }
        AddTi(ti.value);
        offset := next;
        rest := Entries(b, offset);
      }
      return Good;
    }
  }

  /** Closing and starting again keeps every track. */
  method Restart(c: Cache) returns (c': Cache, outcome: Outcome, ghost tis: seq<Info>)
    requires c.Valid() && forall ti :: ti in c.Tracks() ==> Fits(ti)
    ensures fresh(c') && c'.Valid() && outcome == Good
    ensures multiset(tis) == c.Tracks() && InFileOrder(tis)
    ensures exists rs :: c'.Tracks() == multiset(rs) && AllSame(rs, tis)
    ensures (forall ti :: ti in c.Tracks() ==> Plain(ti)) ==> c'.Tracks() == c.Tracks()
  {
    var file;
    file, tis := c.Close();
    FitAll(tis);
    RoundTrip(tis);
    c' := new Cache(c.hash);
    outcome := c'.Read(file);
    assert c'.Tracks() == multiset(StoredAll(tis)) && AllSame(StoredAll(tis), tis) by { StoredAllSame(tis); }
    if forall ti :: ti in c.Tracks() ==> Plain(ti) {
      forall i | 0 <= i < |tis| ensures Plain(tis[i]) { assert tis[i] in multiset(tis); }
    }
  }

  lemma {:induction false} FitAll(tis: seq<Info>)
    requires forall ti :: ti in multiset(tis) ==> Fits(ti)
    ensures AllFit(tis)
  {
    if tis == [] {
    } else {
      assert tis[0] in multiset(tis);
      forall ti | ti in multiset(tis[1..]) ensures Fits(ti) {
        assert ti in tis[1..] && ti in tis && ti in multiset(tis);
      }
      FitAll(tis[1..]);
    }
  }

  function Empty(n: nat): (r: seq<seq<Info>>)
    ensures |r| == n && All(r) == []
  { if n == 0 then [] else [[]] + Empty(n - 1) }

  lemma {:induction false} EmptyAt(n: nat)
    ensures forall i :: 0 <= i < n ==> Empty(n)[i] == []
  {
    if n == 0 {
    } else {
      EmptyAt(n - 1);
    }
  }

  lemma Assoc(a: seq<int>, b: seq<int>, c: seq<int>)
    ensures a + (b + c) == (a + b) + c
  {
  }

  lemma BodyStep(offset: nat, tis: seq<Info>, i: nat)
    requires i < |tis|
    ensures Body(offset, EntriesOf(tis[i..]))
            == (Filled(0, Align(offset) - offset) + Entry(tis[i]))
               + Body(Align(offset) + EntrySize(tis[i]), EntriesOf(tis[i + 1..]))
  {
    assert tis[i..][1..] == tis[i + 1..];
    var es := EntriesOf(tis[i + 1..]);
    assert EntriesOf(tis[i..]) == [Entry(tis[i])] + es && ([Entry(tis[i])] + es)[1..] == es;
  }
}
