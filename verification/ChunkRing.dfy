/** The ring of chunks between the producer and the consumer thread (src/core/buffer.c).  Every method is one stretch
    under buffer_mutex, or one use of a window without it; `Interleave` lets both threads hold their windows while the
    other runs. */
module ChunkRing {
  import opened Common

  const CHUNK_SIZE: nat := 12 * 840 * 6
  const LEAST: nat := 1024

  datatype Chunk = Chunk(data: seq<Byte>, l: nat, h: nat, filled: bool) {
    predicate Wf() { |data| == CHUNK_SIZE && l <= h <= CHUNK_SIZE }
    function Bytes(): seq<Byte>
      requires Wf()
    { data[l..h] }
    /** Only the consumer may use it. */
    predicate Readable() { Wf() && filled && l < h }
    /** Only the producer may use it. */
    predicate Writable() { Wf() && !filled && l == 0 && h <= CHUNK_SIZE - LEAST }
    predicate Empty() { Wf() && !filled && l == h == 0 }
  }

  predicate AllWf(v: seq<Chunk>) { forall i :: 0 <= i < |v| ==> v[i].Wf() }

  function Concat(v: seq<Chunk>): seq<Byte>
    requires AllWf(v)
  { if v == [] then [] else v[0].Bytes() + Concat(v[1..]) }

  /** The chunks as the consumer comes to them: filled ones, the one being written, empty ones. */
  ghost predicate InOrder(v: seq<Chunk>, n: nat) {
    && n <= |v|
    && (forall i :: 0 <= i < n ==> v[i].Readable())
    && (n < |v| ==> v[n].Writable())
    && forall i :: n < i < |v| ==> v[i].Empty()
  }

  function Rotated<T>(s: seq<T>, r: nat): seq<T>
    requires r <= |s|
  { s[r..] + s[..r] }

  function Filled(s: seq<Chunk>): nat {
    if s == [] then 0 else (if s[0].filled then 1 else 0) + Filled(s[1..])
  }

  /** Place `k` after place `r`, going round. */
  function Place(r: nat, k: nat, n: nat): (i: nat)
    requires r < n && k <= n
    ensures i < n
  { if r + k < n then r + k else r + k - n }

  lemma NextPlace(r: nat, k: nat, n: nat)
    requires r < n && k < n
    ensures (Place(r, k, n) + 1) % n == Place(r, k + 1, n)
  {
    var i := Place(r, k, n) + 1;
    if i == n { assert i % n == 0; } else { assert i % n == i; }
  }

  lemma RotatedAt<T>(s: seq<T>, r: nat, k: nat)
    requires r < |s| && k < |s|
    ensures Rotated(s, r)[k] == s[Place(r, k, |s|)]
  {
  }

  lemma RotatedUpdate<T>(s: seq<T>, r: nat, k: nat, x: T)
    requires r < |s| && k < |s|
    ensures Rotated(s[Place(r, k, |s|) := x], r) == Rotated(s, r)[k := x]
  {
  }

  lemma RotatedNext<T>(s: seq<T>, r: nat)
    requires r < |s|
    ensures Rotated(s, Place(r, 1, |s|)) == Rotated(s, r)[1..] + [Rotated(s, r)[0]]
  {
    var x, a, b := s[r], s[..r], s[r + 1..];
    assert s[r..] == [x] + b;
    if r + 1 == |s| {
      assert s == a + [x] && b == [];
    } else {
      assert s[..r + 1] == a + [x];
    }
  }

  lemma {:induction false} FilledConcat(a: seq<Chunk>, b: seq<Chunk>)
    ensures Filled(a + b) == Filled(a) + Filled(b)
  {
    if a == [] { assert a + b == b; } else { assert (a + b)[1..] == a[1..] + b; FilledConcat(a[1..], b); }
  }

  /** The number of flags that are set, counted round the ring or along the array. */
  lemma FilledRotated(s: seq<Chunk>, r: nat)
    requires r <= |s|
    ensures Filled(Rotated(s, r)) == Filled(s)
  {
    var a, b := s[..r], s[r..];
    assert s == a + b;
    FilledSwap(a, b);
  }

  lemma FilledSwap(a: seq<Chunk>, b: seq<Chunk>)
    ensures Filled(b + a) == Filled(a + b)
  {
    FilledConcat(a, b);
    FilledConcat(b, a);
  }

  lemma {:induction false} FilledInOrder(v: seq<Chunk>, n: nat)
    requires n <= |v| && (forall i :: 0 <= i < n ==> v[i].filled) && forall i :: n <= i < |v| ==> !v[i].filled
    ensures Filled(v) == n
  {
    if v == [] {
    } else {
      FilledInOrder(v[1..], if n == 0 then 0 else n - 1);
    }
  }

  lemma {:induction false} ConcatSplit(a: seq<Chunk>, b: seq<Chunk>)
    requires AllWf(a) && AllWf(b)
    ensures AllWf(a + b) && Concat(a + b) == Concat(a) + Concat(b)
  {
    if a == [] { assert a + b == b; } else { assert (a + b)[1..] == a[1..] + b; ConcatSplit(a[1..], b); }
  }

  lemma {:induction false} ConcatEmpty(v: seq<Chunk>)
    requires forall i :: 0 <= i < |v| ==> v[i].Empty()
    ensures AllWf(v) && Concat(v) == []
  {
    if v == [] {
    } else {
      ConcatEmpty(v[1..]);
    }
  }

  lemma ConcatCons(x: Chunk, t: seq<Chunk>)
    requires x.Wf() && AllWf(t)
    ensures AllWf([x] + t) && Concat([x] + t) == x.Bytes() + Concat(t)
  {
    assert ([x] + t)[1..] == t;
  }

  /** Bytes added to the chunk being written come last. */
  lemma FillConcat(v: seq<Chunk>, n: nat, c: Chunk, bytes: seq<Byte>)
    requires InOrder(v, n) && n < |v| && c.Wf() && c.Bytes() == v[n].Bytes() + bytes
    ensures AllWf(v) && AllWf(v[n := c]) && Concat(v[n := c]) == Concat(v) + bytes
  {
    var a, x, b := v[..n], v[n], v[n + 1..];
    assert v == a + ([x] + b) && v[n := c] == a + ([c] + b);
    FillMiddle(a, x, c, b, bytes);
  }

  lemma FillMiddle(a: seq<Chunk>, x: Chunk, c: Chunk, b: seq<Chunk>, bytes: seq<Byte>)
    requires AllWf(a) && x.Wf() && c.Wf() && (forall i :: 0 <= i < |b| ==> b[i].Empty())
             && c.Bytes() == x.Bytes() + bytes
    ensures AllWf(a + ([x] + b)) && AllWf(a + ([c] + b)) && Concat(a + ([c] + b)) == Concat(a + ([x] + b)) + bytes
  {
    FirstOfEmpty(x, b);
    FirstOfEmpty(c, b);
    ConcatSplit(a, [x] + b);
    ConcatSplit(a, [c] + b);
    Assoc(Concat(a), x.Bytes(), bytes);
  }

  lemma FirstOfEmpty(x: Chunk, b: seq<Chunk>)
    requires x.Wf() && forall i :: 0 <= i < |b| ==> b[i].Empty()
    ensures AllWf([x] + b) && Concat([x] + b) == x.Bytes()
  {
    ConcatEmpty(b);
    ConcatCons(x, b);
  }

  lemma Assoc<T>(a: seq<T>, b: seq<T>, c: seq<T>)
    ensures a + (b + c) == (a + b) + c
  {
  }

  /** Bytes taken from the first chunk come first. */
  lemma ConsumeConcat(v: seq<Chunk>, c: Chunk, bytes: seq<Byte>)
    requires v != [] && AllWf(v) && c.Wf() && v[0].Bytes() == bytes + c.Bytes()
    ensures AllWf(v[0 := c]) && bytes + Concat(v[0 := c]) == Concat(v)
  {
    var t := v[1..];
    assert v == [v[0]] + t && v[0 := c] == [c] + t;
    ConcatCons(v[0], t);
    ConcatCons(c, t);
    Assoc(bytes, c.Bytes(), Concat(t));
  }

  /** The chunk being written after more was written, or closed. */
  lemma FillInOrder(v: seq<Chunk>, n: nat, c: Chunk)
    requires InOrder(v, n) && n < |v|
    ensures c.Writable() ==> InOrder(v[n := c], n)
    ensures c.Readable() ==> InOrder(v[n := c], n + 1)
  {
  }

  /** An emptied first chunk becomes the last. */
  lemma EmptiedInOrder(v: seq<Chunk>, n: nat, c: Chunk)
    requires InOrder(v, n) && n > 0 && c.Empty()
    ensures v[0 := c][1..] + [v[0 := c][0]] == v[1..] + [c] && InOrder(v[1..] + [c], n - 1)
  {
    var u := v[1..] + [c];
    forall i | 0 <= i < |u| ensures u[i] == if i < |v| - 1 then v[i + 1] else c {}
  }

  lemma EmptiedConcat(v: seq<Chunk>, c: Chunk)
    requires v != [] && AllWf(v) && c.Empty()
    ensures AllWf(v[1..] + [c]) && v[0].Bytes() + Concat(v[1..] + [c]) == Concat(v)
  {
    ConcatSplit(v[1..], [c]);
    assert [c][1..] == [];
  }

  /** The first chunk after `out` was taken from it, with something left. */
  lemma TakeFirst(s: seq<Chunk>, r: nat, n: nat, c: Chunk, out: seq<Byte>)
    requires r < |s| && InOrder(Rotated(s, r), n) && n > 0 && AllWf(Rotated(s, r)) && c.Readable()
    requires Rotated(s, r)[0].Bytes() == out + c.Bytes()
    ensures var v := Rotated(s[r := c], r); InOrder(v, n) && AllWf(v) && out + Concat(v) == Concat(Rotated(s, r))
  {
    var v := Rotated(s, r);
    RotatedUpdate(s, r, 0, c);
    ConsumeConcat(v, c, out);
    assert InOrder(v[0 := c], n);
  }

  /** The first chunk after all of it was taken. */
  lemma EmptyFirst(s: seq<Chunk>, r: nat, n: nat, c: Chunk)
    requires r < |s| && InOrder(Rotated(s, r), n) && n > 0 && AllWf(Rotated(s, r)) && c.Empty()
    ensures var r' := (r + 1) % |s|;
            && r' < |s| && Place(r', n - 1, |s|) == Place(r, n, |s|)
            && var v := Rotated(s[r := c], r');
               InOrder(v, n - 1) && AllWf(v) && Rotated(s, r)[0].Bytes() + Concat(v) == Concat(Rotated(s, r))
  {
    var v := Rotated(s, r);
    NextPlace(r, 0, |s|);
    RotatedUpdate(s, r, 0, c);
    RotatedNext(s[r := c], r);
    EmptiedInOrder(v, n, c);
    EmptiedConcat(v, c);
  }

  lemma AllEmpty(s: seq<Chunk>)
    requires s != [] && forall i :: 0 <= i < |s| ==> s[i].Empty()
    ensures Rotated(s, 0) == s && InOrder(s, 0) && AllWf(s) && Concat(s) == []
  {
    ConcatEmpty(s);
  }

  /** Ring `s`, read at place `r` and written at place `w`, with `n` chunks filled, after `input` came in and `output`
      went out. */
  ghost predicate Consistent(s: seq<Chunk>, r: nat, w: nat, n: nat, output: seq<Byte>, input: seq<Byte>) {
    && r < |s| && InOrder(Rotated(s, r), n) && AllWf(Rotated(s, r)) && w == Place(r, n, |s|)
    && output + Concat(Rotated(s, r)) == input
  }

  lemma Emptied(s: seq<Chunk>, r: nat, w: nat, n: nat, output: seq<Byte>, input: seq<Byte>, c: Chunk)
    returns (r': nat, output': seq<Byte>)
    requires Consistent(s, r, w, n, output, input) && n > 0 && c.Empty()
    ensures r' == (r + 1) % |s| && output' == output + Rotated(s, r)[0].Bytes()
    ensures Consistent(s[r := c], r', w, n - 1, output', input)
  {
    EmptyFirst(s, r, n, c);
    r', output' := (r + 1) % |s|, output + Rotated(s, r)[0].Bytes();
    Assoc(output, Rotated(s, r)[0].Bytes(), Concat(Rotated(s[r := c], r')));
  }

  class ChunkRing {
    const chunks: array<Chunk>
    var ridx: nat
    var widx: nat
    /** How many chunks are filled, and all bytes ever put in and taken out since the last reset. */
    ghost var count: nat
    ghost var produced: seq<Byte>
    ghost var consumed: seq<Byte>

    ghost function View(): seq<Chunk>
      requires ridx <= chunks.Length
      reads this, chunks
    { Rotated(chunks[..], ridx) }

    ghost predicate Valid()
      reads this, chunks
    {
      ridx < chunks.Length && Consistent(chunks[..], ridx, widx, count, consumed, produced)
    }

    /** buffer_init. */
    constructor (nrChunks: nat)
      requires nrChunks > 0
      ensures Valid() && chunks.Length == nrChunks && produced == consumed == [] && fresh(chunks)
    {
      var empty := Chunk(seq(CHUNK_SIZE, _ => 0), 0, 0, false);
      chunks := new Chunk[nrChunks](_ => empty);
      ridx, widx, count, produced, consumed := 0, 0, 0, [], [];
      new;
      AllEmpty(chunks[..]);
    }

    method Reset()
      requires Valid()
      modifies this, chunks
      ensures Valid() && produced == consumed == [] && count == 0
    {
      AllChunks();
      ridx, widx, count, produced, consumed := 0, 0, 0, [], [];
      Clear();
      AllEmpty(chunks[..]);
    }

    lemma AllChunks()
      requires Valid()
      ensures AllWf(chunks[..])
    {
      forall j | 0 <= j < chunks.Length ensures chunks[..][j].Wf() {
        RotatedAt(chunks[..], ridx, if j >= ridx then j - ridx else j + chunks.Length - ridx);
      }
    }

    method Clear()
      requires AllWf(chunks[..])
      modifies chunks
      ensures forall j :: 0 <= j < chunks.Length ==> chunks[j].Empty()
    {
      var i := 0;
      while i < chunks.Length
        invariant i <= chunks.Length
        invariant forall j :: i <= j < chunks.Length ==> chunks[j] == old(chunks[..])[j]
        invariant forall j :: 0 <= j < i ==> chunks[j].Empty()
      {
        assert chunks[i] == old(chunks[..])[i];
        chunks[i] := chunks[i].(l := 0, h := 0, filled := false);
        i := i + 1;
      }
    }

    /** What buffer_get_rpos promises its caller: `size` bytes from `pos` on in chunk `at` are the consumer's. */
    ghost predicate ReadWindow(at: nat, pos: nat, size: nat)
      requires Valid()
      reads this, chunks
    {
      && count > 0 && at == ridx && chunks[at].filled && chunks[at].Wf() && pos == chunks[at].l
      && size == chunks[at].h - pos > 0
    }

    /** What buffer_get_wpos promises its caller: `size` bytes from `pos` on in chunk `at` are the producer's. */
    ghost predicate WriteWindow(at: nat, pos: nat, size: nat)
      requires Valid()
      reads this, chunks
    {
      && count < chunks.Length && at == widx < chunks.Length && !chunks[at].filled && chunks[at].Wf()
      && pos == chunks[at].h && size == CHUNK_SIZE - pos >= LEAST
    }

    /** The producer's steps leave the consumer's window alone. */
    twostate predicate ReaderKept()
      requires old(ridx) < chunks.Length
      reads this, chunks
    { ridx == old(ridx) && (old(count) > 0 ==> count > 0 && chunks[ridx] == old(chunks[ridx])) }

    /** The consumer's steps leave the producer's window alone. */
    twostate predicate WriterKept()
      requires old(widx) < chunks.Length
      reads this, chunks
    { widx == old(widx) && (old(count) < chunks.Length ==> count < chunks.Length && chunks[widx] == old(chunks[widx])) }

    /** buffer_get_rpos: the window to read from, at the front of the bytes in the ring. */
    method GetRpos() returns (size: nat, at: nat, pos: nat)
      requires Valid()
      ensures if count > 0 then ReadWindow(at, pos, size) else size == 0
      ensures size > 0 ==> chunks[at].data[pos..pos + size] <= Concat(View())
    {
      WriteSlot();
      size, at, pos := 0, ridx, 0;
      if chunks[ridx].filled { size, pos := chunks[ridx].h - chunks[ridx].l, chunks[ridx].l; }
    }

    /** buffer_get_wpos: the window to write to.  It is empty or has at least 1024 bytes, and never shares a chunk with
        the window to read from. */
    method GetWpos() returns (size: nat, at: nat, pos: nat)
      requires Valid()
      ensures if count < chunks.Length then WriteWindow(at, pos, size) else size == 0
      ensures size > 0 && count > 0 ==> at != ridx
    {
      WriteSlot();
      size, at, pos := 0, widx, 0;
      if !chunks[widx].filled { size, pos := CHUNK_SIZE - chunks[widx].h, chunks[widx].h; }
    }

    /** The producer puts bytes into its window.  They are not part of the ring before buffer_fill. */
    method Write(at: nat, pos: nat, bytes: seq<Byte>, ghost size: nat)
      requires Valid() && WriteWindow(at, pos, size) && |bytes| <= size
      modifies chunks
      ensures Valid() && ReaderKept() && Concat(View()) == old(Concat(View()))
      ensures chunks[at] == old(chunks[at]).(data := chunks[at].data)
      ensures pos + |bytes| <= |chunks[at].data| && chunks[at].data[pos..pos + |bytes|] == bytes
    {
      WriteSlot();
      var c := chunks[at];
      c := c.(data := c.data[..pos] + bytes + c.data[pos + |bytes|..]);
      assert c.data[..pos] == chunks[at].data[..pos] && c.data[pos..pos + |bytes|] == bytes;
      assert c.Bytes() == chunks[at].Bytes() == chunks[at].Bytes() + [];
      FillConcat(View(), count, c, []);
      FillInOrder(View(), count, c);
      RotatedUpdate(chunks[..], ridx, count, c);
      ghost var s := chunks[..];
      chunks[at] := c;
      assert chunks[..] == s[at := c];
    }

    /** Where the chunk being written stands in the view. */
    lemma WriteSlot()
      requires Valid()
      ensures widx < chunks.Length && (widx == ridx ==> count == 0 || count == chunks.Length)
      ensures count < chunks.Length ==> View()[count] == chunks[widx] && chunks[widx].Writable()
      ensures count == chunks.Length ==> widx == ridx && chunks[widx].filled
      ensures chunks[ridx] == View()[0] && (chunks[ridx].filled <==> count > 0)
    {
      RotatedAt(chunks[..], ridx, 0);
      if count < chunks.Length { RotatedAt(chunks[..], ridx, count); }
    }

    /** buffer_fill: the next `n` bytes of the chunk being written join the ring.  The chunk is closed when less than
        1024 bytes are free, or on an empty write. */
    method Fill(n: nat) returns (closed: bool)
      requires Valid() && !chunks[widx].filled && n <= CHUNK_SIZE - chunks[widx].h
      modifies this, chunks
      ensures Valid() && ReaderKept() && consumed == old(consumed)
      ensures old(chunks[widx].Wf())
              && produced == old(produced + chunks[widx].data[chunks[widx].h..chunks[widx].h + n])
      ensures count == old(count) + if closed then 1 else 0
      ensures closed <==> CHUNK_SIZE - (old(chunks[widx].h) + n) < LEAST || (n == 0 && old(chunks[widx].h) > 0)
    {
      WriteSlot();
      var c := chunks[widx];
      ghost var bytes := c.data[c.h..c.h + n];
      assert c.data[..c.h + n] == c.data[..c.h] + bytes;
      c := c.(h := c.h + n);
      closed := CHUNK_SIZE - c.h < LEAST || (n == 0 && c.h > 0);
      if closed { c := c.(filled := true); }
      Store(c, closed, bytes);
    }

    method Store(c: Chunk, closed: bool, ghost bytes: seq<Byte>)
      requires Valid() && count < chunks.Length && (if closed then c.Readable() else c.Writable())
      requires View()[count].Wf() && c.Bytes() == View()[count].Bytes() + bytes
      modifies this, chunks
      ensures Valid() && ReaderKept() && produced == old(produced) + bytes && consumed == old(consumed)
      ensures count == old(count) + if closed then 1 else 0
    {
      WriteSlot();
      FillConcat(View(), count, c, bytes);
      FillInOrder(View(), count, c);
      RotatedUpdate(chunks[..], ridx, count, c);
      Assoc(consumed, Concat(View()), bytes);
      ghost var s := chunks[..];
      chunks[widx] := c;
      assert chunks[..] == s[widx := c];
      if closed {
        NextPlace(ridx, count, chunks.Length);
        widx := (widx + 1) % chunks.Length;
        count := count + 1;
      }
      produced := produced + bytes;
    }

    /** buffer_consume of `n` bytes of the window. */
    method Consume(n: nat)
      requires Valid() && count > 0 && n <= chunks[ridx].h - chunks[ridx].l
      modifies this, chunks
      ensures Valid() && WriterKept() && produced == old(produced)
      ensures consumed == old(consumed) + old(Concat(View()))[..n]
      ensures old(chunks[ridx].Wf())
              && consumed == old(consumed + chunks[ridx].data[chunks[ridx].l..chunks[ridx].l + n])
    {
      WriteSlot();
      var c := chunks[ridx];
      ghost var all := c.Bytes();
      assert all[..n] == c.data[c.l..c.l + n];
      c := c.(l := c.l + n);
      assert c.Bytes() == all[n..] && all == all[..n] + all[n..] && all <= Concat(View());
      if c.l == c.h {
        Release(c.(l := 0, h := 0, filled := false));
      } else {
        Keep(c, all[..n]);
      }
    }

    method Keep(c: Chunk, ghost out: seq<Byte>)
      requires Valid() && count > 0 && c.Readable() && View()[0].Bytes() == out + c.Bytes()
      modifies this`consumed, chunks
      ensures Valid() && WriterKept() && consumed == old(consumed) + out
    {
      WriteSlot();
      TakeFirst(chunks[..], ridx, count, c, out);
      ghost var s := chunks[..];
      chunks[ridx] := c;
      assert chunks[..] == s[ridx := c];
      consumed := consumed + out;
    }

    method Release(c: Chunk)
      requires Valid() && count > 0 && c.Empty()
      modifies this`consumed, this`ridx, this`count, chunks
      ensures Valid() && WriterKept() && consumed == old(consumed) + old(View()[0].Bytes())
    {
      WriteSlot();
      ghost var s := chunks[..];
      ghost var next, output := Emptied(s, ridx, widx, count, consumed, produced, c);
      chunks[ridx] := c;
      assert chunks[..] == s[ridx := c];
      ridx := (ridx + 1) % chunks.Length;
      count := count - 1;
      consumed := output;
    }

    /** buffer_get_filled_chunks: computed from the two indices, it is the number of filled flags. */
    method GetFilledChunks() returns (c: nat)
      requires Valid()
      ensures c == count == Filled(chunks[..])
    {
      WriteSlot();
      FilledRotated(chunks[..], ridx);
      FilledInOrder(View(), count);
      if ridx < widx {
        c := widx - ridx;
      } else if ridx > widx {
        c := chunks.Length - ridx + widx;
      } else if chunks[ridx].filled {
        c := chunks.Length;
      } else {
        c := 0;
      }
    }
  }

  // ---- both threads ----

  /** The producer between its steps: without a window, with one, or with `bytes` written into it. */
  datatype Producer = NoRoom | Room(at: nat, pos: nat, size: nat) | Wrote(at: nat, pos: nat, bytes: seq<Byte>)

  /** The consumer between its steps: without a window, with one, or with `bytes` read from it. */
  datatype Consumer = NoData | Data(at: nat, pos: nat, size: nat) | Took(at: nat, pos: nat, bytes: seq<Byte>)

  /** The next step of a thread: the producer asks for a window, writes as much of `bytes` as fits, and fills; the
      consumer asks for a window, reads up to `n` bytes, and consumes them.  Both locks are held for a reset. */
  datatype Event = GetRoom | Put(bytes: seq<Byte>) | DoFill | GetData | Take(n: nat) | DoConsume | DoReset

  /** The producer's window, and what is in it, is still what it was when the producer got it. */
  ghost predicate Holds(ring: ChunkRing, p: Producer)
    requires ring.Valid()
    reads ring, ring.chunks
  {
    match p
    case NoRoom => true
    case Room(at, pos, size) => ring.WriteWindow(at, pos, size)
    case Wrote(at, pos, bytes) =>
      pos + |bytes| <= CHUNK_SIZE && ring.WriteWindow(at, pos, CHUNK_SIZE - pos)
      && ring.chunks[at].data[pos..pos + |bytes|] == bytes
  }

  ghost predicate Sees(ring: ChunkRing, c: Consumer)
    requires ring.Valid()
    reads ring, ring.chunks
  {
    match c
    case NoData => true
    case Data(at, pos, size) => ring.ReadWindow(at, pos, size)
    case Took(at, pos, bytes) =>
      ring.count > 0 && at == ring.ridx && ring.ReadWindow(at, pos, ring.chunks[at].h - ring.chunks[at].l)
      && pos + |bytes| <= ring.chunks[at].h && ring.chunks[at].data[pos..pos + |bytes|] == bytes
  }

  /** One step of the producer.  Its window survives; what the consumer holds does too. */
  method ProducerStep(ring: ChunkRing, p: Producer, e: Event, ghost c: Consumer)
    returns (p': Producer, ghost put: seq<Byte>)
    requires ring.Valid() && Holds(ring, p) && Sees(ring, c)
    modifies ring, ring.chunks
    ensures ring.Valid() && Holds(ring, p') && Sees(ring, c)
    ensures ring.consumed == old(ring.consumed) && ring.produced == old(ring.produced) + put
    ensures put == if p.Wrote? && e.DoFill? then p.bytes else []
    ensures p.NoRoom? && e.GetRoom? ==> (p'.Room? <==> old(ring.count) < ring.chunks.Length) && !p'.Wrote?
    ensures p.Room? && e.Put? ==>
              p'.Wrote? && p'.bytes == if |e.bytes| <= p.size then e.bytes else e.bytes[..p.size]
    ensures p.Wrote? && e.DoFill? ==> p' == NoRoom
  {
    p', put := p, [];
    match p {
      case NoRoom =>
        if e.GetRoom? {
          var size, at, pos := ring.GetWpos();
          if size > 0 { p' := Room(at, pos, size); }
        }
      case Room(at, pos, size) =>
        if e.Put? {
          p' := PutBytes(ring, at, pos, size, e.bytes, c);
        }
      case Wrote(at, pos, bytes) =>
        if e.DoFill? {
          FillBytes(ring, at, pos, bytes, c);
          p', put := NoRoom, bytes;
        }
    }
  }

  method PutBytes(ring: ChunkRing, at: nat, pos: nat, size: nat, given: seq<Byte>, ghost c: Consumer)
    returns (p': Producer)
    requires ring.Valid() && ring.WriteWindow(at, pos, size) && Sees(ring, c)
    modifies ring.chunks
    ensures ring.Valid() && p'.Wrote? && Holds(ring, p') && Sees(ring, c)
    ensures p'.bytes == if |given| <= size then given else given[..size]
  {
    var bytes := if |given| <= size then given else given[..size];
    ring.Write(at, pos, bytes, size);
    p' := Wrote(at, pos, bytes);
  }

  method FillBytes(ring: ChunkRing, at: nat, pos: nat, bytes: seq<Byte>, ghost c: Consumer)
    requires ring.Valid() && Holds(ring, Wrote(at, pos, bytes)) && Sees(ring, c)
    modifies ring, ring.chunks
    ensures ring.Valid() && Sees(ring, c)
    ensures ring.consumed == old(ring.consumed) && ring.produced == old(ring.produced) + bytes
  {
    var closed := ring.Fill(|bytes|);
  }

  /** One step of the consumer.  Its window survives; what the producer holds does too. */
  method ConsumerStep(ring: ChunkRing, c: Consumer, e: Event, ghost p: Producer)
    returns (c': Consumer, ghost taken: seq<Byte>)
    requires ring.Valid() && Holds(ring, p) && Sees(ring, c)
    modifies ring, ring.chunks
    ensures ring.Valid() && Holds(ring, p) && Sees(ring, c')
    ensures ring.produced == old(ring.produced) && ring.consumed == old(ring.consumed) + taken
    ensures taken == if c.Took? && e.DoConsume? then c.bytes else []
    ensures c.NoData? && e.GetData? ==> (c'.Data? <==> old(ring.count) > 0) && !c'.Took?
    ensures c.Data? && e.Take? ==> c'.Took? && |c'.bytes| == if e.n <= c.size then e.n else c.size
    ensures c.Took? && e.DoConsume? ==> c' == NoData
  {
    c', taken := c, [];
    match c {
      case NoData =>
        if e.GetData? {
          var size, at, pos := ring.GetRpos();
          if size > 0 { c' := Data(at, pos, size); }
        }
      case Data(at, pos, size) =>
        if e.Take? {
          var n := if e.n <= size then e.n else size;
          c' := Took(at, pos, ring.chunks[at].data[pos..pos + n]);
        }
      case Took(at, pos, bytes) =>
        if e.DoConsume? {
          ring.Consume(|bytes|);
          c', taken := NoData, bytes;
        }
    }
  }

  /** Any interleaving of the two threads: every step finds its window as it was handed out, so neither BUG_ON fires;
      and the bytes read, one after the other, are those written, in the same order, as far as they were read. */
  method Interleave(ring: ChunkRing, schedule: seq<Event>) returns (ghost written: seq<Byte>, ghost read: seq<Byte>)
    requires ring.Valid() && ring.produced == ring.consumed == []
    modifies ring, ring.chunks
    ensures ring.Valid() && written == ring.produced && read == ring.consumed && read <= written
    ensures written == read + Concat(ring.View())
  {
    var p, c := NoRoom, NoData;
    written, read := [], [];
    var i := 0;
    while i < |schedule|
      invariant i <= |schedule| && ring.Valid() && Holds(ring, p) && Sees(ring, c)
      invariant written == ring.produced && read == ring.consumed
    {
      var e := schedule[i];
      if e.DoReset? {
        if p.NoRoom? && c.NoData? {
          ring.Reset();
          written, read := [], [];
        }
      } else if e.GetRoom? || e.Put? || e.DoFill? {
        ghost var put;
        p, put := ProducerStep(ring, p, e, c);
        written := written + put;
      } else {
        ghost var taken;
        c, taken := ConsumerStep(ring, c, e, p);
        read := read + taken;
      }
      i := i + 1;
    }
  }

  // ---- prebuffering (_prebuffer in src/core/player.c) ----

  /** What ip_read answers: try again, an error, or bytes, none of them at the end. */
  datatype Answer = Again | Failed | Got(bytes: seq<Byte>)

  /** How it stops: enough chunks are filled, the input has ended, the answers are used up, or it would ask for zero
      bytes, which ip_read does not allow. */
  datatype Outcome = Enough | Ended | Waiting | AskedForNothing

  predicate Delivers(a: Answer) { a.Got? && a.bytes != [] }

  function PrebufferLimit(remote: bool, nrChunks: nat, secondSize: nat): nat {
    if remote then nrChunks
    else
      var limit := 250 * secondSize / 1000 / CHUNK_SIZE;
      if limit < 1 then 1 else limit
  }

  /** The limit is within the ring for a stream, and otherwise iff a quarter of a second is less than one chunk more. */
  lemma LimitFits(remote: bool, nrChunks: nat, secondSize: nat)
    requires nrChunks > 0
    ensures PrebufferLimit(remote, nrChunks, secondSize) <= nrChunks <==>
              remote || 250 * secondSize < (nrChunks + 1) * (1000 * CHUNK_SIZE)
    ensures PrebufferLimit(remote, nrChunks, secondSize) >= 1
    ensures if remote then PrebufferLimit(remote, nrChunks, secondSize) == nrChunks
            else forall n: nat :: PrebufferLimit(remote, n, secondSize) == PrebufferLimit(remote, nrChunks, secondSize)
  {
    if !remote { DivAtMost(250 * secondSize / 1000, nrChunks); }
  }

  lemma DivAtMost(q: nat, n: nat)
    ensures q / CHUNK_SIZE <= n <==> q < (n + 1) * CHUNK_SIZE
  {
  }

  /** The smallest ring, and samples of 4 bytes on two channels at 192 kHz. */
  lemma LimitBeyond()
    ensures PrebufferLimit(false, 3, 192000 * 2 * 4) == 6
  {
  }

  lemma {:induction false} ConcatLength(v: seq<Chunk>)
    requires AllWf(v)
    ensures |Concat(v)| <= |v| * CHUNK_SIZE
  {
    if v == [] {
    } else {
      ConcatLength(v[1..]);
    }
  }

  function Flat(parts: seq<seq<Byte>>): seq<Byte> {
    if parts == [] then [] else Flat(parts[..|parts| - 1]) + parts[|parts| - 1]
  }

  lemma FlatNext(parts: seq<seq<Byte>>, b: seq<Byte>)
    ensures Flat(parts + [b]) == Flat(parts) + b
  {
    assert (parts + [b])[..|parts|] == parts;
  }

  /** What was taken of each answer so far: its bytes, cut to the window if they are more, which has 1024 at least. */
  predicate TakenOf(answers: seq<Answer>, parts: seq<seq<Byte>>) {
    |parts| <= |answers| && forall k :: 0 <= k < |parts| ==> PartOf(answers[k], parts[k])
  }

  predicate PartOf(a: Answer, part: seq<Byte>) {
    if a.Got? then part <= a.bytes && (|a.bytes| <= LEAST ==> part == a.bytes) && (a.bytes != [] ==> part != [])
    else part == []
  }

  /** It asks for zero bytes only if the limit is larger than the ring; and then it does, unless the input ends before.
      */
  method Prebuffer(ring: ChunkRing, limit: nat, answers: seq<Answer>) returns (o: Outcome, ghost parts: seq<seq<Byte>>)
    requires ring.Valid()
    modifies ring, ring.chunks
    ensures ring.Valid() && ring.consumed == old(ring.consumed)
    ensures TakenOf(answers, parts) && ring.produced == old(ring.produced) + Flat(parts)
    ensures o == Enough ==> limit <= ring.count
    ensures o == Ended ==> parts != [] && (answers[|parts| - 1] == Failed || answers[|parts| - 1] == Got([]))
    ensures o == AskedForNothing ==> limit > ring.chunks.Length == ring.count
    ensures o == Waiting ==> |parts| == |answers|
    ensures (forall i :: 0 <= i < |answers| ==> Delivers(answers[i])) && |answers| > ring.chunks.Length * CHUNK_SIZE ==>
              o == if limit <= ring.chunks.Length then Enough else AskedForNothing
  {
    var i := 0;
    parts := [];
    while true
      invariant i <= |answers| && |parts| == i && ring.Valid() && ring.consumed == old(ring.consumed)
      invariant TakenOf(answers, parts) && ring.produced == old(ring.produced) + Flat(parts)
      invariant (forall k :: 0 <= k < i ==> Delivers(answers[k])) ==> |ring.produced| >= |ring.consumed| + i
      decreases |answers| - i
    {
      var filled := ring.GetFilledChunks();
      if filled >= limit { return Enough, parts; }
      var size, at, pos := ring.GetWpos();
      if size == 0 { return AskedForNothing, parts; }
      if i == |answers| {
        ConcatLength(ring.View());
        return Waiting, parts;
      }
      var got := TakeIn(ring, at, pos, size, answers[i]);
      FlatNext(parts, got);
      Assoc(old(ring.produced), Flat(parts), got);
      parts := parts + [got];
      if answers[i] != Again && got == [] { return Ended, parts; }
      i := i + 1;
    }
  }

  /** One round of it, with room. */
  method TakeIn(ring: ChunkRing, at: nat, pos: nat, size: nat, a: Answer) returns (got: seq<Byte>)
    requires ring.Valid() && ring.WriteWindow(at, pos, size)
    modifies ring, ring.chunks
    ensures ring.Valid() && ring.consumed == old(ring.consumed) && ring.produced == old(ring.produced) + got
    ensures PartOf(a, got) && (got != [] <==> Delivers(a))
  {
    got := Received(a, size);
    if a != Again { Feed(ring, at, pos, size, got); }
  }

  method Feed(ring: ChunkRing, at: nat, pos: nat, size: nat, got: seq<Byte>)
    requires ring.Valid() && ring.WriteWindow(at, pos, size) && |got| <= size
    modifies ring, ring.chunks
    ensures ring.Valid() && ring.consumed == old(ring.consumed) && ring.produced == old(ring.produced) + got
  {
    ring.Write(at, pos, got, size);
    var closed := ring.Fill(|got|);
  }

  function Received(a: Answer, size: nat): (bytes: seq<Byte>)
    ensures |bytes| <= size && (size > 0 ==> (bytes != [] <==> Delivers(a))) && (size >= LEAST ==> PartOf(a, bytes))
  { if !a.Got? then [] else if |a.bytes| <= size then a.bytes else a.bytes[..size] }
}
