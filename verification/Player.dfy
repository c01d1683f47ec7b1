/** The playback engine of src/core/player.c.  Each control call, and each stretch of the consumer thread between taking
    and releasing the consumer lock, is one method.  What a decoder, a device or the play list answers is an
    argument. */
module Player {
  import opened Common
  import opened Scaling

  datatype ProducerStatus = Unloaded | Halted | Reading | Held
  datatype ConsumerStatus = Stopped | Playing | Paused
  datatype Track = Track(filename: string, album: Option<string>)

  /** What a device is opened with: sample format and channel map of the input, at the playback speed. */
  datatype Format = Format(sf: int, speed: real)

  /** The states in which the locks are released. */
  predicate AtRest(p: ProducerStatus, c: ConsumerStatus) {
    || (p == Unloaded && c == Stopped)
    || (p == Halted && c == Stopped)
    || (p == Reading && c == Playing)
    || (p == Held && c == Paused)
    || (p == Reading && c == Stopped)
  }

  /** What can happen between two moments when the locks are free; the producer thread only fills the ring. */
  datatype Call =
    | Stop | Play | Pause | SetFile(ti: Track) | PlayFile(ti: Track) | SetOp
    | Seek(offset: real, relative: bool, startPlaying: bool, secondSize: Positive)
    | SetBufferChunks | SetSpeed(newSpeed: real) | SetSoftVol(on: bool) | SetRg(on: bool) | ConsumerTurn

  /** What the outside answers during one call: the play list, the decoder (`rewind` and `sought` come from ip_seek)
      and the device.  Nothing is asked twice, but for a second attempt at the device. */
  datatype Answers = Answers(
    remote: bool, next: Option<Track>, fileOk: bool, sf: int, rewind: int, duration: int, sought: int,
    selected: bool, deviceOk: bool, primed: int, oldOk: bool, space: int, rounds: seq<Round>)

  /** One round of the loop that writes: the bytes the ring has, whether the file has ended, the result of op_write. */
  datatype Round = Round(available: int, eof: bool, written: int)

  /** Whether the producer gets an input to read: it may have none, need to open it, or have it open. */
  predicate Opened(p: ProducerStatus, a: Answers) {
    match p
    case Unloaded => a.next.Some? && a.fileOk
    case Halted => a.fileOk
    case _ => true
  }

  function Seconds(bytes: nat, secondSize: Positive): (pos: real)
    ensures 0.0 <= pos && pos * secondSize as real == bytes as real
  { bytes as real / secondSize as real }

  function Bytes(pos: real, secondSize: Positive): (bytes: nat)
    requires 0.0 <= pos
    ensures bytes as real <= pos * secondSize as real < bytes as real + 1.0
  { (pos * secondSize as real).Floor }

  /** A seek from `from` that leaves both positions of the consumer where the decoder was asked to go, if it went. */
  ghost predicate Sought(from: nat, offset: real, relative: bool, secondSize: Positive, a: Answers, done: bool,
                         nextOne: bool, consumerPos: nat, scalePos: nat, ipAt: real) {
    var goal := NewPosition(Seconds(from, secondSize), offset, relative, a.duration);
    && (done <==> goal.To? && a.sought == 0) && (nextOne <==> goal == NextOne)
    && consumerPos == (if done then Bytes(goal.pos, secondSize) else from)
    && (done ==> scalePos == consumerPos && ipAt == goal.pos)
  }

  /** What came of one turn of the consumer thread: nothing to do, maybe bytes written, the device opened anew because
      it had no room to tell of or because a write failed, or the end of the file. */
  datatype Turn = Waited | Wrote | Reopened | Failed | Ended

  function Least(m: int, n: int): int { if m < n then m else n }

  /** How many bytes are written from round `i` on into `space` bytes of the device, and how that ends: with the
      device full, the ring empty, a failed write, or the lock released after the last round. */
  function Served(space: nat, rounds: seq<Round>, i: nat): (r: (nat, Turn))
    requires i <= |rounds|
    ensures r.0 <= space && (r.1 == Wrote || r.1 == Failed || r.1 == Ended)
    ensures r.1 == Ended ==> exists k :: i <= k < |rounds| && rounds[k].available <= 0 && rounds[k].eof
    ensures r.1 == Failed ==> exists k :: i <= k < |rounds| && rounds[k].written < 0
    decreases |rounds| - i
  {
    if space == 0 || i == |rounds| then (0, Wrote)
    else if rounds[i].available <= 0 then (0, if rounds[i].eof then Ended else Wrote)
    else if rounds[i].written < 0 then (0, Failed)
    else
      var n := Least(rounds[i].written, Least(rounds[i].available, space));
      var rest := Served(space - n, rounds, i + 1);
      (n + rest.0, rest.1)
  }

  type Positive = n: int | n > 0 witness 1

  /** Where player_seek goes: a position in seconds, the next track, or nowhere. */
  datatype Goal = To(pos: real) | NextOne | Refused

  /** The arithmetic of player_seek from position `pos` in a track of `duration` seconds. */
  function NewPosition(pos: real, offset: real, relative: bool, duration: int): (g: Goal)
    ensures g.To? && 0.0 <= pos ==> 0.0 <= g.pos
  {
    if duration < 0 then Refused
    else if relative then
      var p := if pos + offset < 0.0 then 0.0 else pos + offset;
      if offset > 0.0 && p > duration as real then NextOne
      else if offset > 0.0 && p < pos - 0.5 then Refused
      else To(p)
    else if offset < 0.0 then Refused
    else
      var last := if duration as real - 5.0 < 0.0 then 0.0 else duration as real - 5.0;
      To(if offset > duration as real - 5.0 then last else offset)
  }

  /** A seek never leaves the track: forwards it ends inside it or goes on to the next one, backwards at its start, and
      to an absolute position it keeps five seconds to play if there are five.  From inside a track it is refused only
      for a negative absolute position. */
  lemma SeekInside(pos: real, offset: real, relative: bool, duration: int)
    requires 0.0 <= pos
    ensures var g, last := NewPosition(pos, offset, relative, duration), duration as real;
            && (g == Refused <==> duration < 0 || (!relative && offset < 0.0))
            && (g == NextOne <==> duration >= 0 && relative && offset > 0.0 && pos + offset > last)
            && (g.To? ==> 0.0 <= g.pos && (pos <= last ==> g.pos <= last))
            && (g.To? && relative ==> if pos + offset < 0.0 then g.pos == 0.0 else g.pos - pos == offset)
            && (g.To? && !relative && offset + 5.0 <= last ==> g.pos == offset)
            && (g.To? && !relative && offset + 5.0 > last ==> if last >= 5.0 then g.pos + 5.0 == last else g.pos == 0.0)
  {
  }

  class Player {
    var producer: ProducerStatus
    var consumer: ConsumerStatus
    var bufferSf: int
    var speed: real
    var info: Option<Track>
    var softVol: bool
    var replaygain: bool
    var consumerPos: nat
    var scalePos: nat
    var repeatCurrent: bool
    var cont: bool
    var contAlbum: bool

    /** The format the open input delivers. */
    var ipSf: int

    // The devices as they really are.
    ghost var loaded: bool
    ghost var ipOpen: bool
    ghost var ipAt: real  // the position the decoder was last told
    ghost var opOpen: bool
    ghost var opPaused: bool
    ghost var opFormat: Format

    /** How often what the device still held was thrown away; closing it plays that out. */
    ghost var drops: nat

    /** How often the ring was filled before playback. */
    ghost var fills: nat

    // How often the bytes ahead of the consumer have been scaled, how many of them before scaling was last enabled, and
    // how often each byte was scaled that went out while scaling was enabled.
    ghost var times: seq<nat>
    ghost var stale: nat
    ghost var handed: seq<nat>

    /** The input is open iff the producer reads or is held, and there is one iff the producer is not unloaded. */
    ghost predicate InputOk()
      reads this
    {
      && loaded == (producer != Unloaded) && ipOpen == (producer == Reading || producer == Held)
      && (loaded ==> info.Some?)
      && (!ipOpen ==> consumerPos == scalePos == 0 && times == [] && stale == 0)
    }

    /** The output is open iff the consumer is not stopped, and paused iff the consumer is. */
    ghost predicate OutputOk()
      reads this
    {
      opOpen == (consumer != Stopped) && (opOpen ==> opPaused == (consumer == Paused))
    }

    /** The open output has the format of the open input. */
    ghost predicate Tuned()
      reads this
    {
      opOpen && ipOpen ==> bufferSf == ipSf && opFormat == Format(bufferSf, speed)
    }

    predicate Scales()
      reads this
    { softVol || replaygain }

    /** No scaled byte is ahead, as far as the positions tell: switching scaling on now scales none again. */
    predicate Settled()
      reads this
    { Scales() || scalePos <= consumerPos }

    ghost predicate ScaleOk()
      reads this
    {
      && (Scales() ==> consumerPos <= scalePos && Ahead(times, stale, scalePos - consumerPos))
      && |times| == Max(stale, scalePos - consumerPos)
      && forall k :: 0 <= k < |times| ==> times[k] >= 1
    }

    /** What holds whenever the locks are free. */
    ghost predicate Valid()
      reads this
    {
      AtRest(producer, consumer) && InputOk() && OutputOk() && Tuned() && ScaleOk()
    }

    constructor (repeatCurrent: bool, cont: bool, contAlbum: bool)
      ensures Valid() && producer == Unloaded && consumer == Stopped && handed == []
    {
      producer, consumer, bufferSf, speed, info := Unloaded, Stopped, 0, 1.0, None;
      softVol, replaygain, consumerPos, scalePos := false, false, 0, 0;
      this.repeatCurrent, this.cont, this.contAlbum := repeatCurrent, cont, contAlbum;
      loaded, ipOpen, opOpen, times, stale, handed := false, false, false, [], 0, [];
      drops, fills := 0, 0;
    }

    // ---- the input, as src/core/input.c demands it is used ----

    method IpNew()
      requires !loaded
      modifies this`loaded
      ensures loaded
    { loaded := true; }

    method IpDelete()
      requires loaded && !ipOpen
      modifies this`loaded
      ensures !loaded
    { loaded := false; }

    method IpOpen(a: Answers) returns (ok: bool)
      requires loaded && !ipOpen
      modifies this`ipOpen, this`ipSf, this`ipAt
      ensures ok == ipOpen == a.fileOk && ipSf == a.sf && ipAt == 0.0
    {
      ok := a.fileOk;
      ipOpen, ipSf, ipAt := ok, a.sf, 0.0;
    }

    method IpClose()
      requires ipOpen
      modifies this`ipOpen
      ensures !ipOpen
    { ipOpen := false; }

    method IpSeek(pos: real, answer: int) returns (rc: int)
      requires ipOpen
      modifies this`ipAt
      ensures rc == answer && ipAt == if rc == 0 then pos else old(ipAt)
    {
      rc := answer;
      ipAt := if rc == 0 then pos else ipAt;
    }

    /** ip_eof, ip_read, ip_duration: an open input answers. */
    method IpAsk(answer: int) returns (r: int)
      requires ipOpen
      ensures r == answer
    { r := answer; }

    method IpIsRemote(a: Answers) returns (remote: bool)
      requires loaded
      ensures remote == a.remote
    { remote := a.remote; }

    // ---- the output ----

    method OpOpen(answer: bool) returns (ok: bool)
      requires !opOpen
      modifies this`opOpen, this`opFormat, this`opPaused
      ensures ok == opOpen == answer && opFormat == Format(bufferSf, speed) && !opPaused
    {
      ok := answer;
      opOpen, opFormat, opPaused := ok, Format(bufferSf, speed), false;
    }

    method OpClose()
      requires opOpen
      modifies this`opOpen
      ensures !opOpen
    { opOpen := false; }

    method OpDrop()
      requires opOpen
      modifies this`drops
      ensures drops == old(drops) + 1
    { drops := drops + 1; }

    method OpPause(pause: bool)
      requires opOpen && opPaused != pause
      modifies this`opPaused
      ensures opPaused == pause
    { opPaused := pause; }

    /** op_write, op_buffer_space: an open output answers. */
    method OpAsk(answer: int) returns (r: int)
      requires opOpen
      ensures r == answer
    { r := answer; }

    // ---- producer status ----

    method ResetBuffer()
      requires ScaleOk()
      modifies this`consumerPos, this`scalePos, this`times, this`stale
      ensures ScaleOk() && consumerPos == scalePos == 0 && times == [] && stale == 0
    {
      consumerPos, scalePos, times, stale := 0, 0, [], 0;
    }

    method SetBufferSf()
      requires ipOpen
      modifies this`bufferSf
      ensures bufferSf == ipSf
    { bufferSf := ipSf; }

    method Prebuffer()
      requires producer == Reading && ipOpen
      modifies this`fills
      ensures fills == old(fills) + 1
    {
      var rounds: nat := *;
      while rounds > 0
        invariant fills == old(fills)
      {
        var got := IpAsk(0);
        rounds := rounds - 1;
      }
      fills := fills + 1;
    }

    method FillRing()
      requires producer == Reading ==> ipOpen
      modifies this`fills
      ensures fills == old(fills) + if producer == Reading then 1 else 0
    {
      if producer == Reading { Prebuffer(); }
    }

    method ProducerPlay(a: Answers)
      requires InputOk() && ScaleOk()
      modifies this`ipAt, this`producer, this`loaded, this`ipOpen, this`ipSf, this`info,
               this`consumerPos, this`scalePos, this`times, this`stale
      ensures InputOk() && ScaleOk() && stale <= old(stale) && Loaded(a)
      ensures producer == if Opened(old(producer), a) then Reading else Unloaded
      ensures producer == Reading ==>
                ipSf == if old(producer) == Reading || old(producer) == Held then old(ipSf) else a.sf
      ensures consumerPos == if old(producer) == Reading && a.rewind == 0 then 0 else old(consumerPos)
      ensures producer == Reading ==> ipAt == old(OpenedAt(a))
    {
      match producer {
        case Unloaded =>
          if a.next.Some? {
            IpNew();
            var ok := IpOpen(a);
            if !ok {
              IpDelete();
              info := None;
            } else {
              producer, info := Reading, a.next;
            }
          }
        case Reading =>
          var rc := IpSeek(0.0, a.rewind);
          if rc == 0 { ResetBuffer(); }
        case Halted =>
          var ok := IpOpen(a);
          if !ok {
            IpDelete();
            producer := Unloaded;
          } else {
            producer := Reading;
          }
        case Held => producer := Reading;
      }
    }

    /** Where the input stands when it is to play: at its start, unless it was open and could not be rewound. */
    ghost function OpenedAt(a: Answers): real
      reads this
    { if producer == Held || (producer == Reading && a.rewind != 0) then ipAt else 0.0 }

    /** Only an unloaded producer changes the file: to the next one, or none if that does not open. */
    twostate predicate Loaded(new a: Answers)
      reads this
    { info == if old(producer) == Unloaded && a.next.Some? then (if a.fileOk then a.next else None) else old(info) }

    method ProducerStop()
      requires InputOk() && ScaleOk()
      modifies this`producer, this`ipOpen, this`consumerPos, this`scalePos, this`times, this`stale
      ensures InputOk() && ScaleOk() && producer == if old(producer) == Unloaded then Unloaded else Halted
      ensures (old(ipOpen) ==> consumerPos == scalePos == 0) && stale <= old(stale)
    {
      if producer == Reading || producer == Held {
        IpClose();
        producer := Halted;
        ResetBuffer();
      }
    }

    method ProducerUnload()
      requires InputOk() && ScaleOk()
      modifies this`producer, this`ipOpen, this`loaded, this`consumerPos, this`scalePos, this`times, this`stale
      ensures InputOk() && ScaleOk() && producer == Unloaded && stale <= old(stale)
    {
      ProducerStop();
      if producer == Halted {
        IpDelete();
        producer := Unloaded;
      }
    }

    method ProducerPause()
      modifies this`producer
      ensures producer == match old(producer) case Reading => Held case Held => Reading case p => p
    {
      if producer == Reading { producer := Held; } else if producer == Held { producer := Reading; }
    }

    method ProducerSetFile(ti: Track)
      requires InputOk() && ScaleOk()
      modifies this`producer, this`ipOpen, this`loaded, this`info, this`consumerPos, this`scalePos, this`times,
        this`stale
      ensures InputOk() && ScaleOk() && producer == Halted && info == Some(ti) && stale <= old(stale)
    {
      ProducerUnload();
      IpNew();
      producer, info := Halted, Some(ti);
    }

    /** A new input, not yet open, in the place of the old one. */
    method ReplaceInput()
      requires InputOk() && ScaleOk() && info.Some?
      modifies this`producer, this`ipOpen, this`loaded, this`consumerPos, this`scalePos, this`times, this`stale
      ensures InputOk() && ScaleOk() && producer == Halted && stale <= old(stale)
    {
      ProducerUnload();
      IpNew();
      producer := Halted;
    }

    // ---- consumer status ----

    method ConsumerPlay(a: Answers)
      requires OutputOk() && (opOpen ==> Tuned()) && (consumer == Stopped ==> ipOpen)
      modifies this`consumer, this`bufferSf, this`opOpen, this`opFormat, this`opPaused, this`drops
      ensures OutputOk() && Tuned()
      ensures consumer == if old(consumer) == Stopped && !a.deviceOk then Stopped else Playing
      ensures old(consumer) != Stopped ==> bufferSf == old(bufferSf) && opFormat == old(opFormat)
      ensures drops == old(drops) + if old(consumer) == Playing then 1 else 0
    {
      if consumer == Playing {
        OpDrop();
      } else if consumer == Stopped {
        SetBufferSf();
        var ok := OpOpen(a.deviceOk);
        if ok { consumer := Playing; }
      } else {
        OpPause(false);
        consumer := Playing;
      }
    }

    /** _consumer_stop drops what the device still holds, _consumer_drain_and_stop does not. */
    method ConsumerStop(drop: bool)
      requires OutputOk()
      modifies this`consumer, this`opOpen, this`drops
      ensures OutputOk() && consumer == Stopped
      ensures drops == old(drops) + if drop && old(consumer) != Stopped then 1 else 0
    {
      if consumer == Playing || consumer == Paused {
        if drop { OpDrop(); }
        OpClose();
        consumer := Stopped;
      }
    }

    method ConsumerPause()
      requires OutputOk()
      modifies this`consumer, this`opPaused
      ensures OutputOk() && consumer == match old(consumer) case Playing => Paused case Paused => Playing case c => c
    {
      if consumer == Playing {
        OpPause(true);
        consumer := Paused;
      } else if consumer == Paused {
        OpPause(false);
        consumer := Playing;
      }
    }

    /** After a change of input: reopen the device if the format differs. */
    method ChangeSf(drop: bool, a: Answers)
      requires InputOk() && OutputOk() && ScaleOk() && producer == Reading && consumer != Stopped
      requires opFormat == Format(bufferSf, speed)
      modifies this`consumer, this`bufferSf, this`opOpen, this`opFormat, this`opPaused, this`drops,
               this`producer, this`ipOpen, this`consumerPos, this`scalePos, this`times, this`stale
      ensures Valid() && stale <= old(stale)
      ensures if old(ipSf == bufferSf) || a.deviceOk
              then producer == Reading && consumer == Playing && consumerPos == old(consumerPos)
              else producer == Halted && consumer == Stopped
      ensures drops == old(drops) + if (if old(ipSf == bufferSf) then old(consumer) == Paused else drop) then 1 else 0
    {
      var oldSf := bufferSf;
      SetBufferSf();
      if bufferSf != oldSf {
        Reopen(drop, a);
      } else {
        Resume();
      }
    }

    method Reopen(drop: bool, a: Answers)
      requires InputOk() && opOpen && ScaleOk() && producer == Reading && consumer != Stopped && bufferSf == ipSf
      modifies this`opOpen, this`opFormat, this`opPaused, this`drops, this`consumer, this`producer, this`ipOpen,
               this`consumerPos, this`scalePos, this`times, this`stale
      ensures Valid() && stale <= old(stale) && drops == old(drops) + if drop then 1 else 0
      ensures if a.deviceOk then producer == Reading && consumer == Playing && consumerPos == old(consumerPos)
              else producer == Halted && consumer == Stopped
    {
      if drop { OpDrop(); }
      OpClose();
      var ok := OpOpen(a.deviceOk);
      if ok { consumer := Playing; } else { GiveUp(); }
    }

    /** The device is kept, and what it holds while it is paused is thrown away. */
    method Resume()
      requires OutputOk() && consumer != Stopped
      modifies this`opPaused, this`drops, this`consumer
      ensures OutputOk() && consumer == Playing && drops == old(drops) + if old(consumer) == Paused then 1 else 0
    {
      if consumer == Paused {
        OpDrop();
        OpPause(false);
      }
      consumer := Playing;
    }

    /** The output could not be opened, so the input is closed too. */
    method GiveUp()
      requires InputOk() && ScaleOk() && !opOpen
      modifies this`consumer, this`producer, this`ipOpen, this`consumerPos, this`scalePos, this`times, this`stale
      ensures Valid() && GaveUp() && stale <= old(stale) && (old(ipOpen) ==> consumerPos == 0)
    {
      consumer := Stopped;
      ProducerStop();
    }

    twostate predicate GaveUp()
      reads this
    { consumer == Stopped && producer == (if old(producer) == Unloaded then Unloaded else Halted) }

    /** What all calls but the two switches leave alone; and no call makes scaled bytes stale. */
    twostate predicate Undisturbed()
      reads this
    {
      && handed == old(handed) && softVol == old(softVol) && replaygain == old(replaygain) && stale <= old(stale)
      && repeatCurrent == old(repeatCurrent) && cont == old(cont) && contAlbum == old(contAlbum)
    }

    // ---- control calls ----

    method Stop()
      requires Valid()
      modifies this`consumer, this`opOpen, this`drops,
               this`producer, this`ipOpen, this`consumerPos, this`scalePos, this`times, this`stale
      ensures Valid() && Undisturbed() && GaveUp() && info == old(info) && speed == old(speed)
      ensures drops == old(drops) + if old(consumer) != Stopped then 1 else 0
    {
      ConsumerStop(true);
      ProducerStop();
    }

    /** Playback starts iff there is an input, it opens, and the device opens; else what was opened is closed again. */
    twostate predicate Started(new a: Answers)
      reads this
    { StartedAt(a, Playing) }

    /** The same, to be in status `c` when everything opened. */
    twostate predicate StartedAt(new a: Answers, c: ConsumerStatus)
      reads this
    {
      var ready := Opened(old(producer), a);
      && consumer == (if ready && a.deviceOk then c else Stopped)
      && producer == (if !ready then Unloaded else if !a.deviceOk then Halted
                      else if c == Paused then Held else Reading)
      && Loaded(a)
    }

    /** From a stopped player: open the input and then the output, and keep the input only if the output opened. */
    method Start(a: Answers)
      requires Valid() && consumer == Stopped
      modifies this`ipAt, this`consumer, this`bufferSf, this`opOpen, this`opFormat, this`opPaused, this`drops,
               this`producer, this`loaded, this`ipOpen, this`ipSf, this`info,
               this`consumerPos, this`scalePos, this`times, this`stale
      ensures Valid() && stale <= old(stale) && Started(a) && drops == old(drops)
      ensures consumer == Playing ==>
                && ipAt == old(OpenedAt(a))
                && consumerPos == if old(producer) == Reading && a.rewind == 0 then 0 else old(consumerPos)
    {
      ProducerPlay(a);
      if producer == Reading { OutputOn(a); }
    }

    /** The output for an input that is open, which is closed again if the output does not open. */
    method OutputOn(a: Answers)
      requires InputOk() && OutputOk() && ScaleOk() && producer == Reading && (opOpen ==> Tuned())
      modifies this`consumer, this`bufferSf, this`opOpen, this`opFormat, this`opPaused, this`drops, this`producer,
               this`ipOpen, this`consumerPos, this`scalePos, this`times, this`stale
      ensures Valid() && stale <= old(stale) && drops == old(drops) + if old(consumer) == Playing then 1 else 0
      ensures if old(consumer) != Stopped || a.deviceOk
              then producer == Reading && consumer == Playing && consumerPos == old(consumerPos)
              else producer == Halted && consumer == Stopped
    {
      ConsumerPlay(a);
      if consumer != Playing { ProducerStop(); }
    }

    /** A stream that plays is left alone, a stopped player starts, and a running one plays from the start if its input
        can be rewound. */
    method Play(a: Answers)
      requires Valid()
      modifies this
      ensures Valid() && Undisturbed()
      ensures old(producer) == Reading && a.remote ==>
                && producer == Reading && consumer == old(consumer) && info == old(info)
                && consumerPos == old(consumerPos) && drops == old(drops)
      ensures !(old(producer) == Reading && a.remote) ==> PlaysOn(a)
      ensures fills == old(fills) + if old(consumer) == Stopped && consumer == Playing then 1 else 0
    {
      if producer == Reading {
        var remote := IpIsRemote(a);
        if remote { return; }
      }
      var prebuffer := consumer == Stopped;
      PlayBoth(a);
      if consumer == Playing && prebuffer { Prebuffer(); }
    }

    twostate predicate PlaysOn(new a: Answers)
      reads this
    {
      if old(consumer) == Stopped then Started(a) && drops == old(drops)
      else
        && producer == Reading && consumer == Playing && info == old(info) && ipAt == old(OpenedAt(a))
        && drops == old(drops) + (if old(consumer) == Playing then 1 else 0)
        && consumerPos == if old(consumer) == Playing && a.rewind == 0 then 0 else old(consumerPos)
    }

    method PlayBoth(a: Answers)
      requires Valid()
      modifies this`ipAt, this`consumer, this`bufferSf, this`opOpen, this`opFormat, this`opPaused, this`drops,
               this`producer, this`loaded, this`ipOpen, this`ipSf, this`info,
               this`consumerPos, this`scalePos, this`times, this`stale
      ensures Valid() && stale <= old(stale) && PlaysOn(a)
    {
      ProducerPlay(a);
      if producer == Reading {
        OutputOn(a);
      } else {
        ConsumerStop(true);
      }
    }

    /** Pause and resume; a stream cannot pause and stops, and a stopped player starts. */
    method Pause(a: Answers)
      requires Valid()
      modifies this
      ensures Valid() && Undisturbed()
      ensures old(consumer) == Stopped ==> Started(a) && drops == old(drops)
      ensures old(consumer) == Playing && a.remote ==>
                producer == Halted && consumer == Stopped && info == old(info) && drops == old(drops) + 1
      ensures old(consumer) == Paused || (old(consumer) == Playing && !a.remote) ==>
                && consumerPos == old(consumerPos) && info == old(info) && drops == old(drops)
                && if old(consumer) == Paused then producer == Reading && consumer == Playing
                   else producer == Held && consumer == Paused
      ensures fills == old(fills) + if old(consumer) == Stopped && consumer == Playing then 1 else 0
    {
      if producer != Unloaded {
        var remote := IpIsRemote(a);
        if remote && consumer == Playing {
          Stop();
          return;
        }
      }
      if consumer == Stopped { Launch(a); } else { Toggle(); }
    }

    method Launch(a: Answers)
      requires Valid() && consumer == Stopped
      modifies this`fills, this`ipAt, this`consumer, this`bufferSf, this`opOpen, this`opFormat, this`opPaused,
               this`drops, this`producer, this`loaded, this`ipOpen, this`ipSf, this`info,
               this`consumerPos, this`scalePos, this`times, this`stale
      ensures Valid() && stale <= old(stale) && Started(a) && drops == old(drops)
      ensures fills == old(fills) + if consumer == Playing then 1 else 0
    {
      Start(a);
      if consumer == Playing { Prebuffer(); }
    }

    method Toggle()
      requires Valid() && consumer != Stopped
      modifies this`producer, this`consumer, this`opPaused
      ensures Valid() && if old(consumer) == Paused then producer == Reading && consumer == Playing
                         else producer == Held && consumer == Paused
    {
      ProducerPause();
      ConsumerPause();
    }

    /** A new file is opened while a device is in use in format `sf`, and plays if that goes on or opens anew. */
    twostate predicate Tunes(new a: Answers, sf: int)
      reads this
    {
      if !a.fileOk then producer == Unloaded && consumer == Stopped
      else if a.deviceOk || a.sf == sf
      then producer == Reading && consumer == Playing && consumerPos == 0 && ipAt == 0.0
      else producer == Halted && consumer == Stopped
    }

    /** The input is opened, and the output, which is open, follows its format. */
    method TuneIn(drop: bool, a: Answers)
      requires InputOk() && OutputOk() && ScaleOk() && producer == Halted && consumer != Stopped
      requires opFormat == Format(bufferSf, speed)
      modifies this`ipAt, this`consumer, this`bufferSf, this`opOpen, this`opFormat, this`opPaused, this`drops,
               this`loaded, this`ipSf, this`info,
               this`producer, this`ipOpen, this`consumerPos, this`scalePos, this`times, this`stale
      ensures Valid() && stale <= old(stale) && info == old(info) && Tunes(a, old(bufferSf)) && drops >= old(drops)
      ensures !drop && old(consumer) == Playing ==> drops == old(drops) + if a.fileOk then 0 else 1
    {
      ProducerPlay(a);
      if producer == Unloaded {
        ConsumerStop(true);
      } else {
        ChangeSf(drop, a);
      }
    }

    method DropAndTune(a: Answers)
      requires InputOk() && OutputOk() && ScaleOk() && producer == Halted && consumer != Stopped
      requires opFormat == Format(bufferSf, speed)
      modifies this`fills, this`ipAt, this`consumer, this`bufferSf, this`opOpen, this`opFormat, this`opPaused,
               this`drops, this`producer, this`loaded, this`ipOpen, this`ipSf, this`info,
               this`consumerPos, this`scalePos, this`times, this`stale
      ensures Valid() && stale <= old(stale) && info == old(info) && Tunes(a, old(bufferSf)) && drops > old(drops)
      ensures fills == old(fills) + if producer == Reading then 1 else 0
    {
      OpDrop();
      TuneIn(true, a);
      FillRing();
    }

    /** A running player goes on with the new file iff the file and, where its format demands it, the device can be
        opened; a stopped one only loads it.  What the device held of the old one is thrown away. */
    method SetFile(ti: Track, a: Answers)
      requires Valid()
      modifies this`fills, this`ipAt, this`consumer, this`bufferSf, this`opOpen, this`opFormat, this`opPaused,
               this`drops, this`producer, this`loaded, this`ipOpen, this`ipSf, this`info,
               this`consumerPos, this`scalePos, this`times, this`stale
      ensures Valid() && stale <= old(stale) && info == Some(ti)
      ensures if old(consumer) == Stopped then producer == Halted && consumer == Stopped else Tunes(a, old(bufferSf))
      ensures drops > old(drops) <==> old(consumer) != Stopped
      ensures fills == old(fills) + if producer == Reading then 1 else 0
    {
      ProducerSetFile(ti);
      if consumer == Playing || consumer == Paused {
        DropAndTune(a);
      }
    }

    /** The new file plays iff it and, where needed, the device could be opened; else what was opened is closed. */
    method PlayFile(ti: Track, a: Answers)
      requires Valid()
      modifies this
      ensures Valid() && Undisturbed() && info == Some(ti)
      ensures if old(consumer) == Stopped then PlaysNew(a) else Tunes(a, old(bufferSf))
      ensures drops > old(drops) <==> old(consumer) != Stopped
      ensures fills == old(fills) + if producer == Reading then 1 else 0
    {
      ProducerSetFile(ti);
      OpenFile(a);
      FillRing();
    }

    method OpenFile(a: Answers)
      requires InputOk() && OutputOk() && ScaleOk() && producer == Halted
      requires consumer != Stopped ==> opFormat == Format(bufferSf, speed)
      modifies this`ipAt, this`consumer, this`bufferSf, this`opOpen, this`opFormat, this`opPaused,
               this`drops, this`producer, this`loaded, this`ipOpen, this`ipSf, this`info,
               this`consumerPos, this`scalePos, this`times, this`stale
      ensures Valid() && stale <= old(stale) && info == old(info)
      ensures if old(consumer) == Stopped then PlaysNew(a) else Tunes(a, old(bufferSf))
      ensures drops > old(drops) <==> old(consumer) != Stopped
    {
      ProducerPlay(a);
      if producer == Unloaded {
        ConsumerStop(true);
      } else {
        TuneDevice(a);
      }
    }

    twostate predicate PlaysNew(new a: Answers)
      reads this
    {
      && consumer == (if a.fileOk && a.deviceOk then Playing else Stopped)
      && producer == if !a.fileOk then Unloaded else if a.deviceOk then Reading else Halted
    }

    /** The device for a file that was just opened. */
    method TuneDevice(a: Answers)
      requires InputOk() && OutputOk() && ScaleOk() && producer == Reading
      requires consumer != Stopped ==> opFormat == Format(bufferSf, speed)
      modifies this`consumer, this`bufferSf, this`opOpen, this`opFormat, this`opPaused, this`drops,
               this`producer, this`ipOpen, this`consumerPos, this`scalePos, this`times, this`stale
      ensures Valid() && stale <= old(stale) && info == old(info)
      ensures if a.deviceOk || old(consumer != Stopped && ipSf == bufferSf)
              then producer == Reading && consumer == Playing && consumerPos == old(consumerPos)
              else producer == Halted && consumer == Stopped
      ensures drops > old(drops) <==> old(consumer) != Stopped
    {
      if consumer == Stopped {
        OutputOn(a);
      } else {
        OpDrop();
        ChangeSf(true, a);
      }
    }

    method MoveTo(target: nat)
      requires Valid() && ipOpen
      modifies this`consumerPos, this`scalePos, this`times, this`stale
      ensures Valid() && consumerPos == scalePos == target && stale == 0
    {
      ResetBuffer();
      consumerPos := target;
      scalePos := consumerPos;
    }

    /** player_seek from position `from`; `nextOne` stands for the call of termus_next after the locks are free. */
    method Seek(offset: real, relative: bool, startPlaying: bool, secondSize: Positive, a: Answers)
      returns (from: nat, done: bool, nextOne: bool)
      requires Valid()
      modifies this
      ensures Valid() && Undisturbed() && drops == old(drops) + if done then 1 else 0
      ensures old(consumer) != Stopped ==> producer == old(producer) && consumer == old(consumer) && info == old(info)
      ensures old(consumer) == Stopped ==> StartedAt(a, if done && !startPlaying then Paused else Playing)
      ensures consumer != Stopped ==>
                from == if old(consumer) == Stopped && old(producer) == Reading && a.rewind == 0 then 0
                        else old(consumerPos)
      ensures if consumer == Stopped then !done && !nextOne
              else Sought(from, offset, relative, secondSize, a, done, nextOne, consumerPos, scalePos, ipAt)
    {
      var stopped := false;
      done, nextOne := false, false;
      if consumer == Stopped {
        stopped := true;
        Start(a);
      }
      from := consumerPos;
      if consumer == Playing || consumer == Paused {
        done, nextOne := SeekRunning(offset, relative, secondSize, a);
        if done && stopped && !startPlaying {
          Toggle();
        }
      }
    }

    method SeekRunning(offset: real, relative: bool, secondSize: Positive, a: Answers)
      returns (done: bool, next: bool)
      requires Valid() && consumer != Stopped
      modifies this`ipAt, this`consumerPos, this`scalePos, this`times, this`stale, this`drops
      ensures Valid() && stale <= old(stale) && drops == old(drops) + if done then 1 else 0
      ensures Sought(old(consumerPos), offset, relative, secondSize, a, done, next, consumerPos, scalePos, ipAt)
      ensures !done ==> ipAt == old(ipAt)
    {
      done := false;
      var duration := IpAsk(a.duration);
      var goal := NewPosition(Seconds(consumerPos, secondSize), offset, relative, duration);
      next := goal == NextOne;
      if !goal.To? { return; }
      var rc := IpSeek(goal.pos, a.sought);
      if rc == 0 {
        OpDrop();
        MoveTo(Bytes(goal.pos, secondSize));
        done := true;
      }
    }

    /** Another output plugin takes over, in the state playback was in, iff it could be selected and, if something is
        open, opened.  What the old device holds is played out unless it is paused. */
    method SetOp(a: Answers)
      requires Valid()
      modifies this
      ensures Valid() && Undisturbed() && info == old(info) && speed == old(speed)
      ensures if a.selected && (old(consumer) == Stopped || a.deviceOk)
              then producer == old(producer) && consumer == old(consumer) && consumerPos == old(consumerPos)
              else GaveUp()
      ensures drops == old(drops) + if old(consumer) == Paused then 1 else 0
    {
      if consumer == Paused { OpDrop(); }
      if consumer == Playing || consumer == Paused { OpClose(); }
      if !a.selected {
        GiveUp();
        return;
      }
      if consumer == Playing || consumer == Paused { OpenOther(a); }
    }

    method OpenOther(a: Answers)
      requires AtRest(producer, consumer) && InputOk() && ScaleOk() && consumer != Stopped && !opOpen
      modifies this`consumer, this`bufferSf, this`opOpen, this`opFormat, this`opPaused, this`drops,
               this`producer, this`ipOpen, this`consumerPos, this`scalePos, this`times, this`stale
      ensures Valid() && stale <= old(stale) && drops == old(drops)
      ensures if a.deviceOk
              then producer == old(producer) && consumer == old(consumer) && consumerPos == old(consumerPos)
              else GaveUp()
    {
      SetBufferSf();
      var ok := OpOpen(a.deviceOk);
      if !ok {
        GiveUp();
        return;
      }
      if consumer == Paused { OpPause(true); }
    }

    method SetBufferChunks()
      requires Valid()
      modifies this
      ensures Valid() && Undisturbed() && GaveUp() && info == old(info) && speed == old(speed)
      ensures drops == old(drops) + if old(consumer) != Stopped then 1 else 0
    {
      ProducerStop();
      ConsumerStop(true);  // and the ring is emptied: no byte of it was scaled
    }

    predicate NearSpeed(s: real)
      reads this
    { -0.000001 < speed - s < 0.000001 }

    /** Whether the device takes the new speed; a paused one is not tried with data. */
    predicate Takes(a: Answers)
      reads this
    { a.deviceOk && (consumer == Paused || a.primed >= 0) }

    /** Reopening at the new speed; when the device refuses, at the old one; when that fails too, stop. */
    method SetSpeed(newSpeed: real, a: Answers)
      requires Valid()
      modifies this
      ensures Valid() && Undisturbed() && info == old(info)
      ensures var near, running := -0.000001 < newSpeed - old(speed) < 0.000001, old(consumer) != Stopped;
              && speed == (if near || (running && !old(Takes(a))) then old(speed) else newSpeed)
              && drops == old(drops) + (if running && !near then 1 else 0)
              && if near || !running || old(Takes(a)) || a.oldOk
                 then producer == old(producer) && consumer == old(consumer) && consumerPos == old(consumerPos)
                 else GaveUp() && consumerPos == 0
    {
      if NearSpeed(newSpeed) { return; }
      var oldSpeed := speed;
      speed := newSpeed;
      if consumer == Playing || consumer == Paused { ReopenAtSpeed(oldSpeed, a); }
    }

    method ReopenAtSpeed(oldSpeed: real, a: Answers)
      requires AtRest(producer, consumer) && InputOk() && OutputOk() && ScaleOk() && consumer != Stopped
               && bufferSf == ipSf
      modifies this`speed, this`opOpen, this`opFormat, this`opPaused, this`drops, this`consumer, this`producer,
               this`ipOpen, this`consumerPos, this`scalePos, this`times, this`stale
      ensures Valid() && stale <= old(stale) && drops == old(drops) + 1
      ensures speed == if old(Takes(a)) then old(speed) else oldSpeed
      ensures if old(Takes(a)) || a.oldOk
              then producer == old(producer) && consumer == old(consumer) && consumerPos == old(consumerPos)
              else GaveUp() && consumerPos == 0
    {
      var wasPaused := consumer == Paused;
      OpDrop();
      OpClose();
      var ok := OpOpen(a.deviceOk);
      if ok && !wasPaused {
        var rc := OpAsk(a.primed);
        if rc < 0 {
          OpClose();
          ok := false;
        }
      }
      if ok { ReopenComplete(wasPaused); } else { FallBack(oldSpeed, wasPaused, a); }
    }

    /** The second attempt, at the old speed. */
    method FallBack(oldSpeed: real, wasPaused: bool, a: Answers)
      requires AtRest(producer, consumer) && InputOk() && ScaleOk() && !opOpen && ipOpen && bufferSf == ipSf
      requires consumer == if wasPaused then Paused else Playing
      modifies this`speed, this`opOpen, this`opFormat, this`opPaused, this`consumer, this`producer, this`ipOpen,
               this`consumerPos, this`scalePos, this`times, this`stale
      ensures Valid() && stale <= old(stale) && speed == oldSpeed
      ensures if a.oldOk
              then producer == old(producer) && consumer == old(consumer) && consumerPos == old(consumerPos)
              else GaveUp() && consumerPos == 0
    {
      speed := oldSpeed;
      var ok := OpOpen(a.oldOk);
      if ok {
        ReopenComplete(wasPaused);
      } else {
        GiveUp();
      }
    }

    method ReopenComplete(wasPaused: bool)
      requires opOpen && !opPaused
      modifies this`consumer, this`opPaused
      ensures OutputOk() && consumer == if wasPaused then Paused else Playing
    {
      if wasPaused {
        OpPause(true);
        consumer := Paused;
      } else {
        consumer := Playing;
      }
    }

    // ---- soft volume and replaygain ----

    method SetSoftVol(soft: bool)
      requires Valid()
      modifies this`softVol, this`scalePos, this`stale
      ensures Valid() && softVol == soft && stale == if old(Scales()) then old(stale) else |times|
      ensures stale == 0 <==> old(stale) == 0 && old(Settled())
      ensures scalePos == if old(Scales()) then old(scalePos) else consumerPos
    {
      if !softVol && !replaygain { scalePos, stale := consumerPos, |times|; }
      softVol := soft;
    }

    method SetRg(rg: bool)
      requires Valid()
      modifies this`replaygain, this`scalePos, this`stale
      ensures Valid() && replaygain == rg && stale == if old(Scales()) then old(stale) else |times|
      ensures stale == 0 <==> old(stale) == 0 && old(Settled())
      ensures scalePos == if old(Scales()) then old(scalePos) else consumerPos
    {
      if !softVol && !replaygain { scalePos, stale := consumerPos, |times|; }
      replaygain := rg;
    }

    // ---- the consumer thread ----

    /** scale_samples. */
    method ScaleSamples(size: nat)
      requires ScaleOk() && Scales()
      modifies this`scalePos, this`times
      ensures ScaleOk() && scalePos == consumerPos + Max(old(scalePos) - consumerPos, size)
      ensures times == Rescaled(old(times), old(scalePos) - consumerPos, size)
    {
      var ahead := scalePos - consumerPos;
      RescaleAhead(times, stale, ahead, size);
      if ahead >= size { return; }
      scalePos := scalePos + (size - ahead);
      times := Rescaled(times, ahead, size);
    }

    /** What scale_samples leaves in the window about to be written. */
    ghost function Window(size: nat): seq<nat>
      requires Scales() ==> consumerPos <= scalePos
      reads this
    { if Scales() then Rescaled(times, scalePos - consumerPos, size) else times }

    /** One op_write of `n` of the `size` bytes offered.  While scaling is enabled a byte goes out scaled exactly once
        iff it had not been scaled before scaling was last enabled. */
    method WriteOut(size: nat, n: nat)
      requires Valid() && consumer == Playing && n <= size
      modifies this`scalePos, this`times, this`handed, this`stale, this`consumerPos
      ensures Valid() && consumerPos == old(consumerPos) + n && stale == Max(old(stale) - n, 0)
      ensures Scales() ==> scalePos == Max(old(scalePos), old(consumerPos) + size)
      ensures Scales() ==> handed == old(handed) + HandedOut(old(Window(size)), n)
      ensures !Scales() ==> handed == old(handed)
      ensures Scales() ==> OnceUnlessStale(HandedOut(old(Window(size)), n), old(stale))
    {
      ghost var out := ScaleWindow(size, n);
      Deliver(n, out);
    }

    method ScaleWindow(size: nat, ghost n: nat) returns (ghost out: seq<nat>)
      requires Valid() && consumer == Playing && n <= size
      modifies this`scalePos, this`times
      ensures Valid() && times == old(Window(size)) && out == HandedOut(times, n)
      ensures Scales() ==> scalePos == Max(old(scalePos), consumerPos + size)
      ensures Scales() ==> scalePos - consumerPos >= n && OnceUnlessStale(out, stale)
      ensures Scales() ==> Ahead(Consumed(times, n), Max(stale - n, 0), scalePos - consumerPos - n)
    {
      if softVol || replaygain {
        ScaleSamples(size);
        HandOut(times, stale, scalePos - consumerPos, n);
      }
      out := HandedOut(times, n);
    }

    /** The device is opened anew at normal speed. */
    method WriteFailed(a: Answers)
      requires Valid() && consumer == Playing
      modifies this`opOpen, this`speed, this`consumer, this`bufferSf, this`opFormat, this`opPaused, this`drops
      ensures Valid() && speed == 1.0 && consumer == (if a.deviceOk then Playing else Stopped) && drops == old(drops)
    {
      OpClose();
      if speed != 1.0 { speed := 1.0; }
      consumer := Stopped;
      ConsumerPlay(a);
    }

    method Deliver(n: nat, ghost out: seq<nat>)
      requires Valid() && consumer == Playing
      requires Scales() ==> scalePos - consumerPos >= n
      requires Scales() ==> Ahead(Consumed(times, n), Max(stale - n, 0), scalePos - consumerPos - n)
      modifies this`handed, this`times, this`stale, this`consumerPos
      ensures Valid() && handed == if Scales() then old(handed) + out else old(handed)
      ensures consumerPos == old(consumerPos) + n && stale == Max(old(stale) - n, 0) && times == Consumed(old(times), n)
    {
      if Scales() { handed := handed + out; }
      ghost var left, due := Consumed(times, n), Max(stale - n, 0);
      StillScaled(times, stale, scalePos - consumerPos, n);
      times, stale := left, due;
      consumerPos := consumerPos + n;
    }

    /** After the last byte of a file: a stream stops, a repeated file starts again or stops, the next file follows, and
        without one everything is unloaded.  What the device holds is heard, unless the next file does not open. */
    twostate predicate AfterEof(new a: Answers)
      reads this
    {
      if a.remote then producer == Halted && consumer == Stopped && info == old(info) && drops == old(drops)
      else if old(repeatCurrent) then
        info == old(info) && drops == old(drops)
        && if old(cont) then producer == Reading && consumer == Playing && consumerPos == 0 && ipAt == old(OpenedAt(a))
           else producer == Halted && consumer == Stopped
      else match a.next
           case None => producer == Unloaded && consumer == Stopped && info == None && drops == old(drops)
           case Some(ti) => Followed(ti, a)
    }

    /** The next file plays iff playback shall continue, beyond the album or within it, and the file and, where its
        format demands it, the device open. */
    twostate predicate Followed(new ti: Track, new a: Answers)
      reads this
    {
      var sameAlbum := old(info).Some? && ti.album.Some? && old(info).value.album == ti.album;
      if !old(cont) || (!old(contAlbum) && !sameAlbum)
      then producer == Halted && consumer == Stopped && info == Some(ti) && drops == old(drops)
      else
        && Tunes(a, old(bufferSf)) && info == (if a.fileOk then Some(ti) else None)
        && drops == old(drops) + if a.fileOk then 0 else 1
    }

    method HandleEof(a: Answers)
      requires Valid() && producer == Reading && consumer == Playing
      modifies this`fills, this`ipAt, this`consumer, this`bufferSf, this`opOpen, this`opFormat, this`opPaused,
               this`drops, this`producer, this`loaded, this`ipOpen, this`ipSf, this`info,
               this`consumerPos, this`scalePos, this`times, this`stale
      ensures Valid() && stale <= old(stale) && AfterEof(a)
      ensures fills == old(fills) + if producer == Reading && !repeatCurrent then 1 else 0
    {
      var remote := IpIsRemote(a);
      if remote {
        HaltBoth();
      } else if repeatCurrent {
        RepeatFile(a);
      } else if a.next.Some? {
        NextFile(a.next.value, a);
      } else {
        UnloadBoth();
      }
    }

    method UnloadBoth()
      requires Valid()
      modifies this`consumer, this`opOpen, this`drops, this`loaded, this`info,
               this`producer, this`ipOpen, this`consumerPos, this`scalePos, this`times, this`stale
      ensures Valid() && stale <= old(stale) && drops == old(drops)
      ensures producer == Unloaded && consumer == Stopped && info == None
    {
      ProducerUnload();
      ConsumerStop(false);
      info := None;
    }

    method HaltBoth()
      requires Valid() && producer != Unloaded
      modifies this`consumer, this`opOpen, this`drops,
               this`producer, this`ipOpen, this`consumerPos, this`scalePos, this`times, this`stale
      ensures Valid() && stale <= old(stale) && drops == old(drops) && producer == Halted && consumer == Stopped
    {
      ProducerStop();
      ConsumerStop(false);
    }

    method RepeatFile(a: Answers)
      requires Valid() && producer == Reading && consumer == Playing
      modifies this`ipAt, this`consumer, this`opOpen, this`drops,
               this`producer, this`ipOpen, this`consumerPos, this`scalePos, this`times, this`stale
      ensures Valid() && stale <= old(stale) && speed == old(speed) && info == old(info) && drops == old(drops)
      ensures if cont then producer == Reading && consumer == Playing && consumerPos == 0 && ipAt == old(OpenedAt(a))
              else producer == Halted && consumer == Stopped
    {
      if cont {
        var rc := IpSeek(0.0, a.rewind);
        ResetBuffer();
      } else {
        HaltBoth();
      }
    }

    predicate SameAlbum(ti: Track)
      requires info.Some?
      reads this
    { info.value.album.Some? && ti.album.Some? && info.value.album == ti.album }

    /** The file changes while the output stays open. */
    method NextFile(ti: Track, a: Answers)
      requires Valid() && producer == Reading && consumer == Playing
      modifies this`fills, this`ipAt, this`consumer, this`bufferSf, this`opOpen, this`opFormat, this`opPaused,
               this`drops, this`producer, this`loaded, this`ipOpen, this`ipSf, this`info,
               this`consumerPos, this`scalePos, this`times, this`stale
      ensures Valid() && stale <= old(stale) && speed == old(speed) && Followed(ti, a)
      ensures fills == old(fills) + if producer == Reading then 1 else 0
    {
      ReplaceInput();
      if cont && (contAlbum || SameAlbum(ti)) {
        GoOn(ti, a);
      } else {
        ConsumerStop(false);
        info := Some(ti);
      }
    }

    method GoOn(ti: Track, a: Answers)
      requires InputOk() && OutputOk() && ScaleOk() && producer == Halted && consumer == Playing
      requires opFormat == Format(bufferSf, speed)
      modifies this`fills, this`ipAt, this`consumer, this`bufferSf, this`opOpen, this`opFormat, this`opPaused,
               this`drops, this`producer, this`loaded, this`ipOpen, this`ipSf, this`info,
               this`consumerPos, this`scalePos, this`times, this`stale
      ensures Valid() && stale <= old(stale) && speed == old(speed)
      ensures Tunes(a, old(bufferSf)) && info == (if a.fileOk then Some(ti) else None)
      ensures drops == old(drops) + if a.fileOk then 0 else 1
      ensures fills == old(fills) + if producer == Reading then 1 else 0
    {
      TuneIn(false, a);
      info := if producer == Unloaded then None else Some(ti);
      FillRing();
    }

    /** The consumer thread from taking its lock to releasing it. */
    method ConsumerTurn(a: Answers) returns (turn: Turn)
      requires Valid()
      modifies this
      ensures Valid() && softVol == old(softVol) && replaygain == old(replaygain) && stale <= old(stale)
      ensures old(stale) == 0 ==> OnesAppended(old(handed), handed)
      ensures turn == if old(consumer) != Playing then Waited
                      else if a.space < 0 then Reopened else Served(a.space, a.rounds, 0).1
      ensures Turned(turn, a)
    {
      if consumer == Paused || consumer == Stopped { return Waited; }
      var space := OpAsk(a.space);
      if space < 0 {
        OpClose();
        consumer := Stopped;
        ConsumerPlay(a);
        return Reopened;
      }
      turn := ConsumerWrites(a);
    }

    /** Where a turn leads; only the end of the file makes the player drop what the device holds. */
    twostate predicate Turned(turn: Turn, new a: Answers)
      reads this
    {
      if turn == Ended then AfterEof(a)
      else
        && producer == old(producer) && info == old(info) && drops == old(drops)
        && consumer == (if turn == Reopened || turn == Failed then (if a.deviceOk then Playing else Stopped)
                        else old(consumer))
        && speed == (if turn == Failed then 1.0 else old(speed))
        && consumerPos == old(consumerPos) +
                          if (turn == Wrote || turn == Failed) && a.space > 0 then Served(a.space, a.rounds, 0).0 else 0
    }

    method ConsumerWrites(a: Answers) returns (turn: Turn)
      requires Valid() && producer == Reading && consumer == Playing && a.space >= 0
      modifies this
      ensures Valid() && softVol == old(softVol) && replaygain == old(replaygain) && stale <= old(stale)
      ensures old(stale) == 0 ==> OnesAppended(old(handed), handed)
      ensures turn == Served(a.space, a.rounds, 0).1 && Turned(turn, a)
    {
      turn := WriteRounds(a);
      if turn == Ended { HandleEof(a); }
    }

    /** The inner loop of consumer_loop: rounds of writing until the lock is released or the file is at its end. */
    method WriteRounds(a: Answers) returns (turn: Turn)
      requires Valid() && producer == Reading && consumer == Playing && a.space >= 0
      modifies this`scalePos, this`times, this`handed, this`stale, this`consumerPos,
               this`opOpen, this`speed, this`consumer, this`bufferSf, this`opFormat, this`opPaused, this`drops
      ensures Valid() && stale <= old(stale) && drops == old(drops)
      ensures old(stale) == 0 ==> OnesAppended(old(handed), handed)
      ensures turn == Served(a.space, a.rounds, 0).1
      ensures consumerPos == old(consumerPos) + Served(a.space, a.rounds, 0).0
      ensures consumer == (if turn != Failed || a.deviceOk then Playing else Stopped)
      ensures if turn == Failed then speed == 1.0 else speed == old(speed) && bufferSf == old(bufferSf)
    {
      var space: nat := a.space;
      var i := 0;
      while i < |a.rounds|
        invariant i <= |a.rounds| && Valid() && producer == Reading && consumer == Playing
        invariant speed == old(speed) && drops == old(drops) && bufferSf == old(bufferSf)
        invariant stale <= old(stale) && (old(stale) == 0 ==> OnesAppended(old(handed), handed))
        invariant var rest := Served(space, a.rounds, i); var all := Served(a.space, a.rounds, 0);
                  consumerPos + rest.0 == old(consumerPos) + all.0 && rest.1 == all.1
      {
        if space == 0 { return Wrote; }
        var size := a.rounds[i].available;
        if size <= 0 { return if a.rounds[i].eof then Ended else Wrote; }
        if size > space { size := space; }
        var rc := WriteRound(size, a.rounds[i].written, a);
        if rc < 0 { return Failed; }
        space := space - rc;
        i := i + 1;
      }
      return Wrote;
    }

    /** One round with bytes to write. */
    method WriteRound(size: nat, written: int, a: Answers) returns (rc: int)
      requires Valid() && producer == Reading && consumer == Playing
      modifies this`scalePos, this`times, this`handed, this`stale, this`consumerPos,
               this`opOpen, this`speed, this`consumer, this`bufferSf, this`opFormat, this`opPaused, this`drops
      ensures Valid() && rc == Least(written, size) && stale <= old(stale) && drops == old(drops)
      ensures old(stale) == 0 ==> OnesAppended(old(handed), handed)
      ensures if rc < 0
              then consumer == (if a.deviceOk then Playing else Stopped) && speed == 1.0
                   && consumerPos == old(consumerPos)
              else consumer == Playing && speed == old(speed) && consumerPos == old(consumerPos) + rc
                   && bufferSf == old(bufferSf)
    {
      rc := OpAsk(written);
      if rc > size { rc := size; }
      if rc < 0 {
        ghost var out := ScaleWindow(size, 0);
        WriteFailed(a);
      } else {
        WriteOut(size, rc);
      }
    }

    method Do(call: Call, a: Answers)
      requires Valid()
      modifies this
      ensures Valid() && (call.SetSoftVol? || call.SetRg? || call.ConsumerTurn? || Undisturbed())
      ensures softVol == (if call.SetSoftVol? then call.on else old(softVol))
      ensures replaygain == (if call.SetRg? then call.on else old(replaygain))
      ensures old(stale) == 0 && (call.SetSoftVol? || call.SetRg? ==> old(Settled())) ==>
                stale == 0 && OnesAppended(old(handed), handed)
    {
      match call
      case Stop => Stop();
      case Play => Play(a);
      case Pause => Pause(a);
      case SetFile(ti) => SetFile(ti, a);
      case PlayFile(ti) => PlayFile(ti, a);
      case Seek(offset, relative, start, size) => var from, done, nextOne := Seek(offset, relative, start, size, a);
      case SetOp => SetOp(a);
      case SetBufferChunks => SetBufferChunks();
      case SetSpeed(s) => SetSpeed(s, a);
      case SetSoftVol(on) => SetSoftVol(on);
      case SetRg(on) => SetRg(on);
      case ConsumerTurn => var turn := ConsumerTurn(a);
    }

    /** Any run.  `settled` says whether the positions agreed whenever one of the two switches was used with scaling
        off; then every byte that goes out while scaling is on has been scaled exactly once. */
    method Run(calls: seq<Call>, answers: seq<Answers>) returns (settled: bool)
      requires Valid() && |answers| == |calls|
      modifies this
      ensures Valid()
      ensures settled && old(stale) == 0 ==> stale == 0 && OnesAppended(old(handed), handed)
    {
      settled := true;
      var i := 0;
      while i < |calls|
        invariant 0 <= i <= |calls| && Valid()
        invariant settled && old(stale) == 0 ==> stale == 0 && OnesAppended(old(handed), handed)
      {
        if (calls[i].SetSoftVol? || calls[i].SetRg?) && !Settled() { settled := false; }
        Do(calls[i], answers[i]);
        i := i + 1;
      }
    }

    /** It does not hold otherwise: with scaling off and the positions apart, switching it on scales the next byte
        again. */
    method ScaledTwice(size: nat)
      requires Valid() && consumer == Playing && !Settled() && size > 0
      modifies this`softVol, this`scalePos, this`times, this`handed, this`stale, this`consumerPos
      ensures Valid() && |handed| == |old(handed)| + 1 && handed[|old(handed)|] >= 2
    {
      SetSoftVol(true);
      ghost var window := Window(size);
      HandedOutAt(window, 1);
      WriteOut(size, 1);
    }

    /** Playback reaches such a state: scaling on, a write that does not take all it is offered, scaling off. */
    method Unsettle(size: nat, n: nat)
      requires Valid() && consumer == Playing && !Scales() && n < size
      modifies this`softVol, this`scalePos, this`times, this`handed, this`stale, this`consumerPos
      ensures Valid() && !Settled()
    {
      SetSoftVol(true);
      WriteOut(size, n);
      SetSoftVol(false);
    }
  }
}
