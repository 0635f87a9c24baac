/** The push decoder (stream.c): a resynchronising buffer with deferred
    consumption, refined to a pure parser of the received bytes. */
module Streams {
  import opened Bytes
  import opened Frames

  // ---- The pure view of one call of osdp_stream_next ----

  /** What a call reports and what it leaves in the buffer. */
  datatype Outcome = Outcome(result: Result<Frame>, rest: seq<byte>)

  /** Skip to the first SOM. */
  function FromSom(s: seq<byte>): (t: seq<byte>)
    ensures |t| <= |s|
    ensures t != [] ==> t[0] == SOM
  {
    if s == [] || s[0] == SOM then s else FromSom(s[1..])
  }

  function LengthField(t: seq<byte>): nat
    requires |t| >= HEADER_LEN
  {
    Le16(t[2], t[3])
  }

  predicate PlausibleLength(n: nat) {
    MIN_LEN <= n <= MAX_LEN
  }

  function Next(s: seq<byte>): Outcome {
    var t := FromSom(s);
    if |t| < HEADER_LEN then Outcome(Failure(Truncated), t)
    else
      var n := LengthField(t);
      if !PlausibleLength(n) then Outcome(Failure(BadLength), t[1..])
      else if |t| < n then Outcome(Failure(Truncated), t)
      else
        match Decode(t[..n])
        case Success(f) => Outcome(Success(f), t[n..])
        case Failure(e) => Outcome(Failure(e), t[1..])
  }

  /** The decoder can do nothing before more bytes arrive. */
  predicate Starved(s: seq<byte>) {
    var t := FromSom(s);
    |t| < HEADER_LEN || (PlausibleLength(LengthField(t)) && |t| < LengthField(t))
  }

  /** The shape whose decoding error is also called TRUNCATED: a complete
      candidate of seven bytes that announces a two-byte CRC. */
  predicate ShortCrcCandidate(s: seq<byte>) {
    var t := FromSom(s);
    |t| >= MIN_LEN && LengthField(t) == MIN_LEN && t[4] < 16 && CrcBit(t[4])
  }

  /** TRUNCATED means "wait for more" exactly when no such candidate is at the
      front; otherwise a byte was consumed and more may be decodable. */
  lemma {:induction false} TruncatedMeansStarved(s: seq<byte>)
    ensures Next(s).result == Failure(Truncated) <==> Starved(s) || ShortCrcCandidate(s)
    ensures !(Starved(s) && ShortCrcCandidate(s))
    ensures Starved(s) ==> Next(s).rest == FromSom(s)
    ensures ShortCrcCandidate(s) ==> Next(s).rest == FromSom(s)[1..]
  {
    hide DecodeTail, Le16;
    var t := FromSom(s);
    if |t| >= HEADER_LEN && PlausibleLength(LengthField(t)) && |t| >= LengthField(t) {
      DecodeTruncated(t[..LengthField(t)]);
    }
  }

  lemma {:induction false} DecodeTruncated(b: seq<byte>)
    requires |b| >= MIN_LEN && b[0] == SOM && Le16(b[2], b[3]) == |b| <= MAX_LEN
    ensures Decode(b) == Failure(Truncated) <==> |b| == MIN_LEN && b[4] < 16 && CrcBit(b[4])
  {
    hide Le16, CheckBytes;
  }

  /** Every call that is not starved shortens what is pending. */
  lemma {:induction false} NextConsumes(s: seq<byte>)
    ensures |Next(s).rest| <= |s|
    ensures !Starved(s) ==> |Next(s).rest| < |s|
    ensures Next(s).result != Failure(Truncated) ==> |Next(s).rest| < |s|
  {
    hide Decode, Le16;
  }

  // ---- The pure parser ----

  /** Every frame in `s`, consuming until the decoder starves. */
  function Parse(s: seq<byte>): seq<Frame>
    decreases |s|
  {
    NextConsumes(s);
    if Starved(s) then [] else Found(Next(s).result) + Parse(Next(s).rest)
  }

  function Found(r: Result<Frame>): seq<Frame> {
    if r.Success? then [r.value] else []
  }

  // ---- Draining: call next until it says TRUNCATED ----

  datatype Drained = Drained(frames: seq<Frame>, rest: seq<byte>)

  function Drain(s: seq<byte>): Drained
    decreases |s|
  {
    NextConsumes(s);
    var o := Next(s);
    if o.result == Failure(Truncated) then Drained([], o.rest)
    else
      var d := Drain(o.rest);
      Drained(Found(o.result) + d.frames, d.rest)
  }

  lemma {:induction false} DrainStep(s: seq<byte>)
    ensures var o := Next(s);
            Drain(s) == if o.result == Failure(Truncated) then Drained([], o.rest)
                        else Drained(Found(o.result) + Drain(o.rest).frames, Drain(o.rest).rest)
  {
    hide Next;
    NextConsumes(s);
  }

  lemma {:induction false} FromSomAppend(s: seq<byte>, t: seq<byte>)
    ensures FromSom(s) != [] ==> FromSom(s + t) == FromSom(s) + t
    ensures FromSom(s) == [] ==> FromSom(s + t) == FromSom(t)
    decreases |s|
  {
    if s == [] {
      assert s + t == t;
    } else if s[0] != SOM {
      assert (s + t)[1..] == s[1..] + t;
      FromSomAppend(s[1..], t);
    }
  }

  lemma {:induction false} FromSomIdempotent(s: seq<byte>)
    ensures FromSom(FromSom(s)) == FromSom(s)
  {}

  lemma {:induction false} SkippingIsFree(s: seq<byte>)
    ensures Parse(FromSom(s)) == Parse(s)
  {
    hide Next;
    FromSomIdempotent(s);
    NextSkips(s);
  }

  lemma {:induction false} NextSkips(s: seq<byte>)
    ensures Next(FromSom(s)) == Next(s)
  {
    hide Decode;
    FromSomIdempotent(s);
  }

  /** Bytes that arrive later do not change what a call already decided. */
  lemma {:induction false} NextExtends(s: seq<byte>, t: seq<byte>)
    requires !Starved(s)
    ensures !Starved(s + t)
    ensures Next(s + t) == Outcome(Next(s).result, Next(s).rest + t)
  {
    hide Decode, Le16;
    var u := FromSom(s);
    FromSomAppend(s, t);
    assert (u + t)[1..] == u[1..] + t;
    var n := LengthField(u);
    assert LengthField(u + t) == n;
    if PlausibleLength(n) {
      assert (u + t)[..n] == u[..n];
      assert (u + t)[n..] == u[n..] + t;
    }
  }

  /** A drain delivers a first part of what is decodable; the rest of it is
      still decodable from what the drain leaves. */
  lemma {:induction false} DrainThenParse(s: seq<byte>, t: seq<byte>)
    ensures Parse(s + t) == Drain(s).frames + Parse(Drain(s).rest + t)
    decreases |s|
  {
    hide Next, Starved, FromSom;
    NextConsumes(s);
    TruncatedMeansStarved(s);
    var o := Next(s);
    if Starved(s) {
      SkippingIsFree(s + t);
      SkippingIsFree(FromSom(s) + t);
      SkipFront(s, t);
    } else {
      NextExtends(s, t);
      NextConsumes(s + t);
      if o.result != Failure(Truncated) {
        DrainThenParse(o.rest, t);
      }
    }
  }

  lemma {:induction false} SkipFront(s: seq<byte>, t: seq<byte>)
    ensures FromSom(FromSom(s) + t) == FromSom(s + t)
  {
    FromSomAppend(s, t);
    FromSomAppend(FromSom(s), t);
    FromSomIdempotent(s);
    if FromSom(s) == [] {
      assert FromSom(s) + t == t;
    }
  }

  // ---- Resynchronisation, by positions of the input ----

  /** A SOM with a plausible length begins at `j`. */
  predicate CandidateAt(s: seq<byte>, j: nat)
    requires j < |s|
  {
    s[j] == SOM && |s| - j >= HEADER_LEN && PlausibleLength(Le16(s[j + 2], s[j + 3]))
  }

  function CandidateEnd(s: seq<byte>, j: nat): nat
    requires j < |s| && CandidateAt(s, j)
  {
    j + Le16(s[j + 2], s[j + 3])
  }

  /** A candidate at `j` is complete, and either decodes to no frame or ends by
      `i`; a SOM with an implausible length does not matter. */
  predicate HarmlessAt(s: seq<byte>, j: nat, i: nat)
    requires j < |s|
  {
    && (s[j] == SOM ==> |s| - j >= HEADER_LEN)
    && (CandidateAt(s, j) ==>
          CandidateEnd(s, j) <= |s| && (Decode(s[j..CandidateEnd(s, j)]).Failure? || CandidateEnd(s, j) <= i))
  }

  /** How far the first SOM is. */
  function Skipped(s: seq<byte>): (k: nat)
    ensures k <= |s| && FromSom(s) == s[k..]
    ensures forall j :: 0 <= j < k ==> s[j] != SOM
    ensures k < |s| ==> s[k] == SOM
  {
    if s == [] || s[0] == SOM then 0 else Skipped(s[1..]) + 1
  }

  /** Where the decoder goes on after a SOM at `k`: behind the frame if there is
      one, and at the very next byte otherwise. */
  function GoesOnAt(s: seq<byte>, k: nat): nat
    requires k < |s| && HarmlessAt(s, k, |s|)
  {
    if CandidateAt(s, k) && Decode(s[k..CandidateEnd(s, k)]).Success? then CandidateEnd(s, k) else k + 1
  }

  /** What one call of osdp_stream_next finds and leaves, by positions. */
  lemma {:induction false} NextLeaves(s: seq<byte>)
    requires Skipped(s) < |s| && HarmlessAt(s, Skipped(s), |s|)
    ensures var k := Skipped(s);
            && !Starved(s) && k < GoesOnAt(s, k) <= |s|
            && Next(s).rest == s[GoesOnAt(s, k)..]
            && Found(Next(s).result) ==
               if CandidateAt(s, k) && Decode(s[k..CandidateEnd(s, k)]).Success?
               then [Decode(s[k..CandidateEnd(s, k)]).value] else []
  {
    hide Decode, Le16;
    var k := Skipped(s);
    var t := s[k..];
    assert t[2] == s[k + 2] && t[3] == s[k + 3];
    if CandidateAt(s, k) {
      assert t[..LengthField(t)] == s[k..CandidateEnd(s, k)];
      assert t[LengthField(t)..] == s[CandidateEnd(s, k)..];
    }
    assert t[1..] == s[k + 1..];
  }

  lemma {:induction false} HarmlessLater(s: seq<byte>, m: nat, j: nat, i: nat)
    requires m <= j < |s| && HarmlessAt(s, j, i) && m <= i
    ensures HarmlessAt(s[m..], j - m, i - m)
  {
    hide Decode, Le16;
    if CandidateAt(s, j) {
      assert s[m..][j - m..CandidateEnd(s, j) - m] == s[j..CandidateEnd(s, j)];
    }
  }

  /** Every candidate before `i` is harmless. */
  predicate HarmlessUpTo(s: seq<byte>, i: nat) {
    i <= |s| && forall j :: 0 <= j < i ==> HarmlessAt(s, j, i)
  }

  lemma {:induction false} HarmlessRest(s: seq<byte>, m: nat, i: nat)
    requires HarmlessUpTo(s, i) && m <= i
    ensures HarmlessUpTo(s[m..], i - m)
  {
    hide HarmlessAt;
    var u, l := s[m..], i - m;
    forall j | 0 <= j < l
      ensures HarmlessAt(u, j, l)
    {
      HarmlessLater(s, m, j + m, i);
    }
  }

  lemma {:induction false} FoundHere(s: seq<byte>, i: nat, end: nat)
    requires i < end <= |s| && i == Skipped(s) && Decode(s[i..end]).Success?
    ensures Decode(s[i..end]).value in Parse(s)
  {
    hide Decode, Next, Starved, Le16, FromSom, Parse;
    DecodedCandidate(s, i, end);
    NextLeaves(s);
    ParseStep(s);
  }

  lemma {:induction false} SuffixSlice(s: seq<byte>, m: nat, i: nat, end: nat)
    requires m <= i <= end <= |s|
    ensures s[m..][i - m..end - m] == s[i..end]
  {}

  /** No frame is lost to garbage: a frame at position `i` of the input is found
      if every candidate before it is harmless. */
  lemma {:induction false} FrameFound(s: seq<byte>, i: nat, end: nat)
    requires i < end <= |s| && Decode(s[i..end]).Success? && HarmlessUpTo(s, i)
    ensures Decode(s[i..end]).value in Parse(s)
    decreases |s|
  {
    hide *;
    DecodedCandidate(s, i, end);
    SkipsTo(s, i);
    var k := Skipped(s);
    if k == i {
      FoundHere(s, i, end);
    } else {
      HarmlessSoon(s, k, i, end);
      NextLeaves(s);
      ParseStep(s);
      Advances(s, k, i);
      var m := GoesOnAt(s, k);
      SuffixSlice(s, m, i, end);
      HarmlessRest(s, m, i);
      FrameFound(s[m..], i - m, end - m);
    }
  }

  lemma {:induction false} SkipsTo(s: seq<byte>, i: nat)
    requires i < |s| && s[i] == SOM
    ensures Skipped(s) <= i
  {}

  lemma {:induction false} HarmlessSoon(s: seq<byte>, k: nat, i: nat, end: nat)
    requires k <= i < end <= |s| && HarmlessUpTo(s, i) && CandidateAt(s, i) && CandidateEnd(s, i) == end
    ensures HarmlessAt(s, k, |s|) && (k < i ==> HarmlessAt(s, k, i))
  {
    hide Decode, Le16;
    if k < i {
      assert HarmlessAt(s, k, i);
    }
  }

  lemma {:induction false} DecodedCandidate(s: seq<byte>, i: nat, end: nat)
    requires i < end <= |s| && Decode(s[i..end]).Success?
    ensures s[i] == SOM && CandidateAt(s, i) && CandidateEnd(s, i) == end
  {
    hide Decode, Le16;
    DecodeSpans(s[i..end]);
    var b := s[i..end];
    assert b[0] == s[i] && b[2] == s[i + 2] && b[3] == s[i + 3];
  }

  lemma {:induction false} Advances(s: seq<byte>, k: nat, i: nat)
    requires k < i <= |s| && HarmlessAt(s, k, i) && HarmlessAt(s, k, |s|)
    ensures GoesOnAt(s, k) <= i
  {
    hide Decode, Le16;
  }

  /** Bytes in which every candidate is complete and decodes to no frame. */
  predicate Inert(g: seq<byte>) {
    forall j :: 0 <= j < |g| ==>
      && (g[j] == SOM ==> |g| - j >= HEADER_LEN)
      && (CandidateAt(g, j) ==> CandidateEnd(g, j) <= |g| && Decode(g[j..CandidateEnd(g, j)]).Failure?)
  }

  lemma {:induction false} InertLater(g: seq<byte>, m: nat)
    requires Inert(g) && m <= |g|
    ensures Inert(g[m..])
  {
    hide Decode, Le16;
    var h := g[m..];
    forall j | 0 <= j < |h|
      ensures h[j] == SOM ==> |h| - j >= HEADER_LEN
      ensures CandidateAt(h, j) ==> CandidateEnd(h, j) <= |h| && Decode(h[j..CandidateEnd(h, j)]).Failure?
    {
      assert h[j] == g[j + m];
      if CandidateAt(h, j) {
        assert CandidateAt(g, j + m);
        assert h[j..CandidateEnd(h, j)] == g[j + m..CandidateEnd(g, j + m)];
      }
    }
  }

  /** Such bytes in front of anything change nothing. */
  lemma {:induction false} InertIsSkipped(g: seq<byte>, w: seq<byte>)
    requires Inert(g)
    ensures Parse(g + w) == Parse(w)
    decreases |g|
  {
    hide Decode, Next, Starved, Le16, Parse, FromSom;
    var k := Skipped(g);
    if k == |g| {
      FromSomAppend(g, w);
      SkippingIsFree(g + w);
      SkippingIsFree(w);
    } else {
      assert HarmlessAt(g, k, |g|);
      NextLeaves(g);
      NextExtends(g, w);
      ParseStep(g + w);
      InertLater(g, k + 1);
      InertIsSkipped(g[k + 1..], w);
    }
  }

  lemma {:induction false} ParseStep(s: seq<byte>)
    requires !Starved(s)
    ensures Parse(s) == Found(Next(s).result) + Parse(Next(s).rest)
  {}

  /** Garbage in which every candidate is complete and fails, followed by built
      frames: all of the frames are found, and nothing else. */
  lemma {:induction false} FramesAfterGarbage(g: seq<byte>, fs: seq<Frame>)
    requires Inert(g) && AllBuild(fs)
    ensures Parse(g + Wire(fs)) == CanonicalAll(fs)
  {
    hide Parse, Deliver, Inert, Build;
    InertIsSkipped(g, Wire(fs));
    StreamRoundTrip(fs, [Wire(fs)]);
    ChunkIndependence([], [Wire(fs)]);
    assert Flatten([Wire(fs)]) == Wire(fs) by { FlattenOne(Wire(fs)); }
    assert [] + Flatten([Wire(fs)]) == Wire(fs);
    ParseNothing();
  }

  lemma FlattenOne(w: seq<byte>)
    ensures Flatten([w]) == w
  {
    assert [w][1..] == [];
  }

  lemma ParseNothing()
    ensures Parse([]) == []
  {}

  // ---- Chunked delivery ----

  /** Feed a chunk, drain, and so on: the receive loop of a device. */
  function Deliver(live: seq<byte>, chunks: seq<seq<byte>>): Drained
    decreases |chunks|
  {
    if chunks == [] then Drained([], live)
    else
      var d := Drain(live + chunks[0]);
      var e := Deliver(d.rest, chunks[1..]);
      Drained(d.frames + e.frames, e.rest)
  }

  function Flatten(chunks: seq<seq<byte>>): seq<byte> {
    if chunks == [] then [] else chunks[0] + Flatten(chunks[1..])
  }

  /** No chunk pushes the bytes from the first SOM on past the capacity; what
      precedes it, a marking byte for instance, may be dropped for room. */
  predicate NoOverflow(live: seq<byte>, chunks: seq<seq<byte>>, capacity: nat)
    decreases |chunks|
  {
    chunks == [] ||
    (|FromSom(live + chunks[0])| <= capacity && NoOverflow(Drain(live + chunks[0]).rest, chunks[1..], capacity))
  }

  /** A drain does not see what precedes the first SOM. */
  lemma {:induction false} DrainSkips(s: seq<byte>, t: seq<byte>)
    requires FromSom(s) == FromSom(t)
    ensures Drain(s) == Drain(t)
  {
    hide Next, FromSom;
    NextSkips(s);
    NextSkips(t);
  }

  /** Chunking does not matter: on arbitrary bytes, under every chunking, what
      was delivered followed by what is still decodable is what the pure parser
      finds in the whole input. */
  lemma {:induction false} ChunkIndependence(live: seq<byte>, chunks: seq<seq<byte>>)
    ensures var d := Deliver(live, chunks);
            Parse(live + Flatten(chunks)) == d.frames + Parse(d.rest)
    decreases |chunks|
  {
    hide Parse, Drain;
    if chunks == [] {
      assert live + Flatten(chunks) == live;
    } else {
      var more := Flatten(chunks[1..]);
      var s := live + chunks[0];
      assert live + Flatten(chunks) == s + more;
      DrainThenParse(s, more);
      ChunkIndependence(Drain(s).rest, chunks[1..]);
    }
  }

  lemma {:induction false} DeliveredIsPrefix(live: seq<byte>, chunks: seq<seq<byte>>)
    ensures Deliver(live, chunks).frames <= Parse(live + Flatten(chunks))
    ensures Starved(Deliver(live, chunks).rest) ==>
              Deliver(live, chunks).frames == Parse(live + Flatten(chunks))
  {
    hide Deliver, Starved;
    ChunkIndependence(live, chunks);
  }

  // ---- A drain that stops early, and how it catches up ----

  /** A seven-byte candidate with the CRC bit, then a complete ACK reply. */
  const STALLING: seq<byte> := [0x53, 0x00, 0x07, 0x00, 0x04, 0x00, 0x00]

  /** The drain loop can stop with a decodable frame still in the buffer. */
  lemma {:induction false} DrainCanStopEarly(wire: seq<byte>)
    requires Decode(wire).Success?
    ensures Drain(STALLING + wire).frames == []
    ensures Parse(STALLING + wire) == [Decode(wire).value]
  {
    hide Decode;
    var s := STALLING + wire;
    assert ShortCrcCandidate(s);
    TruncatedMeansStarved(s);
    NextConsumes(s);
    var rest := STALLING[1..] + wire;
    assert s[1..] == rest;
    FromSomAppend(STALLING[1..], wire);
    NoSomInside(STALLING[1..]);
    DecodeSpans(wire);
    assert FromSom(wire) == wire;
    SkippingIsFree(rest);
    ParseOne(wire);
  }

  lemma {:induction false} NoSomInside(s: seq<byte>)
    requires SOM !in s
    ensures FromSom(s) == []
  {
    if s != [] {
      NoSomInside(s[1..]);
    }
  }

  lemma {:induction false} DecodeSpans(wire: seq<byte>)
    requires Decode(wire).Success?
    ensures |wire| >= HEADER_LEN && wire[0] == SOM && LengthField(wire) == |wire|
    ensures PlausibleLength(|wire|)
  {
    hide DecodeTail, Le16;
  }

  lemma {:induction false} ParseOne(wire: seq<byte>)
    requires Decode(wire).Success?
    ensures Parse(wire) == [Decode(wire).value]
  {
    hide Decode, Le16;
    DecodeSpans(wire);
    assert wire[..|wire|] == wire;
    assert Next(wire) == Outcome(Decode(wire), wire[|wire|..]);
    assert Parse(wire[|wire|..]) == [];
  }

  function Idle(ticks: nat): seq<seq<byte>> {
    if ticks == 0 then [] else [[]] + Idle(ticks - 1)
  }

  /** Further ticks without input catch up: after as many of them as there are
      bytes in the buffer, everything decodable has been delivered. */
  lemma {:induction false} IdleTicksCatchUp(live: seq<byte>, ticks: nat)
    requires ticks >= |live| + 1
    ensures Deliver(live, Idle(ticks)).frames == Parse(live)
    decreases ticks
  {
    hide Next, Starved, Drain, Parse;
    var idle := Idle(ticks);
    var d := Drain(live + idle[0]);
    assert live + idle[0] == live;
    assert idle[1..] == Idle(ticks - 1);
    DrainThenParse(live, []);
    assert live + [] == live && d.rest + [] == d.rest;
    DrainProgress(live);
    if Starved(d.rest) {
      IdleStarved(d.rest, ticks - 1);
    } else {
      IdleTicksCatchUp(d.rest, ticks - 1);
    }
  }

  lemma {:induction false} DrainProgress(s: seq<byte>)
    ensures |Drain(s).rest| <= |s|
    ensures Starved(Drain(s).rest) || |Drain(s).rest| < |s|
    ensures Starved(Drain(s).rest) ==> Parse(Drain(s).rest) == []
    decreases |s|
  {
    hide Next, FromSom;
    NextConsumes(s);
    TruncatedMeansStarved(s);
    FromSomIdempotent(s);
    var o := Next(s);
    if o.result != Failure(Truncated) {
      DrainProgress(o.rest);
    }
  }

  lemma {:induction false} StarvedStays(s: seq<byte>)
    requires Starved(s)
    ensures Drain(s).frames == [] && Starved(Drain(s).rest)
  {
    hide Decode, Le16;
    FromSomIdempotent(s);
  }

  lemma {:induction false} IdleStarved(live: seq<byte>, ticks: nat)
    requires Starved(live)
    ensures Deliver(live, Idle(ticks)).frames == []
    decreases ticks
  {
    hide Starved, Drain;
    if ticks > 0 {
      var idle := Idle(ticks);
      assert live + idle[0] == live;
      assert idle[1..] == Idle(ticks - 1);
      StarvedStays(live);
      IdleStarved(Drain(live).rest, ticks - 1);
    }
  }

  // ---- Round trip with the builder ----

  /** Frames that osdp_frame_build accepts into a large enough buffer. */
  predicate AllBuild(fs: seq<Frame>) {
    forall i :: 0 <= i < |fs| ==> Build(fs[i], MARK_LEN + MAX_LEN).Success?
  }

  /** What is sent for a list of frames, marking bytes included. */
  function Wire(fs: seq<Frame>): seq<byte>
    requires AllBuild(fs)
  {
    if fs == [] then [] else Build(fs[0], MARK_LEN + MAX_LEN).value + Wire(fs[1..])
  }

  function CanonicalAll(fs: seq<Frame>): seq<Frame> {
    if fs == [] then [] else [Canonical(fs[0])] + CanonicalAll(fs[1..])
  }

  /** A receiver between frames, or past the marking byte of the next one. */
  predicate OnBoundary(z: seq<byte>, fs: seq<Frame>)
    requires AllBuild(fs)
  {
    z == Wire(fs) || (fs != [] && z == Wire(fs)[1..])
  }

  /** A built frame as the receiver sees it behind the marking byte. */
  lemma {:induction false} WireHead(fs: seq<Frame>)
    requires AllBuild(fs) && fs != []
    ensures var w := Wire(fs);
            var n := |Build(fs[0], MARK_LEN + MAX_LEN).value| - MARK_LEN;
            && |w| >= MARK_LEN + n && PlausibleLength(n)
            && w[0] == MARK && w[1] == SOM && LengthField(w[1..]) == n
            && Decode(w[1..][..n]) == Success(Canonical(fs[0]))
            && w[1..][n..] == Wire(fs[1..])
  {
    hide Decode, Build;
    var v := Build(fs[0], MARK_LEN + MAX_LEN).value;
    BuildSize(fs[0], MARK_LEN + MAX_LEN);
    DecodeBuild(fs[0], MARK_LEN + MAX_LEN);
    DecodeSpans(v[MARK_LEN..]);
    var w := Wire(fs);
    assert w[1..][..|v| - 1] == v[MARK_LEN..];
    assert forall k :: 0 <= k < |v| - 1 ==> w[1..][k] == v[MARK_LEN..][k];
  }

  /** One call on a part of such a stream: either it waits, still on the
      boundary, or it yields exactly the next frame. */
  lemma {:induction false} NextOnBoundary(live: seq<byte>, future: seq<byte>, fs: seq<Frame>)
    requires AllBuild(fs) && OnBoundary(live + future, fs)
    ensures var o := Next(live);
            || (o.result == Failure(Truncated) && OnBoundary(o.rest + future, fs))
            || (fs != [] && o.result == Success(Canonical(fs[0])) && o.rest + future == Wire(fs[1..]))
  {
    hide Decode, Build, Le16;
    if live == [] || fs == [] {
      assert live == [];
      return;
    }
    WireHead(fs);
    var z := live + future;
    assert z[0] == live[0];
    var t := FromSom(live);
    BoundarySkip(live, future, fs);
    if t == [] {
      return;
    }
    assert t + future == Wire(fs)[1..];
    var u := Wire(fs)[1..];
    if |t| >= HEADER_LEN {
      assert t[2] == u[2] && t[3] == u[3];
      var n := LengthField(u);
      if |t| >= n {
        assert t[..n] == u[..n];
        assert t[n..] + future == u[n..];
      }
    }
  }

  lemma {:induction false} BoundarySkip(live: seq<byte>, future: seq<byte>, fs: seq<Frame>)
    requires AllBuild(fs) && OnBoundary(live + future, fs) && live != [] && fs != []
    ensures FromSom(live) + future == Wire(fs)[1..]
  {
    hide Build, Decode, Le16, Wire;
    WireHead(fs);
    var z := live + future;
    assert z[0] == live[0];
    if z == Wire(fs)[1..] {
      assert FromSom(live) == live;
    } else {
      assert live[0] == MARK;
      assert FromSom(live) == FromSom(live[1..]);
      assert live[1..] + future == z[1..];
      if |live| > 1 {
        assert live[1] == z[1];
      }
    }
  }

  /** Draining a part of such a stream delivers some number of its frames. */
  lemma {:induction false} DrainOnBoundary(live: seq<byte>, future: seq<byte>, fs: seq<Frame>) returns (k: nat)
    requires AllBuild(fs) && OnBoundary(live + future, fs)
    ensures k <= |fs| && Drain(live).frames == CanonicalAll(fs[..k])
    ensures OnBoundary(Drain(live).rest + future, fs[k..])
    decreases |fs|
  {
    hide Next, Wire, Build;
    NextOnBoundary(live, future, fs);
    NextConsumes(live);
    var o := Next(live);
    if o.result == Failure(Truncated) {
      k := 0;
      assert fs[0..] == fs;
    } else {
      k := DrainOnBoundary(o.rest, future, fs[1..]);
      assert fs[..k + 1] == [fs[0]] + fs[1..][..k];
      assert fs[k + 1..] == fs[1..][k..];
      k := k + 1;
    }
  }

  lemma {:induction false} CanonicalAppend(fs: seq<Frame>, k: nat)
    requires k <= |fs|
    ensures CanonicalAll(fs) == CanonicalAll(fs[..k]) + CanonicalAll(fs[k..])
    decreases k
  {
    if k > 0 {
      CanonicalAppend(fs[1..], k - 1);
      assert fs[1..][..k - 1] == fs[..k][1..] && fs[1..][k - 1..] == fs[k..];
    }
  }

  lemma {:induction false} DeliverOnBoundary(live: seq<byte>, chunks: seq<seq<byte>>, fs: seq<Frame>)
    requires AllBuild(fs) && OnBoundary(live + Flatten(chunks), fs)
    requires live == [] || chunks != []
    ensures Deliver(live, chunks) == Drained(CanonicalAll(fs), [])
    decreases |chunks|
  {
    hide Drain, Next, Build, OnBoundary;
    if chunks == [] {
      assert live + Flatten(chunks) == [];
      EmptyBoundary(fs);
    } else {
      var more := Flatten(chunks[1..]);
      var s := live + chunks[0];
      assert live + Flatten(chunks) == s + more;
      if chunks[1..] == [] {
        assert s + more == s;
        LastDrain(s, fs);
      } else {
        var k := DrainOnBoundary(s, more, fs);
        CanonicalAppend(fs, k);
        DeliverOnBoundary(Drain(s).rest, chunks[1..], fs[k..]);
      }
    }
  }

  lemma {:induction false} EmptyBoundary(fs: seq<Frame>)
    requires AllBuild(fs) && OnBoundary([], fs)
    ensures fs == []
  {
    hide Build;
    if fs != [] {
      WireHead(fs);
    }
  }

  /** With nothing still to come, a drain takes everything. */
  lemma {:induction false} LastDrain(s: seq<byte>, fs: seq<Frame>)
    requires AllBuild(fs) && OnBoundary(s, fs)
    ensures Drain(s) == Drained(CanonicalAll(fs), [])
    decreases |fs|
  {
    hide Decode, Build, Le16;
    if fs == [] {
      assert FromSom(s) == [];
    } else {
      WireHead(fs);
      var u := Wire(fs)[1..];
      assert s == u || (s[0] == MARK && s[1..] == u);
      assert FromSom(s) == u;
      NextConsumes(s);
      LastDrain(u[LengthField(u)..], fs[1..]);
    }
  }

  /** Stream round trip: every list of built frames, sent back to back and cut
      into chunks in any way, is delivered exactly and leaves nothing behind. */
  lemma {:induction false} StreamRoundTrip(fs: seq<Frame>, chunks: seq<seq<byte>>)
    requires AllBuild(fs) && Flatten(chunks) == Wire(fs)
    ensures Deliver([], chunks) == Drained(CanonicalAll(fs), [])
  {
    hide Deliver, Build;
    assert [] + Flatten(chunks) == Wire(fs);
    DeliverOnBoundary([], chunks, fs);
  }

  // ---- One frame per chunk ----

  function Wires(fs: seq<Frame>): seq<seq<byte>>
    requires AllBuild(fs)
  {
    if fs == [] then [] else [Build(fs[0], MARK_LEN + MAX_LEN).value] + Wires(fs[1..])
  }

  lemma {:induction false} WiresFlatten(fs: seq<Frame>)
    requires AllBuild(fs)
    ensures Flatten(Wires(fs)) == Wire(fs)
  {
    hide Build;
    if fs != [] {
      WiresFlatten(fs[1..]);
    }
  }

  /** A buffer for the longest frame takes every frame that arrives whole, its
      marking byte included. */
  lemma {:induction false} WholeFramesFit(fs: seq<Frame>, capacity: nat)
    requires AllBuild(fs) && capacity >= MAX_LEN
    ensures NoOverflow([], Wires(fs), capacity)
    ensures Deliver([], Wires(fs)) == Drained(CanonicalAll(fs), [])
  {
    hide Build, Drain, Deliver;
    WiresFlatten(fs);
    StreamRoundTrip(fs, Wires(fs));
    if fs != [] {
      var wire := Build(fs[0], MARK_LEN + MAX_LEN).value;
      OneWire(fs[0]);
      assert [] + wire == wire;
      WholeFramesFit(fs[1..], capacity);
    }
  }

  lemma {:induction false} OneWire(f: Frame)
    requires Build(f, MARK_LEN + MAX_LEN).Success?
    ensures var wire := Build(f, MARK_LEN + MAX_LEN).value;
            |FromSom(wire)| <= MAX_LEN && Drain(wire).rest == []
  {
    hide Build, Drain;
    var wire := Build(f, MARK_LEN + MAX_LEN).value;
    assert Wire([f]) == wire + Wire([]) == wire;
    WireHead([f]);
    LastDrain(wire, [f]);
    BuildSize(f, MARK_LEN + MAX_LEN);
    assert FromSom(wire) == FromSom(wire[1..]);
  }

  // ---- The stream object ----

  /** The newest `n` bytes of `s`, or all of it. */
  function Newest(s: seq<byte>, n: nat): seq<byte> {
    if |s| <= n then s else s[|s| - n..]
  }

  /** Dropping the oldest bytes is harmless as long as the first SOM stays. */
  lemma {:induction false} NewestKeepsSom(s: seq<byte>, n: nat)
    requires |FromSom(s)| <= n
    ensures FromSom(Newest(s, n)) == FromSom(s)
    decreases |s|
  {
    if |s| > n {
      NewestKeepsSom(s[1..], n);
      assert Newest(s, n) == Newest(s[1..], n);
    }
  }

  lemma {:induction false} NewestAppend(s: seq<byte>, t: seq<byte>, n: nat)
    ensures Newest(Newest(s, n) + t, n) == Newest(s + t, n)
  {}

  /** One round: if the buffer is full its oldest byte goes first. */
  lemma {:induction false} NewestRound(live: seq<byte>, kept: seq<byte>, d: seq<byte>, cap: nat)
    requires |live| <= cap && |kept + d| <= cap && d != []
    requires kept == if |live| == cap then live[1..] else live
    ensures kept + d == Newest(live + d, cap)
  {
    if |live| == cap {
      assert |d| == 1 && live + d == [live[0]] + (kept + d);
    }
  }

  /** osdp_stream_t. The buffer length is OSDP_STREAM_BUFFER_LEN, a build-time
      choice. */
  class Stream {
    const buffer: array<byte>
    var fill: nat
    var pendingConsume: nat

    ghost predicate Valid()
      reads this
    {
      pendingConsume <= fill <= buffer.Length && buffer.Length > 0
    }

    /** The bytes received and not yet consumed. */
    ghost function Live(): seq<byte>
      reads this, buffer
      requires Valid()
    {
      buffer[pendingConsume..fill]
    }

    /** osdp_stream_init. */
    constructor (capacity: nat)
      requires capacity > 0
      ensures Valid() && fresh(buffer) && buffer.Length == capacity && Live() == []
    {
      buffer := new byte[capacity](_ => 0);
      fill := 0;
      pendingConsume := 0;
    }

    /** osdp_stream_reset. */
    method Reset()
      modifies this
      requires Valid()
      ensures Valid() && Live() == []
    {
      fill := 0;
      pendingConsume := 0;
    }

    /** osdp_stream_consume: drop bytes at the front of the buffer. */
    method Consume(n: nat)
      requires Valid() && pendingConsume == 0
      modifies this`fill, buffer
      ensures Valid()
      ensures Live() == if n <= |old(Live())| then old(Live())[n..] else []
    {
      if n == 0 {
        return;
      }
      if n >= fill {
        fill := 0;
        return;
      }
      // memmove towards the front
      ghost var was := buffer[..];
      for i := 0 to fill - n
        invariant fill == old(fill)
        invariant forall k :: 0 <= k < i ==> buffer[k] == was[n + k]
        invariant forall k :: i <= k < buffer.Length ==> buffer[k] == was[k]
      {
        buffer[i] := buffer[n + i];
      }
      fill := fill - n;
      assert Live() == was[..old(fill)][n..];
    }

    /** osdp_stream_apply_pending. */
    method ApplyPending()
      requires Valid()
      modifies this, buffer
      ensures Valid() && pendingConsume == 0 && Live() == old(Live())
    {
      if pendingConsume > 0 {
        var n := pendingConsume;
        pendingConsume := 0;
        ghost var all := Live();
        assert all == buffer[..fill];
        Consume(n);
        assert all[n..] == old(Live());
      }
    }

    /** osdp_stream_resync_to_som. */
    method ResyncToSom()
      requires Valid() && pendingConsume == 0
      modifies this`fill, buffer
      ensures Valid() && Live() == FromSom(old(Live()))
    {
      var i := 0;
      ghost var live := Live();
      assert live[0..] == live;
      while i < fill && buffer[i] != SOM
        invariant i <= fill
        invariant FromSom(live[i..]) == FromSom(live)
      {
        assert live[i..][1..] == live[i + 1..];
        i := i + 1;
      }
      if i > 0 {
        Consume(i);
      }
    }

    /** One round of the feed loop: drop the oldest byte if the buffer is full,
        then copy what fits. */
    method FeedSome(data: seq<byte>, done: nat) returns (n: nat)
      requires Valid() && pendingConsume == 0 && done < |data|
      modifies this`fill, buffer
      ensures Valid() && 0 < n <= |data| - done
      ensures Live() == Newest(old(Live()) + data[done..done + n], buffer.Length)
    {
      hide Newest;
      ghost var live := Live();
      if fill == buffer.Length {
        Consume(1);
      }
      ghost var kept := Live();
      var room := buffer.Length - fill;
      n := Min(|data| - done, room);
      Copy(data, done, n);
      NewestRound(live, kept, data[done..done + n], buffer.Length);
    }

    /** osdp_stream_feed: the newest bytes are kept, whatever the overflow. */
    method Feed(data: seq<byte>)
      requires Valid()
      modifies this, buffer
      ensures Valid()
      ensures Live() == Newest(old(Live()) + data, buffer.Length)
    {
      hide Newest;
      NewestOfLive(Live(), buffer.Length);
      if data == [] {
        assert Live() + data == Live();
        return;
      }
      ApplyPending();
      ghost var was := Live();
      var done := 0;
      assert was + data[..0] == was;
      while done < |data|
        invariant Valid() && pendingConsume == 0
        invariant done <= |data|
        invariant Live() == Newest(was + data[..done], buffer.Length)
      {
        var n := FeedSome(data, done);
        NewestAppend(was + data[..done], data[done..done + n], buffer.Length);
        assert was + data[..done + n] == was + data[..done] + data[done..done + n];
        done := done + n;
      }
      assert data[..|data|] == data;
    }

    /** memcpy of `data[from..from + n]` behind the buffered bytes. */
    method Copy(data: seq<byte>, from: nat, n: nat)
      requires Valid() && pendingConsume == 0
      requires from + n <= |data| && fill + n <= buffer.Length
      modifies this`fill, buffer
      ensures Valid() && Live() == old(Live()) + data[from..from + n]
    {
      for i := 0 to n
        invariant fill == old(fill)
        invariant forall k :: 0 <= k < fill ==> buffer[k] == old(buffer[k])
        invariant forall k :: fill <= k < fill + i ==> buffer[k] == data[from + (k - fill)]
      {
        buffer[fill + i] := data[from + i];
      }
      fill := fill + n;
    }

    /** osdp_stream_pending. */
    method Pending() returns (n: nat)
      requires Valid()
      ensures n == |Live()|
    {
      n := if fill > pendingConsume then fill - pendingConsume else 0;
    }

    /** osdp_stream_next. */
    method NextFrame() returns (r: Result<Frame>)
      requires Valid()
      modifies this, buffer
      ensures Valid()
      ensures Outcome(r, Live()) == Next(old(Live()))
    {
      hide Decode, Le16, FromSom, PlausibleLength;
      ApplyPending();
      ResyncToSom();
      ghost var t := Live();
      assert t == buffer[..fill] == FromSom(old(Live()));
      if fill < HEADER_LEN {
        return Failure(Truncated);
      }
      var n := Le16(buffer[2], buffer[3]);
      if !PlausibleLength(n) {
        Consume(1);
        return Failure(BadLength);
      }
      if fill < n {
        return Failure(Truncated);
      }
      assert buffer[..n] == t[..n];
      r := Decode(buffer[..n]);
      if r.Failure? {
        Consume(1);
        return;
      }
      pendingConsume := n;
    }

    /** The receive loop of osdp_pd_tick: call next until it says TRUNCATED. */
    method DrainFrames() returns (frames: seq<Frame>)
      requires Valid()
      modifies this, buffer
      ensures Valid()
      ensures Drained(frames, Live()) == Drain(old(Live()))
    {
      hide Next, FromSom, Starved, Drain;
      frames := [];
      var more := true;
      while more
        invariant Valid()
        invariant more ==> Drain(old(Live())) == Drained(frames + Drain(Live()).frames, Drain(Live()).rest)
        invariant !more ==> Drain(old(Live())) == Drained(frames, Live())
        decreases more, |Live()|
      {
        NextConsumes(Live());
        DrainStep(Live());
        var r := NextFrame();
        if r == Failure(Truncated) {
          more := false;
        } else {
          frames := frames + Found(r);
        }
      }
    }

    /** Receive chunk after chunk, draining after each. */
    method Receive(chunks: seq<seq<byte>>) returns (frames: seq<Frame>)
      requires Valid() && NoOverflow(Live(), chunks, buffer.Length)
      modifies this, buffer
      ensures Valid()
      ensures Drained(frames, Live()) == Deliver(old(Live()), chunks)
    {
      hide Drain, Newest, FromSom;
      frames := [];
      assert chunks[0..] == chunks;
      for i := 0 to |chunks|
        invariant Valid() && NoOverflow(Live(), chunks[i..], buffer.Length)
        invariant Deliver(old(Live()), chunks) ==
                  Drained(frames + Deliver(Live(), chunks[i..]).frames, Deliver(Live(), chunks[i..]).rest)
      {
        assert chunks[i..][1..] == chunks[i + 1..];
        ghost var s := Live() + chunks[i];
        Feed(chunks[i]);
        NewestKeepsSom(s, buffer.Length);
        DrainSkips(Live(), s);
        var more := DrainFrames();
        frames := frames + more;
      }
    }
  }

  lemma {:induction false} NewestOfLive(s: seq<byte>, n: nat)
    requires |s| <= n
    ensures Newest(s, n) == s
  {}
}
