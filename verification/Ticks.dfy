/** The receive half of osdp_pd_tick from bytes to device: what a device does
    with what its stream decoder comes across, whatever the chunks. */
module Ticks {
  import opened Bytes
  import opened Frames
  import opened Ciphers
  import opened Devices
  import opened Streams
  import opened Exchanges

  // ---- What the receive loop acts on ----

  /** A frame, or what would be one but for its check bytes. */
  predicate Telling(b: seq<byte>) {
    Decode(b).Success? || FailsCheck(b)
  }

  /** The bytes that one call of osdp_stream_next decodes, if the loop has to act
      on them. */
  function Sighted(s: seq<byte>): seq<seq<byte>> {
    var t := FromSom(s);
    if |t| < HEADER_LEN then []
    else
      var n := LengthField(t);
      if PlausibleLength(n) && n <= |t| && Telling(t[..n]) then [t[..n]] else []
  }

  /** All of them, consuming until the decoder starves. */
  function Sightings(s: seq<byte>): seq<seq<byte>>
    decreases |s|
  {
    NextConsumes(s);
    if Starved(s) then [] else Sighted(s) + Sightings(Next(s).rest)
  }

  /** Those that one drain comes across. */
  function DrainSightings(s: seq<byte>): seq<seq<byte>>
    decreases |s|
  {
    NextConsumes(s);
    if Next(s).result == Failure(Truncated) then [] else Sighted(s) + DrainSightings(Next(s).rest)
  }

  /** Those that come up as chunk after chunk is fed and drained. */
  function DeliverSightings(live: seq<byte>, chunks: seq<seq<byte>>): seq<seq<byte>>
    decreases |chunks|
  {
    if chunks == [] then []
    else DrainSightings(live + chunks[0]) + DeliverSightings(Drain(live + chunks[0]).rest, chunks[1..])
  }

  function FrameOf(b: seq<byte>): seq<Frame> {
    if Decode(b).Success? then [Decode(b).value] else []
  }

  function FramesOf(raws: seq<seq<byte>>): seq<Frame> {
    if raws == [] then [] else FrameOf(raws[0]) + FramesOf(raws[1..])
  }

  lemma {:induction false} FramesAppend(a: seq<seq<byte>>, b: seq<seq<byte>>)
    ensures FramesOf(a + b) == FramesOf(a) + FramesOf(b)
  {
    hide FrameOf;
    if a == [] {
      assert a + b == b;
    } else {
      assert (a + b)[1..] == a[1..] + b;
      FramesAppend(a[1..], b);
    }
  }

  lemma {:induction false} SightedFound(s: seq<byte>)
    ensures FramesOf(Sighted(s)) == Found(Next(s).result)
    ensures Next(s).result == Failure(Truncated) ==> Sighted(s) == []
  {
    hide Decode, Le16, FromSom;
    assert FramesOf([]) == [];
    if Sighted(s) != [] {
      assert Sighted(s)[1..] == [];
    }
  }

  /** The frames among them are the delivered ones. */
  lemma {:induction false} DrainedFrames(s: seq<byte>)
    ensures FramesOf(DrainSightings(s)) == Drain(s).frames
    decreases |s|
  {
    hide Next, Sighted, FramesOf;
    NextConsumes(s);
    SightedFound(s);
    NoFrames();
    if Next(s).result != Failure(Truncated) {
      DrainedFrames(Next(s).rest);
      FramesAppend(Sighted(s), DrainSightings(Next(s).rest));
    }
  }

  lemma NoFrames()
    ensures FramesOf([]) == []
  {}

  lemma {:induction false} DeliveredFrames(live: seq<byte>, chunks: seq<seq<byte>>)
    ensures FramesOf(DeliverSightings(live, chunks)) == Deliver(live, chunks).frames
    decreases |chunks|
  {
    hide Drain, DrainSightings, FramesOf;
    NoFrames();
    if chunks != [] {
      var s := live + chunks[0];
      DrainedFrames(s);
      DeliveredFrames(Drain(s).rest, chunks[1..]);
      FramesAppend(DrainSightings(s), DeliverSightings(Drain(s).rest, chunks[1..]));
    }
  }

  // ---- Nothing to act on is lost to garbage ----

  lemma {:induction false} TellingCandidate(s: seq<byte>, i: nat, end: nat)
    requires i < end <= |s| && Telling(s[i..end])
    ensures s[i] == SOM && CandidateAt(s, i) && CandidateEnd(s, i) == end
  {
    hide DecodeTail, Le16;
    var b := s[i..end];
    assert b[0] == s[i] && b[2] == s[i + 2] && b[3] == s[i + 3];
  }

  lemma {:induction false} SightedHere(s: seq<byte>, i: nat, end: nat)
    requires i < end <= |s| && i == Skipped(s) && Telling(s[i..end])
    ensures s[i..end] in Sightings(s)
  {
    hide Decode, Next, Le16, Telling;
    TellingCandidate(s, i, end);
    var t := s[i..];
    assert t[2] == s[i + 2] && t[3] == s[i + 3] && t[..LengthField(t)] == s[i..end];
  }

  lemma {:induction false} SightingsStep(s: seq<byte>)
    requires !Starved(s)
    ensures Sightings(s) == Sighted(s) + Sightings(Next(s).rest)
  {
    hide Next, Sighted;
  }

  /** A frame, good or with bad check bytes, at position `i` of the input comes up
      if every candidate before it is harmless. */
  lemma {:induction false} SightingFound(s: seq<byte>, i: nat, end: nat)
    requires i < end <= |s| && Telling(s[i..end]) && HarmlessUpTo(s, i)
    ensures s[i..end] in Sightings(s)
    decreases |s|
  {
    hide *;
    TellingCandidate(s, i, end);
    SkipsTo(s, i);
    var k := Skipped(s);
    if k == i {
      SightedHere(s, i, end);
    } else {
      HarmlessSoon(s, k, i, end);
      NextLeaves(s);
      SightingsStep(s);
      Advances(s, k, i);
      var m := GoesOnAt(s, k);
      SuffixSlice(s, m, i, end);
      HarmlessRest(s, m, i);
      SightingFound(s[m..], i - m, end - m);
    }
  }

  // ---- Chunks do not matter ----

  lemma {:induction false} SightedExtends(s: seq<byte>, t: seq<byte>)
    requires !Starved(s)
    ensures Sighted(s + t) == Sighted(s)
  {
    hide Decode, Le16;
    var u := FromSom(s);
    FromSomAppend(s, t);
    var n := LengthField(u);
    assert LengthField(u + t) == n;
    if PlausibleLength(n) {
      assert (u + t)[..n] == u[..n];
    }
  }

  lemma {:induction false} SightingsSkip(s: seq<byte>)
    ensures Sightings(FromSom(s)) == Sightings(s)
  {
    hide Next, Telling, Le16;
    FromSomIdempotent(s);
    NextSkips(s);
  }

  lemma {:induction false} DrainThenSight(s: seq<byte>, t: seq<byte>)
    ensures Sightings(s + t) == DrainSightings(s) + Sightings(Drain(s).rest + t)
    decreases |s|
  {
    hide Next, Starved, FromSom, Sighted;
    NextConsumes(s);
    TruncatedMeansStarved(s);
    SightedFound(s);
    var o := Next(s);
    if Starved(s) {
      SightingsSkip(s + t);
      SightingsSkip(FromSom(s) + t);
      SkipFront(s, t);
    } else {
      NextExtends(s, t);
      SightedExtends(s, t);
      NextConsumes(s + t);
      if o.result != Failure(Truncated) {
        DrainThenSight(o.rest, t);
      }
    }
  }

  lemma {:induction false} SightingsOfChunks(live: seq<byte>, chunks: seq<seq<byte>>)
    ensures Sightings(live + Flatten(chunks)) ==
            DeliverSightings(live, chunks) + Sightings(Deliver(live, chunks).rest)
    decreases |chunks|
  {
    hide Drain, DrainSightings, Sightings;
    if chunks == [] {
      assert live + Flatten(chunks) == live;
    } else {
      var more := Flatten(chunks[1..]);
      var s := live + chunks[0];
      assert live + Flatten(chunks) == s + more;
      DrainThenSight(s, more);
      SightingsOfChunks(Drain(s).rest, chunks[1..]);
    }
  }

  // ---- The device ----

  /** A device after a series of sightings, and what it sent. */
  datatype Served = Served(device: Device, replies: seq<seq<byte>>)

  function ServeAll(c: Cipher, cfg: Config, d: Device, raws: seq<seq<byte>>, apps: seq<App>): Served
    requires |raws| == |apps|
    decreases |raws|
  {
    if raws == [] then Served(d, [])
    else
      var step := Devices.Receive(c, cfg, d, raws[0], apps[0]);
      var rest := ServeAll(c, cfg, step.device, raws[1..], apps[1..]);
      Served(rest.device, [step.reply] + rest.replies)
  }

  lemma {:induction false} ServeAppend(c: Cipher, cfg: Config, d: Device, a: seq<seq<byte>>, b: seq<seq<byte>>, apps: seq<App>)
    requires |a| + |b| == |apps|
    ensures var first := ServeAll(c, cfg, d, a, apps[..|a|]);
            var later := ServeAll(c, cfg, first.device, b, apps[|a|..]);
            ServeAll(c, cfg, d, a + b, apps) == Served(later.device, first.replies + later.replies)
    decreases |a|
  {
    hide Devices.Receive;
    if a == [] {
      assert a + b == b && apps[0..] == apps;
    } else {
      var step := Devices.Receive(c, cfg, d, a[0], apps[0]);
      assert (a + b)[1..] == a[1..] + b;
      assert apps[..|a|][1..] == apps[1..][..|a| - 1] && apps[|a|..] == apps[1..][|a| - 1..];
      ServeAppend(c, cfg, step.device, a[1..], b, apps[1..]);
    }
  }

  /** On any bytes and under any chunking, serving what came up and then what is
      still to come up in the buffer is serving what the whole input holds: good
      frames and those with bad check bytes alike. */
  lemma {:induction false} ChunksServeAlike(c: Cipher, cfg: Config, d: Device, live: seq<byte>, chunks: seq<seq<byte>>, apps: seq<App>)
    requires |Sightings(live + Flatten(chunks))| == |apps|
    ensures var got := DeliverSightings(live, chunks);
            var left := Sightings(Deliver(live, chunks).rest);
            var n := |got|;
            && n + |left| == |apps|
            && var first := ServeAll(c, cfg, d, got, apps[..n]);
               var later := ServeAll(c, cfg, first.device, left, apps[n..]);
               ServeAll(c, cfg, d, Sightings(live + Flatten(chunks)), apps) ==
               Served(later.device, first.replies + later.replies)
  {
    hide Sightings, Deliver, DeliverSightings, ServeAll;
    SightingsOfChunks(live, chunks);
    ServeAppend(c, cfg, d, DeliverSightings(live, chunks), Sightings(Deliver(live, chunks).rest), apps);
  }

  // ---- Built frames ----

  /** The bytes of the frames, as the joint runs hand them to the device. */
  function Raws(fs: seq<Frame>): seq<seq<byte>>
    requires AllBuild(fs)
  {
    if fs == [] then [] else [Raw(Build(fs[0], MARK_LEN + MAX_LEN).value)] + Raws(fs[1..])
  }

  lemma {:induction false} SightingsOfWire(fs: seq<Frame>)
    requires AllBuild(fs)
    ensures Sightings(Wire(fs)) == Raws(fs)
  {
    hide Build, Decode, Le16, Wire;
    if fs == [] {
      assert Wire([]) == [] by { WireOfNone(); }
    } else {
      WireHead(fs);
      var w := Wire(fs);
      FirstSighting(w, fs);
      SightingsOfWire(fs[1..]);
    }
  }

  lemma WireOfNone()
    ensures Wire([]) == []
  {}

  lemma {:induction false} FirstSighting(w: seq<byte>, fs: seq<Frame>)
    requires AllBuild(fs) && fs != [] && w == Wire(fs)
    ensures Sightings(w) == [Raw(Build(fs[0], MARK_LEN + MAX_LEN).value)] + Sightings(Wire(fs[1..]))
  {
    hide Build, Decode, Le16;
    WireHead(fs);
    var raw := Raw(Build(fs[0], MARK_LEN + MAX_LEN).value);
    BuildSize(fs[0], MARK_LEN + MAX_LEN);
    var u := w[1..];
    assert u[..|raw|] == raw;
    assert FromSom(w) == FromSom(u) == u;
    assert Next(w).rest == Wire(fs[1..]);
    assert Sighted(w) == [raw];
  }

  /** Frames sent back to back, cut into chunks in any way and drained after each
      chunk, are served as if handed over one by one, and leave nothing pending. */
  lemma {:induction false} TickIsSteps(c: Cipher, cfg: Config, d: Device, fs: seq<Frame>, chunks: seq<seq<byte>>, apps: seq<App>)
    requires AllBuild(fs) && Flatten(chunks) == Wire(fs) && |Raws(fs)| == |apps|
    ensures var got := DeliverSightings([], chunks);
            && got == Raws(fs) && Deliver([], chunks).rest == []
            && ServeAll(c, cfg, d, got, apps) == ServeAll(c, cfg, d, Raws(fs), apps)
  {
    hide Build, Deliver, DeliverSightings, Wire, Raws, ServeAll, Sightings;
    StreamRoundTrip(fs, chunks);
    SightingsOfChunks([], chunks);
    assert [] + Flatten(chunks) == Wire(fs);
    SightingsOfWire(fs);
    NoSightings();
  }

  lemma {:induction false} NoSightings()
    ensures Sightings([]) == []
  {}
}
