/** The PD's poll-response queue (pd.c): records packed back to back in a byte
    buffer, refined to a first-in first-out sequence of events. */
module EventQueues {
  import opened Bytes

  const HEADER := 3
  /** OSDP_PD_REPLY_SCRATCH_LEN. */
  const SCRATCH_LEN := 64

  datatype Event = Event(code: byte, payload: seq<byte>)

  function Record(e: Event): seq<byte> {
    [Low(|e.payload|), High(|e.payload|), e.code] + e.payload
  }

  function Packed(q: seq<Event>): seq<byte> {
    if q == [] then [] else Record(q[0]) + Packed(q[1..])
  }

  /** Lengths are stored in sixteen bits. */
  predicate Storable(e: Event) {
    |e.payload| <= 0xFFFF
  }

  predicate AllStorable(q: seq<Event>) {
    forall i :: 0 <= i < |q| ==> Storable(q[i])
  }

  // ---- The queue as a sequence ----

  /** osdp_pd_enqueue_event on a queue of `cap` bytes. */
  function Enqueue(q: seq<Event>, cap: nat, e: Event): Result<seq<Event>> {
    if !Storable(e) then Failure(InvalidArg)
    else if |Packed(q)| + HEADER + |e.payload| > cap then Failure(BufferTooSmall)
    else Success(q + [e])
  }

  datatype Taken = Taken(event: Option<Event>, rest: seq<Event>)

  /** osdp_pd_internal_dequeue_event: an event too large to hand back is
      dropped, and reported like an empty queue. */
  function Dequeue(q: seq<Event>): Taken {
    if q == [] then Taken(None, q)
    else if |q[0].payload| > SCRATCH_LEN then Taken(None, q[1..])
    else Taken(Some(q[0]), q[1..])
  }

  // ---- The packing is a faithful representation ----

  lemma {:induction false} PackedAppend(a: seq<Event>, b: seq<Event>)
    ensures Packed(a + b) == Packed(a) + Packed(b)
  {
    if a == [] {
      assert a + b == b;
    } else {
      assert (a + b)[1..] == a[1..] + b;
      PackedAppend(a[1..], b);
    }
  }

  lemma {:induction false} PackedOne(e: Event)
    ensures Packed([e]) == Record(e)
  {
    assert [e][1..] == [];
  }

  /** The front record of a packed queue, read back from the bytes. */
  lemma {:induction false} PackedFront(q: seq<Event>)
    requires q != [] && Storable(q[0])
    ensures var p := Packed(q);
            var n := |q[0].payload|;
            && |p| >= HEADER + n && Le16(p[0], p[1]) == n && p[2] == q[0].code
            && p[HEADER..HEADER + n] == q[0].payload
            && p[HEADER + n..] == Packed(q[1..])
  {
    Le16RoundTrip(|q[0].payload|);
  }

  /** Different queues have different bytes. */
  lemma {:induction false} PackedInjective(a: seq<Event>, b: seq<Event>)
    requires AllStorable(a) && AllStorable(b) && Packed(a) == Packed(b)
    ensures a == b
  {
    hide Le16;
    if a != [] && b != [] {
      PackedFront(a);
      PackedFront(b);
      PackedInjective(a[1..], b[1..]);
      assert a == [a[0]] + a[1..] && b == [b[0]] + b[1..];
    } else if a != [] {
      PackedFront(a);
    } else if b != [] {
      PackedFront(b);
    }
  }

  // ---- What is accepted, and what comes out ----

  /** The bytes a queue takes: three for each event, and its payload. */
  function Size(q: seq<Event>): nat {
    if q == [] then 0 else 3 + |q[0].payload| + Size(q[1..])
  }

  lemma {:induction false} PackedSize(q: seq<Event>)
    ensures |Packed(q)| == Size(q)
  {
    if q != [] {
      PackedSize(q[1..]);
    }
  }

  /** An event is accepted exactly if its length fits sixteen bits and there is
      room for it, and then it is the last. */
  lemma {:induction false} EnqueueIff(q: seq<Event>, cap: nat, e: Event)
    ensures Enqueue(q, cap, e).Success? <==> |e.payload| <= 0xFFFF && Size(q) + 3 + |e.payload| <= cap
    ensures Enqueue(q, cap, e).Success? ==> Enqueue(q, cap, e).value == q + [e]
  {
    hide Packed;
    PackedSize(q);
  }

  /** What dequeuing `n` times hands back. */
  function TakeAll(q: seq<Event>, n: nat): seq<Option<Event>> {
    if n == 0 then [] else [Dequeue(q).event] + TakeAll(Dequeue(q).rest, n - 1)
  }

  /** First in, first out; an event of more than 64 bytes leaves a gap in its
      place, and an empty queue gives nothing. */
  lemma {:induction false} FirstInFirstOut(q: seq<Event>, n: nat, k: nat)
    requires k < n
    ensures |TakeAll(q, n)| == n
    ensures TakeAll(q, n)[k] == if k < |q| && |q[k].payload| <= 64 then Some(q[k]) else None
    decreases n
  {
    if k > 0 {
      FirstInFirstOut(Dequeue(q).rest, n - 1, k - 1);
    } else {
      TakeAllLength(q, n);
    }
  }

  lemma {:induction false} TakeAllLength(q: seq<Event>, n: nat)
    ensures |TakeAll(q, n)| == n
  {
    if n > 0 {
      TakeAllLength(Dequeue(q).rest, n - 1);
    }
  }

  // ---- The byte queue ----

  /** event_buf, event_cap and event_len of osdp_pd_t, with the reply scratch. */
  class EventQueue {
    const buf: array<byte>
    const scratch: array<byte>
    var len: nat
    ghost var items: seq<Event>

    ghost predicate Valid()
      reads this, buf
    {
      len <= buf.Length && buf != scratch && scratch.Length == SCRATCH_LEN
      && AllStorable(items) && buf[..len] == Packed(items)
    }

    /** osdp_pd_set_event_queue. */
    constructor (cap: nat)
      ensures Valid() && items == [] && fresh(buf) && fresh(scratch) && buf.Length == cap
    {
      buf := new byte[cap](_ => 0);
      scratch := new byte[SCRATCH_LEN](_ => 0);
      len := 0;
      items := [];
    }

    /** osdp_pd_clear_events. */
    method Clear()
      requires Valid()
      modifies this
      ensures Valid() && items == []
    {
      len := 0;
      items := [];
    }

    /** osdp_pd_event_pending. */
    method Pending() returns (b: bool)
      requires Valid()
      ensures b <==> items != []
    {
      if items != [] {
        PackedFront(items);
      }
      b := len > 0;
    }

    method Write(at: nat, s: seq<byte>)
      requires at + |s| <= buf.Length
      modifies buf
      ensures buf[..at + |s|] == old(buf[..at]) + s
    {
      for i := 0 to |s|
        invariant buf[..at + i] == old(buf[..at]) + s[..i]
      {
        buf[at + i] := s[i];
        assert buf[..at + i + 1] == buf[..at + i] + [s[i]];
      }
    }

    /** osdp_pd_enqueue_event: append, or refuse and change nothing. */
    method Put(code: byte, payload: seq<byte>) returns (r: Result<()>)
      requires Valid()
      modifies this, buf
      ensures Valid()
      ensures match Enqueue(old(items), buf.Length, Event(code, payload))
              case Success(q) => r == Success(()) && items == q
              case Failure(e) => r == Failure(e) && items == old(items)
    {
      if |payload| > 0xFFFF {
        return Failure(InvalidArg);
      }
      var need := HEADER + |payload|;
      if need > buf.Length - len {
        return Failure(BufferTooSmall);
      }
      var e := Event(code, payload);
      PackedAppend(items, [e]);
      PackedOne(e);
      Write(len, [Low(|payload|), High(|payload|), code] + payload);
      len := len + need;
      items := items + [e];
      r := Success(());
    }

    /** The memmove that closes the gap left by the front record. */
    method DropFront(n: nat)
      requires n <= len <= buf.Length
      modifies this`len, buf
      ensures len == old(len) - n && buf[..len] == old(buf[..len])[n..]
    {
      for i := 0 to len - n
        invariant len == old(len)
        invariant forall k :: 0 <= k < i ==> buf[k] == old(buf[..])[n + k]
        invariant forall k :: i <= k < buf.Length ==> buf[k] == old(buf[..])[k]
      {
        buf[i] := buf[n + i];
      }
      len := len - n;
    }

    /** The payload of the front record, copied out before compaction. */
    method CopyOut(n: nat)
      requires HEADER + n <= buf.Length && n <= scratch.Length && buf != scratch
      modifies scratch
      ensures scratch[..n] == buf[HEADER..HEADER + n]
    {
      for i := 0 to n
        invariant scratch[..i] == buf[HEADER..HEADER + i]
      {
        scratch[i] := buf[HEADER + i];
      }
    }

    /** osdp_pd_internal_dequeue_event. Its branch for a record longer than the
        queue is not reachable from a valid queue and is left out. */
    method Take() returns (r: Option<Event>)
      requires Valid()
      modifies this, buf, scratch
      ensures Valid()
      ensures Taken(r, items) == Dequeue(old(items))
      ensures items == if old(items) == [] then [] else old(items)[1..]
      ensures r.Some? <==> old(items) != [] && |old(items)[0].payload| <= 64
      ensures r.Some? ==> r.value == old(items)[0]
    {
      hide Le16;
      if items != [] {
        PackedFront(items);
      }
      if len < HEADER {
        return None;
      }
      assert buf[..len][0] == buf[0] && buf[..len][1] == buf[1] && buf[..len][2] == buf[2];
      var n := Le16(buf[0], buf[1]);
      var code := buf[2];
      var record := HEADER + n;
      assert record <= len && buf[HEADER..record] == buf[..len][HEADER..record];
      assert items == [items[0]] + items[1..];
      if n > SCRATCH_LEN {
        DropFront(record);
        items := items[1..];
        return None;
      }
      CopyOut(n);
      DropFront(record);
      items := items[1..];
      r := Some(Event(code, scratch[..n]));
    }
  }
}
