/** Reception of osdp_FILETRANSFER (pd.c, section 6.26): in-order fragments into
    a bound buffer or handed on one by one. */
module FileTransfers {
  import opened Bytes

  /** A decoded osdp_FILETRANSFER command. */
  datatype Piece = Piece(ftType: byte, total: u32, offset: u32, data: seq<byte>)

  /** FtStatusDetail of osdp_FTSTAT. */
  datatype Detail = DetailOk | Processed | Abort | Unrecognized | Malformed

  predicate Negative(d: Detail) {
    d == Abort || d == Unrecognized || d == Malformed
  }

  /** What the evaluation callback answers: OSDP_OK or a failure. */
  type Verdict = Result<()>

  /** The ft_* fields and the bound buffer; None means streaming. `accepted`
      records the bytes taken since the last fragment at offset zero. */
  datatype Transfer = Transfer(
    file: Option<seq<byte>>,
    active: bool,
    ftType: byte,
    total: u32,
    received: nat,
    accepted: seq<byte>,
    taken: seq<Piece>)

  /** The reassembly bookkeeping: the transfer with its parameters settled, and
      whether the fragment is acceptable. */
  datatype Judged = Judged(t: Transfer, ok: bool)

  function Judge(t: Transfer, p: Piece): Judged {
    var t1 := if p.offset == 0
              then t.(active := true, ftType := p.ftType, total := p.total, received := 0, accepted := [], taken := [])
              else t;
    var ok :=
      if p.offset == 0 then t.file.None? || p.total <= |t.file.value|
      else t.active && p.offset == t.received && p.ftType == t.ftType && p.total == t.total;
    var fits := p.data == [] ||
                (p.offset + |p.data| <= t1.total && (t.file.None? || p.offset + |p.data| <= |t.file.value|));
    Judged(t1, ok && fits)
  }

  function Complete(t: Transfer): bool {
    t.received >= t.total
  }

  function Store(t: Transfer, p: Piece): Transfer
    requires t.file.Some? && p.data != [] ==> p.offset + |p.data| <= |t.file.value|
  {
    if p.data == [] then t.(taken := t.taken + [p])
    else
      t.(received := t.received + |p.data|, accepted := t.accepted + p.data, taken := t.taken + [p],
         file := if t.file.Some? then Some(Overwrite(t.file.value, p.offset, p.data)) else None)
  }

  function DetailOf(v: Verdict, complete: bool): Detail {
    match v
    case Success(_) => if complete then Processed else DetailOk
    case Failure(BadPayload) => Malformed
    case Failure(NotSupported) => Unrecognized
    case Failure(_) => Abort
  }

  /** A negative answer or the last byte ends the transfer. */
  function Ended(t: Transfer, detail: Detail): Transfer {
    if Negative(detail) || Complete(t) then t.(active := false) else t
  }

  datatype Outcome = Outcome(t: Transfer, detail: Detail)

  /** osdp_pd_internal_filetransfer, on a decoded fragment. */
  function Accept(t: Transfer, p: Piece, v: Verdict): Outcome {
    var j := Judge(t, p);
    if !j.ok then Outcome(j.t.(active := false), Abort)
    else
      var s := Store(j.t, p);
      var detail := DetailOf(v, Complete(s));
      Outcome(Ended(s, detail), detail)
  }

  /** The status detail of osdp_FTSTAT: abort for a fragment out of order, out of
      bounds or of another file, and otherwise what the application's verdict
      stands for. */
  lemma {:induction false} DetailIs(t: Transfer, p: Piece, v: Verdict)
    ensures var o := Accept(t, p, v);
            if !Judge(t, p).ok then o.detail == Abort && !o.t.active
            else
              && (o.detail == Malformed <==> v == Failure(BadPayload))
              && (o.detail == Unrecognized <==> v == Failure(NotSupported))
              && (o.detail == Abort <==> v.Failure? && v != Failure(BadPayload) && v != Failure(NotSupported))
              && (o.detail == Processed <==> v.Success? && o.t.received >= o.t.total)
              && (v.Failure? ==> !o.t.active)
  {}

  // ---- What every fragment keeps ----

  /** The data of the fragments, joined. */
  function Joined(pieces: seq<Piece>): seq<byte> {
    if pieces == [] then [] else Joined(pieces[..|pieces| - 1]) + pieces[|pieces| - 1].data
  }

  /** The fragments taken are of one type and declared size, follow each other
      without gap or overlap from offset zero, and are what has been accepted. */
  predicate OneFile(t: Transfer) {
    && t.accepted == Joined(t.taken)
    && (forall i :: 0 <= i < |t.taken| ==>
          && t.taken[i].ftType == t.ftType && t.taken[i].total == t.total
          && t.taken[i].offset == |Joined(t.taken[..i])|)
  }

  predicate Sound(t: Transfer) {
    && |t.accepted| == t.received && OneFile(t)
    && (t.active ==> t.received < t.total && (t.file.Some? ==> t.total <= |t.file.value|))
    && (t.active && t.file.Some? ==> t.file.value[..t.received] == t.accepted)
  }

  /** After every fragment: an active transfer has received less than its total,
      fits the buffer, and the buffer begins with exactly the bytes accepted
      since the last restart; PROCESSED means that the whole file is there; no
      counter leaves 32 bits. */
  lemma {:induction false} AcceptKeeps(t: Transfer, p: Piece, v: Verdict)
    requires Sound(t)
    ensures var o := Accept(t, p, v);
            && Sound(o.t)
            && (o.detail == Processed ==>
                  && o.t.received == o.t.total == |o.t.accepted| && !o.t.active
                  && (o.t.file.Some? ==> o.t.total <= |o.t.file.value| && o.t.file.value[..o.t.total] == o.t.accepted))
            && (Judge(t, p).ok ==> o.t.received <= o.t.total)
            && (o.t.file.Some? <==> t.file.Some?)
            && (t.file.Some? ==> |o.t.file.value| == |t.file.value|)
  {
    var j := Judge(t, p);
    JudgeKeeps(t, p);
    hide OneFile, Joined, Judge, Store, DetailOf, Ended, Complete, Sound;
    if j.ok {
      var s := Store(j.t, p);
      StoreKeeps(j.t, p);
      EndedKeeps(s, v);
    } else {
      IdleSound(j.t);
    }
  }

  lemma {:induction false} IdleSound(t: Transfer)
    requires |t.accepted| == t.received && OneFile(t)
    ensures Sound(t.(active := false))
  {
    hide Joined;
  }

  lemma {:induction false} EndedKeeps(s: Transfer, v: Verdict)
    requires |s.accepted| == s.received <= s.total && OneFile(s) && s.active
    requires s.file.Some? ==> s.total <= |s.file.value| && s.file.value[..s.received] == s.accepted
    ensures var d := DetailOf(v, Complete(s));
            var t := Ended(s, d);
            && Sound(t) && t == s.(active := t.active)
            && (d == Processed ==> t.received == t.total && !t.active)
  {
    hide OneFile;
    SameFile(s, s.(active := false));
  }

  lemma {:induction false} SameFile(t: Transfer, u: Transfer)
    requires u.accepted == t.accepted && u.taken == t.taken && u.ftType == t.ftType && u.total == t.total
    ensures OneFile(u) <==> OneFile(t)
  {}

  /** The bookkeeping leaves a transfer that the fragment, if acceptable, continues
      in order and within bounds. */
  lemma {:induction false} JudgeKeeps(t: Transfer, p: Piece)
    requires Sound(t)
    ensures var j := Judge(t, p);
            && |j.t.accepted| == j.t.received && OneFile(j.t)
            && (j.t.file == t.file)
            && (j.ok ==>
                  && p.offset == j.t.received <= j.t.total && j.t.active
                  && p.ftType == j.t.ftType && p.total == j.t.total
                  && (p.data != [] ==> p.offset + |p.data| <= j.t.total)
                  && (j.t.file.Some? ==> j.t.total <= |j.t.file.value| && j.t.file.value[..j.t.received] == j.t.accepted))
  {
    assert Joined([]) == [];
    if p.offset != 0 {
      SameFile(t, Judge(t, p).t);
    }
  }

  lemma {:induction false} StoreKeeps(t: Transfer, p: Piece)
    requires |t.accepted| == t.received && p.offset == t.received <= t.total
    requires OneFile(t) && p.ftType == t.ftType && p.total == t.total
    requires t.file.Some? ==> t.total <= |t.file.value| && t.file.value[..t.received] == t.accepted
    requires p.data != [] ==> p.offset + |p.data| <= t.total
    ensures var s := Store(t, p);
            && |s.accepted| == s.received <= s.total && OneFile(s)
            && s.total == t.total && s.ftType == t.ftType && s.active == t.active
            && (s.file.Some? <==> t.file.Some?) && (t.file.Some? ==> |s.file.value| == |t.file.value|)
            && (s.file.Some? ==> s.total <= |s.file.value| && s.file.value[..s.received] == s.accepted)
  {
    OneMore(t, p);
  }

  lemma {:induction false} OneMore(t: Transfer, p: Piece)
    requires OneFile(t) && p.ftType == t.ftType && p.total == t.total && p.offset == |t.accepted|
    ensures OneFile(t.(accepted := t.accepted + p.data, taken := t.taken + [p]))
  {
    var n := |t.taken|;
    var all := t.taken + [p];
    assert all[..n] == t.taken;
    assert t.accepted + [] == t.accepted;
    forall i | 0 <= i < |all|
      ensures all[i].ftType == t.ftType && all[i].total == t.total && all[i].offset == |Joined(all[..i])|
    {
      if i < n {
        assert all[..i] == t.taken[..i];
      }
    }
  }

  /** The transfer half of handle_abort. */
  function Aborted(t: Transfer): Transfer {
    t.(active := false, ftType := 0, total := 0, received := 0, accepted := [], taken := [])
  }

  /** A fragment with the application's verdict on it, or osdp_ABORT. */
  datatype Input = Fragment(piece: Piece, verdict: Verdict) | AbortCommand

  function Apply(t: Transfer, input: Input): Outcome {
    match input
    case Fragment(p, v) => Accept(t, p, v)
    case AbortCommand => Outcome(Aborted(t), DetailOk)
  }

  function Run(t: Transfer, inputs: seq<Input>): Outcome
    decreases |inputs|
  {
    if inputs == [] then Outcome(t, DetailOk)
    else
      var n := |inputs| - 1;
      Apply(Run(t, inputs[..n]).t, inputs[n])
  }

  /** Over any sequence of fragments, verdicts and aborts. */
  lemma {:induction false} RunKeeps(t: Transfer, inputs: seq<Input>)
    requires Sound(t)
    ensures var o := Run(t, inputs);
            && Sound(o.t) && (o.t.file.Some? <==> t.file.Some?)
            && (inputs != [] && o.detail == Processed ==>
                  o.t.received == o.t.total == |o.t.accepted|
                  && (o.t.file.Some? ==> o.t.total <= |o.t.file.value| && o.t.file.value[..o.t.total] == o.t.accepted))
    decreases |inputs|
  {
    hide Accept;
    if inputs != [] {
      var n := |inputs| - 1;
      RunKeeps(t, inputs[..n]);
      if inputs[n].Fragment? {
        AcceptKeeps(Run(t, inputs[..n]).t, inputs[n].piece, inputs[n].verdict);
      }
    }
  }

  // ---- A whole file ----

  /** The file cut into consecutive non-empty parts, from `at` on. */
  function Cut(ftType: byte, file: seq<byte>, at: nat, sizes: seq<nat>): seq<Piece>
    requires |file| < U32 && at + Total(sizes) == |file|
    decreases |sizes|
  {
    if sizes == [] then []
    else [Piece(ftType, |file|, at, file[at..at + sizes[0]])] + Cut(ftType, file, at + sizes[0], sizes[1..])
  }

  function Total(sizes: seq<nat>): nat {
    if sizes == [] then 0 else sizes[0] + Total(sizes[1..])
  }

  function Feed(t: Transfer, pieces: seq<Piece>, last: Detail): Outcome
    decreases |pieces|
  {
    if pieces == [] then Outcome(t, last)
    else
      var o := Accept(t, pieces[0], Success(()));
      Feed(o.t, pieces[1..], o.detail)
  }

  /** The next part in order is accepted, and extends what was received. */
  lemma {:induction false} NextPart(t: Transfer, ftType: byte, file: seq<byte>, at: nat, size: nat)
    requires |file| < U32 && 0 < size && at + size <= |file|
    requires Sound(t) && (t.file.Some? ==> |file| <= |t.file.value|)
    requires at > 0 ==> t.active && t.received == at && t.total == |file| && t.ftType == ftType && t.accepted == file[..at]
    ensures var o := Accept(t, Piece(ftType, |file|, at, file[at..at + size]), Success(()));
            && Sound(o.t) && (o.t.file.Some? <==> t.file.Some?)
            && (t.file.Some? ==> |o.t.file.value| == |t.file.value| && o.t.file.value[..at + size] == file[..at + size])
            && o.t.accepted == file[..at + size] && o.t.received == at + size
            && o.t.total == |file| && o.t.ftType == ftType
            && o.t.active == (at + size < |file|)
            && o.detail == (if at + size == |file| then Processed else DetailOk)
  {
    hide OneFile, Joined;
    var p := Piece(ftType, |file|, at, file[at..at + size]);
    AcceptKeeps(t, p, Success(()));
    assert file[..at] + p.data == file[..at + size];
  }

  lemma {:induction false} FeedRest(t: Transfer, ftType: byte, file: seq<byte>, at: nat, sizes: seq<nat>, last: Detail)
    requires |file| < U32 && at + Total(sizes) == |file| && sizes != []
    requires forall i :: 0 <= i < |sizes| ==> 0 < sizes[i]
    requires Sound(t) && (t.file.Some? ==> |file| <= |t.file.value|)
    requires at > 0 ==> t.active && t.received == at && t.total == |file| && t.ftType == ftType && t.accepted == file[..at]
    ensures var o := Feed(t, Cut(ftType, file, at, sizes), last);
            && o.detail == Processed && o.t.accepted == file
            && (t.file.Some? ==> o.t.file.Some? && |file| <= |o.t.file.value| && o.t.file.value[..|file|] == file)
    decreases |sizes|
  {
    hide Accept, Sound;
    NextPart(t, ftType, file, at, sizes[0]);
    assert file[..|file|] == file;
    if sizes[1..] == [] {
      assert Total(sizes[1..]) == 0;
    } else {
      assert Total(sizes[1..]) >= sizes[1];
      var o := Accept(t, Piece(ftType, |file|, at, file[at..at + sizes[0]]), Success(()));
      FeedRest(o.t, ftType, file, at + sizes[0], sizes[1..], o.detail);
    }
  }

  /** Sending a file in consecutive parts of any sizes, each accepted by the
      application, ends with PROCESSED and the file in the buffer, whatever
      transfer was in progress before. */
  lemma {:induction false} WholeFileArrives(t: Transfer, ftType: byte, file: seq<byte>, sizes: seq<nat>)
    requires 0 < |file| < U32 && Total(sizes) == |file|
    requires forall i :: 0 <= i < |sizes| ==> 0 < sizes[i]
    requires Sound(t) && (t.file.Some? ==> |file| <= |t.file.value|)
    ensures var o := Feed(t, Cut(ftType, file, 0, sizes), DetailOk);
            && o.detail == Processed && o.t.accepted == file
            && (t.file.Some? ==> o.t.file.Some? && |file| <= |o.t.file.value| && o.t.file.value[..|file|] == file)
  {
    FeedRest(t, ftType, file, 0, sizes, DetailOk);
  }

  // ---- The method ----

  /** file_buf and the ft_* fields of osdp_pd_t. */
  class FileReceiver {
    const buf: array<byte>
    const streaming: bool
    var active: bool
    var ftType: byte
    var total: u32
    var received: nat
    ghost var accepted: seq<byte>
    ghost var taken: seq<Piece>

    ghost function View(): Transfer
      reads this, buf
    {
      Transfer(if streaming then None else Some(buf[..]), active, ftType, total, received, accepted, taken)
    }

    /** osdp_pd_set_file_receiver and osdp_pd_set_file_stream. */
    constructor (cap: nat, stream: bool)
      ensures Sound(View()) && !active && streaming == stream && fresh(buf) && buf.Length == cap
    {
      buf := new byte[cap](_ => 0);
      streaming := stream;
      active, ftType, total, received := false, 0, 0, 0;
      accepted, taken := [], [];
    }

    /** The transfer half of handle_abort. */
    method Terminate()
      modifies this
      ensures View() == Aborted(old(View()))
      ensures !active && total == 0 && received == 0 && buf[..] == old(buf[..])
    {
      active, total, received, ftType := false, 0, 0, 0;
      accepted, taken := [], [];
    }

    /** The reassembly bookkeeping: restarts at offset zero, continues a matching
        transfer, and checks the bounds. */
    method Settle(p: Piece) returns (ok: bool)
      modifies this
      ensures Judged(View(), ok) == Judge(old(View()), p)
    {
      ok := true;
      if p.offset == 0 {
        active, ftType, total, received := true, p.ftType, p.total, 0;
        accepted, taken := [], [];
        if !streaming && p.total > buf.Length {
          ok := false;
        }
      } else if !active {
        ok := false;
      } else if p.offset != received {
        ok := false;
      } else if p.ftType != ftType || p.total != total {
        ok := false;
      }
      if ok && p.data != [] {
        var end := p.offset + |p.data|;
        if end > total {
          ok := false;
        } else if !streaming && end > buf.Length {
          ok := false;
        }
      }
    }

    method Keep(p: Piece)
      requires !streaming && p.data != [] ==> p.offset + |p.data| <= buf.Length
      modifies this, buf
      ensures View() == Store(old(View()), p)
    {
      if p.data != [] {
        if !streaming {
          CopyIn(buf, p.offset, p.data);
        }
        received := received + |p.data|;
        accepted := accepted + p.data;
      }
      taken := taken + [p];
    }

    /** The fragment judged, kept and answered. */
    method TakePiece(p: Piece, v: Verdict) returns (detail: Detail)
      modifies this, buf
      ensures Outcome(View(), detail) == Accept(old(View()), p, v)
    {
      var ok := Settle(p);
      if !ok {
        active := false;
        return Abort;
      }
      Keep(p);
      var complete := received >= total;
      detail := DetailOf(v, complete);
      if Negative(detail) || complete {
        active := false;
      }
    }

    /** osdp_pd_internal_filetransfer. `v` is what the callback answers, should
        it be called. */
    method Receive(p: Piece, v: Verdict) returns (detail: Detail)
      requires Sound(View())
      modifies this, buf
      ensures Outcome(View(), detail) == Accept(old(View()), p, v)
      ensures Sound(View())
    {
      hide Sound, Accept;
      AcceptKeeps(View(), p, v);
      detail := TakePiece(p, v);
    }
  }
}
