/** Message framing between clients and the window server (graphics/server/ipc_server.c): frames
    are written one after the other, and read back however the pipe cuts them up. */
module IpcFraming {
  import opened Arith
  import opened Bytes

  const IPC_RECV_BUF: nat := 4096
  const HEADER: nat := 8

  datatype Msg = Msg(kind: word, payload: seq<byte>)

  /** A number as a 32-bit signed integer holds it. */
  function Int32(n: int): int {
    var m := n % 0x1_0000_0000;
    if m >= 0x8000_0000 then m - 0x1_0000_0000 else m
  }

  /** The length of a frame as the poll loop adds it up. */
  function Total(length: word): int {
    Int32(HEADER + Int32(length))
  }

  /** Lengths from here on make the sum of header and payload leave the range of `int`. */
  const WILD: nat := 0x7FFF_FFF8

  /** The sum is right exactly for lengths that are not wild; for those it is less than a header. */
  lemma TotalExactly(length: word)
    ensures Total(length) == HEADER + length <==> length < WILD
    ensures length >= WILD ==> Total(length) < HEADER
  {}

  /** Messages whose frame fits the receive buffer. */
  predicate Fits(m: Msg) {
    |m.payload| <= IPC_RECV_BUF - HEADER
  }

  predicate Sendable(m: Msg) {
    |m.payload| < WILD
  }

  /** What send_message writes. */
  function Frame(m: Msg): (r: seq<byte>)
    requires Sendable(m)
    ensures |r| == HEADER + |m.payload|
  {
    Store(m.kind) + Store(|m.payload|) + m.payload
  }

  predicate AllFit(ms: seq<Msg>) {
    forall i :: 0 <= i < |ms| ==> Fits(ms[i])
  }

  predicate AllSendable(ms: seq<Msg>) {
    forall i :: 0 <= i < |ms| ==> Sendable(ms[i])
  }

  function Stream(ms: seq<Msg>): seq<byte>
    requires AllSendable(ms)
  {
    if ms == [] then [] else Frame(ms[0]) + Stream(ms[1..])
  }

  // ---------------------------------------------------------------- reading

  function Announced(buf: seq<byte>): word
    requires |buf| >= HEADER
  {
    Load(buf[4..])
  }

  /** No header that is reached announces a length the frame loop cannot add up. */
  predicate Sane(buf: seq<byte>) {
    |buf| >= HEADER ==>
      Announced(buf) < WILD
      && (|buf| >= HEADER + Announced(buf) ==> Sane(buf[HEADER + Announced(buf)..]))
  }

  datatype Drained = Drained(msgs: seq<Msg>, rest: seq<byte>)

  /** Takes every complete frame off the front. */
  function Drain(buf: seq<byte>): Drained
    requires Sane(buf)
    decreases |buf|, 1
  {
    if HasFrame(buf) then DrainOne(buf) else Drained([], buf)
  }

  predicate HasFrame(buf: seq<byte>) {
    |buf| >= HEADER && |buf| >= HEADER + Announced(buf)
  }

  function DrainOne(buf: seq<byte>): Drained
    requires Sane(buf) && HasFrame(buf)
    decreases |buf|, 0
  {
    var n := HEADER + Announced(buf);
    var d := Drain(buf[n..]);
    Drained([Msg(Load(buf), buf[HEADER..n])] + d.msgs, d.rest)
  }

  /** What is left is no complete frame; it fills the buffer only if its header announces more
      than the buffer can hold. */
  lemma {:induction false} RestLeavesRoom(buf: seq<byte>)
    requires Sane(buf)
    ensures var rest := Drain(buf).rest;
            && Sane(rest) && Drain(rest) == Drained([], rest)
            && (|rest| >= HEADER ==> |rest| < HEADER + Announced(rest))
            && (|rest| >= IPC_RECV_BUF ==> Announced(rest) > IPC_RECV_BUF - HEADER)
  {
    if HasFrame(buf) {
      RestLeavesRoom(buf[HEADER + Announced(buf)..]);
    }
  }

  /** A frame at the front is taken off whole. */
  lemma FrameFirst(m: Msg, tail: seq<byte>)
    requires Sendable(m)
    ensures var b := Frame(m) + tail;
            |b| >= HEADER && Announced(b) == |m.payload| && Load(b) == m.kind
            && b[HEADER..HEADER + |m.payload|] == m.payload && b[HEADER + |m.payload|..] == tail
  {
    var b := Frame(m) + tail;
    LoadStore(m.kind, Store(|m.payload|) + m.payload + tail);
    assert b == Store(m.kind) + (Store(|m.payload|) + m.payload + tail);
    LoadStore(|m.payload|, m.payload + tail);
    assert b[4..] == Store(|m.payload|) + (m.payload + tail);
  }

  lemma HeadTail<T>(s: seq<T>, t: seq<T>)
    requires s != []
    ensures s + t == [s[0]] + (s[1..] + t)
  {}

  lemma DrainFrame(m: Msg, more: seq<byte>)
    requires Sendable(m) && Sane(more)
    ensures Sane(Frame(m) + more)
    ensures Drain(Frame(m) + more) == Drained([m] + Drain(more).msgs, Drain(more).rest)
  {
    FrameFirst(m, more);
  }

  lemma {:induction false} StreamThenTail(ms: seq<Msg>, tail: seq<byte>)
    requires AllSendable(ms) && Sane(tail)
    ensures Sane(Stream(ms) + tail)
    ensures Drain(Stream(ms) + tail) == Drained(ms + Drain(tail).msgs, Drain(tail).rest)
    decreases |ms|
  {
    if ms == [] {
      assert Stream(ms) + tail == tail;
    } else {
      StreamThenTail(ms[1..], tail);
      DrainFrame(ms[0], Stream(ms[1..]) + tail);
      Regroup(Frame(ms[0]), Stream(ms[1..]), tail);
      HeadTail(ms, Drain(tail).msgs);
    }
  }

  /** A proper beginning of a frame is kept as it is. */
  lemma PartialFrame(m: Msg, n: nat)
    requires Sendable(m) && n < |Frame(m)|
    ensures Sane(Frame(m)[..n]) && Drain(Frame(m)[..n]) == Drained([], Frame(m)[..n])
  {
    FrameFirst(m, []);
    var f := Frame(m);
    assert f + [] == f;
    if n >= HEADER {
      assert f[..n][4..][..4] == f[4..][..4];
    }
  }

  /** How many frames are complete in the first `n` bytes of a stream. */
  function Complete(ms: seq<Msg>, n: nat): (k: nat)
    requires AllSendable(ms)
    ensures k <= |ms|
  {
    if ms == [] || n < |Frame(ms[0])| then 0 else 1 + Complete(ms[1..], n - |Frame(ms[0])|)
  }

  /** The first `n` bytes are `done`, then a proper beginning of `next`. */
  predicate CutAfter(bytes: seq<byte>, n: nat, done: seq<byte>, next: seq<byte>) {
    && |done| <= n <= |bytes| && n - |done| < |next|
    && bytes[..n] == done + bytes[|done|..n] && bytes[|done|..n] == next[..n - |done|]
  }

  lemma CutShift(f: seq<byte>, u: seq<byte>, n: nat, done: seq<byte>, next: seq<byte>)
    requires CutAfter(u, n, done, next)
    ensures CutAfter(f + u, |f| + n, f + done, next)
  {
    var rest := u[|done|..n];
    assert (f + u)[..|f| + n] == f + u[..n] && (f + u)[|f| + |done|..|f| + n] == rest;
    Regroup(f, done, rest);
  }

  /** `k` frames end by byte `n`, and the bytes after them are less than the next one. */
  predicate EndsBy(ms: seq<Msg>, n: nat, k: nat)
    requires AllSendable(ms) && k <= |ms|
  {
    if k == |ms| then n == |Stream(ms)| else CutAfter(Stream(ms), n, Stream(ms[..k]), Frame(ms[k]))
  }

  lemma NoneComplete(ms: seq<Msg>, n: nat)
    requires AllSendable(ms) && n <= |Stream(ms)| && (ms != [] ==> n < |Frame(ms[0])|)
    ensures EndsBy(ms, n, 0)
  {
    assert ms[..0] == [] && Stream(ms[..0]) == [];
  }

  lemma {:induction false} CompleteExactly(ms: seq<Msg>, n: nat)
    requires AllSendable(ms) && n <= |Stream(ms)|
    ensures EndsBy(ms, n, Complete(ms, n))
    decreases |ms|
  {
    if ms == [] || n < |Frame(ms[0])| {
      NoneComplete(ms, n);
    } else {
      var n' := n - |Frame(ms[0])|;
      CompleteExactly(ms[1..], n');
      EndsByCons(ms, n, Complete(ms[1..], n'), n', Complete(ms, n));
    }
  }

  lemma EndsByCons(ms: seq<Msg>, n: nat, k: nat, rest: nat, next: nat)
    requires AllSendable(ms) && ms != [] && n == |Frame(ms[0])| + rest && k + 1 == next <= |ms|
    requires EndsBy(ms[1..], rest, k)
    ensures EndsBy(ms, n, next)
  {
    if next < |ms| {
      var f, u, done := Frame(ms[0]), Stream(ms[1..]), Stream(ms[1..][..k]);
      CutShift(f, u, rest, done, Frame(ms[next]));
      assert Stream(ms[..next]) == f + done by {
        assert ms[..next][1..] == ms[1..][..k];
      }
    }
  }

  /** Reading any part of a stream of frames yields the complete ones, in order, and keeps the rest. */
  lemma DrainStream(ms: seq<Msg>, n: nat)
    requires AllSendable(ms) && n <= |Stream(ms)|
    ensures Sane(Stream(ms)[..n])
    ensures var k := Complete(ms, n);
            |Stream(ms[..k])| <= n
            && Drain(Stream(ms)[..n]) == Drained(ms[..k], Stream(ms)[|Stream(ms[..k])|..n])
  {
    CompleteExactly(ms, n);
    var k := Complete(ms, n);
    assert ms[..|ms|] == ms;
    var tail := Stream(ms)[|Stream(ms[..k])|..n];
    if k < |ms| {
      PartialFrame(ms[k], n - |Stream(ms[..k])|);
    } else {
      assert Stream(ms)[..n] == Stream(ms) + tail;
    }
    StreamThenTail(ms[..k], tail);
    assert ms[..k] + [] == ms[..k];
  }

  // ---------------------------------------------------------------- reading in pieces

  /** Draining in two goes is draining at once. */
  lemma {:induction false} DrainAppend(a: seq<byte>, b: seq<byte>)
    requires Sane(a + b)
    ensures Sane(a) && Sane(Drain(a).rest + b)
    ensures var d, e := Drain(a), Drain(Drain(a).rest + b);
            Drain(a + b) == Drained(d.msgs + e.msgs, e.rest)
    decreases |a|
  {
    if |a| >= HEADER {
      assert (a + b)[4..][..4] == a[4..][..4] && (a + b)[..4] == a[..4];
      var n := HEADER + Announced(a);
      if |a| >= n {
        var m := Msg(Load(a), a[HEADER..n]);
        FirstSane(a, b, n);
        DrainAppend(a[n..], b);
        DrainFirst(a, b, n, m);
        Regroup([m], Drain(a[n..]).msgs, Drain(Drain(a[n..]).rest + b).msgs);
      }
    }
  }

  lemma FirstSane(a: seq<byte>, b: seq<byte>, n: nat)
    requires Sane(a + b) && |a| >= HEADER && n == HEADER + Announced(a) <= |a|
    ensures Announced(a) < WILD && Sane(a[n..] + b)
  {
    assert (a + b)[4..][..4] == a[4..][..4] && (a + b)[n..] == a[n..] + b;
  }

  /** The first frame is taken off the same whether or not more bytes follow. */
  lemma DrainFirst(a: seq<byte>, b: seq<byte>, n: nat, m: Msg)
    requires n <= |a| && Sane(a + b) && Sane(a[n..]) && Sane(a[n..] + b)
    requires |a| >= HEADER && n == HEADER + Announced(a) <= |a| && m == Msg(Load(a), a[HEADER..n])
    ensures Sane(a) && Drain(a) == Drained([m] + Drain(a[n..]).msgs, Drain(a[n..]).rest)
    ensures Drain(a + b) == Drained([m] + Drain(a[n..] + b).msgs, Drain(a[n..] + b).rest)
  {
    assert (a + b)[4..][..4] == a[4..][..4] && (a + b)[..4] == a[..4];
    assert (a + b)[n..] == a[n..] + b && (a + b)[HEADER..n] == a[HEADER..n];
  }

  // ---------------------------------------------------------------- the client's receive buffer

  class Client {
    const recvBuf: array<byte>
    var recvLen: nat
    var active: bool
    /** Every message handed on, in order. */
    var dispatched: seq<Msg>

    ghost predicate Valid()
      reads this, recvBuf
    {
      recvBuf.Length == IPC_RECV_BUF && recvLen <= recvBuf.Length
    }

    ghost function Kept(): seq<byte>
      requires Valid()
      reads this, recvBuf
    {
      recvBuf[..recvLen]
    }

    constructor ()
      ensures Valid() && fresh(recvBuf) && active && Kept() == [] && dispatched == []
    {
      recvBuf := new byte[IPC_RECV_BUF](_ => 0);
      recvLen, active, dispatched := 0, true, [];
    }

    /** Appends the bytes a read returned; a read asks for no more than there is room for. */
    method Append(chunk: seq<byte>)
      requires Valid() && |chunk| <= IPC_RECV_BUF - recvLen
      modifies recvBuf, this`recvLen
      ensures Valid() && Kept() == old(Kept()) + chunk
    {
      forall i | 0 <= i < |chunk| {
        recvBuf[recvLen + i] := chunk[i];
      }
      recvLen := recvLen + |chunk|;
    }

    /** Moves the bytes after the first `n` to the front. */
    method Consume(n: nat)
      requires Valid() && n <= recvLen
      modifies recvBuf, this`recvLen
      ensures Valid() && Kept() == old(Kept())[n..]
    {
      forall i | 0 <= i < recvLen - n {
        recvBuf[i] := recvBuf[i + n];
      }
      recvLen := recvLen - n;
    }

    /** Hands on the message at the front of the buffer, if it is complete. */
    method DispatchOne() returns (more: bool)
      requires Valid() && (recvLen >= HEADER ==> Announced(Kept()) < WILD)
      modifies recvBuf, this`recvLen, this`dispatched
      ensures Valid() && more == HasFrame(old(Kept()))
      ensures !more ==> Kept() == old(Kept()) && dispatched == old(dispatched)
      ensures more ==>
        var buf := old(Kept());
        var n := HEADER + Announced(buf);
        Kept() == buf[n..] && dispatched == old(dispatched) + [Msg(Load(buf), buf[HEADER..n])]
    {
      if recvLen < HEADER {
        return false;
      }
      var hdr := recvBuf[..HEADER];
      assert hdr[4..] == Kept()[4..][..4] && hdr[..4] == Kept()[..4];
      var total := Total(Load(hdr[4..]));
      TotalExactly(Load(hdr[4..]));
      if recvLen < total {
        return false;
      }
      assert recvBuf[HEADER..total] == Kept()[HEADER..total];
      dispatched := dispatched + [Msg(Load(hdr), recvBuf[HEADER..total])];
      Consume(total);
      more := true;
    }

    /** Hands on every complete message in the buffer. */
    method DispatchAll()
      requires Valid() && Sane(Kept())
      modifies recvBuf, this`recvLen, this`dispatched
      ensures Valid() && Kept() == Drain(old(Kept())).rest
      ensures dispatched == old(dispatched) + Drain(old(Kept())).msgs
    {
      var more := true;
      while more
        invariant Valid() && Sane(Kept())
        invariant Drain(Kept()).rest == Drain(old(Kept())).rest
        invariant dispatched + Drain(Kept()).msgs == old(dispatched) + Drain(old(Kept())).msgs
        invariant !more ==> Drain(Kept()) == Drained([], Kept())
        decreases recvLen, more
      {
        ghost var buf, done := Kept(), dispatched;
        more := DispatchOne();
        if more {
          var n := HEADER + Announced(buf);
          Regroup(done, [Msg(Load(buf), buf[HEADER..n])], Drain(buf[n..]).msgs);
        }
      }
    }

    /** One turn of the poll loop for this client: it takes what the read returned, or closes. */
    method Poll(result: ReadResult)
      requires Valid() && active
      requires result.Data? ==> |result.chunk| <= IPC_RECV_BUF - recvLen && Sane(Kept() + result.chunk)
      modifies this, recvBuf
      ensures Valid() && active == !result.Closed?
      ensures var all := old(Kept()) + if result.Data? then result.chunk else [];
              if result.Data? then Kept() == Drain(all).rest && dispatched == old(dispatched) + Drain(all).msgs
              else Kept() == old(Kept()) && dispatched == old(dispatched)
    {
      match result
      case Nothing =>
      case Closed => active := false;
      case Data(chunk) =>
        Append(chunk);
        DispatchAll();
    }
  }

  /** What a read returns: bytes, none yet, or the end of the connection. A read that asks for no
      bytes returns none, which is taken for the end. */
  datatype ReadResult = Data(chunk: seq<byte>) | Nothing | Closed

  // ---------------------------------------------------------------- whole connections

  /** How much of a stream has been read, and whether the client is still connected. */
  datatype Link = Link(arrived: nat, open: bool)

  function Room(bytes: seq<byte>, arrived: nat): int
    requires arrived <= |bytes| && Sane(bytes[..arrived])
  {
    IPC_RECV_BUF - |Drain(bytes[..arrived]).rest|
  }

  /** One poll, when at most `size` bytes are there to be read. */
  function Polled(bytes: seq<byte>, l: Link, size: nat): (r: Link)
    requires l.arrived <= |bytes| && Sane(bytes[..l.arrived]) && Room(bytes, l.arrived) >= 0
    ensures l.arrived <= r.arrived <= |bytes|
  {
    var room := Room(bytes, l.arrived);
    if !l.open then l
    else if room == 0 then l.(open := false)
    else l.(arrived := l.arrived + Min(size, Min(room, |bytes| - l.arrived)))
  }

  predicate LinkOk(bytes: seq<byte>, l: Link) {
    l.arrived <= |bytes| && Sane(bytes[..l.arrived]) && Room(bytes, l.arrived) >= 0
  }

  lemma {:induction false} SanePrefix(a: seq<byte>, b: seq<byte>)
    requires Sane(a + b)
    ensures Sane(a)
  {
    DrainAppend(a, b);
  }

  lemma ReadMore(bytes: seq<byte>, a: nat, b: nat)
    requires Sane(bytes) && a <= b <= |bytes|
    ensures Sane(bytes[..a]) && Sane(bytes[..b]) && Sane(Drain(bytes[..a]).rest + bytes[a..b])
    ensures var d, e := Drain(bytes[..a]), Drain(Drain(bytes[..a]).rest + bytes[a..b]);
            Drain(bytes[..b]) == Drained(d.msgs + e.msgs, e.rest)
  {
    TakenSane(bytes, b);
    assert bytes[..b][..a] == bytes[..a] && bytes[..b][a..] == bytes[a..b];
    DrainSplit(bytes[..b], a);
  }

  lemma DrainSplit(bytes: seq<byte>, a: nat)
    requires Sane(bytes) && a <= |bytes|
    ensures Sane(bytes[..a]) && Sane(Drain(bytes[..a]).rest + bytes[a..])
    ensures var d, e := Drain(bytes[..a]), Drain(Drain(bytes[..a]).rest + bytes[a..]);
            Drain(bytes) == Drained(d.msgs + e.msgs, e.rest)
  {
    assert bytes == bytes[..a] + bytes[a..];
    DrainAppend(bytes[..a], bytes[a..]);
  }

  lemma TakenSane(bytes: seq<byte>, n: nat)
    requires Sane(bytes) && n <= |bytes|
    ensures Sane(bytes[..n])
  {
    assert bytes == bytes[..n] + bytes[n..];
    SanePrefix(bytes[..n], bytes[n..]);
  }

  /** What is kept grows by no more than what is read. */
  lemma KeptGrows(bytes: seq<byte>, a: nat, b: nat)
    requires Sane(bytes) && a <= b <= |bytes|
    ensures Sane(bytes[..a]) && Sane(bytes[..b]) && Room(bytes, b) >= Room(bytes, a) - (b - a)
  {
    ReadMore(bytes, a, b);
    RestShrinks(Drain(bytes[..a]).rest + bytes[a..b]);
  }

  /** Reading never runs past the room there is. */
  lemma PolledOk(bytes: seq<byte>, l: Link, size: nat)
    requires Sane(bytes) && LinkOk(bytes, l)
    ensures LinkOk(bytes, Polled(bytes, l, size))
  {
    KeptGrows(bytes, l.arrived, Polled(bytes, l, size).arrived);
  }

  lemma {:induction false} RestShrinks(buf: seq<byte>)
    requires Sane(buf)
    ensures |Drain(buf).rest| <= |buf|
  {
    if HasFrame(buf) {
      RestShrinks(buf[HEADER + Announced(buf)..]);
    }
  }

  /** The connection after polls with these many bytes there to be read. */
  function Polls(bytes: seq<byte>, sizes: seq<nat>): (l: Link)
    requires Sane(bytes)
    ensures LinkOk(bytes, l)
  {
    if sizes == [] then NothingRead(bytes); Link(0, true)
    else
      var l := Polls(bytes, sizes[..|sizes| - 1]);
      PolledOk(bytes, l, sizes[|sizes| - 1]);
      Polled(bytes, l, sizes[|sizes| - 1])
  }

  lemma NothingRead(bytes: seq<byte>)
    ensures LinkOk(bytes, Link(0, true)) && Drain(bytes[..0]) == Drained([], [])
  {}

  /** How many of the polls find something to read. */
  function Positive(sizes: seq<nat>): nat {
    if sizes == [] then 0
    else Positive(sizes[..|sizes| - 1]) + if sizes[|sizes| - 1] > 0 then 1 else 0
  }

  /** Every poll that finds something reads at least a byte, until all is read or the client is
      disconnected. */
  lemma {:induction false} PollsProgress(bytes: seq<byte>, sizes: seq<nat>)
    requires Sane(bytes)
    ensures var l := Polls(bytes, sizes);
            l.open ==> l.arrived >= Min(|bytes|, Positive(sizes))
    decreases |sizes|
  {
    if sizes != [] {
      PollsProgress(bytes, sizes[..|sizes| - 1]);
    }
  }

  /** The length of a stream of frames up to the end of frame `k`. */
  lemma {:induction false} StreamUpTo(ms: seq<Msg>, k: nat)
    requires AllSendable(ms) && k < |ms|
    ensures |Stream(ms[..k + 1])| == |Stream(ms[..k])| + HEADER + |ms[k].payload| <= |Stream(ms)|
    decreases |ms|
  {
    if k == 0 {
      assert ms[..1] == [ms[0]] && ms[..0] == [] && [ms[0]][1..] == [];
    } else {
      StreamUpTo(ms[1..], k - 1);
      assert ms[..k + 1][1..] == ms[1..][..k] && ms[..k][1..] == ms[1..][..k - 1];
    }
  }

  /** What is kept at any point of a stream: the beginning of the frame that has not ended. */
  lemma KeptPart(ms: seq<Msg>, n: nat)
    requires AllSendable(ms) && n <= |Stream(ms)|
    ensures Sane(Stream(ms)[..n])
    ensures var k, kept := Complete(ms, n), IPC_RECV_BUF - Room(Stream(ms), n);
            && |Stream(ms[..k])| + kept == n
            && (k == |ms| ==> n == |Stream(ms)|)
            && (k < |ms| ==> kept < HEADER + |ms[k].payload|)
  {
    DrainStream(ms, n);
    CompleteExactly(ms, n);
    assert ms[..|ms|] == ms;
  }

  lemma FittingRoom(ms: seq<Msg>, n: nat)
    requires AllSendable(ms) && AllFit(ms) && n <= |Stream(ms)|
    ensures Sane(Stream(ms)[..n]) && Room(Stream(ms), n) > 0
  {
    KeptPart(ms, n);
    assert ms[..|ms|] == ms;
  }

  lemma StreamSane(ms: seq<Msg>)
    requires AllSendable(ms)
    ensures Sane(Stream(ms))
  {
    DrainStream(ms, |Stream(ms)|);
    assert Stream(ms)[..|Stream(ms)|] == Stream(ms);
  }

  /** While every message fits, no poll finds the buffer full. */
  lemma {:induction false} FittingStaysOpen(ms: seq<Msg>, sizes: seq<nat>)
    requires AllSendable(ms) && AllFit(ms) && Sane(Stream(ms))
    ensures Polls(Stream(ms), sizes).open
    decreases |sizes|
  {
    if sizes != [] {
      FittingStaysOpen(ms, sizes[..|sizes| - 1]);
      FittingRoom(ms, Polls(Stream(ms), sizes[..|sizes| - 1]).arrived);
    }
  }

  /** With as many polls that find something as there are bytes, all messages that fit are
      dispatched, however the reads cut the stream. */
  lemma AllDispatched(ms: seq<Msg>, sizes: seq<nat>)
    requires AllSendable(ms) && AllFit(ms) && Sane(Stream(ms)) && Positive(sizes) >= |Stream(ms)|
    ensures var l := Polls(Stream(ms), sizes); l == Link(|Stream(ms)|, true) && Complete(ms, l.arrived) == |ms|
  {
    FittingStaysOpen(ms, sizes);
    PollsProgress(Stream(ms), sizes);
    AllComplete(ms);
  }

  lemma {:induction false} AllComplete(ms: seq<Msg>)
    requires AllSendable(ms)
    ensures Complete(ms, |Stream(ms)|) == |ms|
    decreases |ms|
  {
    if ms != [] {
      AllComplete(ms[1..]);
    }
  }

  /** The first message too large for the buffer. */
  predicate FirstOversize(ms: seq<Msg>, k: nat) {
    k < |ms| && AllFit(ms[..k]) && !Fits(ms[k])
  }

  /** A message too large for the buffer is never dispatched, nor is any after it. */
  lemma {:induction false} StopsAtOversize(ms: seq<Msg>, k: nat, sizes: seq<nat>)
    requires AllSendable(ms) && Sane(Stream(ms)) && FirstOversize(ms, k)
    ensures var l := Polls(Stream(ms), sizes);
            && l.arrived <= |Stream(ms[..k])| + IPC_RECV_BUF && Complete(ms, l.arrived) <= k
            && (!l.open ==> Complete(ms, l.arrived) == k)
    decreases |sizes|
  {
    StreamUpTo(ms, k);
    if sizes == [] {
      CompleteNone(ms);
    } else {
      var before := Polls(Stream(ms), sizes[..|sizes| - 1]);
      StopsAtOversize(ms, k, sizes[..|sizes| - 1]);
      OversizeStep(ms, k, before, sizes[|sizes| - 1]);
    }
  }

  lemma CompleteNone(ms: seq<Msg>)
    requires AllSendable(ms)
    ensures Complete(ms, 0) == 0
  {}

  lemma OversizeStep(ms: seq<Msg>, k: nat, l: Link, size: nat)
    requires AllSendable(ms) && Sane(Stream(ms)) && FirstOversize(ms, k) && LinkOk(Stream(ms), l)
    requires Complete(ms, l.arrived) <= k && (!l.open ==> Complete(ms, l.arrived) == k)
    requires l.arrived <= |Stream(ms[..k])| + IPC_RECV_BUF
    ensures var r := Polled(Stream(ms), l, size);
            && r.arrived <= |Stream(ms[..k])| + IPC_RECV_BUF && Complete(ms, r.arrived) <= k
            && (!r.open ==> Complete(ms, r.arrived) == k)
  {
    var r := Polled(Stream(ms), l, size);
    RoomBefore(ms, k, l.arrived);
    BeforeOversize(ms, k, r.arrived);
  }

  /** Before the oversized message has arrived the room ends before it does, and is used up only
      by it. */
  lemma RoomBefore(ms: seq<Msg>, k: nat, n: nat)
    requires AllSendable(ms) && FirstOversize(ms, k) && n <= |Stream(ms)| && Complete(ms, n) <= k
    ensures Sane(Stream(ms)[..n]) && n + Room(Stream(ms), n) <= |Stream(ms[..k])| + IPC_RECV_BUF
    ensures Room(Stream(ms), n) == 0 ==> Complete(ms, n) == k
  {
    var j := Complete(ms, n);
    KeptPart(ms, n);
    StreamGrows(ms, j, k);
    if j < k {
      assert Fits(ms[..k][j]);
    }
  }

  lemma BeforeOversize(ms: seq<Msg>, k: nat, n: nat)
    requires AllSendable(ms) && FirstOversize(ms, k) && n <= |Stream(ms)| && n <= |Stream(ms[..k])| + IPC_RECV_BUF
    ensures Complete(ms, n) <= k
  {
    KeptPart(ms, n);
    StreamUpTo(ms, k);
    KeptIsNatural(Stream(ms), n);
    if Complete(ms, n) > k {
      StreamGrows(ms, k + 1, Complete(ms, n));
    }
  }

  lemma KeptIsNatural(bytes: seq<byte>, n: nat)
    requires n <= |bytes| && Sane(bytes[..n])
    ensures Room(bytes, n) <= IPC_RECV_BUF
  {}

  lemma {:induction false} StreamGrows(ms: seq<Msg>, j: nat, k: nat)
    requires AllSendable(ms) && j <= k <= |ms|
    ensures |Stream(ms[..j])| <= |Stream(ms[..k])|
    decreases k - j
  {
    if j < k {
      StreamGrows(ms, j, k - 1);
      StreamUpTo(ms, k - 1);
    }
  }

  /** A client that announces more than the buffer can hold is disconnected, after every message
      before has been dispatched, once enough polls have found something to read. */
  lemma OversizeDisconnects(ms: seq<Msg>, k: nat, sizes: seq<nat>)
    requires AllSendable(ms) && Sane(Stream(ms)) && FirstOversize(ms, k)
    requires Positive(sizes) > |Stream(ms[..k])| + IPC_RECV_BUF
    ensures var l := Polls(Stream(ms), sizes); !l.open && Complete(ms, l.arrived) == k
  {
    StopsAtOversize(ms, k, sizes);
    PollsProgress(Stream(ms), sizes);
    StreamUpTo(ms, k);
  }

  /** A client sends messages; each poll finds up to so many more of their bytes. What has been
      read, and whether the client is still connected, is what the polls say; the messages
      dispatched are the complete ones of it, and the bytes kept are what has arrived of the next. */
  method Session(ms: seq<Msg>, sizes: seq<nat>) returns (c: Client, arrived: nat)
    requires AllSendable(ms)
    ensures fresh(c) && c.Valid() && Sane(Stream(ms)) && Link(arrived, c.active) == Polls(Stream(ms), sizes)
    ensures var k := Complete(ms, arrived);
            && c.dispatched == ms[..k]
            && |Stream(ms[..k])| <= arrived && c.Kept() == Stream(ms)[|Stream(ms[..k])|..arrived]
    ensures AllFit(ms) ==> c.active && c.recvLen < IPC_RECV_BUF
    ensures AllFit(ms) && Positive(sizes) >= |Stream(ms)| ==> arrived == |Stream(ms)| && c.dispatched == ms
  {
    StreamSane(ms);
    c := new Client();
    arrived := 0;
    var bytes := Stream(ms);
    NothingRead(bytes);
    for i := 0 to |sizes|
      invariant fresh(c) && fresh(c.recvBuf) && c.Valid()
      invariant Link(arrived, c.active) == Polls(bytes, sizes[..i])
      invariant Drained(c.dispatched, c.Kept()) == Drain(bytes[..arrived])
    {
      assert sizes[..i + 1][..i] == sizes[..i];
      arrived := Deliver(c, bytes, arrived, sizes[i]);
    }
    assert sizes[..|sizes|] == sizes;
    SessionEnds(ms, sizes, arrived);
  }

  lemma SessionEnds(ms: seq<Msg>, sizes: seq<nat>, n: nat)
    requires AllSendable(ms) && Sane(Stream(ms)) && n == Polls(Stream(ms), sizes).arrived
    ensures var k := Complete(ms, n);
            && |Stream(ms[..k])| <= n && Sane(Stream(ms)[..n])
            && Drain(Stream(ms)[..n]) == Drained(ms[..k], Stream(ms)[|Stream(ms[..k])|..n])
            && (k == |ms| ==> ms[..k] == ms)
    ensures AllFit(ms) ==> Polls(Stream(ms), sizes).open && Room(Stream(ms), n) > 0
    ensures AllFit(ms) && Positive(sizes) >= |Stream(ms)| ==> n == |Stream(ms)| && Complete(ms, n) == |ms|
  {
    DrainStream(ms, n);
    if AllFit(ms) {
      FittingStaysOpen(ms, sizes);
      FittingRoom(ms, n);
      if Positive(sizes) >= |Stream(ms)| {
        AllDispatched(ms, sizes);
      }
    }
  }

  /** One poll: the read asks for as much as there is room for, and gets what is there. */
  method Deliver(c: Client, bytes: seq<byte>, arrived: nat, size: nat) returns (upTo: nat)
    requires c.Valid() && Sane(bytes) && LinkOk(bytes, Link(arrived, c.active))
    requires Drained(c.dispatched, c.Kept()) == Drain(bytes[..arrived])
    modifies c, c.recvBuf
    ensures c.Valid() && Link(upTo, c.active) == Polled(bytes, Link(arrived, old(c.active)), size)
    ensures LinkOk(bytes, Link(upTo, c.active)) && Drained(c.dispatched, c.Kept()) == Drain(bytes[..upTo])
  {
    PolledOk(bytes, Link(arrived, c.active), size);
    upTo := arrived;
    if !c.active {
      return;
    }
    var asked := IPC_RECV_BUF - c.recvLen;
    var n := Min(size, Min(asked, |bytes| - arrived));
    if asked == 0 {
      c.Poll(Closed);
    } else if n == 0 {
      c.Poll(Nothing);
    } else {
      upTo := arrived + n;
      ReadMore(bytes, arrived, upTo);
      c.Poll(Data(bytes[arrived..upTo]));
    }
  }
}
