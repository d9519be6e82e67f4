/**
  How net.cpp takes messages apart into bytes and puts them together again. The
  reference is a machine that takes one byte at a time; the code takes whatever
  chunks the socket gives it.
 */
module NetMessages {
  import opened Coins

  const HEADER_SIZE: nat := 24
  const MESSAGE_SIZE_OFFSET: nat := 16
  const CHECKSUM_OFFSET: nat := 20
  const MAX_SIZE: nat := 0x02000000
  const AHEAD: nat := 256 * 1024

  type Bytes = seq<Byte>

  /** `nMessageSize`, little-endian. */
  function SizeField(header: Bytes): nat
    requires |header| == HEADER_SIZE
  {
    var a: int, b: int, c: int, d: int := header[16], header[17], header[18], header[19];
    a + 0x100 * b + 0x10000 * c + 0x1000000 * d
  }

  // ---------------------------------------------------------------------------
  // One byte at a time
  // ---------------------------------------------------------------------------

  datatype Message = Message(header: Bytes, payload: Bytes)

  /** Complete messages, the incomplete one, and whether a header asked for too much. */
  datatype Received = Received(done: seq<Message>, part: Message, failed: bool)

  const NOTHING: Message := Message([], [])

  function Feed(r: Received, b: Byte): Received {
    if r.failed then r
    else if |r.part.header| < HEADER_SIZE then
      var part := r.part.(header := r.part.header + [b]);
      if |part.header| < HEADER_SIZE then r.(part := part)
      else if SizeField(part.header) > MAX_SIZE then r.(part := part, failed := true)
      else Settle(r.(part := part))
    else Settle(r.(part := r.part.(payload := r.part.payload + [b])))
  }

  /** A message whose payload is there is done. */
  function Settle(r: Received): Received {
    if |r.part.header| == HEADER_SIZE && |r.part.payload| == SizeField(r.part.header)
    then r.(done := r.done + [r.part], part := NOTHING) else r
  }

  function FeedAll(r: Received, s: Bytes): Received {
    if s == [] then r else Feed(FeedAll(r, s[..|s| - 1]), s[|s| - 1])
  }

  /** The incomplete message is really incomplete. */
  ghost predicate Proper(r: Received) {
    !r.failed ==>
      if |r.part.header| < HEADER_SIZE then r.part.payload == []
      else |r.part.header| == HEADER_SIZE && |r.part.payload| < SizeField(r.part.header) <= MAX_SIZE
  }

  /** What has been received depends on the bytes, not on how they were cut up. */
  lemma {:induction false} FeedSplit(r: Received, s: Bytes, t: Bytes)
    ensures FeedAll(r, s + t) == FeedAll(FeedAll(r, s), t)
  {
    if t == [] {
      assert s + t == s;
    } else {
      var k := |t| - 1;
      FeedSplit(r, s, t[..k]);
      assert (s + t)[..|s + t| - 1] == s + t[..k];
    }
  }

  lemma {:induction false} FeedFailed(r: Received, s: Bytes)
    requires r.failed
    ensures FeedAll(r, s) == r
  {
    if s != [] {
      FeedFailed(r, s[..|s| - 1]);
    }
  }

  /** Some bytes of a header, up to its end. */
  lemma {:induction false} FeedHeader(r: Received, s: Bytes)
    requires Proper(r) && !r.failed && |r.part.header| + |s| <= HEADER_SIZE && |r.part.header| < HEADER_SIZE
    ensures
      var header := r.part.header + s;
      FeedAll(r, s) ==
        if |header| < HEADER_SIZE then r.(part := Message(header, []))
        else if SizeField(header) > MAX_SIZE then r.(part := Message(header, []), failed := true)
        else Settle(r.(part := Message(header, [])))
  {
    if s == [] {
      assert r.part.header + s == r.part.header;
    } else {
      var k := |s| - 1;
      FeedHeader(r, s[..k]);
      assert r.part.header + s == r.part.header + s[..k] + [s[k]];
    }
  }

  /** Some bytes of a payload, up to its end. */
  lemma {:induction false} FeedPayload(r: Received, s: Bytes)
    requires Proper(r) && !r.failed && |r.part.header| == HEADER_SIZE && |r.part.payload| + |s| <= SizeField(r.part.header)
    ensures FeedAll(r, s) == Settle(r.(part := r.part.(payload := r.part.payload + s)))
  {
    if s == [] {
      assert r.part.payload + s == r.part.payload;
    } else {
      var k := |s| - 1;
      FeedPayload(r, s[..k]);
      assert r.part.payload + s == r.part.payload + s[..k] + [s[k]];
    }
  }

  // ---------------------------------------------------------------------------
  // CNetMessage
  // ---------------------------------------------------------------------------

  datatype NetMessage = NetMessage(in_data: bool, hdrbuf: Bytes, nHdrPos: nat, nMessageSize: nat, vRecv: Bytes, nDataPos: nat) {
    predicate Complete() {
      in_data && nMessageSize == nDataPos
    }

    /** Bytes received are in front in both buffers, which are never larger than they have to be. */
    ghost predicate Valid() {
      && |hdrbuf| == HEADER_SIZE && nHdrPos <= HEADER_SIZE && nDataPos <= |vRecv|
      && (in_data ==> nHdrPos == HEADER_SIZE && nMessageSize == SizeField(hdrbuf) <= MAX_SIZE && |vRecv| <= nMessageSize)
      && (!in_data ==> nDataPos == 0 && vRecv == [])
    }

    /** The header or the payload is still to come. */
    ghost predicate Open() {
      Valid() && !Complete() && (in_data || nHdrPos < HEADER_SIZE)
    }

    ghost function Part(): Message
      requires Valid()
    {
      Message(hdrbuf[..nHdrPos], vRecv[..nDataPos])
    }
  }

  function NewMessage(): NetMessage {
    NetMessage(false, seq(HEADER_SIZE, _ => 0), 0, 0, [], 0)
  }

  function Copied(buffer: Bytes, at: nat, s: Bytes): (r: Bytes)
    requires at + |s| <= |buffer|
    ensures |r| == |buffer| && r[..at + |s|] == buffer[..at] + s
  {
    buffer[..at] + s + buffer[at + |s|..]
  }

  function Least(a: nat, b: nat): nat {
    if a < b then a else b
  }

  /** `readHeader`; -1 for a header that asks for too much. */
  method ReadHeader(msg: NetMessage, pch: Bytes) returns (r: NetMessage, handled: int)
    requires msg.Open() && !msg.in_data && pch != []
    ensures handled == -1 ==>
      && r.Valid() && |msg.Part().header| + |pch| >= HEADER_SIZE
      && r.Part() == Message(msg.Part().header + pch[..HEADER_SIZE - msg.nHdrPos], [])
      && SizeField(r.Part().header) > MAX_SIZE
    ensures handled != -1 ==>
      && 0 < handled <= |pch| && r.Valid() && (r.Open() || r.Complete())
      && r.Part() == Message(msg.Part().header + pch[..handled], [])
      && (r.nHdrPos == HEADER_SIZE ==> r.in_data)
  {
    var nRemaining := HEADER_SIZE - msg.nHdrPos;
    var nCopy := Least(nRemaining, |pch|);
    r := msg.(hdrbuf := Copied(msg.hdrbuf, msg.nHdrPos, pch[..nCopy]), nHdrPos := msg.nHdrPos + nCopy);
    if r.nHdrPos < HEADER_SIZE {
      return r, nCopy;
    }
    r := r.(nMessageSize := SizeField(r.hdrbuf));
    if r.nMessageSize > MAX_SIZE {
      return r, -1;
    }
    r := r.(in_data := true);
    handled := nCopy;
  }

  /** `readData`: the buffer grows ahead of the data, but not beyond the message. */
  method ReadData(msg: NetMessage, pch: Bytes) returns (r: NetMessage, handled: nat)
    requires msg.Open() && msg.in_data && pch != []
    ensures 0 < handled <= |pch| && r.Valid() && r.in_data && (r.Open() || r.Complete())
    ensures r.Part() == msg.Part().(payload := msg.Part().payload + pch[..handled])
    ensures r.nMessageSize == msg.nMessageSize && msg.nDataPos + handled <= msg.nMessageSize && r.hdrbuf == msg.hdrbuf
  {
    var nRemaining := msg.nMessageSize - msg.nDataPos;
    handled := Least(nRemaining, |pch|);
    var vRecv := msg.vRecv;
    if |vRecv| < msg.nDataPos + handled {
      vRecv := Resized(vRecv, Least(msg.nMessageSize, msg.nDataPos + handled + AHEAD));
    }
    r := msg.(vRecv := Copied(vRecv, msg.nDataPos, pch[..handled]), nDataPos := msg.nDataPos + handled);
  }

  function Resized(s: Bytes, n: nat): (r: Bytes)
    requires n >= |s|
    ensures |r| == n && r[..|s|] == s
  {
    s + seq(n - |s|, _ => 0)
  }

  /** The buffer of a complete message is exactly its payload. */
  lemma CompleteBuffer(msg: NetMessage)
    requires msg.Valid() && msg.Complete()
    ensures msg.vRecv == msg.Part().payload
  {
  }

  // ---------------------------------------------------------------------------
  // CNode
  // ---------------------------------------------------------------------------

  /** All messages but the last are complete; the last may be incomplete, or have failed. */
  ghost predicate Queue(v: seq<NetMessage>) {
    && (forall i :: 0 <= i < |v| ==> v[i].Valid())
    && (forall i :: 0 <= i < |v| - 1 ==> v[i].Complete())
  }

  ghost function Parts(v: seq<NetMessage>): seq<Message>
    requires forall i :: 0 <= i < |v| ==> v[i].Valid()
  {
    seq(|v|, i requires 0 <= i < |v| => v[i].Part())
  }

  /** What a receive queue stands for. */
  ghost function State(v: seq<NetMessage>, failed: bool): Received
    requires Queue(v)
  {
    if v == [] || v[|v| - 1].Complete() then Received(Parts(v), NOTHING, failed)
    else Received(Parts(v[..|v| - 1]), v[|v| - 1].Part(), failed)
  }

  class CNode {
    var vRecvMsg: seq<NetMessage>
    var vSendMsg: seq<Bytes>
    var nSendOffset: nat
    var nSendSize: int

    /** What the socket has taken, and every message that was ever queued. */
    var sent: Bytes
    ghost var queued: seq<Bytes>

    constructor ()
      ensures Receiving() && vRecvMsg == [] && Sending() && queued == [] && sent == []
    {
      vRecvMsg, vSendMsg, nSendOffset, nSendSize, sent, queued := [], [], 0, 0, [], [];
      new;
      assert Concat(vSendMsg)[nSendOffset..] == [];
    }

    /** Nothing is wrong with what has been received so far. */
    ghost predicate Receiving()
      reads this
    {
      Queue(vRecvMsg) && (vRecvMsg != [] ==> vRecvMsg[|vRecvMsg| - 1].Complete() || vRecvMsg[|vRecvMsg| - 1].Open())
    }

    /** `ReceiveMsgBytes`: the same messages as one byte at a time. Every round takes at least one byte. */
    method ReceiveMsgBytes(chunk: Bytes) returns (ok: bool)
      requires Receiving()
      modifies this`vRecvMsg
      ensures Queue(vRecvMsg) && State(vRecvMsg, !ok) == FeedAll(State(old(vRecvMsg), false), chunk)
      ensures ok ==> Receiving()
    {
      hide FeedAll, State;
      var pch := chunk;
      assert chunk[..0] == [];
      FeedNothing(State(vRecvMsg, false));
      while |pch| > 0
        invariant Receiving() && |pch| <= |chunk| && pch == chunk[|chunk| - |pch|..]
        invariant State(vRecvMsg, false) == FeedAll(State(old(vRecvMsg), false), chunk[..|chunk| - |pch|])
      {
        ghost var before := vRecvMsg;
        var handled;
        ok, handled := Absorb(pch);
        ghost var taken := |chunk| - |pch|;
        if !ok {
          FeedSplit(State(old(vRecvMsg), false), chunk[..taken], pch);
          assert chunk[..taken] + pch == chunk;
          return;
        }
        FeedSplit(State(old(vRecvMsg), false), chunk[..taken], pch[..handled]);
        assert chunk[..taken] + pch[..handled] == chunk[..taken + handled];
        pch := pch[handled..];
      }
      assert chunk[..|chunk|] == chunk;
      ok := true;
    }

    /** One round of the loop. */
    method Absorb(pch: Bytes) returns (ok: bool, handled: nat)
      requires Receiving() && pch != []
      modifies this`vRecvMsg
      ensures Queue(vRecvMsg)
      ensures ok ==> Receiving() && 0 < handled <= |pch| && State(vRecvMsg, false) == FeedAll(State(old(vRecvMsg), false), pch[..handled])
      ensures !ok ==> State(vRecvMsg, true) == FeedAll(State(old(vRecvMsg), false), pch)
    {
      hide FeedAll, State;
      ghost var r := State(vRecvMsg, false);
      if vRecvMsg == [] || vRecvMsg[|vRecvMsg| - 1].Complete() {
        StartMessage(vRecvMsg);
        vRecvMsg := vRecvMsg + [NewMessage()];
      }
      var k := |vRecvMsg| - 1;
      StateOf(vRecvMsg);
      var msg', n := AbsorbInto(vRecvMsg[k], pch, r);
      Replaced(vRecvMsg, msg', n < 0);
      vRecvMsg := vRecvMsg[k := msg'];
      ok, handled := n >= 0, if n >= 0 then n else 0;
    }

    // -------------------------------------------------------------------------
    // Sending
    // -------------------------------------------------------------------------

    /** What was handed to the socket and what is pending are, together, all that was queued. */
    ghost predicate Sending()
      reads this
    {
      && (forall i :: 0 <= i < |vSendMsg| ==> vSendMsg[i] != [])
      && OffsetOk(vSendMsg, nSendOffset) && nSendSize == TotalSize(vSendMsg)
      && sent + Rest(vSendMsg, nSendOffset) == Concat(queued)
    }

    /** `SocketSendData`: the socket takes as much of each message as it likes, or fails. */
    method SocketSendData()
      requires Sending()
      modifies this`vSendMsg, this`nSendOffset, this`nSendSize, this`sent
      ensures Sending() && old(sent) <= sent
    {
      hide Concat, TotalSize, Rest;
      var it := 0;
      assert vSendMsg[0..] == vSendMsg;
      while it < |vSendMsg|
        invariant 0 <= it <= |vSendMsg| && vSendMsg == old(vSendMsg)
        invariant OffsetOk(vSendMsg[it..], nSendOffset) && nSendSize == TotalSize(vSendMsg[it..])
        invariant sent + Rest(vSendMsg[it..], nSendOffset) == Concat(queued) && old(sent) <= sent
      {
        var data := vSendMsg[it];
        assert |data| > nSendOffset;
        var nBytes: int :| -1 <= nBytes <= |data| - nSendOffset;
        if nBytes <= 0 {
          break;
        }
        ghost var offset := nSendOffset;
        SendSome(vSendMsg[it..], offset, nBytes, sent);
        assert vSendMsg[it..][1..] == vSendMsg[it + 1..];
        sent := sent + data[nSendOffset..nSendOffset + nBytes];
        nSendOffset := nSendOffset + nBytes;
        if nSendOffset == |data| {
          nSendOffset := 0;
          nSendSize := nSendSize - |data|;
          it := it + 1;
        } else {
          break;
        }
      }
      if it == |vSendMsg| {
        NothingPending(vSendMsg[it..]);
        assert nSendOffset == 0 && nSendSize == 0;
      }
      vSendMsg := vSendMsg[it..];
    }

    /**
      `EndMessage`: fill the size and the checksum in behind the start of the
      header, queue the message, and try to send it if it is the only one.
     */
    method EndMessage(Hash: Bytes -> Bytes, stream: Bytes)
      requires Sending() && (stream != [] ==> |stream| >= HEADER_SIZE && |Hash(stream[HEADER_SIZE..])| == 32)
      modifies this`vSendMsg, this`nSendOffset, this`nSendSize, this`sent, this`queued
      ensures Sending() && old(sent) <= sent
      ensures queued == old(queued) + if stream == [] then [] else [Sealed(Hash, stream).OnWire()]
    {
      hide Concat, TotalSize, Word32;
      if stream == [] {
        return;
      }
      var ssSend := stream;
      var nSize := |ssSend| - HEADER_SIZE;
      ssSend := Copied(ssSend, MESSAGE_SIZE_OFFSET, Word32(nSize));
      var hash := Hash(ssSend[HEADER_SIZE..]);
      assert ssSend[HEADER_SIZE..] == stream[HEADER_SIZE..];
      ssSend := Copied(ssSend, CHECKSUM_OFFSET, hash[..4]);
      assert ssSend == Sealed(Hash, stream).OnWire();
      QueueOne(vSendMsg, nSendOffset, ssSend, queued, sent);
      vSendMsg := vSendMsg + [ssSend];
      nSendSize := nSendSize + |ssSend|;
      queued := queued + [ssSend];
      if |vSendMsg| == 1 {
        SocketSendData();
      }
    }
  }

  lemma StateOf(v: seq<NetMessage>)
    requires Queue(v) && v != [] && !v[|v| - 1].Complete()
    ensures State(v, false).part == v[|v| - 1].Part() && !State(v, false).failed
  {
  }

  /** The current message takes what it can, which is what the machine does with as many bytes. */
  method AbsorbInto(msg: NetMessage, pch: Bytes, ghost r: Received) returns (msg': NetMessage, n: int)
    requires msg.Open() && pch != [] && r.part == msg.Part() && !r.failed
    ensures msg'.Valid() && (n < 0 ==> !msg'.Complete()) && (n >= 0 ==> 0 < n <= |pch| && (msg'.Complete() || msg'.Open()))
    ensures (if n < 0 then FeedAll(r, pch) else FeedAll(r, pch[..n])) ==
      if msg'.Complete() then Received(r.done + [msg'.Part()], NOTHING, false) else Received(r.done, msg'.Part(), n < 0)
  {
    hide FeedAll;
    if !msg.in_data {
      msg', n := ReadHeader(msg, pch);
      if n < 0 {
        TooLarge(r, pch, HEADER_SIZE - msg.nHdrPos);
      } else {
        FeedHeader(r, pch[..n]);
      }
    } else {
      msg', n := ReadData(msg, pch);
      FeedPayload(r, pch[..n]);
    }
  }

  lemma FeedNothing(r: Received)
    ensures FeedAll(r, []) == r
  {
  }

  /** An empty message at the end changes nothing. */
  lemma StartMessage(v: seq<NetMessage>)
    requires Queue(v) && (v == [] || v[|v| - 1].Complete())
    ensures Queue(v + [NewMessage()]) && State(v + [NewMessage()], false) == State(v, false)
    ensures NewMessage().Open()
  {
    hide NewMessage, SizeField;
    EmptyMessage();
    var w := v + [NewMessage()];
    assert w[..|w| - 1] == v;
  }

  lemma EmptyMessage()
    ensures NewMessage().Open() && !NewMessage().Complete() && NewMessage().Part() == NOTHING
  {
  }

  /** What the queue stands for after its last message has changed. */
  lemma Replaced(v: seq<NetMessage>, msg: NetMessage, failed: bool)
    requires Queue(v) && v != [] && !v[|v| - 1].Complete() && msg.Valid() && (failed ==> !msg.Complete())
    ensures
      var w, r := v[|v| - 1 := msg], State(v, false);
      && Queue(w)
      && State(w, failed) ==
           if msg.Complete() then Received(r.done + [msg.Part()], NOTHING, failed) else Received(r.done, msg.Part(), failed)
  {
    var w := v[|v| - 1 := msg];
    assert w[..|w| - 1] == v[..|v| - 1];
    assert msg.Complete() ==> Parts(w) == Parts(v[..|v| - 1]) + [msg.Part()];
  }

  lemma TooLarge(r: Received, pch: Bytes, n: nat)
    requires Proper(r) && !r.failed && |r.part.header| < HEADER_SIZE && |r.part.header| + n == HEADER_SIZE && n <= |pch|
    requires SizeField(r.part.header + pch[..n]) > MAX_SIZE
    ensures FeedAll(r, pch) == r.(part := Message(r.part.header + pch[..n], []), failed := true)
  {
    hide FeedAll;
    FeedHeader(r, pch[..n]);
    FeedSplit(r, pch[..n], pch[n..]);
    assert pch[..n] + pch[n..] == pch;
    FeedFailed(FeedAll(r, pch[..n]), pch[n..]);
  }

  // ---------------------------------------------------------------------------
  // Queues of byte strings
  // ---------------------------------------------------------------------------

  function Concat(v: seq<Bytes>): Bytes {
    if v == [] then [] else Concat(v[..|v| - 1]) + v[|v| - 1]
  }

  function TotalSize(v: seq<Bytes>): nat {
    if v == [] then 0 else TotalSize(v[..|v| - 1]) + |v[|v| - 1]|
  }

  predicate OffsetOk(v: seq<Bytes>, offset: nat) {
    if v == [] then offset == 0 else offset < |v[0]|
  }

  ghost function Rest(v: seq<Bytes>, offset: nat): Bytes {
    if offset <= |Concat(v)| then Concat(v)[offset..] else []
  }

  lemma {:induction false} ConcatHead(v: seq<Bytes>)
    requires v != []
    ensures Concat(v) == v[0] + Concat(v[1..]) && TotalSize(v) == |v[0]| + TotalSize(v[1..])
  {
    hide Concat, TotalSize;
    var k := |v| - 1;
    assert v == v[..k] + [v[k]];
    ConcatLast(v[..k], v[k]);
    if k > 0 {
      ConcatHead(v[..k]);
      var rest := v[..k][1..];
      assert v[1..] == rest + [v[k]];
      ConcatLast(rest, v[k]);
      assert v[0] + Concat(rest) + v[k] == v[0] + (Concat(rest) + v[k]);
    } else {
      assert v[..k] == [] && v[1..] == [];
      ConcatNone();
      assert [] + v[0] == v[0] + [];
    }
  }

  lemma ConcatNone()
    ensures Concat([]) == [] && TotalSize([]) == 0
  {
  }

  lemma SendSome(v: seq<Bytes>, offset: nat, n: nat, sent: Bytes)
    requires v != [] && offset + n <= |v[0]|
    ensures
      var sent' := sent + v[0][offset..offset + n];
      && sent' + Rest(v, offset + n) == sent + Rest(v, offset)
      && (offset + n == |v[0]| ==> sent' + Rest(v[1..], 0) == sent + Rest(v, offset))
      && TotalSize(v) == |v[0]| + TotalSize(v[1..])
  {
    hide Concat, TotalSize;
    ConcatHead(v);
    var c := Concat(v);
    assert v[0][offset..offset + n] == c[offset..offset + n];
    assert c[offset..] == c[offset..offset + n] + c[offset + n..];
    assert c[|v[0]|..] == Concat(v[1..]);
  }

  lemma NothingPending(v: seq<Bytes>)
    ensures v == [] ==> TotalSize(v) == 0
  {
  }

  lemma QueueOne(v: seq<Bytes>, offset: nat, s: Bytes, queued: seq<Bytes>, sent: Bytes)
    requires s != [] && OffsetOk(v, offset) && sent + Rest(v, offset) == Concat(queued)
    ensures OffsetOk(v + [s], offset) && TotalSize(v + [s]) == TotalSize(v) + |s|
    ensures sent + Rest(v + [s], offset) == Concat(queued + [s])
  {
    hide Concat, TotalSize;
    ConcatLast(v, s);
    ConcatLast(queued, s);
    if v != [] {
      ConcatHead(v);
    }
    assert offset <= |Concat(v)|;
    assert (Concat(v) + s)[offset..] == Concat(v)[offset..] + s;
    assert sent + (Concat(v)[offset..] + s) == sent + Concat(v)[offset..] + s;
  }

  lemma ConcatLast(v: seq<Bytes>, s: Bytes)
    ensures Concat(v + [s]) == Concat(v) + s && TotalSize(v + [s]) == TotalSize(v) + |s|
  {
    assert (v + [s])[..|v|] == v;
  }

  // ---------------------------------------------------------------------------
  // From one node to another
  // ---------------------------------------------------------------------------

  /** A number of 32 bits, little-endian. */
  function Word32(n: nat): (r: Bytes)
    ensures |r| == 4
  {
    [n % 0x100, n / 0x100 % 0x100, n / 0x10000 % 0x100, n / 0x1000000 % 0x100]
  }

  function Header(start: Bytes, payload: Bytes, checksum: Bytes): (h: Bytes)
    requires |start| == MESSAGE_SIZE_OFFSET && |checksum| == 4
    ensures |h| == HEADER_SIZE
  {
    start + Word32(|payload|) + checksum
  }

  lemma Word32Value(n: nat)
    requires n < 0x1_0000_0000
    ensures
      var a: int, b: int, c: int, d: int := Word32(n)[0], Word32(n)[1], Word32(n)[2], Word32(n)[3];
      a + 0x100 * b + 0x10000 * c + 0x1000000 * d == n
  {
    var p, q, r := n / 0x100, n / 0x10000, n / 0x1000000;
    assert q == p / 0x100 && r == q / 0x100;
    assert n == 0x100 * p + n % 0x100 && p == 0x100 * q + p % 0x100 && q == 0x100 * r + q % 0x100;
  }

  function Frame(start: Bytes, payload: Bytes, checksum: Bytes): (f: Bytes)
    requires |start| == MESSAGE_SIZE_OFFSET && |checksum| == 4
    ensures f != []
  {
    Header(start, payload, checksum) + payload
  }

  lemma HeaderSize(start: Bytes, payload: Bytes, checksum: Bytes)
    requires |start| == MESSAGE_SIZE_OFFSET && |checksum| == 4 && |payload| < 0x1_0000_0000
    ensures SizeField(Header(start, payload, checksum)) == |payload|
  {
    var h, w := Header(start, payload, checksum), Word32(|payload|);
    Word32Value(|payload|);
    assert h[16] == w[0] && h[17] == w[1] && h[18] == w[2] && h[19] == w[3];
  }

  /** A message as its sender made it. */
  datatype Outgoing = Outgoing(start: Bytes, payload: Bytes, checksum: Bytes) {
    predicate Framed() {
      |start| == MESSAGE_SIZE_OFFSET && |checksum| == 4
    }

    predicate Valid() {
      Framed() && |payload| <= MAX_SIZE
    }

    function OnWire(): (f: Bytes)
      requires Framed()
      ensures f != []
    {
      Frame(start, payload, checksum)
    }

    function Arrived(): Message
      requires Valid()
    {
      Message(Header(start, payload, checksum), payload)
    }
  }

  /** A message with its size and checksum filled in. */
  function Sealed(Hash: Bytes -> Bytes, stream: Bytes): (o: Outgoing)
    requires |stream| >= HEADER_SIZE && |Hash(stream[HEADER_SIZE..])| == 32
    ensures o.Framed()
  {
    var payload := stream[HEADER_SIZE..];
    Outgoing(stream[..MESSAGE_SIZE_OFFSET], payload, Hash(payload)[..4])
  }

  predicate AllValid(out: seq<Outgoing>) {
    forall i :: 0 <= i < |out| ==> out[i].Valid()
  }

  function Wire(out: seq<Outgoing>): seq<Bytes>
    requires AllValid(out)
  {
    seq(|out|, i requires 0 <= i < |out| => out[i].OnWire())
  }

  function Arrivals(out: seq<Outgoing>): seq<Message>
    requires AllValid(out)
  {
    seq(|out|, i requires 0 <= i < |out| => out[i].Arrived())
  }

  /** A whole message on the wire is a whole message received. */
  lemma FrameArrives(r: Received, o: Outgoing)
    requires !r.failed && r.part == NOTHING && o.Valid()
    ensures FeedAll(r, o.OnWire()) == Received(r.done + [o.Arrived()], NOTHING, false)
  {
    hide FeedAll, Header;
    var h := Header(o.start, o.payload, o.checksum);
    HeaderSize(o.start, o.payload, o.checksum);
    FeedHeader(r, h);
    assert NOTHING.header + h == h;
    FeedSplit(r, h, o.payload);
    if o.payload == [] {
      FeedNothing(FeedAll(r, h));
    } else {
      FeedPayload(FeedAll(r, h), o.payload);
      assert [] + o.payload == o.payload;
    }
  }

  /** Everything that was queued arrives, in order and complete. */
  lemma {:induction false} AllArrive(out: seq<Outgoing>)
    requires AllValid(out)
    ensures FeedAll(Received([], NOTHING, false), Concat(Wire(out))) == Received(Arrivals(out), NOTHING, false)
  {
    hide FeedAll;
    if out == [] {
      FeedNothing(Received([], NOTHING, false));
    } else {
      var k := |out| - 1;
      AllArrive(out[..k]);
      assert Wire(out) == Wire(out[..k]) + [out[k].OnWire()];
      ConcatLast(Wire(out[..k]), out[k].OnWire());
      FeedSplit(Received([], NOTHING, false), Concat(Wire(out[..k])), out[k].OnWire());
      FrameArrives(Received(Arrivals(out[..k]), NOTHING, false), out[k]);
      assert Arrivals(out) == Arrivals(out[..k]) + [out[k].Arrived()];
    }
  }

  /** Chunks as the socket delivers them, until one is refused. */
  method Receive(chunks: seq<Bytes>) returns (node: CNode, ok: bool)
    ensures fresh(node) && Queue(node.vRecvMsg)
    ensures State(node.vRecvMsg, !ok) == FeedAll(Received([], NOTHING, false), Concat(chunks))
  {
    hide FeedAll;
    ghost var start := Received([], NOTHING, false);
    node := new CNode();
    ok := true;
    FeedNothing(start);
    assert State(node.vRecvMsg, false) == start;
    for i := 0 to |chunks|
      invariant fresh(node) && node.Receiving() && ok
      invariant State(node.vRecvMsg, false) == FeedAll(start, Concat(chunks[..i]))
    {
      assert chunks[..i + 1] == chunks[..i] + [chunks[i]];
      ConcatLast(chunks[..i], chunks[i]);
      FeedSplit(start, Concat(chunks[..i]), chunks[i]);
      ok := node.ReceiveMsgBytes(chunks[i]);
      if !ok {
        RefusedForGood(start, chunks, i + 1);
        return;
      }
    }
    assert chunks[..|chunks|] == chunks;
  }

  lemma {:induction false} RefusedForGood(start: Received, chunks: seq<Bytes>, i: nat)
    requires i <= |chunks| && FeedAll(start, Concat(chunks[..i])).failed
    ensures FeedAll(start, Concat(chunks)) == FeedAll(start, Concat(chunks[..i]))
    decreases |chunks|
  {
    hide FeedAll;
    if i == |chunks| {
      assert chunks[..i] == chunks;
    } else {
      var k := |chunks| - 1;
      assert chunks[..k][..i] == chunks[..i] && chunks == chunks[..k] + [chunks[k]];
      RefusedForGood(start, chunks[..k], i);
      ConcatLast(chunks[..k], chunks[k]);
      FeedSplit(start, Concat(chunks[..k]), chunks[k]);
      FeedFailed(FeedAll(start, Concat(chunks[..k])), chunks[k]);
    }
  }

  lemma StateFailed(v: seq<NetMessage>, failed: bool)
    requires Queue(v)
    ensures State(v, failed).failed == failed
  {
  }

  // ---------------------------------------------------------------------------
  // A connection, while it is going on
  // ---------------------------------------------------------------------------

  const START: Received := Received([], NOTHING, false)

  /** The beginning of a message that has not arrived completely. */
  ghost predicate Begun(part: Message, o: Outgoing)
    requires o.Valid()
  {
    && part.header <= o.Arrived().header && part.payload <= o.payload && part != o.Arrived()
    && (part.payload != [] ==> part.header == o.Arrived().header)
  }

  /** The first of the messages, complete and in order, and a part of the next one; together exactly the bytes `s`. */
  ghost predicate FirstOf(r: Received, out: seq<Outgoing>, s: Bytes)
    requires AllValid(out)
  {
    && !r.failed && |r.done| <= |out| && r.done == Arrivals(out[..|r.done|])
    && (r.part != NOTHING ==> |r.done| < |out| && Begun(r.part, out[|r.done|]))
    && s == Concat(Wire(out[..|r.done|])) + r.part.header + r.part.payload
  }

  /** A part of a message on the wire is a part of a message received. */
  lemma FrameBegins(r: Received, o: Outgoing, f: Bytes)
    requires !r.failed && r.part == NOTHING && o.Valid() && f < o.OnWire()
    ensures
      var r' := FeedAll(r, f);
      r' == Received(r.done, r'.part, false) && Begun(r'.part, o) && f == r'.part.header + r'.part.payload
  {
    hide FeedAll, Header;
    var h := Header(o.start, o.payload, o.checksum);
    HeaderSize(o.start, o.payload, o.checksum);
    if |f| < HEADER_SIZE {
      assert f == h[..|f|];
      FeedHeader(r, f);
      assert NOTHING.header + f == f;
    } else {
      var g := f[HEADER_SIZE..];
      assert f == h + g && g == o.payload[..|g|];
      FeedHeader(r, h);
      assert NOTHING.header + h == h;
      FeedSplit(r, h, g);
      FeedPayload(FeedAll(r, h), g);
      assert [] + g == g;
    }
  }

  lemma WireLast(out: seq<Outgoing>)
    requires AllValid(out) && out != []
    ensures
      var k := |out| - 1;
      Concat(Wire(out)) == Concat(Wire(out[..k])) + out[k].OnWire()
  {
    var k := |out| - 1;
    assert Wire(out) == Wire(out[..k]) + [out[k].OnWire()];
    ConcatLast(Wire(out[..k]), out[k].OnWire());
  }

  /** Whatever part of the stream has been received, it is the messages up to there. */
  lemma {:induction false} PrefixArrives(out: seq<Outgoing>, s: Bytes)
    requires AllValid(out) && s <= Concat(Wire(out))
    ensures FirstOf(FeedAll(START, s), out, s)
  {
    hide FeedAll, Concat, Wire, Arrivals, Begun;
    if s == Concat(Wire(out)) {
      AllArrive(out);
      assert out[..|out|] == out;
      assert s + [] + [] == s;
      ArrivalsLength(out);
    } else {
      NotAll(out, s);
      var k := |out| - 1;
      WireLast(out);
      var c := Concat(Wire(out[..k]));
      if |s| < |c| {
        assert s == c[..|s|];
        PrefixArrives(out[..k], s);
        var n := |FeedAll(START, s).done|;
        assert out[..k][..n] == out[..n];
      } else {
        var f := s[|c|..];
        assert s == c + f && f < out[k].OnWire();
        AllArrive(out[..k]);
        FeedSplit(START, c, f);
        ArrivalsLength(out[..k]);
        FrameBegins(FeedAll(START, c), out[k], f);
        var part := FeedAll(START, s).part;
        assert c + (part.header + part.payload) == c + part.header + part.payload;
      }
    }
  }

  lemma ArrivalsLength(out: seq<Outgoing>)
    requires AllValid(out)
    ensures |Arrivals(out)| == |out|
  {
  }

  lemma NotAll(out: seq<Outgoing>, s: Bytes)
    requires AllValid(out) && s < Concat(Wire(out))
    ensures out != []
  {
  }

  /** A message is queued, the socket takes something, or the other side receives up to `n` of the bytes on the way. */
  datatype Step = Push(stream: Bytes) | Send | Deliver(n: nat)

  ghost predicate IsHash(Hash: Bytes -> Bytes) {
    forall x :: |Hash(x)| == 32
  }

  /** What `PushMessage` hands over: nothing, or a header and a payload within the limit. */
  predicate Sensible(step: Step) {
    step.Push? ==> step.stream == [] || HEADER_SIZE <= |step.stream| <= HEADER_SIZE + MAX_SIZE
  }

  /** The messages queued in the first `n` steps. */
  ghost function Queued(Hash: Bytes -> Bytes, steps: seq<Step>, n: nat): (out: seq<Outgoing>)
    requires IsHash(Hash) && n <= |steps| && forall i :: 0 <= i < |steps| ==> Sensible(steps[i])
    ensures AllValid(out)
  {
    if n == 0 then []
    else
      Queued(Hash, steps, n - 1) +
      if steps[n - 1].Push? && steps[n - 1].stream != [] then [Sealed(Hash, steps[n - 1].stream)] else []
  }

  /** The test of `ProcessMessages`. */
  ghost predicate ChecksumPasses(Hash: Bytes -> Bytes, m: Message) {
    |m.header| == HEADER_SIZE && |Hash(m.payload)| == 32 && m.header[CHECKSUM_OFFSET..] == Hash(m.payload)[..4]
  }

  lemma {:induction false} QueuedPass(Hash: Bytes -> Bytes, steps: seq<Step>, n: nat, i: nat)
    requires IsHash(Hash) && n <= |steps| && (forall i :: 0 <= i < |steps| ==> Sensible(steps[i])) && i < |Queued(Hash, steps, n)|
    ensures ChecksumPasses(Hash, Queued(Hash, steps, n)[i].Arrived())
  {
    if i < |Queued(Hash, steps, n - 1)| {
      QueuedPass(Hash, steps, n - 1, i);
    } else {
      var o := Sealed(Hash, steps[n - 1].stream);
      assert o.Arrived().header[CHECKSUM_OFFSET..] == o.checksum;
    }
  }

  /** One step of a connection; `delivered` bytes have been received so far. */
  method Advance(Hash: Bytes -> Bytes, sender: CNode, receiver: CNode, step: Step, delivered: nat, ghost out: seq<Outgoing>)
    returns (delivered': nat)
    requires IsHash(Hash) && Sensible(step) && sender != receiver && sender.Sending() && receiver.Receiving()
    requires AllValid(out) && sender.queued == Wire(out) && delivered <= |sender.sent|
    requires State(receiver.vRecvMsg, false) == FeedAll(START, sender.sent[..delivered])
    modifies sender, receiver
    ensures sender.Sending() && receiver.Receiving() && delivered <= delivered' <= |sender.sent|
    ensures sender.queued == old(sender.queued) +
      if step.Push? && step.stream != [] then [Sealed(Hash, step.stream).OnWire()] else []
    ensures State(receiver.vRecvMsg, false) == FeedAll(START, sender.sent[..delivered'])
  {
    hide FeedAll, State, Concat, Rest, TotalSize, AllValid, Wire;
    delivered' := delivered;
    ghost var got := sender.sent[..delivered];
    match step {
      case Push(stream) =>
        sender.EndMessage(Hash, stream);
        assert sender.sent[..delivered] == got;
      case Send =>
        sender.SocketSendData();
        assert sender.sent[..delivered] == got;
      case Deliver(n) =>
        delivered' := delivered + Least(n, |sender.sent| - delivered);
        ghost var s := sender.sent[..delivered'];
        assert s == got + sender.sent[delivered..delivered'];
        SentIsPrefix(sender, delivered');
        FeedSplit(START, got, sender.sent[delivered..delivered']);
        PrefixArrives(out, s);
        var ok := receiver.ReceiveMsgBytes(sender.sent[delivered..delivered']);
        StateFailed(receiver.vRecvMsg, !ok);
    }
  }

  lemma SentIsPrefix(sender: CNode, n: nat)
    requires sender.Sending() && n <= |sender.sent|
    ensures sender.sent[..n] <= Concat(sender.queued)
  {
  }

  /**
    Messages are queued on one node, its socket takes what it likes, and the
    other node receives what is on the way in any portions, all interleaved in
    any way. At the end, as at any moment, the receiver has the first messages,
    complete, in order and with good checksums, and a part of the next one,
    together exactly the bytes delivered; and all the messages once all their
    bytes are.
   */
  method SendAndReceive(Hash: Bytes -> Bytes, steps: seq<Step>) returns (sender: CNode, receiver: CNode, delivered: nat)
    requires IsHash(Hash) && forall i :: 0 <= i < |steps| ==> Sensible(steps[i])
    ensures sender.Sending() && sender.queued == Wire(Queued(Hash, steps, |steps|)) && delivered <= |sender.sent|
    ensures receiver.Receiving()
    ensures FirstOf(State(receiver.vRecvMsg, false), Queued(Hash, steps, |steps|), sender.sent[..delivered])
    ensures forall m :: m in State(receiver.vRecvMsg, false).done ==> ChecksumPasses(Hash, m)
    ensures delivered == |Concat(sender.queued)| ==> State(receiver.vRecvMsg, false).done == Arrivals(Queued(Hash, steps, |steps|))
  {
    hide FeedAll, Concat, Rest, TotalSize, FirstOf, IsHash, Sensible, Wire, Arrivals;
    sender := new CNode();
    receiver := new CNode();
    delivered := 0;
    FeedNothing(START);
    NothingOnWire();
    assert sender.sent[..0] == [];
    for n := 0 to |steps|
      invariant fresh(sender) && fresh(receiver) && sender != receiver && sender.Sending() && receiver.Receiving()
      invariant sender.queued == Wire(Queued(Hash, steps, n)) && delivered <= |sender.sent|
      invariant State(receiver.vRecvMsg, false) == FeedAll(START, sender.sent[..delivered])
    {
      WireNext(Hash, steps, n);
      delivered := Advance(Hash, sender, receiver, steps[n], delivered, Queued(Hash, steps, n));
    }
    SentIsPrefix(sender, delivered);
    Arrived(Hash, steps, sender.sent[..delivered]);
  }

  lemma NothingOnWire()
    ensures Wire([]) == []
  {
  }

  lemma WireNext(Hash: Bytes -> Bytes, steps: seq<Step>, n: nat)
    requires IsHash(Hash) && n < |steps| && forall i :: 0 <= i < |steps| ==> Sensible(steps[i])
    ensures Wire(Queued(Hash, steps, n + 1)) ==
      Wire(Queued(Hash, steps, n)) + if steps[n].Push? && steps[n].stream != [] then [Sealed(Hash, steps[n].stream).OnWire()] else []
  {
  }

  lemma Arrived(Hash: Bytes -> Bytes, steps: seq<Step>, s: Bytes)
    requires IsHash(Hash) && forall i :: 0 <= i < |steps| ==> Sensible(steps[i])
    requires s <= Concat(Wire(Queued(Hash, steps, |steps|)))
    ensures
      var out, r := Queued(Hash, steps, |steps|), FeedAll(START, s);
      && FirstOf(r, out, s) && (forall m :: m in r.done ==> ChecksumPasses(Hash, m))
      && (|s| == |Concat(Wire(out))| ==> r.done == Arrivals(out))
  {
    hide FeedAll, Concat, Queued, Wire, ChecksumPasses, IsHash, Sensible;
    var out, r := Queued(Hash, steps, |steps|), FeedAll(START, s);
    PrefixArrives(out, s);
    forall m | m in r.done
      ensures ChecksumPasses(Hash, m)
    {
      var i :| 0 <= i < |r.done| && r.done[i] == m;
      QueuedPass(Hash, steps, |steps|, i);
    }
    if |s| == |Concat(Wire(out))| {
      assert s == Concat(Wire(out));
      AllArrive(out);
    }
  }
}
