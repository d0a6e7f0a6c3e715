/** The receiving half of a connection over unbounded packet indices.  Only the number that the
    sender is known to have acted on is compared as the wire numbers compare: nothing bounds how
    far it lags behind when no ACK2 arrives. */
module RcvModel {
  import opened Stream
  import opened IntSets
  import opened SeqNo

  /** The ACK history window keeps its 1023 youngest records. */
  const HISTORY_LIMIT: nat := 1023

  datatype AckRec = AckRec(no: int, ack: int)

  /** `buf` maps the index of every stored packet to its payload; packets before `readPos` have
      been read completely and `notch` bytes of packet `readPos` as well.
      `ackLog` records the data acknowledgement carried by each full ACK sent, so the current
      ACK number is its length.
      In stream mode `out` records every byte handed to the application; in message mode
      `messages` records every message, and `taken` the packets of messages that were read
      before they were fully acknowledged and still occupy their slots. */
  datatype Rcv = Rcv(
    isn: int,
    bufSize: nat,
    lastAck: int,
    lastAckAck: int,
    curr: int,
    loss: set<int>,
    buf: map<int, Chunk>,
    readPos: int,
    notch: nat,
    ackLog: seq<int>,
    history: seq<AckRec>,
    out: Payload,
    stream: bool,
    taken: set<int>,
    messages: seq<Message>)

  /** A message handed to the application: packets `lo..hi`, their bytes as far as a user buffer
      of `room` bytes reached, and whether some of it was not yet acknowledged. */
  datatype Message = Message(lo: int, hi: int, room: nat, bytes: Payload, ahead: bool)

  datatype Ack = LiteAck(ack: int) | FullAck(no: int, ack: int, avail: int)

  datatype Nak = Nak(lo: int, hi: int)

  function InitRcv(isn: int, bufSize: nat, stream: bool): Rcv {
    Rcv(isn, bufSize, isn, isn, isn - 1, {}, map[], isn, 0, [], [], [], stream, {}, [])
  }

  /** getAvailBufSize: one slot stays empty. */
  function Avail(r: Rcv): int {
    r.bufSize - (r.lastAck - r.readPos) - 1
  }

  /** First index the receiver will never accept before the application reads more. */
  function Edge(r: Rcv): int {
    r.readPos + r.bufSize - 1
  }

  /** processData refuses a packet outside the free part of the buffer, or already stored. */
  predicate Accepts(r: Rcv, i: int) {
    r.lastAck <= i && i - r.lastAck < Avail(r) && i !in r.buf
  }

  function OnData(r: Rcv, i: int, chunk: Chunk): (Rcv, Option<Nak>) {
    if !Accepts(r, i) then (r, None)
    else
      var gap := i > r.curr + 1;
      var loss := if gap then r.loss + Range(r.curr + 1, i - 1) else if i <= r.curr then r.loss - {i} else r.loss;
      (r.(buf := r.buf[i := chunk], loss := loss, curr := if i > r.curr then i else r.curr),
       if gap then Some(Nak(r.curr + 1, i - 1)) else None)
  }

  /** The ACK number: the smallest missing index. */
  ghost function NextExpected(r: Rcv): int {
    if r.loss == {} then r.curr + 1 else Min(r.loss)
  }

  ghost function SendLiteAck(r: Rcv): Option<Ack> {
    if Wire(NextExpected(r)) == Wire(r.lastAckAck) then None else Some(LiteAck(NextExpected(r)))
  }

  function Advertised(r: Rcv): int {
    if Avail(r) < 2 then 2 else Avail(r)
  }

  /** A full ACK; `late` says that the repeat interval for an unchanged ACK number has passed. */
  ghost function SendFullAck(r: Rcv, late: bool): (Rcv, Option<Ack>) {
    var ack := NextExpected(r);
    var no := |r.ackLog| + 1;
    if Wire(ack) == Wire(r.lastAckAck) || ack < r.lastAck || (ack == r.lastAck && !late) then (r, None)
    else if !Newer(ack, r.lastAckAck) then (r.(lastAck := ack), None)
    else
      (r.(lastAck := ack, ackLog := r.ackLog + [ack], history := Stored(r.history, AckRec(no, ack))),
       Some(FullAck(no, ack, Advertised(r.(lastAck := ack)))))
  }

  /** The history window as a queue that forgets its oldest record. */
  function Stored(h: seq<AckRec>, rec: AckRec): seq<AckRec> {
    if |h| < HISTORY_LIMIT then h + [rec] else h[1..] + [rec]
  }

  /** Position of the first record numbered `no`, or the length when there is none. */
  function Lookup(h: seq<AckRec>, no: int): (k: nat)
    ensures k <= |h|
    ensures k < |h| ==> h[k].no == no
    ensures forall j :: 0 <= j < k ==> h[j].no != no
  {
    if h == [] || h[0].no == no then 0 else Lookup(h[1..], no) + 1
  }

  /** ACK2: the record and all older ones leave the window.  A zero round-trip reading is ignored. */
  function OnAck2(r: Rcv, no: int, rttPositive: bool): Rcv {
    var k := Lookup(r.history, no);
    if k == |r.history| then r
    else
      var ack := r.history[k].ack;
      var r1 := r.(history := r.history[k + 1..]);
      if rttPositive && Newer(ack, r.lastAckAck) then r1.(lastAckAck := ack) else r1
  }

  datatype ReadResult = ReadResult(pos: int, notch: nat, bytes: Payload)

  /** The copy loop of readBuffer over the packets `p..last`.  Under `RcvOrdered` the packet at
      `p` is present and longer than the notch, so the last two tests of the guard never fire. */
  function ReadBytes(buf: map<int, Chunk>, p: int, last: int, notch: nat, len: nat): ReadResult
    decreases last - p
  {
    if p >= last || len == 0 || p !in buf || notch > |buf[p].bytes| then ReadResult(p, notch, [])
    else
      var unit := buf[p].bytes[notch..];
      if |unit| <= len then
        var rest := ReadBytes(buf, p + 1, last, 0, len - |unit|);
        rest.(bytes := unit + rest.bytes)
      else ReadResult(p, notch + len, unit[..len])
  }

  function Read(r: Rcv, len: nat): Rcv {
    var x := ReadBytes(r.buf, r.readPos, r.lastAck, r.notch, len);
    r.(readPos := x.pos, notch := x.notch, out := r.out + x.bytes,
       buf := map i | i in r.buf && !(r.readPos <= i < x.pos) :: r.buf[i])
  }

  // ----- What every receiver step keeps -----

  /** Every index from the last ACK through the largest received is either missing or stored. */
  ghost predicate Partitioned(r: Rcv) {
    forall i | r.lastAck <= i <= r.curr :: (i in r.loss) != (i in r.buf)
  }

  ghost predicate RcvOrdered(r: Rcv) {
    && r.isn <= r.readPos <= r.lastAck <= r.curr + 1 < r.readPos + r.bufSize
    && r.isn <= r.lastAckAck <= r.lastAck
    && (forall i <- r.loss :: r.lastAck <= i < r.curr)
    && (forall i <- r.buf :: r.readPos <= i <= r.curr)
    && (forall i | r.readPos <= i < r.lastAck :: i in r.buf)
    && Partitioned(r)
    && (forall i <- r.buf :: r.buf[i].bytes != [])
    && (r.notch > 0 ==> r.readPos < r.lastAck && r.notch < |r.buf[r.readPos].bytes|)
  }

  /** The window holds the latest ACKs in the order they were sent. */
  ghost predicate Recorded(history: seq<AckRec>, log: seq<int>) {
    && |history| <= HISTORY_LIMIT && |history| <= |log|
    && forall k :: 0 <= k < |history| ==> history[k] == AckRec(|log| - |history| + 1 + k, log[|log| - |history| + k])
  }

  ghost predicate Logged(r: Rcv) {
    && (forall a <- r.ackLog :: r.isn <= a <= r.lastAck)
    && Recorded(r.history, r.ackLog)
  }

  ghost predicate RcvInv(r: Rcv) {
    RcvOrdered(r) && Logged(r)
  }

  lemma NextExpectedBounds(r: Rcv)
    requires RcvOrdered(r)
    ensures r.lastAck <= NextExpected(r) <= r.curr + 1
    ensures forall i | r.readPos <= i < NextExpected(r) :: i in r.buf
    ensures NextExpected(r) !in r.buf
    ensures r.loss != {} ==> NextExpected(r) < r.curr
  {
    if r.loss != {} {
      assert NextExpected(r) in r.loss;
    }
  }

  lemma InitKeeps(isn: int, bufSize: nat, stream: bool)
    requires 0 < bufSize
    ensures RcvInv(InitRcv(isn, bufSize, stream))
  {
  }

  lemma DataKeeps(r: Rcv, i: int, chunk: Chunk)
    requires RcvInv(r) && chunk.bytes != []
    ensures RcvInv(OnData(r, i, chunk).0)
  {
  }

  /** The ACK number never falls when data arrives. */
  lemma DataAdvances(r: Rcv, i: int, chunk: Chunk)
    requires RcvInv(r)
    ensures NextExpected(OnData(r, i, chunk).0) >= NextExpected(r)
  {
    NextExpectedBounds(r);
    var r' := OnData(r, i, chunk).0;
    if r'.loss != {} {
      var m := Min(r'.loss);
      assert m in r.loss || m > r.curr;
    }
  }

  lemma FullAckKeeps(r: Rcv, late: bool)
    requires RcvInv(r)
    ensures RcvInv(SendFullAck(r, late).0)
    ensures NextExpected(SendFullAck(r, late).0) == NextExpected(r)
  {
    NextExpectedBounds(r);
  }

  lemma Ack2Keeps(r: Rcv, no: int, rttPositive: bool)
    requires RcvInv(r)
    ensures RcvInv(OnAck2(r, no, rttPositive))
  {
    hide Recorded;
    var k := Lookup(r.history, no);
    if k < |r.history| {
      RecordedAt(r.history, r.ackLog, k);
    }
  }

  /** A record stands for an ACK that was sent, and the records after it are still the latest. */
  lemma RecordedAt(history: seq<AckRec>, log: seq<int>, k: nat)
    requires Recorded(history, log) && k < |history|
    ensures history[k].ack in log && 1 <= history[k].no <= |log| && log[history[k].no - 1] == history[k].ack
    ensures Recorded(history[k + 1..], log)
  {
    assert history[k] == AckRec(|log| - |history| + 1 + k, log[|log| - |history| + k]);
  }

  /** The youngest record of the window is found. */
  lemma {:induction false} LookupLast(history: seq<AckRec>, rec: AckRec)
    ensures Lookup(history + [rec], rec.no) < |history| + 1
  {
    if history != [] && history[0].no != rec.no {
      LookupLast(history[1..], rec);
      assert (history + [rec])[1..] == history[1..] + [rec];
    }
  }

  lemma StoredIsFound(history: seq<AckRec>, rec: AckRec)
    ensures Lookup(Stored(history, rec), rec.no) < |Stored(history, rec)|
  {
    LookupLast(if |history| < HISTORY_LIMIT then history else history[1..], rec);
  }

  /** The ACK2 for a record of the window. */
  lemma Ack2Confirms(r: Rcv, no: int)
    requires Recorded(r.history, r.ackLog) && 1 <= no <= |r.ackLog| && Lookup(r.history, no) < |r.history|
    requires r.lastAckAck < r.ackLog[no - 1] < r.lastAckAck + TH
    ensures
      var r' := OnAck2(r, no, true);
      r' == r.(history := r'.history, lastAckAck := r.ackLog[no - 1])
  {
    hide Wire, Newer, Recorded;
    RecordedAt(r.history, r.ackLog, Lookup(r.history, no));
    NewerNear(r.ackLog[no - 1], r.lastAckAck);
  }

  lemma {:induction false} ReadBytesSpan(buf: map<int, Chunk>, p: int, last: int, notch: nat, len: nat)
    requires p <= last && forall i | p <= i < last :: i in buf && buf[i].bytes != []
    requires notch > 0 ==> p < last && notch < |buf[p].bytes|
    ensures
      var x := ReadBytes(buf, p, last, notch, len);
      && p <= x.pos <= last
      && (x.notch > 0 ==> x.pos < last && x.notch < |buf[x.pos].bytes|)
      && |x.bytes| <= len
      && (x.pos == last || |x.bytes| == len)
    decreases last - p
  {
    if p < last && len > 0 && |buf[p].bytes| - notch <= len {
      ReadBytesSpan(buf, p + 1, last, 0, len - (|buf[p].bytes| - notch));
    }
  }

  lemma ReadKeeps(r: Rcv, len: nat)
    requires RcvInv(r)
    ensures RcvInv(Read(r, len))
    ensures NextExpected(Read(r, len)) == NextExpected(r)
    ensures Edge(Read(r, len)) >= Edge(r)
  {
    ReadBytesSpan(r.buf, r.readPos, r.lastAck, r.notch, len);
  }

  // ----- Stored and delivered bytes are the sender's bytes -----

  /** The first `k` packets and `notch` bytes of the next one. */
  function Partial(chunks: seq<Chunk>, k: nat, notch: nat): Payload
    requires k <= |chunks| && (notch > 0 ==> k < |chunks| && notch <= |chunks[k].bytes|)
  {
    Flatten(chunks[..k]) + (if notch == 0 then [] else chunks[k].bytes[..notch])
  }

  ghost predicate Holds(r: Rcv, chunks: seq<Chunk>) {
    forall i <- r.buf :: r.isn <= i < r.isn + |chunks| && r.buf[i] == chunks[i - r.isn]
  }

  ghost predicate Faithful(r: Rcv, chunks: seq<Chunk>) {
    && Holds(r, chunks)
    && r.isn <= r.readPos <= r.isn + |chunks|
    && (r.notch > 0 ==> r.readPos < r.isn + |chunks| && r.notch <= |chunks[r.readPos - r.isn].bytes|)
    && (r.stream ==> r.out == Partial(chunks, r.readPos - r.isn, r.notch))
  }

  lemma FaithfulIsPrefix(r: Rcv, chunks: seq<Chunk>)
    requires Faithful(r, chunks) && r.stream
    ensures r.out <= Flatten(chunks)
  {
    var k := r.readPos - r.isn;
    FlattenPrefix(chunks, k);
    if r.notch > 0 {
      FlattenTakeNext(chunks, k);
      FlattenPrefix(chunks, k + 1);
      assert chunks[k].bytes[..r.notch] <= chunks[k].bytes;
    }
  }

  /** More packets on the sender's side change nothing. */
  lemma FaithfulGrows(r: Rcv, chunks: seq<Chunk>, more: seq<Chunk>)
    requires Faithful(r, chunks)
    ensures Faithful(r, chunks + more)
  {
    assert (chunks + more)[..r.readPos - r.isn] == chunks[..r.readPos - r.isn];
  }

  lemma PartialStep(chunks: seq<Chunk>, k: nat, notch: nat)
    requires k < |chunks| && notch <= |chunks[k].bytes|
    ensures Partial(chunks, k + 1, 0) == Partial(chunks, k, notch) + chunks[k].bytes[notch..]
  {
    FlattenTakeNext(chunks, k);
    assert chunks[k].bytes == chunks[k].bytes[..notch] + chunks[k].bytes[notch..];
  }

  lemma PartialExtend(chunks: seq<Chunk>, k: nat, notch: nat, n: nat)
    requires k < |chunks| && notch + n <= |chunks[k].bytes|
    ensures Partial(chunks, k, notch + n) == Partial(chunks, k, notch) + chunks[k].bytes[notch..][..n]
  {
    assert chunks[k].bytes[..notch + n] == chunks[k].bytes[..notch] + chunks[k].bytes[notch..][..n];
  }

  /** The packets `p..last` are stored, as the sender cut them. */
  ghost predicate Readable(buf: map<int, Chunk>, isn: int, chunks: seq<Chunk>, p: int, last: int, notch: nat) {
    && isn <= p <= last <= isn + |chunks|
    && (forall i | p <= i < last :: i in buf && buf[i] == chunks[i - isn] && buf[i].bytes != [])
    && (notch > 0 ==> p < last && notch < |buf[p].bytes|)
  }

  lemma {:induction false} ReadBytesContinues(
      buf: map<int, Chunk>, isn: int, chunks: seq<Chunk>, p: int, last: int, notch: nat, len: nat)
    requires Readable(buf, isn, chunks, p, last, notch)
    ensures
      var x := ReadBytes(buf, p, last, notch, len);
      && p <= x.pos <= last
      && (x.notch > 0 ==> x.pos < last && x.notch < |buf[x.pos].bytes|)
      && Partial(chunks, x.pos - isn, x.notch) == Partial(chunks, p - isn, notch) + x.bytes
    decreases last - p
  {
    hide Partial;
    if p < last && len > 0 {
      var k := p - isn;
      var unit := buf[p].bytes[notch..];
      if |unit| <= len {
        var rest := ReadBytes(buf, p + 1, last, 0, len - |unit|);
        ReadBytesContinues(buf, isn, chunks, p + 1, last, 0, len - |unit|);
        PartialStep(chunks, k, notch);
        assert ReadBytes(buf, p, last, notch, len) == rest.(bytes := unit + rest.bytes);
      } else {
        PartialExtend(chunks, k, notch, len);
      }
    }
  }

  lemma ReadFaithful(r: Rcv, chunks: seq<Chunk>, len: nat)
    requires RcvInv(r) && Faithful(r, chunks) && r.lastAck <= r.isn + |chunks|
    ensures Faithful(Read(r, len), chunks)
  {
    hide Partial;
    var x := ReadBytes(r.buf, r.readPos, r.lastAck, r.notch, len);
    assert Readable(r.buf, r.isn, chunks, r.readPos, r.lastAck, r.notch);
    ReadBytesContinues(r.buf, r.isn, chunks, r.readPos, r.lastAck, r.notch, len);
    assert r.stream ==> r.out + x.bytes == Partial(chunks, x.pos - r.isn, x.notch);
  }

  lemma DataFaithful(r: Rcv, chunks: seq<Chunk>, i: int)
    requires RcvInv(r) && Faithful(r, chunks)
    requires r.isn <= i < r.isn + |chunks|
    ensures Faithful(OnData(r, i, chunks[i - r.isn]).0, chunks)
  {
  }
}
