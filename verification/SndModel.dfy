/** The sending half of a connection over unbounded packet indices.

    Every function is one atomic section of the source: what runs under `m_AckLock`, under
    the loss list's lock, or on a single thread between two such sections.  `Sender` in
    Sender.dfy is proved to do the same on wire numbers, arrays and linked blocks. */
module SndModel {
  import opened Stream
  import opened IntSets
  import opened MsgField

  /** One call of addBuffer: its bytes became chunks `start..start + count`. */
  datatype Call = Call(start: nat, count: nat, bytes: Payload, order: bool, no: MsgNo)

  /** `chunks` holds every packet content ever accepted; entry k is packet `isn + k`.
      `calls` records where each accepted message lies among them.
      The send buffer proper is the part from `lastDataAck` on.
      `popped` is packData's local number between getLostSeq and the AckLock section.
      `pendingAck` is processCtrl's local number between updating m_iSndLastAck and taking AckLock. */
  datatype Snd = Snd(
    isn: int,
    chunks: seq<Chunk>,
    calls: seq<Call>,
    nextMsgNo: MsgNo,
    lastAck: int,
    lastDataAck: int,
    curr: int,
    flow: int,
    loss: set<int>,
    popped: Option<int>,
    pendingAck: Option<int>,
    broken: bool)

  /** A data packet on the network. */
  datatype DataPkt = DataPkt(index: int, chunk: Chunk)

  function InitSnd(isn: int, window: nat): Snd {
    Snd(isn, [], [], 1, isn, isn, isn - 1, window, {}, None, None, false)
  }

  function AddBuffer(s: Snd, data: Payload, mss: nat, order: bool): Snd
    requires 0 < mss
  {
    var cut := Chunks(data, mss, s.nextMsgNo, order, true);
    s.(chunks := s.chunks + cut,
       calls := if data == [] then s.calls else s.calls + [Call(|s.chunks|, |cut|, data, order, s.nextMsgNo)],
       nextMsgNo := NextMsgNo(s.nextMsgNo))
  }

  /** getLostSeq: take the smallest number off the loss list. */
  ghost function PopLost(s: Snd): Snd {
    if s.popped.None? && s.loss != {} then
      s.(popped := Some(Min(s.loss)), loss := s.loss - {Min(s.loss)})
    else s
  }

  /** The retransmission branch of packData; the number may have been acknowledged meanwhile. */
  function Retransmit(s: Snd): (Snd, Option<DataPkt>) {
    if s.popped.None? then (s, None)
    else
      var i := s.popped.value;
      var s' := s.(popped := None);
      if i < s.lastDataAck || !(0 <= i - s.isn < |s.chunks|) then (s', None)
      else if s.chunks[i - s.isn].bytes == [] then (s', None)
      else (s', Some(DataPkt(i, s.chunks[i - s.isn])))
  }

  function EffectiveWindow(s: Snd, cwnd: nat): int {
    if s.flow < cwnd then s.flow else cwnd
  }

  /** The new-packet branch of packData.  It has no loss-list guard: a loss report can land
      after getLostSeq has answered that the list is empty. */
  function SendNew(s: Snd, cwnd: nat): (Snd, Option<DataPkt>) {
    var i := s.curr + 1;
    if s.popped.Some? || EffectiveWindow(s, cwnd) < i - s.lastAck + 1 then (s, None)
    else if !(0 <= i - s.isn < |s.chunks|) then (s, None)
    else (s.(curr := i), Some(DataPkt(i, s.chunks[i - s.isn])))
  }

  function OnLiteAck(s: Snd, ack: int): Snd {
    if ack >= s.lastAck then s.(flow := s.flow - (ack - s.lastAck), lastAck := ack) else s
  }

  /** A full ACK up to the point where AckLock is requested. */
  function OnFullAck(s: Snd, ack: int, avail: int): Snd {
    if ack > s.curr + 1 then s.(broken := true)
    else
      var s' := if ack >= s.lastAck then s.(flow := avail, lastAck := ack) else s;
      s'.(pendingAck := Some(ack))
  }

  /** The AckLock section: release acknowledged chunks and forget their losses. */
  function CommitAck(s: Snd): Snd {
    if s.pendingAck.None? then s
    else
      var ack := s.pendingAck.value;
      var s' := s.(pendingAck := None);
      if ack <= s.lastDataAck then s'
      else s'.(lastDataAck := ack, loss := Above(s.loss, ack - 1))
  }

  /** One entry of a loss report: a pair first..last, or a single number when they are equal. */
  function OnNak(s: Snd, lo: int, hi: int): Snd {
    if lo != hi then
      if lo > hi || hi > s.curr then s.(broken := true)
      else if lo >= s.lastAck then s.(loss := s.loss + Range(lo, hi))
      else if hi >= s.lastAck then s.(loss := s.loss + Range(s.lastAck, hi))
      else s
    else if lo >= s.lastAck then
      if lo > s.curr then s.(broken := true)
      else s.(loss := s.loss + Range(lo, lo))
    else s
  }

  /** Bytes wait in the send buffer: getCurrBufSize() > 0. */
  predicate Unacked(s: Snd) {
    s.lastDataAck < s.isn + |s.chunks|
  }

  /** The EXP timer: schedule everything unacknowledged, if the loss list is empty. */
  function OnExp(s: Snd): Snd {
    if Unacked(s) && s.curr + 1 != s.lastAck && s.loss == {} then
      s.(loss := Range(s.lastAck, s.curr))
    else s
  }

  // ----- What every sender step keeps -----

  function Max(a: int, b: int): int {
    if a < b then b else a
  }

  /** How far the sender has been told to release, counting an ACK still waiting for AckLock. */
  function AckedTo(s: Snd): int {
    if s.pendingAck.Some? then Max(s.lastDataAck, s.pendingAck.value) else s.lastDataAck
  }

  ghost predicate Ordered(s: Snd) {
    && s.isn <= s.lastDataAck <= s.lastAck <= s.curr + 1 <= s.isn + |s.chunks|
    && (s.pendingAck.Some? ==> s.isn <= s.pendingAck.value <= s.lastAck)
    && (s.popped.Some? ==> s.isn <= s.popped.value <= s.curr)
    && (forall c <- s.chunks :: c.bytes != [])
  }

  /** The window arithmetic: `w` bounds every flow window the sender is given. */
  ghost predicate Windowed(s: Snd, w: int) {
    && s.lastAck + s.flow <= AckedTo(s) + w
    && s.curr + 1 <= s.lastAck + s.flow + w
    && s.curr + 1 <= AckedTo(s) + w
    && AckedTo(s) <= s.lastDataAck + w
    && (forall i <- s.loss :: s.lastDataAck <= i <= s.curr && i < s.lastDataAck + w)
  }

  ghost predicate SndInv(s: Snd, w: int) {
    Ordered(s) && Windowed(s, w)
  }

  /** The chunks of one call are one message with its bytes and its order flag. */
  ghost predicate CallStored(chunks: seq<Chunk>, c: Call) {
    && 0 < c.count && c.start + c.count <= |chunks|
    && IsMessage(chunks, c.start, c.start + c.count - 1)
    && Flatten(chunks[c.start..c.start + c.count]) == c.bytes
    && (InOrder(chunks[c.start + c.count - 1]) <==> c.order)
  }

  /** Call `j` ends where the next one begins, the last one where all `total` chunks end. */
  predicate Follows(calls: seq<Call>, total: nat, j: nat)
    requires j < |calls|
  {
    calls[j].start + calls[j].count == if j + 1 < |calls| then calls[j + 1].start else total
  }

  /** The calls lie one behind the other and make up all chunks. */
  ghost predicate TiledOver(chunks: seq<Chunk>, calls: seq<Call>) {
    && Framed(chunks)
    && (if calls == [] then chunks == [] else calls[0].start == 0)
    && AllStored(chunks, calls)
    && Contiguous(calls, |chunks|)
  }

  ghost predicate AllStored(chunks: seq<Chunk>, calls: seq<Call>) {
    forall j :: 0 <= j < |calls| ==> CallStored(chunks, calls[j])
  }

  ghost predicate Contiguous(calls: seq<Call>, total: nat) {
    forall j {:trigger Follows(calls, total, j)} :: 0 <= j < |calls| ==> Follows(calls, total, j)
  }

  ghost predicate Tiled(s: Snd) {
    TiledOver(s.chunks, s.calls)
  }

  lemma AddBufferTiles(s: Snd, data: Payload, mss: nat, order: bool)
    requires Tiled(s) && 0 < mss && data != []
    ensures Tiled(AddBuffer(s, data, mss, order))
  {
    hide IsFirst, IsLast, OrderFlag, MsgSeq, Framed, Chunks, CallStored, AllStored, Contiguous, NextMsgNo, Follows,
      Flatten;
    var cut := Chunks(data, mss, s.nextMsgNo, order, true);
    var c := Call(|s.chunks|, |cut|, data, order, s.nextMsgNo);
    ChunksAreFramed(data, mss, s.nextMsgNo, order);
    FramedConcat(s.chunks, cut);
    NewCallStored(s.chunks, data, mss, s.nextMsgNo, order);
    AppendStored(s.chunks, cut, s.calls, c);
    AppendFollows(s.calls, c, |s.chunks|);
    FirstStart(s.chunks, s.calls);
    var all, calls := s.chunks + cut, s.calls + [c];
    assert calls[0].start == 0;
    assert |all| == |s.chunks| + c.count;
    TiledIntro(all, calls);
  }

  lemma TiledIntro(chunks: seq<Chunk>, calls: seq<Call>)
    requires Framed(chunks) && calls != [] && calls[0].start == 0
    requires AllStored(chunks, calls) && Contiguous(calls, |chunks|)
    ensures TiledOver(chunks, calls)
  {
    hide IsFirst, IsLast, OrderFlag, MsgSeq, Framed, AllStored, Contiguous;
  }

  lemma AppendStored(chunks: seq<Chunk>, cut: seq<Chunk>, calls: seq<Call>, c: Call)
    requires AllStored(chunks, calls) && CallStored(chunks + cut, c)
    ensures AllStored(chunks + cut, calls + [c])
  {
    hide CallStored;
    forall j | 0 <= j < |calls + [c]|
      ensures CallStored(chunks + cut, (calls + [c])[j])
    {
      if j < |calls| {
        CallStays(chunks, cut, calls[j]);
      }
    }
  }

  lemma AppendFollows(calls: seq<Call>, c: Call, total: nat)
    requires Contiguous(calls, total) && c.start == total
    ensures Contiguous(calls + [c], total + c.count)
  {
    var all, end := calls + [c], total + c.count;
    forall j | 0 <= j < |all|
      ensures Follows(all, end, j)
    {
      if j < |calls| {
        assert Follows(calls, total, j);
      }
    }
  }

  lemma FirstStart(chunks: seq<Chunk>, calls: seq<Call>)
    requires TiledOver(chunks, calls)
    ensures if calls == [] then chunks == [] else calls[0].start == 0
  {
  }

  lemma CallStays(chunks: seq<Chunk>, more: seq<Chunk>, c: Call)
    requires CallStored(chunks, c)
    ensures CallStored(chunks + more, c)
  {
    hide IsFirst, IsLast, OrderFlag;
    assert (chunks + more)[c.start..c.start + c.count] == chunks[c.start..c.start + c.count];
  }

  lemma NewCallStored(chunks: seq<Chunk>, data: Payload, mss: nat, no: MsgNo, order: bool)
    requires 0 < mss && data != []
    ensures
      var cut := Chunks(data, mss, no, order, true);
      CallStored(chunks + cut, Call(|chunks|, |cut|, data, order, no))
  {
    hide IsFirst, IsLast, OrderFlag, MsgSeq, Chunks;
    var cut := Chunks(data, mss, no, order, true);
    var all := chunks + cut;
    ChunksRestoreData(data, mss, no, order, true);
    assert all[|chunks|..|chunks| + |cut|] == cut;
    forall k | 0 <= k < |cut|
      ensures all[|chunks| + k] == cut[k]
      ensures (First(cut[k]) <==> k == 0) && (Last(cut[k]) <==> k == |cut| - 1) && (InOrder(cut[k]) <==> order)
    {
      ChunksFramed(data, mss, no, order, true, k);
    }
  }

  /** Every chunk belongs to some call. */
  lemma CallOf(s: Snd, k: nat) returns (j: nat)
    requires Tiled(s) && k < |s.chunks|
    ensures j < |s.calls| && s.calls[j].start <= k < s.calls[j].start + s.calls[j].count
  {
    hide Framed, CallStored;
    j := 0;
    while j < |s.calls| && s.calls[j].start + s.calls[j].count <= k
      invariant j <= |s.calls| && (if j < |s.calls| then s.calls[j].start else |s.chunks|) <= k
    {
      assert Follows(s.calls, |s.chunks|, j);
      j := j + 1;
    }
  }

  /** Every whole message among the chunks is what one call stored. */
  lemma MessageIsCall(s: Snd, lo: int, hi: int) returns (j: nat)
    requires Tiled(s) && IsMessage(s.chunks, lo, hi)
    ensures j < |s.calls| && s.calls[j].start == lo && s.calls[j].start + s.calls[j].count - 1 == hi
  {
    hide IsFirst, IsLast, OrderFlag;
    j := CallOf(s, lo);
    var c := s.calls[j];
    assert CallStored(s.chunks, c);
    assert lo > 0 ==> (First(s.chunks[lo]) <==> Last(s.chunks[lo - 1]));
  }

  lemma InitKeeps(isn: int, window: nat, w: nat)
    requires window <= w
    ensures SndInv(InitSnd(isn, window), w)
  {
  }

  lemma AddBufferKeeps(s: Snd, data: Payload, mss: nat, order: bool, w: int)
    requires SndInv(s, w) && 0 < mss
    ensures SndInv(AddBuffer(s, data, mss, order), w)
  {
  }

  lemma PopLostKeeps(s: Snd, w: int)
    requires SndInv(s, w)
    ensures SndInv(PopLost(s), w)
  {
  }

  lemma RetransmitKeeps(s: Snd, w: int)
    requires SndInv(s, w)
    ensures SndInv(Retransmit(s).0, w)
  {
  }

  lemma SendNewKeeps(s: Snd, cwnd: nat, w: int)
    requires SndInv(s, w)
    ensures SndInv(SendNew(s, cwnd).0, w)
  {
  }

  lemma LiteAckKeeps(s: Snd, ack: int, w: int)
    requires SndInv(s, w) && ack <= s.curr + 1
    ensures SndInv(OnLiteAck(s, ack), w)
  {
  }

  /** A full ACK arrives while none is pending; its window field is within the bound. */
  lemma FullAckKeeps(s: Snd, ack: int, avail: int, w: int)
    requires SndInv(s, w) && s.pendingAck.None?
    requires s.isn <= ack && 0 <= avail <= w
    ensures SndInv(OnFullAck(s, ack, avail), w)
  {
  }

  lemma CommitAckKeeps(s: Snd, w: int)
    requires SndInv(s, w)
    ensures SndInv(CommitAck(s), w)
  {
  }

  lemma NakKeeps(s: Snd, lo: int, hi: int, w: int)
    requires SndInv(s, w) && s.pendingAck.None?
    ensures SndInv(OnNak(s, lo, hi), w)
  {
  }

  lemma ExpKeeps(s: Snd, w: int)
    requires SndInv(s, w) && s.pendingAck.None?
    ensures SndInv(OnExp(s), w)
  {
  }
}
