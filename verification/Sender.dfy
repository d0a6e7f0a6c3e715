/** The sending end of a connection on wire numbers: the parts of CUDT that send data and take
    in ACKs, loss reports and the EXP timer. */
module Sender {
  import opened SeqNo
  import opened IntSets
  import opened Stream
  import opened MsgField
  import opened LossCoding
  import S = SndModel
  import B = SndBuffer
  import L = SndLossList

  /** A data packet as it goes out. */
  datatype WirePkt = WirePkt(seqno: int32, chunk: Chunk)

  function ToWire(p: Option<S.DataPkt>): Option<WirePkt> {
    if p.Some? then Some(WirePkt(Wire(p.value.index), p.value.chunk)) else None
  }

  ghost predicate InWindow(lost: set<int>, base: int, w: nat) {
    forall x <- lost :: base <= x < base + w
  }

  /** At most `w` packets are in flight, and all lost numbers lie in that window. */
  lemma InFlight(s: S.Snd, w: nat)
    requires S.SndInv(s, w)
    ensures s.isn <= s.lastDataAck <= s.lastAck <= s.curr + 1 <= s.lastAck + w
    ensures s.pendingAck.None? ==> s.curr < s.lastDataAck + w
    ensures InWindow(s.loss, s.lastDataAck, w)
  {
  }

  lemma ExpIs(s: S.Snd)
    ensures
      S.OnExp(s)
      == if s.lastDataAck < s.isn + |s.chunks| && s.curr + 1 != s.lastAck && |s.loss| == 0 then
           s.(loss := s.loss + Range(s.lastAck, s.curr))
         else s
  {
    assert s.loss == {} ==> s.loss + Range(s.lastAck, s.curr) == Range(s.lastAck, s.curr);
  }

  /** The chunks from number `k` on. */
  function Rest(chunks: seq<Chunk>, k: int): seq<Chunk>
    requires 0 <= k <= |chunks|
  {
    chunks[k..]
  }

  lemma RestAt(chunks: seq<Chunk>, k: nat, i: nat)
    requires k <= |chunks|
    ensures |Rest(chunks, k)| == |chunks| - k
    ensures k + i < |chunks| ==> Rest(chunks, k)[i] == chunks[k + i]
  {
  }

  lemma RestGrows(chunks: seq<Chunk>, more: seq<Chunk>, k: nat)
    requires k <= |chunks|
    ensures Rest(chunks + more, k) == Rest(chunks, k) + more
  {
  }

  lemma RestDrops(chunks: seq<Chunk>, k: nat, n: nat)
    requires k + n <= |chunks|
    ensures n <= |Rest(chunks, k)| && Rest(chunks, k)[n..] == Rest(chunks, k + n)
  {
  }

  lemma RestNone()
    ensures Rest([], 0) == []
  {
  }

  class Sender {
    const buffer: B.SndBuffer
    const loss: L.SndLossList
    var flow: int32
    var lastAck: int32
    var lastDataAck: int32
    var curr: int32
    var broken: bool

    ghost predicate Numbers(s: S.Snd)
      reads this
    {
      && flow as int == s.flow && broken == s.broken
      && lastAck == Wire(s.lastAck) && lastDataAck == Wire(s.lastDataAck) && curr == CurrWire(s.isn, s.curr)
    }

    /** The send buffer holds these chunks, of which the first `sent` have gone out. */
    ghost predicate Queued(queue: seq<Chunk>, sent: int, no: MsgNo)
      reads buffer, buffer.blocks
    {
      buffer.Valid() && 0 < buffer.mss && buffer.Queue() == queue && buffer.sent == sent && buffer.nextMsgNo == no
    }

    /** The loss list holds these numbers, with room for a window of `w` packets. */
    ghost predicate Listed(lost: set<int>, w: nat)
      reads loss, loss.data1, loss.data2, loss.next
    {
      loss.Valid() && w <= loss.size && loss.Contents() == lost
    }

    ghost predicate Represents(s: S.Snd, w: nat)
      reads this, buffer, buffer.blocks, loss, loss.data1, loss.data2, loss.next
    {
      && Numbers(s) && 0 <= s.lastDataAck - s.isn <= |s.chunks| && w < TH
      && Queued(Rest(s.chunks, s.lastDataAck - s.isn), s.curr + 1 - s.lastDataAck, s.nextMsgNo)
      && Listed(s.loss, w)
    }

    /** Everything this end is made of. */
    ghost function Parts(): set<object>
      reads buffer
    {
      {this, buffer, loss, loss.data1, loss.data2, loss.next} + buffer.blocks
    }

    /** The start of a connection. */
    constructor (isn: int32, window: nat, mss: nat, ghost start: int, ghost w: nat)
      requires 0 < mss && 0 < window && 2 * window <= TH && w <= 2 * window && w < TH && isn == Wire(start)
      ensures Represents(S.InitSnd(start, window), w) && buffer.mss == mss && fresh(Parts() - {this})
      ensures buffer.size == buffer.unitSize == 32 && loss.size == 2 * window
    {
      hide Wire, CurrWire, Rest, B.SndBuffer.Valid, B.SndBuffer.Queue, B.SndBuffer.Shape, L.SndLossList.Valid,
        L.SndLossList.Contents;
      StartWire(start);
      RestNone();
      buffer := new B.SndBuffer(32, mss);
      // lite ACKs move the window before the loss list is cleared, so it gets twice the space
      loss := new L.SndLossList(window * 2);
      flow := window as int32;
      lastAck, lastDataAck, curr := isn, isn, isn - 1;
      broken := false;
    }

    /** The application hands over data. */
    method Send(data: Payload, order: bool, ghost s: S.Snd, ghost w: nat)
      requires Represents(s, w) && S.SndInv(s, w)
      modifies buffer, buffer.blocks
      ensures Represents(if data == [] then s else S.AddBuffer(s, data, buffer.mss, order), w)
      ensures fresh(Parts() - old(Parts()))
    {
      hide Wire, CurrWire, Rest, B.SndBuffer.Valid, B.SndBuffer.Queue, B.SndBuffer.Shape, L.SndLossList.Valid,
        L.SndLossList.Contents, Listed, Chunks;
      if |data| <= 0 {
        return;
      }
      RestGrows(s.chunks, Chunks(data, buffer.mss, s.nextMsgNo, order, true), s.lastDataAck - s.isn);
      buffer.AddBuffer(data, order);
    }

    /** packData's first section: take the smallest number off the loss list, or report -1. */
    method GetLost(ghost s: S.Snd, ghost w: nat) returns (seqno: int32)
      requires Represents(s, w) && S.SndInv(s, w) && s.popped.None?
      modifies loss, loss.data1, loss.data2, loss.next
      ensures Represents(S.PopLost(s), w)
      ensures seqno == if s.loss == {} then -1 else Wire(Min(s.loss))
    {
      hide Wire, CurrWire, Rest, B.SndBuffer.Valid, B.SndBuffer.Queue, B.SndBuffer.Shape, L.SndLossList.Valid,
        L.SndLossList.Contents, Queued;
      seqno := loss.GetLostSeq();
    }

    /** packData's AckLock section for a retransmission. */
    method PackLost(seqno: int32, ghost s: S.Snd, ghost w: nat) returns (pkt: Option<WirePkt>)
      requires Represents(s, w) && S.SndInv(s, w)
      requires s.popped.Some? && seqno == Wire(s.popped.value) && Near(s.lastDataAck, s.popped.value)
      ensures Represents(S.Retransmit(s).0, w)
      ensures pkt == ToWire(S.Retransmit(s).1)
    {
      hide Wire, CurrWire, Rest, B.SndBuffer.Valid, B.SndBuffer.Queue, B.SndBuffer.Shape, L.SndLossList.Valid,
        L.SndLossList.Contents, Listed;
      OffAgrees(s.lastDataAck, s.popped.value);
      var offset := SeqOff(lastDataAck, seqno) as int;
      if offset < 0 {
        return None;
      }
      RestAt(s.chunks, s.lastDataAck - s.isn, offset);
      var chunk := buffer.ReadAt(offset);
      if |chunk.bytes| == 0 {
        return None;
      }
      return Some(WirePkt(seqno, chunk));
    }

    /** With the next number at most `window` numbers would be unacknowledged. */
    ghost predicate OpenFor(window: int)
      reads this
    {
      -1 <= curr && AtMostLong(lastAck, IncSeq(curr), window)
    }

    /** packData when nothing is lost: send the next new packet if the window allows. */
    method PackNew(cwnd: nat, ghost s: S.Snd, ghost w: nat) returns (pkt: Option<WirePkt>)
      requires Represents(s, w) && S.SndInv(s, w) && s.popped.None?
      modifies this`curr, buffer`currBlock, buffer`sent
      ensures Represents(S.SendNew(s, cwnd).0, w)
      ensures pkt == ToWire(S.SendNew(s, cwnd).1)
      ensures pkt.Some? <==> old(OpenFor(cwnd)) && old(OpenFor(flow as int)) && old(buffer.sent) < buffer.count
      ensures pkt.Some? ==> pkt.value.seqno == curr
    {
      hide Wire, CurrWire, Rest, B.SndBuffer.Valid, B.SndBuffer.Queue, B.SndBuffer.Shape, L.SndLossList.Valid,
        L.SndLossList.Contents, Listed, Queued, SeqLen, IncSeq;
      CurrAgrees(s.isn, s.curr);
      LenAgrees(s.lastAck, s.curr + 1);
      var window := if (flow as int) < cwnd then flow as int else cwnd;
      if window < SeqLen(lastAck, IncSeq(curr)) as int {
        return None;
      }
      pkt := TakeNew(s, w);
    }

    lemma AllSent()
      requires buffer.Valid()
      ensures buffer.sent <= buffer.count
    {
    }

    /** The next chunk of the buffer goes out under the next number. */
    method TakeNew(ghost s: S.Snd, ghost w: nat) returns (pkt: Option<WirePkt>)
      requires Represents(s, w) && S.Ordered(s)
      modifies this`curr, buffer`currBlock, buffer`sent
      ensures
        var i := s.curr + 1;
        if i - s.isn < |s.chunks| then
          Represents(s.(curr := i), w) && pkt == Some(WirePkt(Wire(i), s.chunks[i - s.isn]))
        else Represents(s, w) && pkt == None
      ensures (pkt.Some? <==> old(buffer.sent) < buffer.count) && (pkt.Some? ==> pkt.value.seqno == curr)
    {
      hide Wire, CurrWire, Rest, B.SndBuffer.Valid, B.SndBuffer.Queue, B.SndBuffer.Shape, L.SndLossList.Valid,
        L.SndLossList.Contents, Listed, SeqLen, IncSeq;
      CurrAgrees(s.isn, s.curr);
      CurrAgrees(s.isn, s.curr + 1);
      RestAt(s.chunks, s.lastDataAck - s.isn, s.curr + 1 - s.lastDataAck);
      AllSent();
      var chunk := buffer.ReadNew();
      if chunk.Some? {
        curr := IncSeq(curr);
        return Some(WirePkt(curr, chunk.value));
      }
      return None;
    }

    /** A lite ACK. */
    method OnLiteAck(ack: int32, ghost a: int, ghost s: S.Snd, ghost w: nat)
      requires Represents(s, w) && S.SndInv(s, w) && ack == Wire(a) && Near(s.lastAck, a) && a <= s.curr + 1
      modifies this`flow, this`lastAck
      ensures Represents(S.OnLiteAck(s, a), w)
      ensures lastAck == if s.lastAck <= a then ack else old(lastAck)
      ensures flow as int - old(flow) as int == if s.lastAck <= a then s.lastAck - a else 0
    {
      hide Wire, CurrWire, Rest, B.SndBuffer.Valid, B.SndBuffer.Queue, B.SndBuffer.Shape, L.SndLossList.Valid,
        L.SndLossList.Contents, Listed, Queued, SeqCmp, SeqOff;
      CmpAgrees(a, s.lastAck);
      OffAgrees(s.lastAck, a);
      if SeqCmp(ack, lastAck) >= 0 {
        flow := flow - SeqOff(lastAck, ack);
        lastAck := ack;
      }
    }

    /** A full ACK up to the point where AckLock is requested. */
    method OnFullAck(ack: int32, window: int32, ghost a: int, ghost s: S.Snd, ghost w: nat) returns (ok: bool)
      requires Represents(s, w) && S.Ordered(s) && ack == Wire(a) && Near(s.lastAck, a) && Near(s.curr + 1, a)
      modifies this`flow, this`lastAck, this`broken
      ensures Represents(S.OnFullAck(s, a, window as int), w)
      ensures ok <==> a <= s.curr + 1
      ensures broken <==> old(broken) || !ok
      ensures !ok ==> lastAck == old(lastAck) && flow == old(flow)
      ensures ok && s.lastAck <= a ==> lastAck == ack && flow == window
      ensures ok && a < s.lastAck ==> lastAck == old(lastAck) && flow == old(flow)
    {
      hide Wire, CurrWire, Rest, B.SndBuffer.Valid, B.SndBuffer.Queue, B.SndBuffer.Shape, L.SndLossList.Valid,
        L.SndLossList.Contents, Listed, Queued, SeqCmp, IncSeq;
      CurrAgrees(s.isn, s.curr);
      CmpAgrees(a, s.curr + 1);
      CmpAgrees(a, s.lastAck);
      if SeqCmp(ack, IncSeq(curr)) > 0 {
        broken := true;
        return false;
      }
      if SeqCmp(ack, lastAck) >= 0 {
        flow := window;
        lastAck := ack;
      }
      return true;
    }

    /** The AckLock section of a full ACK. */
    method CommitAck(ack: int32, ghost s: S.Snd, ghost w: nat)
      requires Represents(s, w) && S.SndInv(s, w)
      requires s.pendingAck.Some? && ack == Wire(s.pendingAck.value) && Near(s.lastAck, s.pendingAck.value)
      modifies this`lastDataAck, loss, loss.data1, loss.data2, loss.next
      modifies buffer`firstBlock, buffer`count, buffer`ring, buffer`sent
      ensures Represents(S.CommitAck(s), w)
    {
      hide Wire, CurrWire, Rest, B.SndBuffer.Valid, B.SndBuffer.Queue, B.SndBuffer.Shape, L.SndLossList.Valid,
        L.SndLossList.Contents, SeqOff, DecSeq, Above;
      ghost var a := s.pendingAck.value;
      OffAgrees(s.lastDataAck, a);
      DecAgrees(a);
      var offset := SeqOff(lastDataAck, ack) as int;
      if offset <= 0 {
        return;
      }
      RestDrops(s.chunks, s.lastDataAck - s.isn, offset);
      buffer.AckData(offset);
      lastDataAck := ack;
      loss.Remove(DecSeq(lastDataAck), a - 1);
    }

    /** Put the numbers `a..b` of the current window on the loss list. */
    method AddLost(first: int32, last: int32, ghost a: int, ghost b: int, ghost lost: set<int>, ghost base: int,
        ghost w: nat)
      requires Listed(lost, w) && InWindow(lost, base, w) && base <= a <= b < base + w
      requires first == Wire(a) && last == Wire(b)
      modifies loss, loss.data1, loss.data2, loss.next
      ensures Listed(lost + Range(a, b), w)
    {
      hide Wire, CurrWire, Rest, B.SndBuffer.Valid, B.SndBuffer.Queue, B.SndBuffer.Shape, L.SndLossList.Valid,
        L.SndLossList.Contents, Queued;
      var num := loss.Insert(first, last, a, b);
    }

    method CurrBufSize(ghost s: S.Snd, ghost w: nat) returns (n: nat)
      requires Represents(s, w)
      ensures n == s.isn + |s.chunks| - s.lastDataAck
    {
      hide Wire, CurrWire, Rest, B.SndBuffer.Valid, B.SndBuffer.Queue, B.SndBuffer.Shape, L.SndLossList.Valid,
        L.SndLossList.Contents, Listed;
      RestAt(s.chunks, s.lastDataAck - s.isn, 0);
      n := buffer.GetCurrBufSize();
    }

    method LossLength(ghost s: S.Snd, ghost w: nat) returns (n: int)
      requires Represents(s, w)
      ensures n == |s.loss|
    {
      hide Wire, CurrWire, Rest, B.SndBuffer.Valid, B.SndBuffer.Queue, B.SndBuffer.Shape, L.SndLossList.Valid,
        L.SndLossList.Contents, Queued;
      n := loss.GetLossLength();
    }

    /** The EXP timer: schedule everything unacknowledged if the loss list is empty. */
    method OnExp(ghost s: S.Snd, ghost w: nat)
      requires Represents(s, w) && S.SndInv(s, w) && s.pendingAck.None?
      modifies loss, loss.data1, loss.data2, loss.next
      ensures Represents(S.OnExp(s), w)
    {
      hide Wire, CurrWire, Rest, B.SndBuffer.Valid, B.SndBuffer.Queue, B.SndBuffer.Shape, L.SndLossList.Valid,
        L.SndLossList.Contents, IncSeq, Queued, Listed, S.SndInv, InWindow, S.OnExp, Range;
      InFlight(s, w);
      ExpIs(s);
      CurrAgrees(s.isn, s.curr);
      CmpAgrees(s.curr + 1, s.lastAck);
      var waiting := CurrBufSize(s, w);
      if waiting > 0 {
        var lost := LossLength(s, w);
        if IncSeq(curr) != lastAck && lost == 0 {
          var csn := curr;
          AddLost(lastAck, csn, s.lastAck, s.curr, s.loss, s.lastDataAck, w);
        }
      }
    }

    /** A loss report: decode it and put what is not yet acknowledged on the loss list. */
    method OnNak(losslist: seq<int32>, ghost ls: seq<Loss>, ghost s: S.Snd, ghost w: nat)
      requires Represents(s, w) && S.SndInv(s, w) && s.pendingAck.None? && s.isn <= s.curr && !s.broken
      requires losslist == Encode(ls) && forall l <- ls :: Recent(s, l)
      modifies this`broken, loss, loss.data1, loss.data2, loss.next
      ensures Represents(OnNaks(s, ls), w)
    {
      hide Wire, CurrWire, Rest, B.SndBuffer.Valid, B.SndBuffer.Queue, B.SndBuffer.Shape, L.SndLossList.Valid,
        L.SndLossList.Contents, Queued, Listed, Encode, EncodeOne, S.SndInv, Recent, OnNaks, S.OnNak, Mark;
      var i, secure := 0, true;
      ghost var k, st := 0, s;
      assert ls[0..] == ls;
      while i < |losslist|
        invariant 0 <= i <= |losslist| && k <= |ls| && losslist[i..] == Encode(ls[k..])
        invariant Represents(st, w) && S.SndInv(st, w) && Same(s, st) && !st.broken
        invariant OnNaks(s, ls) == OnNaks(st, ls[k..])
        decreases |ls| - k
      {
        NextEntry(losslist, i, ls, k);
        OnNaksNext(st, ls, k);
        ghost var l := ls[k];
        assert Recent(s, l);
        SameRecent(s, st, l);
        S.NakKeeps(st, l.lo, l.hi, w);
        if losslist[i] < 0 {
          secure := TakePair(Unmark(losslist[i]), losslist[i + 1], l, st, w);
          i := i + 1;
        } else {
          secure := TakeOne(losslist[i], l, st, w);
        }
        if !secure {
          break;
        }
        i := i + 1;
        NakSame(st, l);
        st := S.OnNak(st, l.lo, l.hi);
        k := k + 1;
      }
      if !secure {
        broken := true;
      } else {
        NoEntries(st, ls[k..]);
      }
    }

    /** The entry `first..last`; false says that it cannot be one of the numbers sent. */
    method TakePair(first: int32, last: int32, ghost l: Loss, ghost s: S.Snd, ghost w: nat) returns (secure: bool)
      requires Represents(s, w) && S.SndInv(s, w) && s.pendingAck.None? && s.isn <= s.curr && !s.broken
      requires l.lo != l.hi && first == Wire(l.lo) && last == Wire(l.hi) && Recent(s, l)
      modifies loss, loss.data1, loss.data2, loss.next
      ensures secure <==> !S.OnNak(s, l.lo, l.hi).broken
      ensures Represents(if secure then S.OnNak(s, l.lo, l.hi) else s, w)
      ensures !secure ==> S.OnNak(s, l.lo, l.hi) == s.(broken := true)
    {
      hide Wire, CurrWire, Rest, B.SndBuffer.Valid, B.SndBuffer.Queue, B.SndBuffer.Shape, L.SndLossList.Valid,
        L.SndLossList.Contents, Queued, Listed, SeqCmp;
      CurrAgrees(s.isn, s.curr);
      CmpAgrees(l.lo, l.hi);
      CmpAgrees(l.hi, s.curr);
      CmpAgrees(l.lo, s.lastAck);
      CmpAgrees(l.hi, s.lastAck);
      if SeqCmp(first, last) > 0 || SeqCmp(last, curr) > 0 {
        return false;
      }
      if SeqCmp(first, lastAck) >= 0 {
        AddLost(first, last, l.lo, l.hi, s.loss, s.lastDataAck, w);
      } else if SeqCmp(last, lastAck) >= 0 {
        AddLost(lastAck, last, s.lastAck, l.hi, s.loss, s.lastDataAck, w);
      }
      return true;
    }

    /** An entry for a single number. */
    method TakeOne(seqno: int32, ghost l: Loss, ghost s: S.Snd, ghost w: nat) returns (secure: bool)
      requires Represents(s, w) && S.SndInv(s, w) && s.pendingAck.None? && s.isn <= s.curr && !s.broken
      requires l.lo == l.hi && seqno == Wire(l.lo) && Recent(s, l)
      modifies loss, loss.data1, loss.data2, loss.next
      ensures secure <==> !S.OnNak(s, l.lo, l.hi).broken
      ensures Represents(if secure then S.OnNak(s, l.lo, l.hi) else s, w)
      ensures !secure ==> S.OnNak(s, l.lo, l.hi) == s.(broken := true)
    {
      hide Wire, CurrWire, Rest, B.SndBuffer.Valid, B.SndBuffer.Queue, B.SndBuffer.Shape, L.SndLossList.Valid,
        L.SndLossList.Contents, Queued, Listed, SeqCmp;
      CurrAgrees(s.isn, s.curr);
      CmpAgrees(l.hi, s.curr);
      CmpAgrees(l.lo, s.lastAck);
      if SeqCmp(seqno, lastAck) >= 0 {
        if SeqCmp(seqno, curr) > 0 {
          return false;
        }
        AddLost(seqno, seqno, l.lo, l.lo, s.loss, s.lastDataAck, w);
      }
      return true;
    }
  }

  /** A reported stretch within half the number space of what the sender works on. */
  predicate Recent(s: S.Snd, l: Loss) {
    Near(l.lo, l.hi) && Near(l.lo, s.lastAck) && Near(l.hi, s.lastAck) && Near(l.hi, s.curr)
  }

  /** The entries of a loss report one after the other, up to one that cannot be right. */
  function OnNaks(s: S.Snd, ls: seq<Loss>): S.Snd
    decreases |ls|
  {
    if ls == [] then s
    else
      var s1 := S.OnNak(s, ls[0].lo, ls[0].hi);
      if s1.broken then s1 else OnNaks(s1, ls[1..])
  }

  lemma OnNaksNext(s: S.Snd, ls: seq<Loss>, k: nat)
    requires k < |ls|
    ensures
      var s1 := S.OnNak(s, ls[k].lo, ls[k].hi);
      OnNaks(s, ls[k..]) == if s1.broken then s1 else OnNaks(s1, ls[k + 1..])
  {
    hide S.OnNak;
    assert ls[k..][1..] == ls[k + 1..];
  }

  lemma NoEntries(s: S.Snd, ls: seq<Loss>)
    requires Encode(ls) == []
    ensures OnNaks(s, ls) == s
  {
  }

  /** What loss reports leave alone. */
  predicate Same(s: S.Snd, s': S.Snd) {
    s' == s.(loss := s'.loss, broken := s'.broken)
  }

  lemma NakSame(s: S.Snd, l: Loss)
    ensures Same(s, S.OnNak(s, l.lo, l.hi))
  {
  }

  lemma SameRecent(s: S.Snd, s': S.Snd, l: Loss)
    requires Same(s, s')
    ensures Recent(s', l) <==> Recent(s, l)
  {
  }

  /** The entry that begins at position `i` of the report. */
  lemma NextEntry(losslist: seq<int32>, i: nat, ls: seq<Loss>, k: nat)
    requires i < |losslist| && k <= |ls| && losslist[i..] == Encode(ls[k..])
    ensures k < |ls|
    ensures losslist[i] < 0 <==> ls[k].lo != ls[k].hi
    ensures losslist[i] < 0 ==>
              && i + 1 < |losslist| && Unmark(losslist[i]) == Wire(ls[k].lo) && losslist[i + 1] == Wire(ls[k].hi)
              && losslist[i + 2..] == Encode(ls[k + 1..])
    ensures 0 <= losslist[i] ==> losslist[i] == Wire(ls[k].lo) && losslist[i + 1..] == Encode(ls[k + 1..])
  {
    hide Wire;
    if k < |ls| {
      EncodeTail(ls, k);
      var rest := losslist[i..];
      assert rest[0] == losslist[i];
      if ls[k].lo == ls[k].hi {
        assert losslist[i + 1..] == rest[1..] == Encode(ls[k + 1..]);
      } else {
        assert rest[1] == losslist[i + 1];
        assert losslist[i + 2..] == rest[2..] == Encode(ls[k + 1..]);
      }
    }
  }

  /** An entry that cannot be right: a pair out of order or beyond what was sent, or a single number
      beyond it. */
  predicate Wrong(s: S.Snd, l: Loss) {
    if l.lo == l.hi then s.lastAck <= l.lo && s.curr < l.lo else l.hi < l.lo || s.curr < l.hi
  }

  lemma WrongBreaks(s: S.Snd, l: Loss)
    requires !s.broken
    ensures S.OnNak(s, l.lo, l.hi).broken <==> Wrong(s, l)
    ensures Wrong(s, l) ==> S.OnNak(s, l.lo, l.hi) == s.(broken := true)
  {
  }

  /** A report without such an entry puts on the loss list exactly those of its numbers that are not
      yet acknowledged. */
  lemma {:induction false} NaksInsertExactly(s: S.Snd, ls: seq<Loss>)
    requires !s.broken && forall l <- ls :: !Wrong(s, l)
    ensures OnNaks(s, ls) == s.(loss := s.loss + Above(Reported(ls), s.lastAck - 1))
    decreases |ls|
  {
    hide S.OnNak, Wrong;
    if ls == [] {
      assert s.loss + Above({}, s.lastAck - 1) == s.loss;
    } else {
      var l := ls[0];
      assert l in ls;
      WrongBreaks(s, l);
      var s1 := S.OnNak(s, l.lo, l.hi);
      assert s1 == s.(loss := s.loss + Above(Range(l.lo, l.hi), s.lastAck - 1)) by {
        NakInserts(s, l);
      }
      forall m <- ls[1..]
        ensures !Wrong(s1, m)
      {
        SameWrong(s, s1, m);
      }
      NaksInsertExactly(s1, ls[1..]);
      assert s1.loss + Above(Reported(ls[1..]), s.lastAck - 1) == s.loss + Above(Reported(ls), s.lastAck - 1);
    }
  }

  /** The first such entry ends the decoding and breaks the connection; what came before it counts. */
  lemma {:induction false} NaksStop(s: S.Snd, ls: seq<Loss>, k: nat)
    requires !s.broken && k < |ls| && Wrong(s, ls[k]) && forall j :: 0 <= j < k ==> !Wrong(s, ls[j])
    ensures
      OnNaks(s, ls) == s.(loss := s.loss + Above(Reported(ls[..k]), s.lastAck - 1), broken := true)
    decreases k
  {
    hide S.OnNak, Wrong;
    WrongBreaks(s, ls[0]);
    if k == 0 {
      assert s.loss + Above({}, s.lastAck - 1) == s.loss;
    } else {
      var l := ls[0];
      var s1 := S.OnNak(s, l.lo, l.hi);
      NakInserts(s, l);
      forall j | 0 <= j < k
        ensures !Wrong(s1, ls[1..][j]) || j == k - 1
      {
        SameWrong(s, s1, ls[1..][j]);
      }
      SameWrong(s, s1, ls[k]);
      NaksStop(s1, ls[1..], k - 1);
      assert ls[..k][1..] == ls[1..][..k - 1];
      assert s1.loss + Above(Reported(ls[1..][..k - 1]), s.lastAck - 1)
             == s.loss + Above(Reported(ls[..k]), s.lastAck - 1);
    }
  }

  lemma SameWrong(s: S.Snd, s': S.Snd, l: Loss)
    requires s'.lastAck == s.lastAck && s'.curr == s.curr
    ensures Wrong(s', l) <==> Wrong(s, l)
  {
  }

  lemma NakInserts(s: S.Snd, l: Loss)
    requires !s.broken && !Wrong(s, l)
    ensures S.OnNak(s, l.lo, l.hi) == s.(loss := s.loss + Above(Range(l.lo, l.hi), s.lastAck - 1))
  {
    var late := Above(Range(l.lo, l.hi), s.lastAck - 1);
    if l.lo >= s.lastAck {
      assert late == Range(l.lo, l.hi);
    } else if l.hi >= s.lastAck {
      assert late == Range(s.lastAck, l.hi);
    } else {
      assert s.loss + late == s.loss;
    }
  }
}
