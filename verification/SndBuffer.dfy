/** The sender's buffer: CSndBuffer, a growing ring of blocks. */
module SndBuffer {
  import opened Arith
  import opened MsgField
  import opened Rings
  import opened Stream

  class Block {
    var bytes: Payload
    var msg: Word
    var next: Block

    constructor ()
      ensures bytes == [] && msg == 0 && next == this
    {
      bytes, msg, next := [], 0, this;
    }
  }

  /** What the first `n` blocks of a ring hold. */
  ghost function Held(ring: seq<Block>, n: nat): (chunks: seq<Chunk>)
    requires n <= |ring|
    reads ring
    ensures |chunks| == n
    ensures forall i :: 0 <= i < n ==> chunks[i] == Chunk(ring[i].bytes, ring[i].msg)
  {
    seq(n, i requires 0 <= i < n reads ring => Chunk(ring[i].bytes, ring[i].msg))
  }

  /** The blocks form one cycle. */
  ghost predicate Cycle(ring: seq<Block>)
    reads ring
  {
    forall i :: 0 <= i < |ring| ==> ring[i].next == After(ring, i)
  }

  lemma NextInCycle(ring: seq<Block>, i: nat)
    requires Cycle(ring) && i < |ring|
    ensures ring[i].next == After(ring, i)
  {
  }

  /** The same cycle, seen from block `k`. */
  function Rotated(ring: seq<Block>, k: nat): seq<Block>
    requires k <= |ring|
  {
    ring[k..] + ring[..k]
  }

  lemma RotatedCycle(ring: seq<Block>, k: nat)
    requires k < |ring| && Cycle(ring) && Distinct(ring)
    ensures Cycle(Rotated(ring, k)) && Distinct(Rotated(ring, k))
  {
    var turned := Rotated(ring, k);
    forall i | 0 <= i < |turned|
      ensures turned[i].next == After(turned, i)
    {
      var j := if i + k < |ring| then i + k else i + k - |ring|;
      assert turned[i] == ring[j] && ring[j].next == After(ring, j);
    }
  }

  lemma RotatedAt(ring: seq<Block>, k: nat, blocks: set<Block>)
    requires k < |ring| && forall i :: 0 <= i < |ring| ==> ring[i] in blocks
    ensures |Rotated(ring, k)| == |ring|
    ensures forall i :: 0 <= i < |ring| ==> Rotated(ring, k)[i] in blocks
    ensures forall i :: k <= i < |ring| ==> Rotated(ring, k)[i - k] == ring[i]
  {
  }

  lemma RotatedHeld(ring: seq<Block>, k: nat, n: nat)
    requires k <= n < |ring|
    ensures Held(Rotated(ring, k), n - k) == Held(ring, n)[k..]
  {
    forall i | 0 <= i < n - k
      ensures Rotated(ring, k)[i] == ring[k + i]
    {
    }
  }

  /** New blocks between blocks `k` and `k + 1`. */
  function Spliced(ring: seq<Block>, k: nat, made: seq<Block>): seq<Block>
    requires k < |ring|
  {
    ring[..k + 1] + made + ring[k + 1..]
  }

  lemma SplicedAt(ring: seq<Block>, k: nat, made: seq<Block>, i: nat)
    requires k < |ring| && i < |ring| + |made|
    ensures |Spliced(ring, k, made)| == |ring| + |made|
    ensures
      Spliced(ring, k, made)[i]
      == if i <= k then ring[i] else if i <= k + |made| then made[i - k - 1] else ring[i - |made|]
  {
  }

  lemma SplicedDistinct(ring: seq<Block>, k: nat, made: seq<Block>)
    requires k < |ring| && Distinct(ring) && Distinct(made)
    requires forall x, y :: 0 <= x < |made| && 0 <= y < |ring| ==> made[x] != ring[y]
    ensures Distinct(Spliced(ring, k, made))
  {
    var all := Spliced(ring, k, made);
    forall i, j | 0 <= i < j < |all|
      ensures all[i] != all[j]
    {
      SplicedAt(ring, k, made, i);
      SplicedAt(ring, k, made, j);
    }
  }

  lemma SplicedCycle(ring: seq<Block>, k: nat, made: seq<Block>)
    requires k < |ring| && made != []
    requires forall i :: 0 <= i < |ring| && i != k ==> ring[i].next == After(ring, i)
    requires forall i :: 0 <= i < |made| - 1 ==> made[i].next == made[i + 1]
    requires ring[k].next == made[0] && made[|made| - 1].next == After(ring, k)
    ensures Cycle(Spliced(ring, k, made))
  {
    var all := Spliced(ring, k, made);
    SplicedAt(ring, k, made, 0);
    forall i | 0 <= i < |all|
      ensures all[i].next == After(all, i)
    {
      SplicedAt(ring, k, made, i);
      if i + 1 < |all| {
        SplicedAt(ring, k, made, i + 1);
      }
    }
  }

  /** `n` new blocks, each pointing to the next. */
  method MakeChain(n: nat) returns (first: Block, last: Block, ghost made: seq<Block>)
    requires 0 < n
    ensures fresh(made) && |made| == n && Distinct(made) && made[0] == first && made[n - 1] == last
    ensures forall k :: 0 <= k < n - 1 ==> made[k].next == made[k + 1]
  {
    first := new Block();
    last := first;
    made := [first];
    for i := 1 to n
      invariant fresh(made) && |made| == i && Distinct(made) && made[0] == first && made[i - 1] == last
      invariant forall k :: 0 <= k < i - 1 ==> made[k].next == made[k + 1]
    {
      var b := new Block();
      last.next := b;
      last := b;
      made := made + [b];
    }
  }

  class SndBuffer {
    const mss: nat
    const unitSize: nat
    var firstBlock: Block
    var currBlock: Block
    var lastBlock: Block
    var nextMsgNo: MsgNo
    var size: nat
    var count: nat

    /** All blocks in the order of the cycle, from the first unacknowledged one on. */
    ghost var ring: seq<Block>
    ghost var blocks: set<Block>
    /** How many queued blocks have been sent at least once. */
    ghost var sent: nat

    ghost predicate Shape()
      reads this
    {
      && 0 < mss && 0 < unitSize
      && |ring| == size && Distinct(ring)
      && (forall i :: 0 <= i < |ring| ==> ring[i] in blocks)
      && sent <= count < size
      && firstBlock == ring[0] && currBlock == ring[sent] && lastBlock == ring[count]
    }

    ghost predicate Valid()
      reads this, blocks
    {
      Shape() && Cycle(ring)
    }

    /** The queued chunks, from the oldest unacknowledged one on. */
    ghost function Queue(): (chunks: seq<Chunk>)
      reads this, blocks
      requires Shape()
      ensures |chunks| == count
    {
      Held(ring, count)
    }

    constructor (size: nat, mss: nat)
      requires 0 < size && 0 < mss
      ensures Valid() && Queue() == [] && sent == 0 && nextMsgNo == 1 && this.mss == mss
      ensures this.size == unitSize == size
      ensures fresh(blocks)
    {
      var block, pb; ghost var made;
      block, pb, made := MakeChain(size);
      pb.next := block;
      this.mss, unitSize, this.size, count := mss, size, size, 0;
      firstBlock, currBlock, lastBlock := block, block, block;
      nextMsgNo := 1;
      ring, sent, blocks := made, 0, set b | b in made;
    }

    method GetCurrBufSize() returns (n: nat)
      requires Valid()
      ensures n == |Queue()|
    {
      n := count;
    }

    /** Walk `offset` blocks on from the first one. */
    method Walk(offset: nat) returns (p: Block)
      requires Valid() && offset < size
      ensures p == ring[offset]
    {
      hide Distinct;
      p := firstBlock;
      for i := 0 to offset
        invariant p == ring[i]
      {
        p := p.next;
      }
    }

    /** Hand out the next chunk that was never sent. */
    method ReadNew() returns (chunk: Option<Chunk>)
      requires Valid()
      modifies this`currBlock, this`sent
      ensures Valid() && Queue() == old(Queue())
      ensures old(sent) == count ==> chunk == None && sent == old(sent)
      ensures old(sent) < count ==> chunk == Some(Queue()[old(sent)]) && sent == old(sent) + 1
    {
      hide Distinct, Held, Cycle;
      SameNode(ring, sent, count);
      NextInCycle(ring, sent);
      if currBlock == lastBlock {
        return None;
      }
      chunk := Some(Chunk(currBlock.bytes, currBlock.msg));
      currBlock := currBlock.next;
      sent := sent + 1;
    }

    /** Look up a queued chunk by its distance from the oldest unacknowledged one. */
    method ReadAt(offset: nat) returns (chunk: Chunk)
      requires Valid() && offset < count
      ensures chunk == Queue()[offset]
    {
      hide Distinct, Cycle;
      var p := Walk(offset);
      chunk := Chunk(p.bytes, p.msg);
    }

    /** Release the `offset` oldest chunks, all of which have been sent. */
    method AckData(offset: nat)
      requires Valid() && offset <= sent
      modifies this`firstBlock, this`count, this`ring, this`sent
      ensures Valid() && Queue() == old(Queue())[offset..]
      ensures sent == old(sent) - offset && count == old(count) - offset
    {
      hide Distinct, Cycle, Rotated, Held;
      RotatedCycle(ring, offset);
      RotatedHeld(ring, offset, count);
      RotatedAt(ring, offset, blocks);
      firstBlock := Walk(offset);
      count := count - offset;
      ring := Rotated(ring, offset);
      sent := sent - offset;
    }

    /** Add `unitSize` blocks behind the last block. */
    method Increase()
      requires Valid()
      modifies this, blocks
      ensures Valid() && size == old(size) + unitSize
      ensures Queue() == old(Queue()) && count == old(count) && sent == old(sent)
      ensures nextMsgNo == old(nextMsgNo) && old(blocks) <= blocks && fresh(blocks - old(blocks))
    {
      hide Distinct, Cycle, Spliced;
      var nblk, pb; ghost var made;
      nblk, pb, made := MakeChain(unitSize);
      ghost var was := ring;
      SplicedAt(was, count, made, 0);
      ring := Link(nblk, pb, made);
      size := size + unitSize;
      blocks := blocks + set b | b in made;
      forall i | 0 <= i < |ring|
        ensures ring[i] in blocks
        ensures i <= count ==> ring[i] == was[i]
      {
        SplicedAt(was, count, made, i);
      }
    }

    /** Link a chain of new blocks in behind the last block. */
    method Link(nblk: Block, pb: Block, ghost made: seq<Block>) returns (ghost all: seq<Block>)
      requires Valid() && |made| == unitSize && Distinct(made) && made[0] == nblk && made[|made| - 1] == pb
      requires forall x, y :: 0 <= x < |made| && 0 <= y < |ring| ==> made[x] != ring[y]
      requires forall k :: 0 <= k < |made| - 1 ==> made[k].next == made[k + 1]
      modifies pb`next, lastBlock`next
      ensures all == Spliced(ring, count, made) && Cycle(all) && Distinct(all)
    {
      all := Spliced(ring, count, made);
      SplicedDistinct(ring, count, made);
      forall i | 0 <= i < |ring| && i != count
        ensures ring[i] != lastBlock && ring[i] != pb
      {
        SameNode(ring, i, count);
      }
      forall i | 0 <= i < |made| - 1
        ensures made[i] != pb && made[i] != lastBlock
      {
        SameNode(made, i, |made| - 1);
      }
      hide Distinct;
      pb.next := lastBlock.next;
      lastBlock.next := nblk;
      SplicedCycle(ring, count, made);
    }

    /** Enlarge the ring until `n` more blocks leave at least one free. */
    method Grow(n: nat)
      requires Valid()
      modifies this, blocks
      ensures Valid() && n + count < size
      ensures Queue() == old(Queue()) && count == old(count) && sent == old(sent) && nextMsgNo == old(nextMsgNo)
      ensures old(blocks) <= blocks && fresh(blocks - old(blocks))
    {
      hide Distinct, Cycle;
      while n + count >= size
        invariant Valid()
        invariant Queue() == old(Queue()) && count == old(count) && sent == old(sent) && nextMsgNo == old(nextMsgNo)
        invariant old(blocks) <= blocks && fresh(blocks - old(blocks))
        decreases n + count - size
      {
        Increase();
      }
    }

    /** Queue a message cut into chunks, growing the ring until one block stays free. */
    method AddBuffer(data: Payload, order: bool)
      requires Valid()
      modifies this, blocks
      ensures Valid()
      ensures Queue() == old(Queue()) + Chunks(data, mss, old(nextMsgNo), order, true)
      ensures sent == old(sent)
      ensures nextMsgNo == if old(nextMsgNo) == 0x1FFF_FFFE then 1 else old(nextMsgNo) + 1
      ensures old(blocks) <= blocks && fresh(blocks - old(blocks))
    {
      hide Distinct, Cycle, Chunks;
      var n := |data| / mss;
      if |data| % mss != 0 {
        n := n + 1;
      }
      Grow(n);
      CopyIn(data, n, order);
      nextMsgNo := if nextMsgNo + 1 == 0x1FFF_FFFF then 1 else nextMsgNo + 1;
    }

    /** The copy loop: fill the `n` blocks from the last block on and count them in. */
    method CopyIn(data: Payload, n: nat, order: bool)
      requires Valid() && n == PacketCount(|data|, mss) && n + count < size
      modifies this`lastBlock, this`count, blocks
      ensures Valid()
      ensures Queue() == old(Queue()) + Chunks(data, mss, nextMsgNo, order, true)
    {
      hide Compose, Chunks, PacketCount, Distinct, Cycle, Held;
      ghost var all := Chunks(data, mss, nextMsgNo, order, true);
      ghost var q := Queue();
      ChunksCounted(data, mss, nextMsgNo, order, true);
      var s := lastBlock;
      ghost var rest := all;
      var from := 0;
      assert data[0..] == data;
      for i := 0 to n
        invariant count == old(count) && lastBlock == old(lastBlock) && s == ring[count + i]
        invariant 0 <= from <= |data| && (from == 0 <==> i == 0)
        invariant rest == Chunks(data[from..], mss, nextMsgNo, order, from == 0) && |rest| == n - i
        invariant Cycle(ring)
        invariant Held(ring, count + i) + rest == q + all
      {
        ghost var done := Held(ring, count + i);
        s, from := CopyOne(data, s, from, i == 0, i == n - 1, order, count + i);
        MoveOver(done, rest);
        rest := rest[1..];
      }
      lastBlock := s;
      count := count + n;
    }

    /** One turn of the copy loop: the slice at offset `from` goes into block `k`. */
    method CopyOne(data: Payload, s: Block, from: nat, first: bool, last: bool, order: bool, ghost k: nat)
      returns (s': Block, end: nat)
      requires Shape() && Cycle(ring) && k + 1 < size && s == ring[k] && from <= |data| && (first <==> from == 0)
      requires
        var rest := Chunks(data[from..], mss, nextMsgNo, order, first);
        rest != [] && (last <==> |rest| == 1)
      modifies s
      ensures Cycle(ring) && s' == ring[k + 1] && from < end <= |data|
      ensures
        var rest := Chunks(data[from..], mss, nextMsgNo, order, first);
        && Held(ring, k + 1) == old(Held(ring, k)) + [rest[0]]
        && rest[1..] == Chunks(data[end..], mss, nextMsgNo, order, false)
    {
      hide Compose, Chunks, Distinct, Cycle, Held;
      RestLeft(data, mss, nextMsgNo, order, from);
      NextChunk(data, mss, nextMsgNo, order, from);
      var pktlen := |data| - from;
      if pktlen > mss {
        pktlen := mss;
      }
      end := from + pktlen;
      LastChunk(data, mss, nextMsgNo, order, end);
      s' := Fill(s, data[from..end], Compose(nextMsgNo, order, first, last), k);
    }

    /** Fill block `k` and step on. */
    method Fill(s: Block, bytes: Payload, msg: Word, ghost k: nat) returns (s': Block)
      requires Shape() && Cycle(ring) && k + 1 < size && s == ring[k]
      modifies s
      ensures Cycle(ring) && s' == ring[k + 1]
      ensures Held(ring, k + 1) == old(Held(ring, k)) + [Chunk(bytes, msg)]
    {
      forall i | 0 <= i < k
        ensures ring[i] != s
      {
        SameNode(ring, i, k);
      }
      hide Distinct;
      s.bytes := bytes;
      s.msg := msg;
      s' := s.next;
    }
  }

  lemma MoveOver(done: seq<Chunk>, rest: seq<Chunk>)
    requires rest != []
    ensures (done + [rest[0]]) + rest[1..] == done + rest
  {
  }

  lemma RestLeft(data: Payload, mss: nat, no: MsgNo, order: bool, from: nat)
    requires 0 < mss && from <= |data| && Chunks(data[from..], mss, no, order, from == 0) != []
    ensures from < |data|
  {
  }

  lemma LastChunk(data: Payload, mss: nat, no: MsgNo, order: bool, end: nat)
    requires 0 < mss && end <= |data|
    ensures Chunks(data[end..], mss, no, order, false) == [] <==> end == |data|
  {
  }
}
