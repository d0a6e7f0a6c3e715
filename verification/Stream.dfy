/** Byte streams cut into packet payloads. */
module Stream {
  import opened Arith
  import opened MsgField

  newtype byte = x: int | 0 <= x < 0x100

  type Payload = seq<byte>

  function Zeros(n: nat): (z: Payload)
    ensures |z| == n
  {
    seq(n, i => 0)
  }

  datatype Option<+T> = None | Some(value: T)

  /** What one data packet carries: its payload and the message word of its header. */
  datatype Chunk = Chunk(bytes: Payload, msg: Word)

  function Flatten(chunks: seq<Chunk>): Payload {
    if chunks == [] then [] else chunks[0].bytes + Flatten(chunks[1..])
  }

  /** The chunks one call of CSndBuffer::addBuffer stores from `data` on: full packets and a
      shorter last one; `first` says that the next chunk opens the message. */
  function Chunks(data: Payload, mss: nat, no: MsgNo, order: bool, first: bool): (r: seq<Chunk>)
    requires 0 < mss
    ensures forall c <- r :: 0 < |c.bytes| <= mss
    ensures r == [] <==> data == []
    decreases |data|
  {
    if data == [] then []
    else if |data| <= mss then [Chunk(data, Compose(no, order, first, true))]
    else [Chunk(data[..mss], Compose(no, order, first, false))] + Chunks(data[mss..], mss, no, order, false)
  }

  lemma {:induction false} ChunksRestoreData(data: Payload, mss: nat, no: MsgNo, order: bool, first: bool)
    requires 0 < mss
    ensures Flatten(Chunks(data, mss, no, order, first)) == data
    decreases |data|
  {
    hide Compose;
    if data == [] {
    } else if |data| <= mss {
      var c := Chunk(data, Compose(no, order, first, true));
      assert Flatten([c]) == data + Flatten([]);
    } else {
      ChunksRestoreData(data[mss..], mss, no, order, false);
      assert data == data[..mss] + data[mss..];
    }
  }

  lemma {:induction false} ChunksCounted(data: Payload, mss: nat, no: MsgNo, order: bool, first: bool)
    requires 0 < mss
    ensures |Chunks(data, mss, no, order, first)| == PacketCount(|data|, mss)
    decreases |data|
  {
    hide Compose;
    if |data| > mss {
      PacketCountStep(|data|, mss);
      ChunksCounted(data[mss..], mss, no, order, false);
    }
  }

  /** Exactly the first chunk of a message is marked first, exactly the last one last, and all
      carry the order flag and the number of the message. */
  lemma {:induction false} ChunksFramed(data: Payload, mss: nat, no: MsgNo, order: bool, first: bool, k: nat)
    requires 0 < mss && k < |Chunks(data, mss, no, order, first)|
    ensures
      var cs := Chunks(data, mss, no, order, first);
      && (IsFirst(cs[k].msg) <==> first && k == 0)
      && (IsLast(cs[k].msg) <==> k == |cs| - 1)
      && (OrderFlag(cs[k].msg) <==> order)
      && MsgSeq(cs[k].msg) == no
    decreases |data|
  {
    ComposeRoundTrip(no, order, first, true);
    ComposeRoundTrip(no, order, first, false);
    hide Compose, IsFirst, IsLast, OrderFlag, MsgSeq;
    if |data| > mss && k > 0 {
      ChunksFramed(data[mss..], mss, no, order, false, k - 1);
    }
  }

  /** One turn of the copy loop: the slice at offset `from` is the next chunk. */
  lemma NextChunk(data: Payload, mss: nat, no: MsgNo, order: bool, from: nat)
    requires 0 < mss && from < |data|
    ensures
      var end := if |data| - from > mss then from + mss else |data|;
      Chunks(data[from..], mss, no, order, from == 0)
        == [Chunk(data[from..end], Compose(no, order, from == 0, end == |data|))]
            + Chunks(data[end..], mss, no, order, false)
  {
    hide Compose;
    var end := if |data| - from > mss then from + mss else |data|;
    var rest := data[from..];
    if |rest| > mss {
      assert rest[..mss] == data[from..end] && rest[mss..] == data[end..];
    } else {
      assert rest == data[from..end] && data[end..] == [];
    }
  }

  /** `size` in addBuffer: the quotient, plus one when there is a remainder. */
  function PacketCount(len: nat, mss: nat): nat
    requires 0 < mss
  {
    len / mss + (if len % mss != 0 then 1 else 0)
  }

  lemma PacketCountStep(len: nat, mss: nat)
    requires 0 < mss < len
    ensures PacketCount(len, mss) == 1 + PacketCount(len - mss, mss)
  {
    assert len == (len - mss) + mss;
    ModPlus(len - mss, mss);
  }

  lemma {:induction false} FlattenConcat(a: seq<Chunk>, b: seq<Chunk>)
    ensures Flatten(a + b) == Flatten(a) + Flatten(b)
  {
    if a == [] {
      assert a + b == b;
    } else {
      var rest := a[1..];
      calc {
        Flatten(a + b);
        { assert (a + b)[1..] == rest + b; }
        a[0].bytes + Flatten(rest + b);
        { FlattenConcat(rest, b); }
        a[0].bytes + (Flatten(rest) + Flatten(b));
        (a[0].bytes + Flatten(rest)) + Flatten(b);
        Flatten(a) + Flatten(b);
      }
    }
  }

  lemma FlattenSnoc(a: seq<Chunk>, c: Chunk)
    ensures Flatten(a + [c]) == Flatten(a) + c.bytes
  {
    FlattenConcat(a, [c]);
    assert Flatten([c]) == c.bytes + Flatten([]);
  }

  lemma FlattenPrefix(a: seq<Chunk>, k: nat)
    requires k <= |a|
    ensures Flatten(a[..k]) <= Flatten(a)
  {
    assert a == a[..k] + a[k..];
    FlattenConcat(a[..k], a[k..]);
  }

  lemma FlattenTakeNext(a: seq<Chunk>, k: nat)
    requires k < |a|
    ensures Flatten(a[..k + 1]) == Flatten(a[..k]) + a[k].bytes
  {
    assert a[..k] + [a[k]] == a[..k + 1];
    FlattenSnoc(a[..k], a[k]);
  }

  // ----- Messages in a row of chunks -----

  predicate First(c: Chunk) {
    IsFirst(c.msg)
  }

  predicate Last(c: Chunk) {
    IsLast(c.msg)
  }

  predicate InOrder(c: Chunk) {
    OrderFlag(c.msg)
  }

  /** Messages follow each other without a gap, and a message keeps its order flag throughout. */
  ghost predicate Framed(chunks: seq<Chunk>) {
    && (chunks != [] ==> First(chunks[0]) && Last(chunks[|chunks| - 1]))
    && (forall k :: 0 < k < |chunks| ==> (First(chunks[k]) <==> Last(chunks[k - 1])))
    && (forall k :: 0 < k < |chunks| && !Last(chunks[k - 1]) ==> (InOrder(chunks[k]) <==> InOrder(chunks[k - 1])))
  }

  /** Chunks `lo..hi` are one whole message. */
  ghost predicate IsMessage(chunks: seq<Chunk>, lo: int, hi: int) {
    && 0 <= lo <= hi < |chunks|
    && First(chunks[lo]) && Last(chunks[hi])
    && (forall k :: lo <= k < hi ==> !Last(chunks[k]))
  }

  lemma ChunksAreFramed(data: Payload, mss: nat, no: MsgNo, order: bool)
    requires 0 < mss
    ensures Framed(Chunks(data, mss, no, order, true))
  {
    var cs := Chunks(data, mss, no, order, true);
    hide IsFirst, IsLast, OrderFlag, MsgSeq, Compose, Chunks;
    forall k | 0 <= k < |cs|
      ensures (First(cs[k]) <==> k == 0) && (Last(cs[k]) <==> k == |cs| - 1) && (InOrder(cs[k]) <==> order)
    {
      ChunksFramed(data, mss, no, order, true, k);
    }
  }

  lemma FramedConcat(a: seq<Chunk>, b: seq<Chunk>)
    requires Framed(a) && Framed(b)
    ensures Framed(a + b)
  {
    hide IsFirst, IsLast, OrderFlag;
    var c := a + b;
    forall k | 0 < k < |c|
      ensures First(c[k]) <==> Last(c[k - 1])
      ensures !Last(c[k - 1]) ==> (InOrder(c[k]) <==> InOrder(c[k - 1]))
    {
      if k > |a| {
        assert c[k] == b[k - |a|] && c[k - 1] == b[k - 1 - |a|];
      }
    }
  }
}
