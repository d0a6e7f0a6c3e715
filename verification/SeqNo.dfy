/** 31-bit wrapping sequence numbers: the static members of CSeqNo and CAckNo.

    All arithmetic is done in `int32`, so the verifier also shows that no intermediate
    result of the C++ expressions leaves the signed 32-bit range. */
module SeqNo {

  newtype int32 = x: int | -0x8000_0000 <= x < 0x8000_0000

  const SEQ_NO_TH: int32 := 0x3FFF_FFFF
  const MAX_SEQ_NO: int32 := 0x7FFF_FFFF

  /** Number of sequence numbers: `MAX_SEQ_NO + 1`. */
  const MODULUS: int := 0x8000_0000

  /** Half-open bound on the distance within which comparisons are meaningful. */
  const TH: int := SEQ_NO_TH as int

  function Abs(x: int32): (r: int32)
    requires -0x8000_0000 < x as int
    ensures 0 <= r
  {
    if x < 0 then -x else x
  }

  /** Sign-valued comparison of two sequence numbers; one of them may be -1, where a connection
      with initial number 0 starts. */
  function SeqCmp(seq1: int32, seq2: int32): int32
    requires -0x8000_0000 < seq1 as int - seq2 as int < 0x8000_0000
  {
    if Abs(seq1 - seq2) < SEQ_NO_TH then seq1 - seq2 else seq2 - seq1
  }

  /** `seq1` is a number ahead of `seq2`. */
  predicate Later(seq1: int32, seq2: int32) {
    0 <= seq1 && 0 <= seq2 && SeqCmp(seq1, seq2) > 0
  }

  /** Length of the stretch from `seq1` to `seq2`, both included. */
  function SeqLen(seq1: int32, seq2: int32): int32
    requires 0 <= seq1 && 0 <= seq2
    requires seq1 as int != seq2 as int + 1  // the full circle has length 2^31, which int32 cannot hold
    requires seq2 as int - seq1 as int != 0x7FFF_FFFF
  {
    if seq1 <= seq2 then seq2 - seq1 + 1 else seq2 - seq1 + MAX_SEQ_NO + 2
  }

  /** The stretch from `seq1` to `seq2` has at most `n` numbers. */
  predicate AtMostLong(seq1: int32, seq2: int32, n: int) {
    && 0 <= seq1 && 0 <= seq2 && seq1 as int != seq2 as int + 1 && seq2 as int - seq1 as int != 0x7FFF_FFFF
    && SeqLen(seq1, seq2) as int <= n
  }

  /** Offset from `seq1` to `seq2`. */
  function SeqOff(seq1: int32, seq2: int32): int32
    requires 0 <= seq1 && 0 <= seq2
  {
    if Abs(seq1 - seq2) < SEQ_NO_TH then seq2 - seq1
    else if seq1 < seq2 then seq2 - seq1 - MAX_SEQ_NO - 1
    else seq2 - seq1 + MAX_SEQ_NO + 1
  }

  function IncSeq(s: int32): int32
    requires -1 <= s
  {
    if s == MAX_SEQ_NO then 0 else s + 1
  }

  function DecSeq(s: int32): int32
    requires 0 <= s
  {
    if s == 0 then MAX_SEQ_NO else s - 1
  }

  function IncSeqBy(s: int32, inc: int32): int32
    requires 0 <= s && 0 <= inc
  {
    if MAX_SEQ_NO - s >= inc then s + inc else s - MAX_SEQ_NO + inc - 1
  }

  /** CAckNo::incack, on the same 31-bit range. */
  function IncAck(ackno: int32): int32
    requires 0 <= ackno
  {
    if ackno == MAX_SEQ_NO then 0 else ackno + 1
  }

  // ----- Ghost indices: the wire value of an unbounded packet index -----

  function Wire(i: int): (w: int32)
    ensures 0 <= w
  {
    (i % MODULUS) as int32
  }

  /** Two indices closer than the threshold. */
  predicate Near(a: int, b: int) {
    -TH < a - b < TH
  }

  lemma WireDiff(a: int, b: int)
    requires Near(a, b)
    ensures
      var d := Wire(b) as int - Wire(a) as int;
      d == b - a || d == b - a + MODULUS || d == b - a - MODULUS
  {
    var q := a / MODULUS - b / MODULUS;
    assert Wire(b) as int - Wire(a) as int == b - a + MODULUS * q;
  }

  /** On a window shorter than the threshold the comparison orders indices. */
  lemma CmpAgrees(a: int, b: int)
    requires Near(a, b)
    ensures SeqCmp(Wire(a), Wire(b)) < 0 <==> a < b
    ensures SeqCmp(Wire(a), Wire(b)) > 0 <==> a > b
    ensures SeqCmp(Wire(a), Wire(b)) == 0 <==> a == b
    ensures Wire(a) == Wire(b) <==> a == b
  {
    WireDiff(a, b);
  }

  lemma OffAgrees(a: int, b: int)
    requires Near(a, b)
    ensures SeqOff(Wire(a), Wire(b)) as int == b - a
  {
    WireDiff(a, b);
  }

  lemma LenAgrees(a: int, b: int)
    requires a <= b < a + TH
    ensures Wire(a) as int != Wire(b) as int + 1
    ensures Wire(b) as int - Wire(a) as int != 0x7FFF_FFFF
    ensures SeqLen(Wire(a), Wire(b)) as int == b - a + 1
  {
    WireDiff(a, b);
  }

  lemma IncAgrees(a: int)
    ensures IncSeq(Wire(a)) == Wire(a + 1)
    ensures IncAck(Wire(a)) == Wire(a + 1)
  {
  }

  lemma DecAgrees(a: int)
    ensures DecSeq(Wire(a)) == Wire(a - 1)
  {
  }

  lemma IncByAgrees(a: int, n: int32)
    requires 0 <= n
    ensures IncSeqBy(Wire(a), n) == Wire(a + n as int)
  {
    assert (a + n as int) % MODULUS == (a % MODULUS + n as int) % MODULUS;
  }

  /** The code starts with the initial number minus one, which is -1 for the initial number 0. */
  function CurrWire(isn: int, curr: int): int32 {
    if curr == isn - 1 then Wire(isn) - 1 else Wire(curr)
  }

  lemma StartWire(isn: int)
    ensures CurrWire(isn, isn - 1) == Wire(isn) - 1
  {
    hide Wire;
  }

  lemma CurrAgrees(isn: int, curr: int)
    requires isn - 1 <= curr
    ensures -1 <= CurrWire(isn, curr) && IncSeq(CurrWire(isn, curr)) == Wire(curr + 1)
    ensures isn <= curr ==> CurrWire(isn, curr) == Wire(curr)
  {
    hide Wire;
    if curr == isn - 1 {
      assert Wire(isn) <= MAX_SEQ_NO;
    } else {
      IncAgrees(curr);
    }
  }

  /** Comparing with the largest number so far also works when there is none yet. */
  lemma CmpCurr(isn: int, curr: int, i: int)
    requires isn <= i && isn - 1 <= curr && Near(i, curr)
    ensures -0x8000_0000 < Wire(i) as int - CurrWire(isn, curr) as int < 0x8000_0000
    ensures SeqCmp(Wire(i), CurrWire(isn, curr)) > 0 <==> i > curr
  {
    if curr == isn - 1 {
      WireDiff(isn, i);
      if Wire(isn) > 0 {
        DecAgrees(isn);
        CmpAgrees(i, curr);
      }
    } else {
      CmpAgrees(i, curr);
    }
  }

  /** Indices less than one turn apart have different numbers. */
  lemma WireInjective(a: int, b: int)
    requires -MODULUS < a - b < MODULUS && Wire(a) == Wire(b)
    ensures a == b
  {
  }

  /** The code's test that `a` lies ahead of `b`, made on the wire numbers of the two. */
  predicate Newer(a: int, b: int) {
    SeqCmp(Wire(a), Wire(b)) > 0
  }

  lemma NewerNear(a: int, b: int)
    requires Near(a, b)
    ensures Newer(a, b) <==> a > b
  {
    CmpAgrees(a, b);
  }

  /** Which larger indices the test takes for newer: all below the threshold, and of those at most
      two further on the ones whose number has wrapped around. */
  lemma NewerIff(a: int, d: int)
    requires 0 < d < MODULUS
    ensures Newer(a + d, a) <==> d < TH || (d <= MODULUS - TH && Wire(a + d) < Wire(a))
  {
    var q := (a + d) / MODULUS - a / MODULUS;
    assert Wire(a + d) as int - Wire(a) as int == d - MODULUS * q;
    assert q == 0 || q == 1;
  }

  /** The index `d` behind `a` is taken for newer. */
  predicate Ahead(a: int, d: int) {
    Newer(a + d, a)
  }

  /** The test is right at every place of the number circle exactly below the threshold. */
  lemma NewerEverywhereIff(d: int)
    requires 0 < d < MODULUS
    ensures (forall a: int :: Ahead(a, d)) <==> d < TH
  {
    if d < TH {
      forall a: int
        ensures Ahead(a, d)
      {
        NewerIff(a, d);
      }
    } else {
      NewerIff(0, d);
      assert !Ahead(0, d);
    }
  }

  /** On every window of `len` indices the test orders them. */
  ghost predicate OrdersWindows(len: nat) {
    forall x: int, y: int {:trigger Newer(y, x)} :: x <= y < x + len ==> (Newer(y, x) <==> x < y)
  }

  /** Windows are ordered up to the threshold and no further. */
  lemma OrdersWindowsIff(len: nat)
    ensures OrdersWindows(len) <==> len <= TH
  {
    if len <= TH {
      forall x: int, y: int | x <= y < x + len
        ensures Newer(y, x) <==> x < y
      {
        NewerNear(y, x);
      }
    } else {
      NewerIff(0, TH);
      assert !Newer(TH, 0);
    }
  }

  /** `SeqCmp` is a strict total order on every window shorter than the threshold. */
  lemma StrictTotalOrderOnWindow(base: int, x: int, y: int, z: int)
    requires base <= x < base + TH && base <= y < base + TH && base <= z < base + TH
    ensures SeqCmp(Wire(x), Wire(x)) == 0
    ensures SeqCmp(Wire(x), Wire(y)) < 0 <==> SeqCmp(Wire(y), Wire(x)) > 0
    ensures Wire(x) != Wire(y) ==> SeqCmp(Wire(x), Wire(y)) < 0 || SeqCmp(Wire(y), Wire(x)) < 0
    ensures SeqCmp(Wire(x), Wire(y)) < 0 && SeqCmp(Wire(y), Wire(z)) < 0 ==> SeqCmp(Wire(x), Wire(z)) < 0
  {
    CmpAgrees(x, x);
    CmpAgrees(x, y);
    CmpAgrees(y, x);
    CmpAgrees(y, z);
    CmpAgrees(x, z);
  }

  /** Beyond the threshold the order breaks: three numbers, each before the next, form a cycle. */
  lemma OrderCyclesBeyondThreshold()
    ensures exists x: int32, y: int32, z: int32 ::
              0 <= x && 0 <= y && 0 <= z && SeqCmp(x, y) < 0 && SeqCmp(y, z) < 0 && SeqCmp(z, x) < 0
  {
    var x: int32, y: int32, z: int32 := 0, 0x2AAA_AAAA, 0x5555_5555;
    assert SeqCmp(x, y) < 0 && SeqCmp(y, z) < 0 && SeqCmp(z, x) < 0;
  }
}
