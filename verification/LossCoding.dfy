/** The coding of loss reports: a stretch of lost numbers is its first number with the top bit
    set followed by its last one, a single lost number stands for itself. */
module LossCoding {
  import opened SeqNo
  import opened IntSets

  /** The numbers `lo..hi` are lost. */
  datatype Loss = Loss(lo: int, hi: int)

  const TOP_BIT: int32 := -0x8000_0000

  /** Set the top bit: `| 0x80000000` on a number that does not have it. */
  function Mark(w: int32): (m: int32)
    requires 0 <= w
    ensures m < 0
  {
    w + TOP_BIT
  }

  /** Clear the top bit: `& 0x7FFFFFFF`. */
  function Unmark(m: int32): (w: int32)
    requires m < 0
    ensures 0 <= w && Mark(w) == m
  {
    m - TOP_BIT
  }

  lemma MarkRoundTrip(w: int32)
    requires 0 <= w
    ensures Unmark(Mark(w)) == w
  {
  }

  function EncodeOne(l: Loss): seq<int32> {
    if l.lo == l.hi then [Wire(l.lo)] else [Mark(Wire(l.lo)), Wire(l.hi)]
  }

  /** One or two words; only the first of two is negative, and adding the top bit back gives the
      first number. */
  lemma ReportFormat(l: Loss)
    ensures
      var words := EncodeOne(l);
      if l.lo == l.hi then |words| == 1 && words[0] as int == l.lo % MODULUS
      else
        && |words| == 2 && words[0] < 0 <= words[1]
        && words[0] as int + 0x8000_0000 == l.lo % MODULUS && words[1] as int == l.hi % MODULUS
  {
  }

  function Encode(ls: seq<Loss>): seq<int32> {
    if ls == [] then [] else EncodeOne(ls[0]) + Encode(ls[1..])
  }

  lemma {:induction false} EncodeSnoc(ls: seq<Loss>, l: Loss)
    ensures Encode(ls + [l]) == Encode(ls) + EncodeOne(l)
  {
    hide EncodeOne;
    if ls == [] {
      assert [l][1..] == [];
    } else {
      EncodeSnoc(ls[1..], l);
      assert (ls + [l])[1..] == ls[1..] + [l];
    }
  }

  lemma EncodeTakeNext(ls: seq<Loss>, k: nat)
    requires k < |ls|
    ensures Encode(ls[..k + 1]) == Encode(ls[..k]) + EncodeOne(ls[k])
  {
    hide Encode, EncodeOne;
    assert ls[..k + 1] == ls[..k] + [ls[k]];
    EncodeSnoc(ls[..k], ls[k]);
  }

  lemma EncodeTail(ls: seq<Loss>, k: nat)
    requires k < |ls|
    ensures Encode(ls[k..]) == EncodeOne(ls[k]) + Encode(ls[k + 1..])
  {
    hide EncodeOne;
    assert ls[k..][1..] == ls[k + 1..];
  }

  /** The numbers reported. */
  function Reported(ls: seq<Loss>): set<int> {
    if ls == [] then {} else Range(ls[0].lo, ls[0].hi) + Reported(ls[1..])
  }
}
