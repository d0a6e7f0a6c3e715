/** Streaming MD5: md5_init, md5_append, md5_process and md5_finish, proved to compute the digest
    of RFC 1321 of everything appended, in whatever pieces. */
module Md5 {
  import opened Arith
  import opened Stream
  import opened Md5Spec

  /** All bits flipped: T_MASK ^ x. */
  function Flip(x: Word): Word {
    0xFFFF_FFFF - x
  }

  const T1: Word := Flip(0x2895_5B87)
  const T2: Word := Flip(0x1738_48A9)
  const T3: Word := 0x2420_70DB
  const T4: Word := Flip(0x3E42_3111)
  const T5: Word := Flip(0x0A83_F050)
  const T6: Word := 0x4787_C62A
  const T7: Word := Flip(0x57CF_B9EC)
  const T8: Word := Flip(0x02B9_6AFE)
  const T9: Word := 0x6980_98D8
  const T10: Word := Flip(0x74BB_0850)
  const T11: Word := Flip(0x0000_A44E)
  const T12: Word := Flip(0x76A3_2841)
  const T13: Word := 0x6B90_1122
  const T14: Word := Flip(0x0267_8E6C)
  const T15: Word := Flip(0x5986_BC71)
  const T16: Word := 0x49B4_0821
  const T17: Word := Flip(0x09E1_DA9D)
  const T18: Word := Flip(0x3FBF_4CBF)
  const T19: Word := 0x265E_5A51
  const T20: Word := Flip(0x1649_3855)
  const T21: Word := Flip(0x29D0_EFA2)
  const T22: Word := 0x0244_1453
  const T23: Word := Flip(0x275E_197E)
  const T24: Word := Flip(0x182C_0437)
  const T25: Word := 0x21E1_CDE6
  const T26: Word := Flip(0x3CC8_F829)
  const T27: Word := Flip(0x0B2A_F278)
  const T28: Word := 0x455A_14ED
  const T29: Word := Flip(0x561C_16FA)
  const T30: Word := Flip(0x0310_5C07)
  const T31: Word := 0x676F_02D9
  const T32: Word := Flip(0x72D5_B375)
  const T33: Word := Flip(0x0005_C6BD)
  const T34: Word := Flip(0x788E_097E)
  const T35: Word := 0x6D9D_6122
  const T36: Word := Flip(0x021A_C7F3)
  const T37: Word := Flip(0x5B41_15BB)
  const T38: Word := 0x4BDE_CFA9
  const T39: Word := Flip(0x0944_B49F)
  const T40: Word := Flip(0x4140_438F)
  const T41: Word := 0x289B_7EC6
  const T42: Word := Flip(0x155E_D805)
  const T43: Word := Flip(0x2B10_CF7A)
  const T44: Word := 0x0488_1D05
  const T45: Word := Flip(0x262B_2FC6)
  const T46: Word := Flip(0x1924_661A)
  const T47: Word := 0x1FA2_7CF8
  const T48: Word := Flip(0x3B53_A99A)
  const T49: Word := Flip(0x0BD6_DDBB)
  const T50: Word := 0x432A_FF97
  const T51: Word := Flip(0x546B_DC58)
  const T52: Word := Flip(0x036C_5FC6)
  const T53: Word := 0x655B_59C3
  const T54: Word := Flip(0x70F3_336D)
  const T55: Word := Flip(0x0010_0B82)
  const T56: Word := Flip(0x7A7B_A22E)
  const T57: Word := 0x6FA8_7E4F
  const T58: Word := Flip(0x01D3_191F)
  const T59: Word := Flip(0x5CFE_BCEB)
  const T60: Word := 0x4E08_11A1
  const T61: Word := Flip(0x08AC_817D)
  const T62: Word := Flip(0x42C5_0DCA)
  const T63: Word := 0x2AD7_D2BB
  const T64: Word := Flip(0x1479_2C6E)

  // ----- The four rounds -----

  /** Round 1: SET with F. */
  method Round1(a0: Word, b0: Word, c0: Word, d0: Word, X: array<Word>) returns (a: Word, b: Word, c: Word, d: Word)
    requires X.Length == 16
    ensures Ops(0, Regs(a0, b0, c0, d0), X[..]) == Ops(16, Regs(a, b, c, d), X[..])
  {
    hide Ops, Turn, F, G, H, I;
    a, b, c, d := a0, b0, c0, d0;
    OpStep(0, Regs(a, b, c, d), X[..]);
    a := Turn(a, b, F(b, c, d), X[0], 7, T1);
    OpStep(1, Regs(d, a, b, c), X[..]);
    d := Turn(d, a, F(a, b, c), X[1], 12, T2);
    OpStep(2, Regs(c, d, a, b), X[..]);
    c := Turn(c, d, F(d, a, b), X[2], 17, T3);
    OpStep(3, Regs(b, c, d, a), X[..]);
    b := Turn(b, c, F(c, d, a), X[3], 22, T4);
    OpStep(4, Regs(a, b, c, d), X[..]);
    a := Turn(a, b, F(b, c, d), X[4], 7, T5);
    OpStep(5, Regs(d, a, b, c), X[..]);
    d := Turn(d, a, F(a, b, c), X[5], 12, T6);
    OpStep(6, Regs(c, d, a, b), X[..]);
    c := Turn(c, d, F(d, a, b), X[6], 17, T7);
    OpStep(7, Regs(b, c, d, a), X[..]);
    b := Turn(b, c, F(c, d, a), X[7], 22, T8);
    OpStep(8, Regs(a, b, c, d), X[..]);
    a := Turn(a, b, F(b, c, d), X[8], 7, T9);
    OpStep(9, Regs(d, a, b, c), X[..]);
    d := Turn(d, a, F(a, b, c), X[9], 12, T10);
    OpStep(10, Regs(c, d, a, b), X[..]);
    c := Turn(c, d, F(d, a, b), X[10], 17, T11);
    OpStep(11, Regs(b, c, d, a), X[..]);
    b := Turn(b, c, F(c, d, a), X[11], 22, T12);
    OpStep(12, Regs(a, b, c, d), X[..]);
    a := Turn(a, b, F(b, c, d), X[12], 7, T13);
    OpStep(13, Regs(d, a, b, c), X[..]);
    d := Turn(d, a, F(a, b, c), X[13], 12, T14);
    OpStep(14, Regs(c, d, a, b), X[..]);
    c := Turn(c, d, F(d, a, b), X[14], 17, T15);
    OpStep(15, Regs(b, c, d, a), X[..]);
    b := Turn(b, c, F(c, d, a), X[15], 22, T16);
  }

  /** Round 2: SET with G. */
  method Round2(a0: Word, b0: Word, c0: Word, d0: Word, X: array<Word>) returns (a: Word, b: Word, c: Word, d: Word)
    requires X.Length == 16
    ensures Ops(16, Regs(a0, b0, c0, d0), X[..]) == Ops(32, Regs(a, b, c, d), X[..])
  {
    hide Ops, Turn, F, G, H, I;
    a, b, c, d := a0, b0, c0, d0;
    OpStep(16, Regs(a, b, c, d), X[..]);
    a := Turn(a, b, G(b, c, d), X[1], 5, T17);
    OpStep(17, Regs(d, a, b, c), X[..]);
    d := Turn(d, a, G(a, b, c), X[6], 9, T18);
    OpStep(18, Regs(c, d, a, b), X[..]);
    c := Turn(c, d, G(d, a, b), X[11], 14, T19);
    OpStep(19, Regs(b, c, d, a), X[..]);
    b := Turn(b, c, G(c, d, a), X[0], 20, T20);
    OpStep(20, Regs(a, b, c, d), X[..]);
    a := Turn(a, b, G(b, c, d), X[5], 5, T21);
    OpStep(21, Regs(d, a, b, c), X[..]);
    d := Turn(d, a, G(a, b, c), X[10], 9, T22);
    OpStep(22, Regs(c, d, a, b), X[..]);
    c := Turn(c, d, G(d, a, b), X[15], 14, T23);
    OpStep(23, Regs(b, c, d, a), X[..]);
    b := Turn(b, c, G(c, d, a), X[4], 20, T24);
    OpStep(24, Regs(a, b, c, d), X[..]);
    a := Turn(a, b, G(b, c, d), X[9], 5, T25);
    OpStep(25, Regs(d, a, b, c), X[..]);
    d := Turn(d, a, G(a, b, c), X[14], 9, T26);
    OpStep(26, Regs(c, d, a, b), X[..]);
    c := Turn(c, d, G(d, a, b), X[3], 14, T27);
    OpStep(27, Regs(b, c, d, a), X[..]);
    b := Turn(b, c, G(c, d, a), X[8], 20, T28);
    OpStep(28, Regs(a, b, c, d), X[..]);
    a := Turn(a, b, G(b, c, d), X[13], 5, T29);
    OpStep(29, Regs(d, a, b, c), X[..]);
    d := Turn(d, a, G(a, b, c), X[2], 9, T30);
    OpStep(30, Regs(c, d, a, b), X[..]);
    c := Turn(c, d, G(d, a, b), X[7], 14, T31);
    OpStep(31, Regs(b, c, d, a), X[..]);
    b := Turn(b, c, G(c, d, a), X[12], 20, T32);
  }

  /** Round 3: SET with H. */
  method Round3(a0: Word, b0: Word, c0: Word, d0: Word, X: array<Word>) returns (a: Word, b: Word, c: Word, d: Word)
    requires X.Length == 16
    ensures Ops(32, Regs(a0, b0, c0, d0), X[..]) == Ops(48, Regs(a, b, c, d), X[..])
  {
    hide Ops, Turn, F, G, H, I;
    a, b, c, d := a0, b0, c0, d0;
    OpStep(32, Regs(a, b, c, d), X[..]);
    a := Turn(a, b, H(b, c, d), X[5], 4, T33);
    OpStep(33, Regs(d, a, b, c), X[..]);
    d := Turn(d, a, H(a, b, c), X[8], 11, T34);
    OpStep(34, Regs(c, d, a, b), X[..]);
    c := Turn(c, d, H(d, a, b), X[11], 16, T35);
    OpStep(35, Regs(b, c, d, a), X[..]);
    b := Turn(b, c, H(c, d, a), X[14], 23, T36);
    OpStep(36, Regs(a, b, c, d), X[..]);
    a := Turn(a, b, H(b, c, d), X[1], 4, T37);
    OpStep(37, Regs(d, a, b, c), X[..]);
    d := Turn(d, a, H(a, b, c), X[4], 11, T38);
    OpStep(38, Regs(c, d, a, b), X[..]);
    c := Turn(c, d, H(d, a, b), X[7], 16, T39);
    OpStep(39, Regs(b, c, d, a), X[..]);
    b := Turn(b, c, H(c, d, a), X[10], 23, T40);
    OpStep(40, Regs(a, b, c, d), X[..]);
    a := Turn(a, b, H(b, c, d), X[13], 4, T41);
    OpStep(41, Regs(d, a, b, c), X[..]);
    d := Turn(d, a, H(a, b, c), X[0], 11, T42);
    OpStep(42, Regs(c, d, a, b), X[..]);
    c := Turn(c, d, H(d, a, b), X[3], 16, T43);
    OpStep(43, Regs(b, c, d, a), X[..]);
    b := Turn(b, c, H(c, d, a), X[6], 23, T44);
    OpStep(44, Regs(a, b, c, d), X[..]);
    a := Turn(a, b, H(b, c, d), X[9], 4, T45);
    OpStep(45, Regs(d, a, b, c), X[..]);
    d := Turn(d, a, H(a, b, c), X[12], 11, T46);
    OpStep(46, Regs(c, d, a, b), X[..]);
    c := Turn(c, d, H(d, a, b), X[15], 16, T47);
    OpStep(47, Regs(b, c, d, a), X[..]);
    b := Turn(b, c, H(c, d, a), X[2], 23, T48);
  }

  /** Round 4: SET with I. */
  method Round4(a0: Word, b0: Word, c0: Word, d0: Word, X: array<Word>) returns (a: Word, b: Word, c: Word, d: Word)
    requires X.Length == 16
    ensures Ops(48, Regs(a0, b0, c0, d0), X[..]) == Ops(64, Regs(a, b, c, d), X[..])
  {
    hide Ops, Turn, F, G, H, I;
    a, b, c, d := a0, b0, c0, d0;
    OpStep(48, Regs(a, b, c, d), X[..]);
    a := Turn(a, b, I(b, c, d), X[0], 6, T49);
    OpStep(49, Regs(d, a, b, c), X[..]);
    d := Turn(d, a, I(a, b, c), X[7], 10, T50);
    OpStep(50, Regs(c, d, a, b), X[..]);
    c := Turn(c, d, I(d, a, b), X[14], 15, T51);
    OpStep(51, Regs(b, c, d, a), X[..]);
    b := Turn(b, c, I(c, d, a), X[5], 21, T52);
    OpStep(52, Regs(a, b, c, d), X[..]);
    a := Turn(a, b, I(b, c, d), X[12], 6, T53);
    OpStep(53, Regs(d, a, b, c), X[..]);
    d := Turn(d, a, I(a, b, c), X[3], 10, T54);
    OpStep(54, Regs(c, d, a, b), X[..]);
    c := Turn(c, d, I(d, a, b), X[10], 15, T55);
    OpStep(55, Regs(b, c, d, a), X[..]);
    b := Turn(b, c, I(c, d, a), X[1], 21, T56);
    OpStep(56, Regs(a, b, c, d), X[..]);
    a := Turn(a, b, I(b, c, d), X[8], 6, T57);
    OpStep(57, Regs(d, a, b, c), X[..]);
    d := Turn(d, a, I(a, b, c), X[15], 10, T58);
    OpStep(58, Regs(c, d, a, b), X[..]);
    c := Turn(c, d, I(d, a, b), X[6], 15, T59);
    OpStep(59, Regs(b, c, d, a), X[..]);
    b := Turn(b, c, I(c, d, a), X[13], 21, T60);
    OpStep(60, Regs(a, b, c, d), X[..]);
    a := Turn(a, b, I(b, c, d), X[4], 6, T61);
    OpStep(61, Regs(d, a, b, c), X[..]);
    d := Turn(d, a, I(a, b, c), X[11], 10, T62);
    OpStep(62, Regs(c, d, a, b), X[..]);
    c := Turn(c, d, I(d, a, b), X[2], 15, T63);
    OpStep(63, Regs(b, c, d, a), X[..]);
    b := Turn(b, c, I(c, d, a), X[9], 21, T64);
  }

  /** One operation. */
  lemma OpStep(i: nat, r: Regs, x: seq<Word>)
    requires i < 64 && |x| == 16
    ensures Ops(i, r, x) == Ops(i + 1, Op(i, r, x), x)
  {
    hide Op;
  }

  // ----- Messages in pieces -----

  /** How much of a message of `n` bytes lies in whole blocks. */
  function Whole(n: nat): (w: nat)
    ensures w <= n < w + 64
  {
    n - n % 64
  }

  /** One block more. */
  lemma {:induction false} FoldNext(r: Regs, message: Payload, k: nat)
    requires k % 64 == 0 && k + 64 <= |message|
    ensures Fold(r, message[..k + 64]) == Compress(Fold(r, message[..k]), message[k..k + 64])
    decreases k
  {
    hide Compress;
    var m := message[..k + 64];
    if k == 0 {
      assert m[64..] == [] && m[..64] == message[k..k + 64] && message[..k] == [];
    } else {
      FoldNext(Compress(r, message[..64]), message[64..], k - 64);
      assert m[..64] == message[..64] && message[..k][..64] == message[..64];
      assert m[64..] == message[64..][..k - 64 + 64] && message[..k][64..] == message[64..][..k - 64];
      assert message[k..k + 64] == message[64..][k - 64..k - 64 + 64];
    }
  }

  /** The bit count of a message as two words, low-order word first. */
  ghost predicate Counts(c0: Word, c1: Word, n: nat) {
    c0 == (8 * n) % WORDS && c1 == ((8 * n) / WORDS) % WORDS
  }

  lemma BitsOf(n: nat)
    ensures 8 * n == WORDS * (n / 0x2000_0000) + (8 * n) % WORDS
  {
    DivModUnique(8 * n, WORDS, n / 0x2000_0000, 8 * (n % 0x2000_0000));
  }

  /** Adding with carry. */
  lemma CountMore(c0: Word, c1: Word, n: nat, more: nat)
    requires Counts(c0, c1, n)
    ensures
      var nbits := (8 * more) % WORDS;
      var d0 := (c0 + nbits) % WORDS;
      var d1 := (c1 + more / 0x2000_0000) % WORDS;
      Counts(d0, if d0 < nbits then (d1 + 1) % WORDS else d1, n + more)
  {
    var q, q' := (8 * n) / WORDS, more / 0x2000_0000;
    var nbits := (8 * more) % WORDS;
    BitsOf(more);
    var carry := if c0 + nbits < WORDS then 0 else 1;
    assert 8 * (n + more) == WORDS * (q + q' + carry) + (c0 + nbits - WORDS * carry);
    DivModUnique(8 * (n + more), WORDS, q + q' + carry, c0 + nbits - WORDS * carry);
    DivModUnique(c0 + nbits, WORDS, carry, c0 + nbits - WORDS * carry);
    ModAdd(q, q', WORDS);
    ModAdd(q + q', carry, WORDS);
  }

  class Md5State {
    /** Message length in bits, low-order word first. */
    const count: array<Word>
    const abcd: array<Word>
    /** The bytes that do not fill a block yet. */
    const buf: array<byte>

    ghost predicate Sized() {
      count.Length == 2 && abcd.Length == 4 && buf.Length == 64 && count != abcd
    }

    ghost function Current(): Regs
      requires Sized()
      reads abcd
    {
      Regs(abcd[0], abcd[1], abcd[2], abcd[3])
    }

    /** The state after appending this message, in whatever pieces. */
    ghost predicate Represents(message: Payload)
      reads count, abcd, buf
    {
      var k := Whole(|message|);
      && Sized()
      && Counts(count[0], count[1], |message|)
      && Current() == Fold(START, message[..k])
      && buf[..|message| - k] == message[k..]
    }

    constructor ()
      ensures Represents([])
      ensures fresh(count) && fresh(abcd) && fresh(buf)
    {
      count := new Word[2](_ => 0);
      abcd := new Word[] [0x6745_2301, Flip(0x1032_5476), Flip(0x6745_2301), 0x1032_5476];
      buf := new byte[64](_ => 0);
    }

    /** md5_process: one block. */
    method Process(data: Payload)
      requires Sized() && |data| == 64
      modifies abcd
      ensures Current() == Compress(old(Current()), data)
    {
      hide Ops, Words, Load, Fold;
      var X := LoadWords(data);
      var a, b, c, d := abcd[0], abcd[1], abcd[2], abcd[3];
      a, b, c, d := Round1(a, b, c, d, X);
      a, b, c, d := Round2(a, b, c, d, X);
      a, b, c, d := Round3(a, b, c, d, X);
      a, b, c, d := Round4(a, b, c, d, X);
      OpsDone(Regs(a, b, c, d), X[..]);
      abcd[0] := Add(abcd[0], a);
      abcd[1] := Add(abcd[1], b);
      abcd[2] := Add(abcd[2], c);
      abcd[3] := Add(abcd[3], d);
    }

    /** Count `n` more bytes. */
    method AddCount(n: nat, ghost len: nat)
      requires Sized() && Counts(count[0], count[1], len)
      modifies count
      ensures Counts(count[0], count[1], len + n)
    {
      CountMore(count[0], count[1], len, n);
      hide Counts;
      var nbits := (8 * n) % WORDS;
      count[1] := (count[1] + n / 0x2000_0000) % WORDS;
      count[0] := (count[0] + nbits) % WORDS;
      if count[0] < nbits {
        count[1] := (count[1] + 1) % WORDS;
      }
    }

    /** memcpy into the buffer. */
    method CopyTo(at: nat, data: Payload)
      requires Sized() && at + |data| <= 64
      modifies buf
      ensures buf[..at + |data|] == old(buf[..at]) + data
    {
      ghost var was := buf[..at];
      for i := 0 to |data|
        invariant buf[..at + i] == was + data[..i]
      {
        buf[at + i] := data[i];
      }
    }

    /** md5_append: `message` has been appended so far.  A longer piece would overflow the sum of
        the buffer offset and its length. */
    method Append(data: Payload, ghost message: Payload)
      requires Represents(message) && |data| + 63 < 0x8000_0000
      modifies count, abcd, buf
      ensures Represents(message + data)
    {
      hide Fold, Compress, Counts;
      ghost var all := message + data;
      var nbytes := |data|;
      OffsetIs(count[0], count[1], |message|);
      var offset := (count[0] / 8) % 64;
      if nbytes <= 0 {
        assert all == message;
        return;
      }
      AddCount(nbytes, |message|);
      var from := 0;
      if offset != 0 {
        var full;
        from, full := FillBlock(data, offset, message);
        if !full {
          return;
        }
      } else {
        Aligned(message, data);
      }
      from := Blocks(data, from, message);
      Finished(message, data, from);
      if |data| - from > 0 {
        CopyTo(0, data[from..]);
      }
    }

    /** The initial partial block. */
    method FillBlock(data: Payload, offset: nat, ghost message: Payload) returns (copy: nat, full: bool)
      requires Sized() && offset == |message| % 64 != 0 && data != []
      requires Current() == Fold(START, message[..Whole(|message|)]) && buf[..offset] == message[Whole(|message|)..]
      modifies abcd, buf
      ensures copy <= |data| && (full <==> (|message| + copy) % 64 == 0)
      ensures full ==> Current() == Fold(START, (message + data)[..|message| + copy])
      ensures !full ==>
                var all, k := message + data, Whole(|message + data|);
                Current() == Fold(START, all[..k]) && buf[..|all| - k] == all[k..]
    {
      hide Fold, Compress;
      copy := if offset + |data| > 64 then 64 - offset else |data|;
      CopyTo(offset, data[..copy]);
      Joined(message, data, copy);
      if offset + copy < 64 {
        assert (message + data)[Whole(|message|)..] == (message + data)[Whole(|message|)..|message| + copy];
        return copy, false;
      }
      assert buf[..] == buf[..64];
      ProcessNext(buf[..], message + data, Whole(|message|));
      return copy, true;
    }

    /** Process the block of the message that begins at `k`. */
    method ProcessNext(block: Payload, ghost all: Payload, ghost k: nat)
      requires Sized() && k % 64 == 0 && k + 64 <= |all| && block == all[k..k + 64]
          && Current() == Fold(START, all[..k])
      modifies abcd
      ensures Current() == Fold(START, all[..k + 64])
    {
      hide Fold, Compress;
      FoldNext(START, all, k);
      Process(block);
    }

    /** Process the full blocks of the data. */
    method Blocks(data: Payload, start: nat, ghost message: Payload) returns (from: nat)
      requires Sized() && start <= |data| && (|message| + start) % 64 == 0
      requires Current() == Fold(START, (message + data)[..|message| + start])
      modifies abcd
      ensures start <= from <= |data| < from + 64 && (|message| + from) % 64 == 0
      ensures Current() == Fold(START, (message + data)[..|message| + from])
    {
      hide Fold, Compress;
      from := start;
      while |data| - from >= 64
        invariant start <= from <= |data| && (|message| + from) % 64 == 0
        invariant Current() == Fold(START, (message + data)[..|message| + from])
      {
        ghost var k := |message| + from;
        assert data[from..from + 64] == (message + data)[k..k + 64];
        ProcessNext(data[from..from + 64], message + data, k);
        from := from + 64;
      }
    }

    /** md5_finish: pad, append the length, and give out the digest of everything appended. */
    method Finish(ghost message: Payload) returns (digest: Payload)
      requires Represents(message)
      modifies count, abcd, buf
      ensures digest == Digest(message)
    {
      hide Fold, Compress, Counts, ByteOf, PadLength, Padded, Digest;
      var pad := [0x80] + Zeros(63);
      var data := LengthBytes();
      OffsetIs(count[0], count[1], |message|);
      PadFormula(count[0], |message|);
      PaddedIs(message, count[0], count[1]);
      var bytes: int := count[0] / 8;
      var n := (55 - bytes) % 64 + 1;
      Append(pad[..n], message);
      Append(data, message + pad[..n]);
      PaddedDone(message);
      digest := OutputBytes();
    }

    /** The registers, low-order byte first. */
    method OutputBytes() returns (digest: Payload)
      requires Sized()
      ensures digest == Output(Current())
    {
      hide ByteOf, Output;
      digest := [];
      for i := 0 to 16
        invariant digest == Output(Current())[..i]
      {
        OutputAt(Current(), i);
        digest := digest + [ByteOf(abcd[i / 4], i % 4)];
      }
    }

    /** The length before padding, low-order byte first. */
    method LengthBytes() returns (data: Payload)
      requires Sized()
      ensures data == BytesOf(count[0]) + BytesOf(count[1])
    {
      hide ByteOf;
      data := [];
      for i := 0 to 8
        invariant data == (BytesOf(count[0]) + BytesOf(count[1]))[..i]
      {
        data := data + [ByteOf(count[i / 4], i % 4)];
      }
    }
  }

  /** CMD5::compute. */
  method Compute(input: Payload) returns (result: Payload)
    requires |input| + 63 < 0x8000_0000
    ensures result == Digest(input)
  {
    hide Digest;
    var state := new Md5State();
    state.Append(input, []);
    assert [] + input == input;
    result := state.Finish(input);
  }

  function Output(r: Regs): (data: Payload)
    ensures |data| == 16
  {
    BytesOf(r.a) + BytesOf(r.b) + BytesOf(r.c) + BytesOf(r.d)
  }

  lemma OutputAt(r: Regs, i: nat)
    requires i < 16
    ensures
      var word := [r.a, r.b, r.c, r.d][i / 4];
      Output(r)[i] == ByteOf(word, i % 4) && Output(r)[..i + 1] == Output(r)[..i] + [Output(r)[i]]
  {
    hide ByteOf;
  }

  lemma PadFormula(c0: Word, n: nat)
    requires (c0 / 8) % 64 == n % 64
    ensures (55 - c0 / 8) % 64 + 1 == PadLength(n)
  {
  }

  /** The two pieces that md5_finish appends are the padding and the length. */
  lemma PaddedIs(message: Payload, c0: Word, c1: Word)
    requires Counts(c0, c1, |message|)
    ensures
      var n := PadLength(|message|);
      var pad: Payload := [0x80] + Zeros(63);
      && (message + pad[..n]) + (BytesOf(c0) + BytesOf(c1)) == Padded(message)
      && |Padded(message)| % 64 == 0
  {
    hide BytesOf, PadLength;
    PaddedLength(message);
    var n := PadLength(|message|);
    var pad: Payload := [0x80] + Zeros(63);
    assert pad[..n] == [0x80] + Zeros(n - 1);
    var head, b0, b1 := message + pad[..n], BytesOf(c0), BytesOf(c1);
    assert head == message + [0x80] + Zeros(n - 1);
    assert head + (b0 + b1) == head + b0 + b1;
  }

  lemma PaddedLength(message: Payload)
    ensures |Padded(message)| % 64 == 0
  {
    hide BytesOf, PadLength;
    var len := |message| + PadLength(|message|);
    DivModUnique(len + 8, 64, len / 64 + 1, 0);
  }

  lemma PaddedDone(message: Payload)
    ensures
      var p := Padded(message);
      |p| % 64 == 0 ==> Output(Fold(START, p[..Whole(|p|)])) == Digest(message)
  {
    hide Fold, Padded, ByteOf;
    var p := Padded(message);
    assert p[..|p|] == p;
  }

  /** The state depends on what was appended, not on how it was cut into pieces: here `x` and `y`
      one after the other, or at once. */
  lemma SplitDoesNotMatter(s: Md5State, t: Md5State, message: Payload, x: Payload, y: Payload)
    requires s.Represents(message + x + y) && t.Represents(message + (x + y))
    ensures s.count[0] == t.count[0] && s.count[1] == t.count[1] && s.Current() == t.Current()
    ensures
      var pending := |message + x + y| % 64;
      s.buf[..pending] == t.buf[..pending]
  {
    hide Fold;
    assert message + x + y == message + (x + y);
  }

  lemma OffsetIs(c0: Word, c1: Word, n: nat)
    requires Counts(c0, c1, n)
    ensures (c0 / 8) % 64 == n % 64
  {
    var q := (8 * n) / WORDS;
    assert c0 == 8 * n - WORDS * q;
    DivModUnique(c0, 8, n - 0x2000_0000 * q, 0);
    DivModUnique(n - 0x2000_0000 * q, 64, n / 64 - 0x80_0000 * q, n % 64);
  }

  /** The pending bytes and the beginning of the new piece. */
  lemma Joined(message: Payload, data: Payload, copy: nat)
    requires copy <= |data|
    ensures
      var all, k := message + data, Whole(|message|);
      && all[..k] == message[..k] && message[k..] + data[..copy] == all[k..|message| + copy]
  {
  }

  /** What is left after the last full block. */
  lemma Finished(message: Payload, data: Payload, from: nat)
    requires from <= |data| < from + 64 && (|message| + from) % 64 == 0
    ensures Whole(|message + data|) == |message| + from
    ensures (message + data)[|message| + from..] == data[from..]
  {
  }

  lemma Aligned(message: Payload, data: Payload)
    ensures (message + data)[..|message|] == message
    ensures message == message[..|message|]
  {
  }

  lemma OpsDone(r: Regs, x: seq<Word>)
    requires |x| == 16
    ensures Ops(64, r, x) == r
  {
  }

  method LoadWords(data: Payload) returns (X: array<Word>)
    requires |data| == 64
    ensures fresh(X) && X.Length == 16 && X[..] == Words(data)
  {
    hide Load;
    X := new Word[16](_ => 0);
    for i := 0 to 16
      invariant forall j :: 0 <= j < i ==> X[j] == Words(data)[j]
    {
      X[i] := Load(data[4 * i], data[4 * i + 1], data[4 * i + 2], data[4 * i + 3]);
    }
  }
}
