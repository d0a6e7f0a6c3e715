/** The MD5 message digest as RFC 1321 defines it (sections 3.1 to 3.5).  Words are unsigned
    32-bit values as integers. */
module Md5Spec {
  import opened Arith
  import opened Stream

  const WORDS: int := 0x1_0000_0000

  function Add(x: Word, y: Word): Word {
    (x + y) % WORDS
  }

  function F(x: Word, y: Word, z: Word): Word {
    (((x as bv32) & (y as bv32)) | (!(x as bv32) & (z as bv32))) as int
  }

  function G(x: Word, y: Word, z: Word): Word {
    (((x as bv32) & (z as bv32)) | ((y as bv32) & !(z as bv32))) as int
  }

  function H(x: Word, y: Word, z: Word): Word {
    ((x as bv32) ^ (y as bv32) ^ (z as bv32)) as int
  }

  function I(x: Word, y: Word, z: Word): Word {
    ((y as bv32) ^ ((x as bv32) | !(z as bv32))) as int
  }

  /** Circular left shift. */
  function RotateLeft(x: Word, n: nat): Word
    requires 0 < n < 32
  {
    (((x as bv32) << n) | ((x as bv32) >> (32 - n))) as int
  }

  /** The constants of section 3.4, numbered from 0. */
  function Table(i: nat): Word
    requires i < 64
  {
    if i < 16 then Table1(i) else if i < 32 then Table2(i - 16) else if i < 48 then Table3(i - 32) else Table4(i - 48)
  }

  function Table1(j: nat): Word
    requires j < 16
  {
    match j
    case 0 => 0xD76A_A478
    case 1 => 0xE8C7_B756
    case 2 => 0x2420_70DB
    case 3 => 0xC1BD_CEEE
    case 4 => 0xF57C_0FAF
    case 5 => 0x4787_C62A
    case 6 => 0xA830_4613
    case 7 => 0xFD46_9501
    case 8 => 0x6980_98D8
    case 9 => 0x8B44_F7AF
    case 10 => 0xFFFF_5BB1
    case 11 => 0x895C_D7BE
    case 12 => 0x6B90_1122
    case 13 => 0xFD98_7193
    case 14 => 0xA679_438E
    case _ => 0x49B4_0821
  }

  function Table2(j: nat): Word
    requires j < 16
  {
    match j
    case 0 => 0xF61E_2562
    case 1 => 0xC040_B340
    case 2 => 0x265E_5A51
    case 3 => 0xE9B6_C7AA
    case 4 => 0xD62F_105D
    case 5 => 0x0244_1453
    case 6 => 0xD8A1_E681
    case 7 => 0xE7D3_FBC8
    case 8 => 0x21E1_CDE6
    case 9 => 0xC337_07D6
    case 10 => 0xF4D5_0D87
    case 11 => 0x455A_14ED
    case 12 => 0xA9E3_E905
    case 13 => 0xFCEF_A3F8
    case 14 => 0x676F_02D9
    case _ => 0x8D2A_4C8A
  }

  function Table3(j: nat): Word
    requires j < 16
  {
    match j
    case 0 => 0xFFFA_3942
    case 1 => 0x8771_F681
    case 2 => 0x6D9D_6122
    case 3 => 0xFDE5_380C
    case 4 => 0xA4BE_EA44
    case 5 => 0x4BDE_CFA9
    case 6 => 0xF6BB_4B60
    case 7 => 0xBEBF_BC70
    case 8 => 0x289B_7EC6
    case 9 => 0xEAA1_27FA
    case 10 => 0xD4EF_3085
    case 11 => 0x0488_1D05
    case 12 => 0xD9D4_D039
    case 13 => 0xE6DB_99E5
    case 14 => 0x1FA2_7CF8
    case _ => 0xC4AC_5665
  }

  function Table4(j: nat): Word
    requires j < 16
  {
    match j
    case 0 => 0xF429_2244
    case 1 => 0x432A_FF97
    case 2 => 0xAB94_23A7
    case 3 => 0xFC93_A039
    case 4 => 0x655B_59C3
    case 5 => 0x8F0C_CC92
    case 6 => 0xFFEF_F47D
    case 7 => 0x8584_5DD1
    case 8 => 0x6FA8_7E4F
    case 9 => 0xFE2C_E6E0
    case 10 => 0xA301_4314
    case 11 => 0x4E08_11A1
    case 12 => 0xF753_7E82
    case 13 => 0xBD3A_F235
    case 14 => 0x2AD7_D2BB
    case _ => 0xEB86_D391
  }

  /** Which word of the block operation `i` takes in. */
  function Index(i: nat): nat
    requires i < 64
  {
    if i < 16 then i
    else if i < 32 then (5 * i + 1) % 16
    else if i < 48 then (3 * i + 5) % 16
    else (7 * i) % 16
  }

  /** By how much operation `i` shifts. */
  function Shift(i: nat): nat
    requires i < 64
    ensures 0 < Shift(i) < 32
  {
    var j := i % 4;
    if i < 16 then 7 + 5 * j
    else if i < 32 then (if j == 0 then 5 else if j == 1 then 9 else if j == 2 then 14 else 20)
    else if i < 48 then (if j == 0 then 4 else if j == 1 then 11 else if j == 2 then 16 else 23)
    else if j == 0 then 6 else if j == 1 then 10 else if j == 2 then 15 else 21
  }

  function Mix(i: nat, x: Word, y: Word, z: Word): Word {
    if i < 16 then F(x, y, z) else if i < 32 then G(x, y, z) else if i < 48 then H(x, y, z) else I(x, y, z)
  }

  datatype Regs = Regs(a: Word, b: Word, c: Word, d: Word)

  /** b + ((a + mixed + x + t) <<< s) */
  function Turn(a: Word, b: Word, mixed: Word, x: Word, s: nat, t: Word): Word
    requires 0 < s < 32
  {
    Add(RotateLeft(Add(Add(Add(a, mixed), x), t), s), b)
  }

  /** Operation `i`; the registers change places after each operation. */
  function Op(i: nat, r: Regs, x: seq<Word>): Regs
    requires i < 64 && |x| == 16
  {
    Regs(r.d, Turn(r.a, r.b, Mix(i, r.b, r.c, r.d), x[Index(i)], Shift(i), Table(i)), r.b, r.c)
  }

  /** The operations from `i` on. */
  function Ops(i: nat, r: Regs, x: seq<Word>): Regs
    requires i <= 64 && |x| == 16
    decreases 64 - i
  {
    if i == 64 then r else Ops(i + 1, Op(i, r, x), x)
  }

  /** Four bytes, low-order byte first. */
  function Load(b0: byte, b1: byte, b2: byte, b3: byte): Word {
    b0 as int + 0x100 * b1 as int + 0x1_0000 * b2 as int + 0x100_0000 * b3 as int
  }

  /** A block of 64 bytes as 16 words. */
  function Words(block: Payload): (x: seq<Word>)
    requires |block| == 64
    ensures |x| == 16
  {
    seq(16, i requires 0 <= i < 16 => Load(block[4 * i], block[4 * i + 1], block[4 * i + 2], block[4 * i + 3]))
  }

  /** One block of 16 words. */
  function Compress(r: Regs, block: Payload): Regs
    requires |block| == 64
  {
    var e := Ops(0, r, Words(block));
    Regs(Add(r.a, e.a), Add(r.b, e.b), Add(r.c, e.c), Add(r.d, e.d))
  }

  /** All whole blocks of the message, in order. */
  function Fold(r: Regs, message: Payload): Regs
    decreases |message|
  {
    if |message| < 64 then r else Fold(Compress(r, message[..64]), message[64..])
  }

  const START := Regs(0x6745_2301, 0xEFCD_AB89, 0x98BA_DCFE, 0x1032_5476)

  /** Byte `i` of a word, low-order byte first. */
  function ByteOf(w: Word, i: nat): byte
    requires i < 4
  {
    (if i == 0 then w % 0x100
     else if i == 1 then (w / 0x100) % 0x100
     else if i == 2 then (w / 0x1_0000) % 0x100
     else w / 0x100_0000) as byte
  }

  function BytesOf(w: Word): (b: Payload)
    ensures |b| == 4
  {
    [ByteOf(w, 0), ByteOf(w, 1), ByteOf(w, 2), ByteOf(w, 3)]
  }

  /** How many padding bytes bring the length to 56 modulo 64: at least one, at most 64. */
  function PadLength(len: nat): (n: nat)
    ensures 1 <= n <= 64 && (len + n) % 64 == 56
  {
    var rest := len % 64;
    if rest < 56 then 56 - rest else 120 - rest
  }

  /** A single bit 1 and zeros (section 3.1), then the length in bits (section 3.2). */
  function Padded(message: Payload): Payload {
    var bits := 8 * |message|;
    message + [0x80] + Zeros(PadLength(|message|) - 1) + BytesOf(bits % WORDS) + BytesOf((bits / WORDS) % WORDS)
  }

  /** The digest of a message (sections 3.3 to 3.5). */
  function Digest(message: Payload): (d: Payload)
    ensures |d| == 16
  {
    var r := Fold(START, Padded(message));
    BytesOf(r.a) + BytesOf(r.b) + BytesOf(r.c) + BytesOf(r.d)
  }
}
