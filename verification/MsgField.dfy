/** The message word of a data packet header: two boundary bits, the order bit and 29 bits of
    message number (the getters of CPacket).  Words are unsigned 32-bit values as integers:
    a right shift is a division by a power of two, a low mask a remainder, and setting a bit
    that is clear is an addition. */
module MsgField {
  import opened Arith

  const BIT29: int := 0x2000_0000
  const BIT30: int := 0x4000_0000
  const BIT31: int := 0x8000_0000

  /** 3: the only packet of a message, 2: the first, 1: the last, 0: inside. */
  function Boundary(word: Word): int {
    word / BIT30
  }

  predicate OrderFlag(word: Word) {
    (word / BIT29) % 2 == 1
  }

  function MsgSeq(word: Word): int {
    word % BIT29
  }

  predicate IsFirst(word: Word) {
    Boundary(word) > 1
  }

  predicate IsLast(word: Word) {
    Boundary(word) == 1 || Boundary(word) == 3
  }

  /** Message numbers run from 1 up to one below the maximum, then start over. */
  type MsgNo = x: int | 1 <= x < 0x1FFF_FFFF witness 1

  function NextMsgNo(no: MsgNo): MsgNo {
    if no + 1 == 0x1FFF_FFFF then 1 else no + 1
  }

  /** The word addBuffer composes: a message number leaves the three top bits clear. */
  function Compose(no: MsgNo, order: bool, first: bool, last: bool): Word {
    no + (if order then BIT29 else 0) + (if first then BIT31 else 0) + (if last then BIT30 else 0)
  }

  /** The getters take the word apart again. */
  lemma ComposeRoundTrip(no: MsgNo, order: bool, first: bool, last: bool)
    ensures
      var word := Compose(no, order, first, last);
      && MsgSeq(word) == no
      && (OrderFlag(word) <==> order)
      && (IsFirst(word) <==> first)
      && (IsLast(word) <==> last)
      && (Boundary(word) == 3 <==> first && last)
  {
  }
}
