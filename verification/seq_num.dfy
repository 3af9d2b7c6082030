/** Serial numbers modulo 2^16, as in sections 3.1 and 3.2 of RFC 1982.

    The streams keep 16-bit counters; their proofs run on unbounded ones.  Wrap and
    Unwrap relate the two, and the lemmas say when the 16-bit operations are exact. */
module SeqNum {
  const SEQ_NUM_SIZE := 0x1_0000
  const SEQ_NUM_MIDSIZE := 0x8000
  const SEQ_NUM_MAX: uint16 := 0xFFFF

  type uint16 = x: int | 0 <= x < 0x1_0000

  function Add(seqNum: uint16, increment: uint16): uint16 {
    (seqNum + increment) % SEQ_NUM_SIZE
  }

  function Sub(seqNum: uint16, decrement: uint16): uint16 {
    // the C expression is an int, cut to 16 bits by the cast
    (if decrement > seqNum then seqNum + (SEQ_NUM_SIZE - decrement) else seqNum - decrement) % SEQ_NUM_SIZE
  }

  function Cmp(seqNum1: uint16, seqNum2: uint16): int {
    if seqNum1 == seqNum2 then 0
    else if (seqNum1 < seqNum2 && seqNum2 - seqNum1 < SEQ_NUM_MIDSIZE) ||
            (seqNum1 > seqNum2 && seqNum1 - seqNum2 > SEQ_NUM_MIDSIZE) then -1
    else 1
  }

  /** The 16-bit counter that stands for the unbounded counter k. */
  function Wrap(k: int): uint16 {
    k % SEQ_NUM_SIZE
  }

  /** The unbounded counter in [near - 2^15, near + 2^15) whose low 16 bits are seqNum. */
  function Unwrap(near: int, seqNum: uint16): int {
    var ahead := (seqNum - near) % SEQ_NUM_SIZE;
    if ahead < SEQ_NUM_MIDSIZE then near + ahead else near + ahead - SEQ_NUM_SIZE
  }

  function Sign(x: int): int {
    if x < 0 then -1 else if x == 0 then 0 else 1
  }

  lemma AddIsExact(k: int, increment: uint16)
    ensures Add(Wrap(k), increment) == Wrap(k + increment)
  {}

  lemma SubIsExact(k: int, decrement: uint16)
    ensures Sub(Wrap(k), decrement) == Wrap(k - decrement)
  {}

  lemma SubGivesDistance(j: int, k: int)
    requires 0 <= j - k < SEQ_NUM_SIZE
    ensures Sub(Wrap(j), Wrap(k)) == j - k
  {}

  lemma AddDistance(k: int, x: uint16)
    ensures Wrap(k + Sub(x, Wrap(k))) == x
  {}

  /** Serial comparison agrees with the order of any two unbounded counters that are less than
      half the number space apart. */
  lemma CmpIsExact(j: int, k: int)
    requires -SEQ_NUM_MIDSIZE < j - k < SEQ_NUM_MIDSIZE
    ensures Cmp(Wrap(j), Wrap(k)) == Sign(j - k)
  {}

  lemma WrapIsInjective(j: int, k: int)
    requires -SEQ_NUM_SIZE < j - k < SEQ_NUM_SIZE
    ensures Wrap(j) == Wrap(k) <==> j == k
  {}

  lemma CmpSeesUnwrap(near: int, seqNum: uint16)
    ensures Cmp(Wrap(near), seqNum) == Sign(near - Unwrap(near, seqNum))
    ensures Wrap(Unwrap(near, seqNum)) == seqNum
  {}

  /** A 16-bit number stands for the right unbounded one exactly within half the number space. */
  lemma UnwrapIsUnique(near: int, k: int)
    ensures Unwrap(near, Wrap(k)) == k <==> -SEQ_NUM_MIDSIZE <= k - near < SEQ_NUM_MIDSIZE
  {}

  /** The comparison is antisymmetric on every pair except those at distance 2^15, the pairs
      RFC 1982 leaves undefined: there both directions answer "greater". */
  lemma CmpIsAntisymmetricExceptAtMidsize(x: uint16, y: uint16)
    ensures Cmp(x, y) == -Cmp(y, x) <==> x - y != SEQ_NUM_MIDSIZE && y - x != SEQ_NUM_MIDSIZE
    ensures x - y == SEQ_NUM_MIDSIZE || y - x == SEQ_NUM_MIDSIZE ==> Cmp(x, y) == 1 && Cmp(y, x) == 1
  {}
}
