/** Bytes, and addressing of a flat memory along paths of positions. */
module Memory {
  type byte = x: int | 0 <= x < 0x100
  type uint32 = x: int | 0 <= x < 0x1_0000_0000

  /** The four bytes memcpy takes from a 32-bit integer; UCDR_MACHINE_ENDIANNESS is big-endian. */
  function Be32(n: uint32): (s: seq<byte>)
    ensures |s| == 4
  {
    var high, low := n / 0x1_0000, n % 0x1_0000;
    [high / 0x100, high % 0x100, low / 0x100, low % 0x100]
  }

  function FromBe32(b0: byte, b1: byte, b2: byte, b3: byte): uint32 {
    (b0 * 0x100 + b1) * 0x1_0000 + (b2 * 0x100 + b3)
  }

  lemma Be32RoundTrip(n: uint32)
    ensures var s := Be32(n); FromBe32(s[0], s[1], s[2], s[3]) == n
  {}

  lemma Be32OfBytes(b0: byte, b1: byte, b2: byte, b3: byte)
    ensures Be32(FromBe32(b0, b1, b2, b3)) == [b0, b1, b2, b3]
  {
    var high, low := b0 * 0x100 + b1, b2 * 0x100 + b3;
    assert FromBe32(b0, b1, b2, b3) / 0x1_0000 == high && FromBe32(b0, b1, b2, b3) % 0x1_0000 == low;
  }

  /** The positions from, from + 1, ..., to - 1. */
  function Range(from: nat, to: nat): (ps: seq<nat>)
    requires from <= to
    ensures |ps| == to - from
    ensures forall i | 0 <= i < |ps| :: ps[i] == from + i
  {
    seq(to - from, i requires 0 <= i => from + i)
  }

  ghost predicate NoDuplicates(path: seq<nat>) {
    forall i, j | 0 <= i < j < |path| :: path[i] != path[j]
  }

  /** Position p is path[i] for some i in from..to. */
  ghost predicate Within(path: seq<nat>, from: nat, to: nat, p: int) {
    exists i | from <= i < to <= |path| :: path[i] == p
  }

  /** From index `at` on the path visits the n positions to, to + 1, ... */
  ghost predicate Runs(path: seq<nat>, at: nat, to: nat, n: nat) {
    at + n <= |path| && forall i | at <= i < at + n :: path[i] == to + (i - at)
  }

  lemma RunCovers(path: seq<nat>, at: nat, end: nat, to: nat)
    requires at <= end && Runs(path, at, to, end - at)
    ensures forall p :: !Within(path, at, end, p) ==> !(to <= p < to + (end - at))
  {
    forall p: int | to <= p < to + (end - at)
      ensures Within(path, at, end, p)
    {
      assert path[at + (p - to)] == p;
    }
  }

  /** Reading memory m along the path, from index `from` on, gives the bytes s. */
  ghost predicate Holds(m: seq<byte>, path: seq<nat>, from: nat, s: seq<byte>) {
    from + |s| <= |path| && forall i | from <= i < from + |s| :: path[i] < |m| && m[path[i]] == s[i - from]
  }

  /** m and n differ at most at the positions path[from..to]. */
  ghost predicate SameExcept(m: seq<byte>, n: seq<byte>, path: seq<nat>, from: nat, to: nat) {
    |m| == |n| && forall p | 0 <= p < |m| && !Within(path, from, to, p) :: m[p] == n[p]
  }

  lemma WidenWritten(m: seq<byte>, n: seq<byte>, path: seq<nat>, from: nat, to: nat, from': nat, to': nat)
    requires SameExcept(m, n, path, from, to) && from' <= from <= to <= to' <= |path|
    ensures SameExcept(m, n, path, from', to')
  {
    forall p | 0 <= p < |m| && !Within(path, from', to', p)
      ensures m[p] == n[p]
    {
      assert !Within(path, from, to, p);
    }
  }

  lemma SameExceptIsTransitive(m0: seq<byte>, m1: seq<byte>, m2: seq<byte>, path: seq<nat>, from: nat, to: nat)
    requires SameExcept(m0, m1, path, from, to) && SameExcept(m1, m2, path, from, to)
    ensures SameExcept(m0, m2, path, from, to)
  {}

  /** Reads of consecutive stretches make one read of both. */
  lemma ReadsCompose(m: seq<byte>, path: seq<nat>, at: nat, first: seq<byte>, second: seq<byte>)
    requires Holds(m, path, at, first) && Holds(m, path, at + |first|, second)
    ensures Holds(m, path, at, first + second)
  {}

  /** What a path holds is determined by the memory. */
  lemma HoldsIsUnique(m: seq<byte>, path: seq<nat>, at: nat, s: seq<byte>, t: seq<byte>)
    requires Holds(m, path, at, s) && Holds(m, path, at, t) && |s| == |t|
    ensures s == t
  {
    assert forall i | 0 <= i < |s| :: s[i] == m[path[at + i]] && t[i] == m[path[at + i]];
  }
}
