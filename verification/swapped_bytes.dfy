/** The byte loops of CDR/basic.c for a value that is not in the machine's byte order and lies over
    an area boundary: `firstSize` bytes of room at `first`, and the next area from `next` on. */
module SwappedBytes {
  import opened Memory
  import opened MicroCdr

  ghost predicate Straddling(size: nat, first: nat, firstSize: nat, next: nat, length: nat) {
    && size in {2, 4, 8} && 0 < firstSize < size
    && first + size <= length && next + size <= length
    && (next + size <= first || first + firstSize < next)
  }

  /** What has to be where: the first bytes in the first area and the rest in the next. */
  ghost predicate Placed(m: seq<byte>, first: nat, firstSize: nat, next: nat, wire: seq<byte>)
    requires firstSize <= |wire| && first + firstSize <= |m| && next + |wire| - firstSize <= |m|
  {
    m[first..first + firstSize] == wire[..firstSize] && m[next..next + |wire| - firstSize] == wire[firstSize..]
  }

  /** What the writing loop leaves: one byte behind the first area, and of the rest only the very
      last byte, at the beginning of the next. */
  ghost function AfterLoop(m: seq<byte>, first: nat, firstSize: nat, next: nat, image: seq<byte>,
      n: nat): (r: seq<byte>)
    requires n <= |image|
    ensures |r| == |m|
  {
    seq(|m|, p requires 0 <= p < |m| =>
      if first <= p <= first + firstSize && p - first < n then image[|image| - 1 - (p - first)]
      else if p == next && firstSize + 1 < n then image[|image| - n]
      else m[p])
  }

  /** The loop of UCDR_SERIALIZE_BYTE_N */
  method WriteSwapped(mem: array<byte>, first: nat, firstSize: nat, next: nat, image: seq<byte>)
    requires Straddling(|image|, first, firstSize, next, mem.Length)
    modifies mem
    ensures mem[..] == AfterLoop(old(mem[..]), first, firstSize, next, image, |image|)
  {
    var target, i := first, 0;
    while i < |image|
      invariant 0 <= i <= |image| && target == if i <= firstSize then first + i else next
      invariant mem[..] == AfterLoop(old(mem[..]), first, firstSize, next, image, i)
    {
      mem[target] := image[|image| - 1 - i];
      target := target + 1;
      if i >= firstSize {
        target := next;
      }
      i := i + 1;
    }
  }

  /** Whatever was there before, some value of that size is not placed right. */
  lemma SomeValueIsMisplaced(m: seq<byte>, size: nat, first: nat, firstSize: nat, next: nat) returns (image: seq<byte>)
    requires Straddling(size, first, firstSize, next, |m|)
    ensures |image| == size
    ensures !Placed(AfterLoop(m, first, firstSize, next, image, size), first, firstSize, next, Reversed(image))
  {
    var lead: byte := if m[next] == 1 then 2 else 1;
    image := [lead] + seq(size - 1, i => 0);
    var after, wire := AfterLoop(m, first, firstSize, next, image, size), Reversed(image);
    assert after[next..next + size - firstSize][0] == after[next];
    assert wire[firstSize..][0] == image[size - 1 - firstSize];
  }

  /** The loop of UCDR_DESERIALIZE_BYTE_N */
  method ReadSwapped(mem: array<byte>, first: nat, firstSize: nat, next: nat, size: nat) returns (image: seq<byte>)
    requires Straddling(size, first, firstSize, next, mem.Length)
    ensures image == Fetched(mem[..], first, firstSize, next, size)
  {
    image := [];
    var target, i := first, 0;
    while i < size
      invariant 0 <= i == |image| <= size && target == if i <= firstSize then first else next
      invariant forall k | 0 <= k < i :: image[k] == mem[(if k <= firstSize then first else next) + size - 1 - k]
    {
      image := image + [mem[target + size - 1 - i]];
      if i >= firstSize {
        target := next;
      }
      i := i + 1;
    }
  }

  ghost function Fetched(m: seq<byte>, first: nat, firstSize: nat, next: nat, size: nat): (image: seq<byte>)
    requires Straddling(size, first, firstSize, next, |m|)
  {
    seq(size, k requires 0 <= k < size => m[(if k <= firstSize then first else next) + size - 1 - k])
  }

  /** A memory that holds a value over the two areas and from which another one is read. */
  lemma SomeValueIsMisread(size: nat, first: nat, firstSize: nat, next: nat, length: nat)
      returns (m: seq<byte>, image: seq<byte>)
    requires Straddling(size, first, firstSize, next, length)
    ensures |m| == length && |image| == size && Placed(m, first, firstSize, next, Reversed(image))
    ensures Fetched(m, first, firstSize, next, size) != image
  {
    var last := next + size - 1 - firstSize;
    m := seq(length, p => if p == last then 1 else 0);
    image := [1] + seq(size - 1, i => 0);
    var wire := Reversed(image);
    assert forall i | 0 <= i < size - 1 :: wire[i] == 0;
    assert m[first..first + firstSize] == wire[..firstSize];
    assert m[next..next + size - firstSize] == wire[firstSize..];
    assert Fetched(m, first, firstSize, next, size)[0] == m[first + size - 1];
  }
}
