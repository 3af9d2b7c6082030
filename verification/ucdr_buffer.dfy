/** The MicroCDR buffer (ucdrBuffer).

    A buffer walks over one or more areas of a flat memory: the current area init..fin and
    then the areas its on-full callback hands out.  The callback is modelled by the list of
    its answers (`chain`); an empty list is a missing or failing callback.  All contracts
    speak of `Space()`, the memory positions still ahead, so they do not depend on how
    those positions are cut into areas. */
module MicroCdr {
  import opened Memory
  import ReliableRing

  datatype Endianness = Big | Little

  const MACHINE: Endianness := Big // UCDR_MACHINE_ENDIANNESS

  datatype Area = Area(from: nat, to: nat)

  ghost function Flat(chain: seq<Area>): (ps: seq<nat>) {
    if chain == [] then []
    else (if chain[0].from <= chain[0].to then Range(chain[0].from, chain[0].to) else []) + Flat(chain[1..])
  }

  /** The positions ahead of a buffer: the rest of its area, then the areas to come. */
  ghost function Ahead(from: nat, to: nat, chain: seq<Area>): seq<nat> {
    (if from <= to then Range(from, to) else []) + Flat(chain)
  }

  /** No area is empty, none leaves the memory, and all but the last are at least minArea long. */
  ghost predicate AreasFit(chain: seq<Area>, size: nat, minArea: nat) {
    && (forall i | 0 <= i < |chain| :: chain[i].from < chain[i].to <= size)
    && (forall i | 0 <= i < |chain| - 1 :: chain[i].to - chain[i].from >= minArea)
  }

  lemma NextAreaFits(chain: seq<Area>, size: nat, minArea: nat)
    requires AreasFit(chain, size, minArea) && chain != []
    ensures chain[0].from < chain[0].to <= size
    ensures chain[1..] == [] || chain[0].to - chain[0].from >= minArea
    ensures AreasFit(chain[1..], size, minArea)
  {}

  /** From index `pos` on, the path of a buffer runs through the rest of its area and then
      through the areas to come. */
  ghost predicate Linked(path: seq<nat>, pos: nat, from: nat, to: nat, chain: seq<Area>) {
    from <= to && pos + (to - from) <= |path| && path[pos..] == Ahead(from, to, chain)
  }

  lemma LinkedArea(path: seq<nat>, pos: nat, from: nat, to: nat, chain: seq<Area>)
    requires Linked(path, pos, from, to, chain)
    ensures Runs(path, pos, from, to - from)
    ensures chain == [] ==> |path| - pos == to - from
  {
    assert forall i | pos <= i < pos + (to - from) :: path[i] == path[pos..][i - pos];
  }

  lemma LinkedFresh(from: nat, to: nat, chain: seq<Area>)
    requires from <= to
    ensures Linked(Ahead(from, to, chain), 0, from, to, chain)
    ensures chain == [] ==> Ahead(from, to, chain) == Range(from, to)
  {}

  lemma SingleArea(from: nat, to: nat, size: nat)
    requires from <= to
    ensures Linked(Range(from, to), 0, from, to, []) && NoDuplicates(Range(from, to)) && AreasFit([], size, 0)
  {
    LinkedFresh(from, to, []);
  }

  lemma LinkedStep(path: seq<nat>, pos: nat, from: nat, to: nat, chain: seq<Area>, n: nat)
    requires Linked(path, pos, from, to, chain) && n <= to - from
    ensures Linked(path, pos + n, from + n, to, chain)
  {
    assert path[pos + n..] == path[pos..][n..];
  }

  lemma LinkedNextArea(path: seq<nat>, pos: nat, to: nat, chain: seq<Area>)
    requires Linked(path, pos, to, to, chain) && chain != [] && chain[0].from < chain[0].to
    ensures Linked(path, pos, chain[0].from, chain[0].to, chain[1..])
  {
    assert Range(to, to) == [];
    assert |path[pos..]| == |path| - pos;
  }

  ghost predicate AlignedTo(offset: nat, size: nat) {
    if size == 8 then offset % 8 == 0
    else if size == 4 then offset % 4 == 0
    else if size == 2 then offset % 2 == 0
    else true
  }

  /** Padding that brings the offset to a multiple of size, as in ucdr_alignment; a bitwise
      and with size - 1 is a remainder because size is 1, 2, 4 or 8. */
  function Padding(offset: nat, size: nat): (pad: nat)
    requires size in {1, 2, 4, 8}
    ensures pad < size
  {
    var rest := if size == 8 then offset % 8 else if size == 4 then offset % 4 else if size == 2 then offset % 2 else 0;
    if rest == 0 then 0 else size - rest
  }

  lemma AlignedNeedsNoPadding(offset: nat, last: nat, size: nat)
    requires last in {1, 2, 4, 8} && size in {1, 2, 4, 8} && size <= last && AlignedTo(offset, last)
    ensures Padding(offset, size) == 0
  {
    if last == 8 {
      assert offset == 8 * (offset / 8);
      LowBits(2 * (offset / 8), 0, 4);
      LowBits(4 * (offset / 8), 0, 2);
    } else if last == 4 {
      assert offset == 4 * (offset / 4);
      LowBits(2 * (offset / 4), 0, 2);
    }
  }

  lemma PaddingOfLowWord(offset: nat, size: nat)
    requires size in {1, 2, 4, 8}
    ensures Padding(offset % 0x1_0000_0000, size) == Padding(offset, size)
  {
    var q, r := offset / 0x1_0000_0000, offset % 0x1_0000_0000;
    if size == 8 {
      LowBits(0x2000_0000 * q, r, 8);
    } else if size == 4 {
      LowBits(0x4000_0000 * q, r, 4);
    } else if size == 2 {
      LowBits(0x8000_0000 * q, r, 2);
    }
  }

  lemma LowBits(k: nat, r: nat, n: nat)
    requires n > 0
    ensures (n * k + r) % n == r % n
  {
    ReliableRing.RemainderIsUnique(n * k + r, k + r / n, r % n, n);
  }

  /** The bytes of a value in the order they go into the buffer; `image` is its memory image. */
  function Wire(image: seq<byte>, endianness: Endianness): (w: seq<byte>)
    ensures |w| == |image|
  {
    if endianness == MACHINE then image else Reversed(image)
  }

  function Reversed(s: seq<byte>): (r: seq<byte>)
    ensures |r| == |s| && forall i | 0 <= i < |s| :: r[i] == s[|s| - 1 - i]
  {
    seq(|s|, i requires 0 <= i < |s| => s[|s| - 1 - i])
  }

  lemma WireIsAnInvolution(image: seq<byte>, endianness: Endianness)
    ensures Wire(Wire(image, endianness), endianness) == image
  {}

  lemma MachineWire(image: seq<byte>)
    ensures Wire(image, MACHINE) == image
  {}

  lemma AlignedAfter(offset: nat, size: nat)
    requires size in {1, 2, 4, 8}
    ensures AlignedTo(offset + Padding(offset, size), size)
    ensures AlignedTo(offset + Padding(offset, size) + size, size)
  {
    if size == 8 {
      NextMultiple(offset, 8);
    } else if size == 4 {
      NextMultiple(offset, 4);
    } else if size == 2 {
      NextMultiple(offset, 2);
    }
  }

  lemma NextMultiple(offset: nat, size: nat)
    requires size > 0
    ensures var end := if offset % size == 0 then offset else offset + size - offset % size;
      end % size == 0 && (end + size) % size == 0
  {
    var q, r := offset / size, offset % size;
    assert offset == q * size + r;
    NextProduct(q, size);
    NextProduct(q + 1, size);
    ReliableRing.RemainderIsUnique(q * size, q, 0, size);
    ReliableRing.RemainderIsUnique(q * size + size, q + 1, 0, size);
    ReliableRing.RemainderIsUnique(q * size + size + size, q + 2, 0, size);
  }

  lemma NextProduct(q: int, size: nat)
    ensures (q + 1) * size == q * size + size
  {}

  // The predicates below bind their body to a variable so that the verifier takes a call to
  // them as one fact and not as the list of its conjuncts.

  /** The fields of a buffer as a value, with the ghost path it walks. */
  datatype State = State(
    memSize: nat, init: nat, fin: nat, iterator_: nat, origin: nat, offset: nat,
    endianness: Endianness, lastDataSize: nat, error: bool, chain: seq<Area>,
    path: seq<nat>,  // every position the buffer visits, in order
    pos: nat,        // how many of them lie behind
    minArea: nat)    // every area to come but the last has at least this size
  {
    ghost predicate Shape() {
      var holds :=
        && init <= iterator_ <= fin <= memSize
        && AreasFit(chain, memSize, minArea)
        && Linked(path, pos, iterator_, fin, chain)
        && NoDuplicates(path)
        && (chain != [] ==> endianness == MACHINE);
      holds
    }

    /** Between calls the offset is also a multiple of the size of the last value. */
    ghost predicate Valid() {
      var holds := Shape() && lastDataSize in {0, 1, 2, 4, 8} && (!error ==> AlignedTo(offset, lastDataSize));
      holds
    }

    /** How many bytes the buffer can still take or give. */
    ghost function Left(): int {
      |path| - pos
    }

    /** A value of `size` bytes crosses at most one area boundary and fits what it crosses into. */
    ghost predicate RoomFor(size: nat)
      requires size in {1, 2, 4, 8}
    {
      error || chain == [] || (Left() >= Padding(offset, size) + size && minArea >= size)
    }

    /** A value of `size` bytes and its padding stay in this area, or the area ends right behind
        the padding. */
    ghost predicate InOneArea(size: nat)
      requires size in {1, 2, 4, 8}
    {
      iterator_ + Padding(offset, size) + size <= fin || iterator_ + Padding(offset, size) == fin
    }

    /** ucdr_check_buffer_available_for */
    ghost predicate Available(bytes: nat) {
      !error && iterator_ + bytes <= fin
    }

    ghost function Stepped(n: nat): State {
      this.(iterator_ := iterator_ + n, offset := offset + n, pos := pos + n)
    }

    /** The on-full callback hands out the next area, keeping the offset. */
    ghost function Handed(): State
      requires chain != []
    {
      this.(init := chain[0].from, iterator_ := chain[0].from, fin := chain[0].to, origin := offset,
      endianness := MACHINE, lastDataSize := 0, error := false, chain := chain[1..])
    }

    ghost function Checked(): State {
      if error || iterator_ < fin then this
      else if chain == [] then this.(error := true)
      else Handed()
    }
  }

  /** From s to t exactly n positions were used up, or there were fewer and t has the error. */
  ghost predicate Advanced(s: State, t: State, n: nat) {
    var holds :=
      && t.Shape()
      && t.memSize == s.memSize && t.path == s.path && t.endianness == s.endianness && t.minArea == s.minArea
      && |t.chain| <= |s.chain| && s.pos <= t.pos
      && t.error == (s.error || n > s.Left())
      && (!t.error ==> t.pos == s.pos + n && t.offset == s.offset + n);
    holds
  }

  /** The data went to the path right after `pad` positions, and nowhere else. */
  ghost predicate Wrote(s: State, t: State, m0: seq<byte>, m1: seq<byte>, pad: nat, data: seq<byte>) {
    var holds :=
      && Advanced(s, t, pad + |data|)
      && SameExcept(m0, m1, s.path, s.pos, |s.path|)
      && (!t.error ==> Holds(m1, s.path, s.pos + pad, data) && SameExcept(m0, m1, s.path, s.pos + pad, t.pos));
    holds
  }

  /** The data came from the path right after `pad` positions. */
  ghost predicate Took(s: State, t: State, m: seq<byte>, pad: nat, data: seq<byte>) {
    var holds := Advanced(s, t, pad + |data|) && (!t.error ==> Holds(m, s.path, s.pos + pad, data));
    holds
  }

  lemma ShapeGives(s: State)
    requires s.Shape()
    ensures s.iterator_ <= s.fin <= s.memSize && s.Left() >= s.fin - s.iterator_ && NoDuplicates(s.path)
    ensures s.chain == [] ==> s.Left() == s.fin - s.iterator_
    ensures Advanced(s, s, 0)
  {
    LinkedArea(s.path, s.pos, s.iterator_, s.fin, s.chain);
  }

  /** A buffer that has come to the end of its path has used up every answer of its callback. */
  lemma PathEndIsLastArea(s: State)
    requires s.Shape()
    ensures s.pos == |s.path| ==> s.chain == []
  {
    if s.pos == |s.path| && s.chain != [] {
      NextAreaFits(s.chain, s.memSize, s.minArea);
      assert false;
    }
  }

  lemma WholePathAhead(s: State)
    requires s.Valid() && s.pos == 0
    ensures s.path == Ahead(s.iterator_, s.fin, s.chain) && s.iterator_ <= s.fin <= s.memSize
    ensures AreasFit(s.chain, s.memSize, s.minArea) && NoDuplicates(s.path)
  {
    assert s.path[0..] == s.path;
  }

  lemma PathRunsThroughArea(s: State)
    requires s.Shape()
    ensures Runs(s.path, s.pos, s.iterator_, s.fin - s.iterator_)
  {
    LinkedArea(s.path, s.pos, s.iterator_, s.fin, s.chain);
  }

  lemma SteppedIsGood(s: State, n: nat)
    requires s.Shape() && s.iterator_ + n <= s.fin && !s.error
    ensures s.Stepped(n).Shape() && Advanced(s, s.Stepped(n), n)
  {
    hide NoDuplicates, AreasFit;
    LinkedStep(s.path, s.pos, s.iterator_, s.fin, s.chain, n);
  }

  lemma CheckedIsGood(s: State)
    requires s.Shape()
    ensures var t := s.Checked();
      && Advanced(s, t, if s.Left() == 0 then 1 else 0)
      && t.pos == s.pos && t.offset == s.offset
      && (!t.error ==> t.iterator_ < t.fin)
      && (!t.error && s.iterator_ == s.fin ==> s.chain != [] && (t.fin - t.iterator_ >= t.minArea || t.Left() == t.fin - t.iterator_))
  {
    ShapeGives(s);
    if !s.error && s.iterator_ >= s.fin && s.chain != [] {
      NextAreaFits(s.chain, s.memSize, s.minArea);
      LinkedNextArea(s.path, s.pos, s.fin, s.chain);
      assert s.Handed().Shape();
      ShapeGives(s.Handed());
    }
  }

  lemma AdvancesCompose(s: State, t: State, u: State, m: nat, n: nat)
    requires Advanced(s, t, m) && Advanced(t, u, n)
    ensures Advanced(s, u, m + n)
  {
    hide State.Shape;
  }

  /** The size of the last value plays no part in where a buffer stands. */
  lemma LabelKeeps(s: State, t: State, n: nat, size: nat)
    requires Advanced(s, t, n)
    ensures Advanced(s, t.(lastDataSize := size), n)
  {}

  /** One turn of the array loops: with `done` bytes behind and more to come, the check finds
      room or the whole call fails. */
  lemma ArrayCheck(s: State, t: State, done: nat, size: nat)
    requires Advanced(s, t, done) && done < size
    ensures Advanced(s, t.Checked(), if t.Checked().error then size else done)
    ensures !t.Checked().error ==> t.Checked().iterator_ < t.Checked().fin
  {
    CheckedIsGood(t);
    hide State.Shape, State.Checked;
  }

  lemma StartAdvancing(s: State, size: nat)
    requires s.Shape()
    ensures var t := if size > 0 then s.Checked() else s; Advanced(s, t, if t.error then size else 0)
  {
    ShapeGives(s);
    if size > 0 {
      ArrayCheck(s, s, 0, size);
    }
  }

  lemma KeepAdvancing(s: State, t: State, done: nat, n: nat, size: nat)
    requires Advanced(s, t, done) && t.Shape() && !t.error && t.iterator_ + n <= t.fin && done + n <= size
    ensures var u := t.Stepped(n); var v := if done + n < size then u.Checked() else u;
      u.Shape() && Advanced(s, v, if v.error then size else done + n)
  {
    hide State.Shape, State.Checked;
    SteppedIsGood(t, n);
    AdvancesCompose(s, t, t.Stepped(n), done, n);
    if done + n < size {
      ArrayCheck(s, t.Stepped(n), done + n, size);
    }
  }

  lemma WritesFollow(s: State, t: State, u: State, m0: seq<byte>, m1: seq<byte>, m2: seq<byte>, pad: nat,
      a: seq<byte>, b: seq<byte>)
    requires s.Shape() && Wrote(s, t, m0, m1, pad, a) && Wrote(t, u, m1, m2, 0, b)
    requires !t.error
    ensures Wrote(s, u, m0, m2, pad, a + b) && u.Shape()
  {
    AdvancesCompose(s, t, u, pad + |a|, |b|);
    ShapeGives(s);
    ShapeGives(t);
    hide State.Shape, Holds, SameExcept, NoDuplicates, Advanced;
    assert t.path == s.path && t.pos == s.pos + pad + |a|;
  }

  lemma WriteAfterPadding(s: State, t: State, u: State, m0: seq<byte>, m1: seq<byte>, pad: nat, a: seq<byte>)
    requires Advanced(s, t, pad) && Wrote(t, u, m0, m1, 0, a)
    ensures Wrote(s, u, m0, m1, pad, a)
  {
    ShapeGives(t);
    AdvancesCompose(s, t, u, pad, |a|);
    WidenWritten(m0, m1, s.path, t.pos, |s.path|, s.pos, |s.path|);
  }

  lemma TakesFollow(s: State, t: State, u: State, m: seq<byte>, pad: nat, a: seq<byte>, b: seq<byte>)
    requires Took(s, t, m, pad, a) && Took(t, u, m, 0, b) && !t.error
    ensures Took(s, u, m, pad, a + b)
  {
    hide State.Shape, Holds;
    AdvancesCompose(s, t, u, pad + |a|, |b|);
    if !u.error {
      ReadsCompose(m, s.path, s.pos + pad, a, b);
    }
  }

  lemma WroteLabel(s: State, t: State, m0: seq<byte>, m1: seq<byte>, pad: nat, a: seq<byte>, size: nat)
    requires Wrote(s, t, m0, m1, pad, a)
    ensures Wrote(s, t.(lastDataSize := size), m0, m1, pad, a)
  {
    LabelKeeps(s, t, pad + |a|, size);
  }

  /** Where ucdr_array_to_buffer stands at the head of its loop. */
  ghost predicate Writing(s: State, t: State, m0: seq<byte>, m: seq<byte>, done: nat, a: seq<byte>) {
    var holds :=
      && t.Shape()
      && done <= |a|
      && Wrote(s, t, m0, m, 0, if t.error then a else a[..done])
      && (!t.error && done < |a| ==> t.iterator_ < t.fin);
    holds
  }

  lemma StartWriting(s: State, m: seq<byte>, a: seq<byte>)
    requires s.Shape()
    ensures Writing(s, if |a| > 0 then s.Checked() else s, m, m, 0, a)
  {
    ShapeGives(s);
    if |a| > 0 {
      ArrayCheck(s, s, 0, |a|);
    }
  }

  lemma KeepWriting(s: State, t: State, m0: seq<byte>, m1: seq<byte>, m2: seq<byte>, done: nat, n: nat, a: seq<byte>)
    requires s.Shape() && Writing(s, t, m0, m1, done, a) && !t.error && done + n <= |a|
    requires Wrote(t, t.Stepped(n), m1, m2, 0, a[done..done + n])
    ensures var u := t.Stepped(n);
      Writing(s, if done + n < |a| then u.Checked() else u, m0, m2, done + n, a)
  {
    var u := t.Stepped(n);
    WritesFollow(s, t, u, m0, m1, m2, 0, a[..done], a[done..done + n]);
    assert a[..done] + a[done..done + n] == a[..done + n];
    hide State.Shape, Holds, SameExcept;
    if done + n < |a| {
      ArrayCheck(s, u, done + n, |a|);
    }
  }

  lemma DoneWriting(s: State, t: State, m0: seq<byte>, m: seq<byte>, done: nat, a: seq<byte>, size: nat)
    requires Writing(s, t, m0, m, done, a) && (t.error || done == |a|)
    ensures Wrote(s, t.(lastDataSize := size), m0, m, 0, a)
  {
    assert a[..|a|] == a;
    WroteLabel(s, t, m0, m, 0, a, size);
  }

  lemma TookLabel(s: State, t: State, m: seq<byte>, n: nat, a: seq<byte>, size: nat)
    ensures Advanced(s, t, n) ==> Advanced(s, t.(lastDataSize := size), n)
    ensures Took(s, t, m, 0, a) ==> Took(s, t.(lastDataSize := size), m, 0, a)
  {}

  /** Bytes need no alignment. */
  lemma AdvancedIsValid(s: State, t: State, n: nat)
    requires Advanced(s, t, n) && t.lastDataSize == 1
    ensures t.Valid() && |t.chain| <= |s.chain| && t.endianness == s.endianness && (s.error ==> t.error)
  {}

  lemma TookAdvances(s: State, t: State, m: seq<byte>, pad: nat, a: seq<byte>)
    requires Took(s, t, m, pad, a)
    ensures Advanced(s, t, pad + |a|)
  {}

  /** Where ucdr_buffer_to_array stands at the head of its loop. */
  ghost predicate Reading(s: State, t: State, m: seq<byte>, size: nat, data: seq<byte>) {
    var holds :=
      && t.Shape()
      && |data| <= size
      && (if t.error then Advanced(s, t, size) else Took(s, t, m, 0, data))
      && (!t.error && |data| < size ==> t.iterator_ < t.fin);
    holds
  }

  lemma StartReading(s: State, m: seq<byte>, size: nat)
    requires s.Shape()
    ensures Reading(s, if size > 0 then s.Checked() else s, m, size, [])
  {
    ShapeGives(s);
    CheckedIsGood(s);
    if size > 0 {
      ArrayCheck(s, s, 0, size);
    }
  }

  lemma KeepReading(s: State, t: State, m: seq<byte>, size: nat, data: seq<byte>, more: seq<byte>)
    requires s.Shape() && Reading(s, t, m, size, data) && !t.error && |data| + |more| <= size
    requires Took(t, t.Stepped(|more|), m, 0, more)
    ensures var u := t.Stepped(|more|);
      Reading(s, if |data| + |more| < size then u.Checked() else u, m, size, data + more)
  {
    var u := t.Stepped(|more|);
    TakesFollow(s, t, u, m, 0, data, more);
    if |data| + |more| < size {
      ArrayCheck(s, u, |data| + |more|, size);
      CheckedIsGood(u);
    }
  }

  lemma DoneReading(s: State, t: State, m: seq<byte>, size: nat, data: seq<byte>, last: nat)
    requires Reading(s, t, m, size, data) && (t.error || |data| == size)
    ensures Advanced(s, t.(lastDataSize := last), size)
    ensures !t.error ==> Took(s, t.(lastDataSize := last), m, 0, data)
  {
    TookLabel(s, t, m, size, data, last);
  }

  /** One byte fits after the check, or the check fails. */
  lemma ByteFits(s: State)
    requires s.Shape()
    ensures var u := s.Checked();
      && u.Shape()
      && (if u.error then Advanced(s, u, 1) && (s.error || u == s.(error := true)) else u.Available(1) && Advanced(s, u, 0))
  {
    CheckedIsGood(s);
    ShapeGives(s);
  }

  lemma ValidAfterByte(s: State, t: State)
    requires s.Valid() && t.Shape()
    ensures t.lastDataSize == (if t.error then s.lastDataSize else 1) ==> t.Valid()
  {}

  /** A value of `size` bytes starts in this area and does not fit, but the next one has room. */
  ghost predicate Straddles(s: State, size: nat) {
    && size in {2, 4, 8} && s.iterator_ < s.fin && !s.Available(size)
    && (s.error || s.chain == [] || (s.Left() >= size && s.minArea >= size))
  }

  lemma BoundaryIsCrossed(s: State, size: nat)
    requires s.Shape() && Straddles(s, size)
    ensures var f := s.fin - s.iterator_; var u := s.Stepped(f).Checked();
      && (u.error <==> s.error || s.chain == [])
      && (u.error ==> u == s.Stepped(f).(error := true) && Advanced(s, s.(error := true), size))
      && (!u.error ==> f < size && u.Shape() && u.Available(size - f) && Advanced(s, u, f) && s.fin <= s.memSize)
    ensures Runs(s.path, s.pos, s.iterator_, s.fin - s.iterator_)
  {
    var f := s.fin - s.iterator_;
    ShapeGives(s);
    PathRunsThroughArea(s);
    if !s.error {
      SteppedIsGood(s, f);
      CheckedIsGood(s.Stepped(f));
    }
    if s.error || s.chain == [] {
      assert s.(error := true).Shape();
    }
  }

  lemma FailedWrite(s: State, t: State, m: seq<byte>, a: seq<byte>)
    requires s.Shape() && Advanced(s, t, |a|) && t.error
    ensures Wrote(s, t, m, m, 0, a)
  {}

  lemma FailedTake(s: State, t: State, m: seq<byte>, a: seq<byte>)
    requires Advanced(s, t, |a|) && t.error
    ensures Took(s, t, m, 0, a)
  {}

  lemma BoundaryWrite(s: State, u: State, v: State, m0: seq<byte>, m1: seq<byte>, m2: seq<byte>,
      head: seq<byte>, tail: seq<byte>)
    requires s.Shape() && Advanced(s, u, |head|) && !u.error
    requires Holds(m1, s.path, s.pos, head) && SameExcept(m0, m1, s.path, s.pos, s.pos + |head|)
    requires Wrote(u, v, m1, m2, 0, tail)
    ensures Wrote(s, v, m0, m2, 0, head + tail)
  {
    WidenWritten(m0, m1, s.path, s.pos, s.pos + |head|, s.pos, |s.path|);
    WritesFollow(s, u, v, m0, m1, m2, 0, head, tail);
  }

  lemma BoundaryRead(s: State, u: State, v: State, m: seq<byte>, head: seq<byte>, tail: seq<byte>)
    requires Advanced(s, u, |head|) && !u.error && Holds(m, s.path, s.pos, head)
    requires Took(u, v, m, 0, tail)
    ensures Took(s, v, m, 0, head + tail)
  {
    TakesFollow(s, u, v, m, 0, head, tail);
  }

  /** With the area used up, a value fits in the next area, or the check fails. */
  lemma NextAreaHasRoom(t: State, size: nat)
    requires t.Shape() && !(t.iterator_ < t.fin) && !t.Available(size) && size > 0
    requires t.error || t.chain == [] || (t.Left() >= size && t.minArea >= size)
    ensures var u := t.Checked();
      && u.Shape()
      && (u.error ==> Advanced(t, u, size) && u.lastDataSize == t.lastDataSize)
      && (!u.error ==> u.Available(size) && Advanced(t, u, 0))
  {
    CheckedIsGood(t);
    ShapeGives(t);
  }

  /** After the padding the state still has the room it had for the value. */
  lemma AfterPadding(s: State, t: State, pad: nat, size: nat)
    requires s.Valid() && size in {2, 4, 8} && s.RoomFor(size) && Advanced(s, t, pad)
    requires !s.error ==> pad == Padding(s.offset, size)
    ensures t.Shape() && t.iterator_ <= t.fin && |t.chain| <= |s.chain|
    ensures t.error || t.chain == [] || (t.Left() >= size && t.minArea >= size)
  {
    ShapeGives(t);
    hide State.Shape, Padding, AlignedTo;
  }

  lemma AdvanceKeeps(s: State, t: State, n: nat)
    requires Advanced(s, t, n)
    ensures t.minArea == s.minArea && (s.error ==> t.error) && (s.chain == [] ==> t.chain == [])
  {}

  lemma OneAreaAfterPadding(s: State, t: State, pad: nat, size: nat)
    requires s.Valid() && size in {2, 4, 8} && s.InOneArea(size) && Advanced(s, t, pad)
    requires !s.error ==> pad == Padding(s.offset, size)
    requires s.Available(pad) ==> t.iterator_ == s.iterator_ + pad && t.fin == s.fin
    ensures t.error || t.Available(size) || t.iterator_ == t.fin
  {
    hide State.Shape, Padding, AlignedTo;
  }

  /** A buffer that has failed leaves the same trace whatever the padding was. */
  lemma AdvancedWhere(s: State, v: State, m: nat, n: nat)
    requires Advanced(s, v, m) && (s.error || m == n)
    ensures Advanced(s, v, n)
  {}

  lemma WrittenWhere(s: State, v: State, m0: seq<byte>, m1: seq<byte>, pad: nat, at: nat, wire: seq<byte>)
    requires Wrote(s, v, m0, m1, pad, wire) && (s.error || pad == at)
    ensures Wrote(s, v, m0, m1, at, wire) && Advanced(s, v, at + |wire|)
  {
    hide State.Shape, Holds, SameExcept;
  }

  lemma TakenWhere(s: State, v: State, m: seq<byte>, pad: nat, at: nat, wire: seq<byte>)
    requires Took(s, v, m, pad, wire) && (s.error || pad == at)
    ensures Took(s, v, m, at, wire) && Advanced(s, v, at + |wire|)
  {
    hide State.Shape, Holds;
  }

  /** A call that leaves the offset aligned to the size it notes down leaves the buffer in order. */
  lemma ValidAfter(s: State, v: State, n: nat)
    requires Advanced(s, v, n) && v.lastDataSize in {0, 1, 2, 4, 8}
    requires v.error || AlignedTo(s.offset + n, v.lastDataSize)
    ensures v.Valid()
  {
    hide State.Shape, AlignedTo;
  }

  lemma TakeAfterPadding(s: State, t: State, u: State, m: seq<byte>, pad: nat, a: seq<byte>)
    requires Advanced(s, t, pad) && Took(t, u, m, 0, a)
    ensures Took(s, u, m, pad, a)
  {
    AdvancesCompose(s, t, u, pad, |a|);
  }

  /** What the two steps of a BYTE_N macro come to. */
  lemma BasicWritten(s: State, t: State, v: State, m0: seq<byte>, m1: seq<byte>, pad: nat, wire: seq<byte>)
    requires s.Valid() && |wire| in {2, 4, 8} && Advanced(s, t, pad) && Wrote(t, v, m0, m1, 0, wire)
    requires !s.error ==> pad == Padding(s.offset, |wire|)
    requires v.lastDataSize in {0, 1, 2, 4, 8} && (!v.error ==> v.lastDataSize == |wire|)
    ensures Wrote(s, v, m0, m1, Padding(s.offset, |wire|), wire) && v.Valid()
  {
    hide Padding, AlignedTo, Advanced, Wrote, State.Valid;
    WriteAfterPadding(s, t, v, m0, m1, pad, wire);
    WrittenWhere(s, v, m0, m1, pad, Padding(s.offset, |wire|), wire);
    AlignedAfter(s.offset, |wire|);
    ValidAfter(s, v, Padding(s.offset, |wire|) + |wire|);
  }

  lemma BasicTaken(s: State, t: State, v: State, m: seq<byte>, pad: nat, wire: seq<byte>)
    requires s.Valid() && |wire| in {2, 4, 8} && Advanced(s, t, pad) && Took(t, v, m, 0, wire)
    requires !s.error ==> pad == Padding(s.offset, |wire|)
    requires v.lastDataSize in {0, 1, 2, 4, 8} && (!v.error ==> v.lastDataSize == |wire|)
    ensures Took(s, v, m, Padding(s.offset, |wire|), wire) && v.Valid()
  {
    hide Padding, AlignedTo, Advanced, Took, State.Valid;
    TakeAfterPadding(s, t, v, m, pad, wire);
    TakenWhere(s, v, m, pad, Padding(s.offset, |wire|), wire);
    AlignedAfter(s.offset, |wire|);
    ValidAfter(s, v, Padding(s.offset, |wire|) + |wire|);
  }

  lemma ValidGives(s: State)
    requires s.Valid()
    ensures s.Shape() && s.lastDataSize in {0, 1, 2, 4, 8} && s.iterator_ <= s.fin
  {}

  /** A failed call leaves the same trace whatever it was to write or read. */
  lemma FailedWriteOf(s: State, t: State, m0: seq<byte>, m1: seq<byte>, a: seq<byte>, b: seq<byte>)
    requires Wrote(s, t, m0, m1, 0, a) && t.error && |a| == |b|
    ensures Wrote(s, t, m0, m1, 0, b)
  {}

  lemma FailedTakeOf(s: State, t: State, m: seq<byte>, pad: nat, a: seq<byte>, b: seq<byte>)
    requires Took(s, t, m, pad, a) && t.error && |a| == |b|
    ensures Took(s, t, m, pad, b)
  {}

  lemma RunIsHeld(m: seq<byte>, path: seq<nat>, at: nat, to: nat, n: nat)
    requires Runs(path, at, to, n) && to + n <= |m|
    ensures Holds(m, path, at, m[to..to + n])
  {}

  lemma AlignedDown(offset: nat, big: nat, small: nat)
    requires AlignedTo(offset, big) && small <= big && big in {2, 4, 8} && small in {0, 1, 2, 4, 8}
    ensures AlignedTo(offset, small)
  {
    if big == 8 {
      assert offset == 8 * (offset / 8);
      LowBits(2 * (offset / 8), 0, 4);
      LowBits(4 * (offset / 8), 0, 2);
    } else if big == 4 {
      assert offset == 4 * (offset / 4);
      LowBits(2 * (offset / 4), 0, 2);
    }
  }

  /** The padding of an array leaves the size of the last value as it was, which is right. */
  lemma AfterArrayPadding(s: State, t: State, pad: nat, size: nat)
    requires s.Valid() && size in {2, 4, 8} && Advanced(s, t, pad)
    requires !s.error ==> pad == Padding(s.offset, size)
    ensures t.(lastDataSize := s.lastDataSize).Valid() && Advanced(s, t.(lastDataSize := s.lastDataSize), pad)
    ensures !t.error ==> AlignedTo(t.offset, size)
  {
    hide Linked, AreasFit, NoDuplicates, Padding;
    LabelKeeps(s, t, pad, s.lastDataSize);
    AlignedAfter(s.offset, size);
    if !t.error {
      if s.lastDataSize <= size {
        AlignedDown(t.offset, size, s.lastDataSize);
      } else {
        AlignedNeedsNoPadding(s.offset, s.lastDataSize, size);
      }
    }
  }

  lemma AlignedMultiple(offset: nat, count: nat, size: nat)
    requires size in {2, 4, 8} && AlignedTo(offset, size)
    ensures AlignedTo(offset + count * size, size)
  {
    assert offset + count * size == size * count + offset;
    LowBits(count, offset, size);
  }

  lemma AlignedAfterArray(offset: nat, count: nat, size: nat)
    requires size in {2, 4, 8}
    ensures AlignedTo(offset + Padding(offset, size) + BytesIn(count, size), size)
  {
    AlignedAfter(offset, size);
    AlignedMultiple(offset + Padding(offset, size), count, size);
  }

  /** The bytes of an array in the order they go into the buffer, value by value. */
  function WireArray(image: seq<byte>, size: nat, endianness: Endianness): (w: seq<byte>)
    requires size > 0
    ensures |w| == |image|
  {
    if endianness == MACHINE then image
    else if |image| < size then image
    else Wire(image[..size], endianness) + WireArray(image[size..], size, endianness)
  }

  lemma {:induction false} WireArrayIsAnInvolution(image: seq<byte>, size: nat, endianness: Endianness)
    requires size > 0
    ensures WireArray(WireArray(image, size, endianness), size, endianness) == image
    decreases |image|
  {
    hide Wire;
    if endianness != MACHINE && |image| >= size {
      var head, tail := Wire(image[..size], endianness), WireArray(image[size..], size, endianness);
      assert (head + tail)[..size] == head && (head + tail)[size..] == tail;
      WireIsAnInvolution(image[..size], endianness);
      WireArrayIsAnInvolution(image[size..], size, endianness);
      assert image == image[..size] + image[size..];
    }
  }

  lemma {:induction false} WireArrayNext(image: seq<byte>, at: nat, size: nat, endianness: Endianness, i: nat)
    requires size > 0 && at == BytesIn(i, size) && at + size <= |image|
    ensures WireArray(image[..at + size], size, endianness) ==
      WireArray(image[..at], size, endianness) + Wire(image[at..at + size], endianness)
    decreases i
  {
    hide BytesIn, Wire;
    NoBytes(size);
    if endianness == MACHINE {
      assert image[..at + size] == image[..at] + image[at..at + size];
      MachineWire(image[at..at + size]);
    } else if i == 0 {
      assert image[..at + size] == image[at..at + size];
      WireArrayOfOne(image[at..at + size], size, endianness);
    } else {
      BytesNext(i - 1, i, size);
      WireArrayNext(image[size..], at - size, size, endianness, i - 1);
      assert image[..at + size][..size] == image[..at][..size];
      assert image[..at + size][size..] == image[size..][..at] && image[..at][size..] == image[size..][..at - size];
      assert image[size..][at - size..at] == image[at..at + size];
    }
  }

  lemma WireArrayOfOne(image: seq<byte>, size: nat, endianness: Endianness)
    requires size > 0 && |image| == size
    ensures WireArray(image, size, endianness) == Wire(image, endianness)
  {
    assert image[..size] == image && image[size..] == [];
    MachineWire(image);
    hide Wire;
    assert endianness != MACHINE ==> WireArray([], size, endianness) == [];
  }

  /** The bytes of `count` values of `size` bytes. */
  function BytesIn(count: nat, size: nat): nat {
    count * size
  }

  lemma OneMoreValue(i: nat, size: nat)
    ensures BytesIn(i + 1, size) == size + BytesIn(i, size)
  {}

  /** Where the bytes of an array go: those of value i stay together, the most significant first in
      big-endian order and last in the other. */
  lemma {:induction false} ArrayByte(image: seq<byte>, size: nat, endianness: Endianness, i: nat, j: nat)
    requires j < size && BytesIn(i, size) + size <= |image|
    ensures WireArray(image, size, endianness)[BytesIn(i, size) + j] ==
      image[BytesIn(i, size) + if endianness.Big? then j else size - 1 - j]
    decreases i
  {
    hide BytesIn, WireArray, Wire;
    if i == 0 {
      NoBytes(size);
    } else {
      OneMoreValue(i - 1, size);
    }
    WireArrayParts(image, size, endianness);
    WireByte(image[..size], endianness, j);
    if i > 0 {
      ArrayByte(image[size..], size, endianness, i - 1, j);
      var head, tail := Wire(image[..size], endianness), WireArray(image[size..], size, endianness);
      assert (head + tail)[size + (BytesIn(i - 1, size) + j)] == tail[BytesIn(i - 1, size) + j];
    }
  }

  lemma WireArrayParts(image: seq<byte>, size: nat, endianness: Endianness)
    requires 0 < size <= |image|
    ensures WireArray(image, size, endianness) == Wire(image[..size], endianness) + WireArray(image[size..], size, endianness)
  {
    if endianness == MACHINE {
      MachineArray(image, size);
      MachineArray(image[size..], size);
      assert image == image[..size] + image[size..];
    }
  }

  lemma WireByte(image: seq<byte>, endianness: Endianness, j: nat)
    requires j < |image|
    ensures Wire(image, endianness)[j] == image[if endianness.Big? then j else |image| - 1 - j]
  {}

  lemma NoBytes(size: nat)
    ensures BytesIn(0, size) == 0
  {}

  lemma BytesNext(i: nat, count: nat, size: nat)
    requires i < count
    ensures BytesIn(i, size) + size == BytesIn(i + 1, size) <= BytesIn(count, size)
  {
    ReliableRing.ProductOfDifference(i + 1, i, size);
    ReliableRing.ProductOfDifference(count, i + 1, size);
    NoNegativeProduct(count - i - 1, size);
  }

  lemma NoNegativeProduct(a: nat, b: nat)
    ensures a * b >= 0
  {}

  lemma WritesFollowOrFail(s: State, t: State, u: State, m0: seq<byte>, m1: seq<byte>, m2: seq<byte>, pad: nat,
      a: seq<byte>, b: seq<byte>)
    requires s.Shape() && Wrote(s, t, m0, m1, pad, a) && Wrote(t, u, m1, m2, 0, b)
    ensures Wrote(s, u, m0, m2, pad, a + b)
  {
    if t.error {
      AdvancesCompose(s, t, u, pad + |a|, |b|);
      ShapeGives(s);
      ShapeGives(t);
      WidenWritten(m1, m2, s.path, t.pos, |s.path|, s.pos, |s.path|);
      SameExceptIsTransitive(m0, m1, m2, s.path, s.pos, |s.path|);
    } else {
      WritesFollow(s, t, u, m0, m1, m2, pad, a, b);
    }
  }

  lemma TakesFollowOrFail(s: State, t: State, u: State, m: seq<byte>, pad: nat, a: seq<byte>, b: seq<byte>)
    requires Took(s, t, m, pad, a) && Took(t, u, m, 0, b)
    ensures Took(s, u, m, pad, a + b)
  {
    if t.error {
      AdvancesCompose(s, t, u, pad + |a|, |b|);
    } else {
      TakesFollow(s, t, u, m, pad, a, b);
    }
  }

  /** One more value of an array, at its natural alignment. */
  lemma ElementWritten(s: State, t: State, u: State, m0: seq<byte>, m1: seq<byte>, m2: seq<byte>,
      image: seq<byte>, at: nat, size: nat, endian: Endianness, i: nat)
    requires s.Shape() && size in {2, 4, 8} && at == BytesIn(i, size) && at + size <= |image|
    requires t.error || AlignedTo(t.offset, size)
    requires Wrote(s, t, m0, m1, 0, WireArray(image[..at], size, endian))
    requires Wrote(t, u, m1, m2, Padding(t.offset, size), Wire(image[at..at + size], endian))
    requires u.Valid() && (!u.error ==> u.lastDataSize == size)
    ensures Wrote(s, u, m0, m2, 0, WireArray(image[..at + size], size, endian))
    ensures |u.chain| <= |t.chain| && (!u.error ==> AlignedTo(u.offset, size))
  {
    hide State.Shape, SameExcept, Holds, WireArray, Wire, BytesIn;
    var value := Wire(image[at..at + size], endian);
    assert Wrote(t, u, m1, m2, 0, value);
    WritesFollowOrFail(s, t, u, m0, m1, m2, 0, WireArray(image[..at], size, endian), value);
    WireArrayNext(image, at, size, endian, i);
  }

  lemma ElementTaken(s: State, t: State, u: State, m: seq<byte>, image: seq<byte>, value: seq<byte>, size: nat,
      endian: Endianness, i: nat)
    requires size in {2, 4, 8} && |image| == BytesIn(i, size) && |value| == size
    requires t.error || AlignedTo(t.offset, size)
    requires Took(s, t, m, 0, WireArray(image, size, endian))
    requires Took(t, u, m, Padding(t.offset, size), Wire(value, endian))
    requires u.Valid() && (!u.error ==> u.lastDataSize == size)
    ensures Took(s, u, m, 0, WireArray(image + value, size, endian))
    ensures |u.chain| <= |t.chain| && (!u.error ==> AlignedTo(u.offset, size))
  {
    hide State.Shape, Holds, WireArray, Wire, BytesIn;
    var both := image + value;
    assert Took(t, u, m, 0, Wire(value, endian));
    TakesFollowOrFail(s, t, u, m, 0, WireArray(image, size, endian), Wire(value, endian));
    WireArrayNext(both, |image|, size, endian, i);
    assert both[..|image|] == image && both[..|image| + size] == both && both[|image|..|image| + size] == value;
  }

  lemma NothingDone(s: State, m: seq<byte>)
    requires s.Shape()
    ensures Wrote(s, s, m, m, 0, []) && Took(s, s, m, 0, [])
  {
    ShapeGives(s);
  }

  /** Padding and then the values make one write, and leave the buffer in order. */
  lemma ArrayWritten(s: State, t: State, v: State, m0: seq<byte>, m1: seq<byte>, pad: nat, wire: seq<byte>,
      count: nat, size: nat)
    requires s.Valid() && size in {2, 4, 8} && |wire| == BytesIn(count, size)
    requires Advanced(s, t, pad) && Wrote(t, v, m0, m1, 0, wire)
    requires !s.error ==> pad == Padding(s.offset, size)
    ensures Wrote(s, v, m0, m1, Padding(s.offset, size), wire)
    ensures v.lastDataSize == size ==> v.Valid()
  {
    hide Padding, AlignedTo, BytesIn, Advanced, Wrote, State.Valid;
    WriteAfterPadding(s, t, v, m0, m1, pad, wire);
    WrittenWhere(s, v, m0, m1, pad, Padding(s.offset, size), wire);
    AlignedAfterArray(s.offset, count, size);
    if v.lastDataSize == size {
      ValidAfter(s, v, Padding(s.offset, size) + |wire|);
    }
  }

  lemma ArrayTaken(s: State, t: State, v: State, m: seq<byte>, pad: nat, wire: seq<byte>, count: nat, size: nat)
    requires s.Valid() && size in {2, 4, 8} && Advanced(s, t, pad) && Advanced(t, v, BytesIn(count, size))
    requires !s.error ==> pad == Padding(s.offset, size)
    requires !v.error ==> |wire| == BytesIn(count, size) && Took(t, v, m, 0, wire)
    ensures Advanced(s, v, Padding(s.offset, size) + BytesIn(count, size))
    ensures !v.error ==> Took(s, v, m, Padding(s.offset, size), wire)
    ensures v.lastDataSize == size ==> v.Valid()
  {
    hide Padding, AlignedTo, BytesIn, Advanced, Took, State.Valid;
    AdvancesCompose(s, t, v, pad, BytesIn(count, size));
    AdvancedWhere(s, v, pad + BytesIn(count, size), Padding(s.offset, size) + BytesIn(count, size));
    if !v.error {
      TakeAfterPadding(s, t, v, m, pad, wire);
      TakenWhere(s, v, m, pad, Padding(s.offset, size), wire);
    }
    AlignedAfterArray(s.offset, count, size);
    if v.lastDataSize == size {
      ValidAfter(s, v, Padding(s.offset, size) + BytesIn(count, size));
    }
  }

  lemma HeldWithin(m: seq<byte>, path: seq<nat>, at: nat, s: seq<byte>, first: nat, n: nat)
    requires Holds(m, path, at, s) && first + n <= |s|
    ensures Holds(m, path, at + first, s[first..first + n]) && at + |s| <= |path|
  {
    forall i | at + first <= i < at + first + n
      ensures path[i] < |m| && m[path[i]] == s[first..first + n][i - at - first]
    {
      assert s[first..first + n][i - at - first] == s[i - at];
    }
  }

  /** Chunking does not matter: two readers whose paths hold the same bytes ahead, however they
      are cut into areas, take the same value and move their offsets by the same amount. */
  lemma ChunkingDoesNotMatter(s: State, t: State, m: seq<byte>, s': State, t': State, m': seq<byte>, pad: nat,
      a: seq<byte>, a': seq<byte>, ahead: seq<byte>)
    requires Took(s, t, m, pad, a) && Took(s', t', m', pad, a') && |a| == |a'| && pad + |a| <= |ahead|
    requires Holds(m, s.path, s.pos, ahead) && Holds(m', s'.path, s'.pos, ahead)
    requires !s.error && !s'.error
    ensures !t.error && !t'.error && a == a' && t.offset - s.offset == t'.offset - s'.offset
  {
    hide State.Shape, Holds;
    HeldWithin(m, s.path, s.pos, ahead, pad, |a|);
    HeldWithin(m', s'.path, s'.pos, ahead, pad, |a|);
    HoldsIsUnique(m, s.path, s.pos + pad, a, ahead[pad..pad + |a|]);
    HoldsIsUnique(m', s'.path, s'.pos + pad, a', ahead[pad..pad + |a|]);
  }

  /** The bytes ahead of a writer once `data` is written behind `pad` of them. */
  function Overwritten(ahead: seq<byte>, pad: nat, data: seq<byte>): seq<byte>
    requires pad + |data| <= |ahead|
  {
    ahead[..pad] + data + ahead[pad + |data|..]
  }

  lemma WriterLeaves(s: State, t: State, m0: seq<byte>, m1: seq<byte>, pad: nat, data: seq<byte>, ahead: seq<byte>)
    requires s.Shape() && !s.error && Wrote(s, t, m0, m1, pad, data)
    requires Holds(m0, s.path, s.pos, ahead) && pad + |data| <= |ahead|
    ensures !t.error && t.offset == s.offset + pad + |data| && Holds(m1, s.path, s.pos, Overwritten(ahead, pad, data))
  {
    ShapeGives(s);
    hide State.Shape, NoDuplicates, SameExcept, Overwritten;
    OverwrittenIsHeld(m0, m1, s.path, s.pos, pad, data, ahead);
  }

  lemma OverwrittenIsHeld(m0: seq<byte>, m1: seq<byte>, path: seq<nat>, pos: nat, pad: nat, data: seq<byte>,
      ahead: seq<byte>)
    requires NoDuplicates(path) && Holds(m0, path, pos, ahead) && pad + |data| <= |ahead|
    requires Holds(m1, path, pos + pad, data) && SameExcept(m0, m1, path, pos + pad, pos + pad + |data|)
    ensures Holds(m1, path, pos, Overwritten(ahead, pad, data))
  {
    var end, after := pos + pad + |data|, Overwritten(ahead, pad, data);
    forall i | pos <= i < pos + |after|
      ensures path[i] < |m1| && m1[path[i]] == after[i - pos]
    {
      if i < pos + pad || end <= i {
        assert !Within(path, pos + pad, end, path[i]);
      }
    }
  }

  /** The same for writers: two of them whose paths hold the same bytes ahead, however they are
      cut into areas, leave the same bytes there and move their offsets by the same amount. */
  lemma ChunkedWritersAgree(s: State, t: State, m0: seq<byte>, m1: seq<byte>, s': State, t': State,
      m0': seq<byte>, m1': seq<byte>,
      pad: nat, data: seq<byte>, ahead: seq<byte>)
    requires s.Shape() && !s.error && Wrote(s, t, m0, m1, pad, data)
    requires s'.Shape() && !s'.error && Wrote(s', t', m0', m1', pad, data)
    requires Holds(m0, s.path, s.pos, ahead) && Holds(m0', s'.path, s'.pos, ahead) && pad + |data| <= |ahead|
    ensures !t.error && !t'.error && t.offset - s.offset == t'.offset - s'.offset
    ensures exists after :: |after| == |ahead| && Holds(m1, s.path, s.pos, after) && Holds(m1', s'.path, s'.pos, after)
  {
    hide State.Shape, Wrote, Holds;
    WriterLeaves(s, t, m0, m1, pad, data, ahead);
    WriterLeaves(s', t', m0', m1', pad, data, ahead);
    assert |Overwritten(ahead, pad, data)| == |ahead|;
  }

  class UcdrBuffer {
    var mem: array<byte>
    var init: nat
    var fin: nat
    var iterator_: nat
    var origin: nat
    var offset: nat
    var endianness: Endianness
    var lastDataSize: nat
    var error: bool
    var chain: seq<Area>
    ghost var path: seq<nat>
    ghost var pos: nat
    ghost var minArea: nat

    ghost function St(): State
      reads this
    {
      State(mem.Length, init, fin, iterator_, origin, offset, endianness, lastDataSize, error, chain, path, pos, minArea)
    }

    /** ucdr_init_buffer_origin_offset_endian on a fresh buffer */
    constructor (mem: array<byte>, data: nat, size: nat, origin: nat, offset: nat, endianness: Endianness)
      requires data + size <= mem.Length && offset <= size
      ensures St().Valid() && !error && this.mem == mem
      ensures this.offset == origin + offset && this.endianness == endianness
      ensures path == Range(data + offset, data + size) && pos == 0 && chain == [] && lastDataSize == 0
      ensures iterator_ == data + offset && fin == data + size
    {
      this.mem := mem;
      init, fin, iterator_ := data, data + size, data + offset;
      this.origin, this.offset, this.endianness := origin, origin + offset, endianness;
      lastDataSize, error, chain := 0, false, [];
      path, pos, minArea := Range(data + offset, data + size), 0, 0;
      new;
      SingleArea(data + offset, data + size, mem.Length);
    }

    /** ucdr_init_buffer_origin_offset */
    method InitBuffer(mem: array<byte>, data: nat, size: nat, origin: nat, offset: nat)
      requires data + size <= mem.Length && offset <= size
      modifies this
      ensures St().Valid() && !error && this.mem == mem && this.offset == origin + offset && endianness == MACHINE
      ensures path == Range(data + offset, data + size) && pos == 0 && chain == [] && lastDataSize == 0
      ensures init == data && iterator_ == data + offset && fin == data + size
    {
      hide Linked, NoDuplicates, AreasFit, Range;
      this.mem := mem;
      init := data;
      fin := data + size;
      iterator_ := data + offset;
      this.origin := origin;
      this.offset := origin + offset;
      endianness := MACHINE;
      lastDataSize := 0;
      error := false;
      chain := [];
      path := Range(data + offset, data + size);
      pos := 0;
      minArea := 0;
      SingleArea(data + offset, data + size, mem.Length);
    }

    /** ucdr_set_on_full_buffer_callback */
    method SetOnFullBuffer(answers: seq<Area>, ghost minArea: nat)
      requires St().Valid() && endianness == MACHINE
      requires AreasFit(answers, mem.Length, minArea)
      requires NoDuplicates(Ahead(iterator_, fin, answers))
      modifies this`chain, this`minArea, this`path, this`pos
      ensures St().Valid() && chain == answers && this.minArea == minArea
      ensures path == Ahead(iterator_, fin, answers) && pos == 0
    {
      hide NoDuplicates, AreasFit, Linked, Ahead;
      chain := answers;
      path := Ahead(iterator_, fin, answers);
      pos := 0;
      this.minArea := minArea;
      LinkedFresh(iterator_, fin, answers);
    }

    /** ucdr_reset_buffer_offset: back to a byte of the current area; the areas to come stay. */
    method ResetBufferOffset(offset: nat)
      requires St().Valid() && offset <= fin - init && NoDuplicates(Ahead(init + offset, fin, chain))
      modifies this`iterator_, this`offset, this`lastDataSize, this`error, this`path, this`pos
      ensures St().Valid() && !error && lastDataSize == 0
      ensures this.offset == origin + offset && path == Ahead(init + offset, fin, chain) && pos == 0
    {
      hide NoDuplicates, AreasFit, Ahead, Linked;
      iterator_ := init + offset;
      this.offset := origin + offset;
      lastDataSize := 0;
      error := false;
      path := Ahead(init + offset, fin, chain);
      pos := 0;
      LinkedFresh(init + offset, fin, chain);
    }

    /** ucdr_buffer_alignment */
    function BufferAlignment(size: nat): nat
      requires size in {1, 2, 4, 8}
      reads this
    {
      if size > lastDataSize then Padding(offset % 0x1_0000_0000, size) else 0
    }

    /** The alignment shortcut is exact: skipping the computation when the last value was at
        least as large gives the padding of the CDR rule. */
    lemma AlignmentShortcutIsExact(size: nat)
      requires St().Valid() && !error && size in {1, 2, 4, 8}
      ensures BufferAlignment(size) == Padding(offset, size)
    {
      hide State.Shape;
      PaddingOfLowWord(offset, size);
      if size <= lastDataSize {
        AlignedNeedsNoPadding(offset, lastDataSize, size);
      }
    }

    /** The padding that the next value of this size will get. */
    method GetAlignment(size: nat) returns (alignment: nat)
      requires St().Valid() && size in {1, 2, 4, 8}
      ensures !error ==> alignment == Padding(offset, size)
    {
      if !error {
        AlignmentShortcutIsExact(size);
      }
      alignment := BufferAlignment(size);
    }

    /** ucdr_align_to */
    method AlignTo(size: nat)
      requires St().Valid() && size in {1, 2, 4, 8}
      modifies this`offset, this`iterator_, this`pos, this`lastDataSize
      ensures St().Valid() && lastDataSize == size
      ensures !error ==> offset == old(offset) + Padding(old(offset), size)
      ensures !error && iterator_ < fin ==> pos == old(pos) + Padding(old(offset), size)
    {
      hide Padding, AlignedTo, Linked, AreasFit, NoDuplicates;
      AlignedAfter(offset, size);
      var alignment := GetAlignment(size);
      var n := if iterator_ + alignment > fin then fin - iterator_ else alignment;
      LinkedStep(path, pos, iterator_, fin, chain, n);
      offset := offset + alignment;
      iterator_ := iterator_ + n;
      pos := pos + n;
      lastDataSize := size;
    }

    predicate AvailableFor(bytes: nat)
      reads this
    {
      !error && iterator_ + bytes <= fin
    }

    /** The on-full callback */
    method OnFull() returns (failed: bool)
      modifies this
      ensures failed == (old(chain) == []) && mem == old(mem)
      ensures St() == if failed then old(St()) else old(St()).Handed()
    {
      failed := chain == [];
      if !failed {
        var area := chain[0];
        init := area.from;
        iterator_ := area.from;
        fin := area.to;
        origin := offset;
        endianness := MACHINE;
        lastDataSize := 0;
        error := false;
        chain := chain[1..];
      }
    }

    /** ucdr_check_final_buffer_behavior */
    method CheckFinal() returns (ok: bool)
      modifies this
      ensures ok == !error && mem == old(mem)
      ensures St() == old(St()).Checked()
    {
      if !error && iterator_ >= fin {
        var failed := OnFull();
        error := failed;
      }
      ok := !error;
    }

    /** ucdr_check_final_buffer_behavior_array */
    method CheckFinalArray(bytes: nat) returns (n: nat)
      requires St().Shape()
      modifies this
      ensures mem == old(mem) && iterator_ <= fin
      ensures St() == if bytes > 0 then old(St()).Checked() else old(St())
      ensures n == if error then 0 else if bytes <= fin - iterator_ then bytes else fin - iterator_
      ensures n == 0 <==> error || bytes == 0
      ensures St().Shape() && (old(error) ==> error)
    {
      CheckedIsGood(St());
      ShapeGives(St().Checked());
      if bytes > 0 {
        var _ := CheckFinal();
      }
      n := if error then 0 else if bytes <= fin - iterator_ then bytes else fin - iterator_;
    }

    /** The iterator and the offset move over n bytes of the current area. */
    method Step(n: nat)
      modifies this`iterator_, this`offset, this`pos
      ensures St() == old(St()).Stepped(n)
    {
      iterator_ := iterator_ + n;
      offset := offset + n;
      pos := pos + n;
    }

    /** ucdr_advance_buffer */
    method AdvanceBuffer(size: nat)
      requires St().Shape()
      modifies this
      ensures Advanced(old(St()), St(), size) && St().Valid() && lastDataSize == 1 && mem == old(mem)
      ensures old(AvailableFor(size)) ==> iterator_ == old(iterator_) + size && fin == old(fin) && chain == old(chain)
    {
      hide State.Shape, State.Checked, State.Valid, Advanced;
      ghost var s := St();
      if AvailableFor(size) {
        SteppedIsGood(s, size);
        Step(size);
      } else {
        var remaining := size;
        StartAdvancing(s, size);
        var n: nat := CheckFinalArray(remaining);
        while n > 0
          invariant mem == old(mem) && 0 <= remaining <= size && St().Shape()
          invariant Advanced(s, St(), if error then size else size - remaining)
          invariant n == 0 <==> error || remaining == 0
          invariant n <= remaining && iterator_ + n <= fin
          decreases remaining
        {
          KeepAdvancing(s, St(), size - remaining, n, size);
          remaining := remaining - n;
          Step(n);
          n := CheckFinalArray(remaining);
        }
      }
      LabelKeeps(s, St(), size, 1);
      lastDataSize := 1;
      AdvancedIsValid(s, St(), size);
    }

    /** memcpy to consecutive bytes of memory, which the path visits from index `at` on */
    method Poke(to: nat, data: seq<byte>, ghost at: nat)
      requires to + |data| <= mem.Length
      requires Runs(path, at, to, |data|)
      modifies mem
      ensures Holds(mem[..], path, at, data)
      ensures SameExcept(old(mem[..]), mem[..], path, at, at + |data|)
    {
      forall i | 0 <= i < |data| {
        mem[to + i] := data[i];
      }
      RunCovers(path, at, at + |data|, to);
    }

    /** memcpy to the iterator, which then steps over what was written */
    method CopyIn(data: seq<byte>)
      requires St().Shape() && St().Available(|data|)
      modifies mem, this`iterator_, this`offset, this`pos
      ensures St() == old(St()).Stepped(|data|) && St().Shape()
      ensures Wrote(old(St()), St(), old(mem[..]), mem[..], 0, data)
    {
      ghost var s, m0 := St(), mem[..];
      ShapeGives(s);
      PathRunsThroughArea(s);
      SteppedIsGood(s, |data|);
      hide State.Shape, Holds, SameExcept, NoDuplicates;
      Poke(iterator_, data, pos);
      ShapeGives(s.Stepped(|data|));
      WidenWritten(m0, mem[..], path, pos, pos + |data|, pos, |path|);
      Step(|data|);
    }

    /** memcpy from the iterator, which then steps over what was read */
    method CopyOut(n: nat) returns (data: seq<byte>)
      requires St().Shape() && St().Available(n)
      modifies this`iterator_, this`offset, this`pos
      ensures St() == old(St()).Stepped(n) && St().Shape()
      ensures |data| == n && Took(old(St()), St(), mem[..], 0, data)
    {
      ghost var s := St();
      ShapeGives(s);
      PathRunsThroughArea(s);
      SteppedIsGood(s, n);
      hide State.Shape;
      data := mem[iterator_..iterator_ + n];
      assert Holds(mem[..], path, pos, data);
      hide Holds;
      Step(n);
    }

    /** ucdr_array_to_buffer */
    method ArrayToBuffer(array_: seq<byte>, dataSize: nat)
      requires St().Shape()
      modifies this, mem
      ensures Wrote(old(St()), St(), old(mem[..]), mem[..], 0, array_) && lastDataSize == dataSize && mem == old(mem)
    {
      hide State.Shape, State.Checked, Wrote, Writing;
      ghost var s, m0 := St(), mem[..];
      var size := |array_|;
      if AvailableFor(size) {
        CopyIn(array_);
        WroteLabel(s, St(), m0, mem[..], 0, array_, dataSize);
      } else {
        var remaining := size;
        StartWriting(s, m0, array_);
        var n: nat := CheckFinalArray(remaining);
        while n > 0
          invariant mem == old(mem) && 0 <= remaining <= size && St().Shape()
          invariant Writing(s, St(), m0, mem[..], size - remaining, array_)
          invariant n == 0 <==> error || remaining == 0
          invariant n <= remaining && iterator_ + n <= fin
          decreases remaining
        {
          ghost var t, m1 := St(), mem[..];
          var done := size - remaining;
          CopyIn(array_[done..done + n]);
          ghost var m2 := mem[..];
          assert St() == t.Stepped(n);
          KeepWriting(s, t, m0, m1, m2, done, n, array_);
          remaining := remaining - n;
          n := CheckFinalArray(remaining);
          assert mem[..] == m2;
        }
        DoneWriting(s, St(), m0, mem[..], size - remaining, array_, dataSize);
      }
      lastDataSize := dataSize;
    }

    /** ucdr_buffer_to_array; on an error the result holds what could be read */
    method BufferToArray(size: nat, dataSize: nat) returns (array_: seq<byte>)
      requires St().Shape()
      modifies this
      ensures !error ==> |array_| == size && Took(old(St()), St(), mem[..], 0, array_)
      ensures Advanced(old(St()), St(), size) && lastDataSize == dataSize && mem == old(mem)
      ensures |array_| <= size && (old(error) ==> array_ == [])
    {
      hide State.Shape, State.Checked, Took, Reading, Advanced;
      ghost var s := St();
      if AvailableFor(size) {
        array_ := CopyOut(size);
        TookAdvances(s, St(), mem[..], 0, array_);
        TookLabel(s, St(), mem[..], size, array_, dataSize);
      } else {
        var remaining := size;
        array_ := [];
        StartReading(s, mem[..], size);
        var n: nat := CheckFinalArray(remaining);
        while n > 0
          invariant mem == old(mem) && 0 <= remaining <= size && St().Shape()
          invariant |array_| == size - remaining && Reading(s, St(), mem[..], size, array_)
          invariant old(error) ==> array_ == [] && n == 0
          invariant n == 0 <==> error || remaining == 0
          invariant n <= remaining && iterator_ + n <= fin
          decreases remaining
        {
          ghost var t := St();
          var data := CopyOut(n);
          KeepReading(s, t, mem[..], size, array_, data);
          remaining := remaining - n;
          array_ := array_ + data;
          n := CheckFinalArray(remaining);
        }
        DoneReading(s, St(), mem[..], size, array_, dataSize);
      }
      lastDataSize := dataSize;
    }

    /** UCDR_SERIALIZE_BYTE_1 */
    method SerializeByte(value: byte) returns (ok: bool)
      requires St().Valid()
      modifies this, mem
      ensures St().Valid() && ok == !error && mem == old(mem)
      ensures Wrote(old(St()), St(), old(mem[..]), mem[..], 0, [value])
    {
      ValidGives(St());
      hide State.Shape, State.Valid, State.Checked, Wrote, Advanced;
      ghost var s, m0 := St(), mem[..];
      ByteFits(s);
      ok := CheckFinal();
      ghost var t := St();
      if ok {
        CopyIn([value]);
        WriteAfterPadding(s, t, St(), m0, mem[..], 0, [value]);
        WroteLabel(s, St(), m0, mem[..], 0, [value], 1);
        lastDataSize := 1;
      } else {
        FailedWrite(s, t, m0, [value]);
      }
      ValidAfterByte(s, St());
    }

    /** UCDR_DESERIALIZE_BYTE_1; on an error the caller's value stays as it was */
    method DeserializeByte(prior: byte) returns (ok: bool, value: byte)
      requires St().Valid()
      modifies this
      ensures St().Valid() && ok == !error && mem == old(mem)
      ensures Took(old(St()), St(), mem[..], 0, [value])
      ensures error ==> value == prior
    {
      ValidGives(St());
      hide State.Shape, State.Valid, State.Checked, Took, Advanced;
      ghost var s := St();
      ByteFits(s);
      value := prior;
      ok := CheckFinal();
      ghost var t := St();
      if ok {
        var data := CopyOut(1);
        value := data[0];
        assert data == [value];
        TakeAfterPadding(s, t, St(), mem[..], 0, [value]);
        TookLabel(s, St(), mem[..], 1, [value], 1);
        lastDataSize := 1;
      } else {
        FailedTake(s, t, mem[..], [value]);
      }
      ValidAfterByte(s, St());
    }

    method StepBack(n: nat)
      requires n <= iterator_ && n <= pos && n <= offset
      modifies this`iterator_, this`offset, this`pos
      ensures St() == old(St()).(iterator_ := old(iterator_) - n, offset := old(offset) - n, pos := old(pos) - n)
    {
      iterator_ := iterator_ - n;
      offset := offset - n;
      pos := pos - n;
    }

    /** The middle branch of UCDR_SERIALIZE_BYTE_N: the value starts in this area and ends in
        the next.  Only the machine byte order is supported here. */
    method SerializeOverBoundary(image: seq<byte>, last: nat)
      requires St().Shape() && Straddles(St(), |image|)
      modifies this, mem
      ensures Wrote(old(St()), St(), old(mem[..]), mem[..], 0, image) && mem == old(mem)
      ensures lastDataSize == if error then last else |image|
      ensures !error ==> old(chain) != [] && !old(error)
      ensures error ==> old(error) || old(chain) == []
    {
      hide State.Shape, State.Checked, Wrote, Advanced, Holds, SameExcept, Runs;
      ghost var s, m0 := St(), mem[..];
      BoundaryIsCrossed(s, |image|);
      var first, firstSize := iterator_, fin - iterator_;
      Step(firstSize);
      var ok := CheckFinal();
      ghost var u := St();
      if ok {
        var head, tail := image[..firstSize], image[firstSize..];
        Poke(first, head, s.pos);
        ghost var m1 := mem[..];
        CopyIn(tail);
        BoundaryWrite(s, u, St(), m0, m1, mem[..], head, tail);
        assert head + tail == image;
        WroteLabel(s, St(), m0, mem[..], 0, image, |image|);
        lastDataSize := |image|;
      } else {
        StepBack(firstSize);
        FailedWrite(s, St(), m0, image);
        WroteLabel(s, St(), m0, m0, 0, image, last);
        lastDataSize := last;
      }
    }

    method DeserializeOverBoundary(size: nat, last: nat) returns (image: seq<byte>)
      requires St().Shape() && Straddles(St(), size)
      modifies this
      ensures |image| == size && Took(old(St()), St(), mem[..], 0, image) && mem == old(mem)
      ensures lastDataSize == if error then last else size
      ensures !error ==> old(chain) != [] && !old(error)
    {
      hide State.Shape, State.Checked, Took, Advanced, Runs;
      ghost var s := St();
      BoundaryIsCrossed(s, size);
      var first, firstSize := iterator_, fin - iterator_;
      Step(firstSize);
      var ok := CheckFinal();
      ghost var u := St();
      if ok {
        var head := mem[first..first + firstSize];
        RunIsHeld(mem[..], s.path, s.pos, first, firstSize);
        var tail := CopyOut(size - firstSize);
        BoundaryRead(s, u, St(), mem[..], head, tail);
        image := head + tail;
        TookLabel(s, St(), mem[..], size, image, size);
        lastDataSize := size;
      } else {
        image := seq(size, i => 0);
        StepBack(firstSize);
        FailedTake(s, St(), mem[..], image);
        TookLabel(s, St(), mem[..], size, image, last);
        lastDataSize := last;
      }
    }

    /** The three branches of UCDR_SERIALIZE_BYTE_N once the padding is done. */
    method SerializeAligned(image: seq<byte>, endian: Endianness, last: nat)
      requires St().Shape() && |image| in {2, 4, 8} && iterator_ <= fin
      requires error || chain == [] || (St().Left() >= |image| && minArea >= |image|)
      requires endian == MACHINE || chain == [] || error || AvailableFor(|image|) || iterator_ == fin
      modifies this, mem
      ensures Wrote(old(St()), St(), old(mem[..]), mem[..], 0, Wire(image, endian)) && mem == old(mem)
      ensures lastDataSize == |image| || (error && lastDataSize in {last, old(lastDataSize)})
    {
      hide State.Shape, State.Checked, Wrote, Advanced, Wire;
      ghost var t, m0 := St(), mem[..];
      var size, wire := |image|, Wire(image, endian);
      MachineWire(image);
      if AvailableFor(size) {
        CopyIn(wire);
        WroteLabel(t, St(), m0, mem[..], 0, wire, size);
        lastDataSize := size;
      } else if fin > iterator_ {
        SerializeOverBoundary(image, last);
        if error {
          FailedWriteOf(t, St(), m0, mem[..], image, wire);
        }
      } else {
        NextAreaHasRoom(t, size);
        var available := CheckFinal();
        ghost var u := St();
        if available {
          CopyIn(wire);
          WriteAfterPadding(t, u, St(), m0, mem[..], 0, wire);
          WroteLabel(t, St(), m0, mem[..], 0, wire, size);
          lastDataSize := size;
        } else {
          FailedWrite(t, u, m0, wire);
        }
      }
    }

    /** The three branches of UCDR_DESERIALIZE_BYTE_N once the padding is done. */
    method DeserializeAligned(size: nat, endian: Endianness, last: nat) returns (data: seq<byte>)
      requires St().Shape() && size in {2, 4, 8} && iterator_ <= fin
      requires error || chain == [] || (St().Left() >= size && minArea >= size)
      requires endian == MACHINE || chain == [] || error || AvailableFor(size) || iterator_ == fin
      modifies this
      ensures |data| == size && Took(old(St()), St(), mem[..], 0, Wire(data, endian)) && mem == old(mem)
      ensures lastDataSize == size || (error && lastDataSize in {last, old(lastDataSize)})
    {
      hide State.Shape, State.Checked, Took, Advanced, Wire;
      ghost var t := St();
      if AvailableFor(size) {
        var wire := CopyOut(size);
        WireIsAnInvolution(wire, endian);
        data := Wire(wire, endian);
        TookLabel(t, St(), mem[..], size, wire, size);
        lastDataSize := size;
      } else if fin > iterator_ {
        data := DeserializeOverBoundary(size, last);
        MachineWire(data);
        if error {
          FailedTakeOf(t, St(), mem[..], 0, data, Wire(data, endian));
        }
      } else {
        NextAreaHasRoom(t, size);
        var available := CheckFinal();
        ghost var u := St();
        if available {
          var wire := CopyOut(size);
          WireIsAnInvolution(wire, endian);
          data := Wire(wire, endian);
          TakeAfterPadding(t, u, St(), mem[..], 0, wire);
          TookLabel(t, St(), mem[..], size, wire, size);
          lastDataSize := size;
        } else {
          data := seq(size, i => 0);
          FailedTake(t, u, mem[..], Wire(data, endian));
        }
      }
    }

    /** The padding in front of a value */
    method PadValue(size: nat) returns (last: nat, ghost alignment: nat)
      requires St().Valid() && size in {2, 4, 8} && St().RoomFor(size)
      modifies this
      ensures St().Shape() && iterator_ <= fin && mem == old(mem) && Advanced(old(St()), St(), alignment)
      ensures (!old(error) ==> alignment == Padding(old(offset), size)) && (old(error) ==> error)
      ensures error || chain == [] || (St().Left() >= size && minArea >= size)
      ensures old(St().InOneArea(size)) ==> error || AvailableFor(size) || iterator_ == fin
      ensures last in {0, 1, 2, 4, 8} && lastDataSize == 1 && (old(chain) == [] ==> chain == [])
    {
      ValidGives(St());
      hide State.Shape, State.Valid, State.RoomFor, State.InOneArea, Advanced, Padding;
      ghost var s := St();
      var n := GetAlignment(size);
      last, alignment := lastDataSize, n;
      AdvanceBuffer(n);
      AfterPadding(s, St(), n, size);
      AdvanceKeeps(s, St(), n);
      if s.InOneArea(size) {
        OneAreaAfterPadding(s, St(), n, size);
      }
    }

    /** UCDR_SERIALIZE_BYTE_N: pads by the alignment shortcut, then writes the value, over an
        area boundary if it has to.  In the other byte order a boundary may not cut the padding or
        the value (see module SwappedBytes). */
    method SerializeBasic(image: seq<byte>, endian: Endianness) returns (ok: bool)
      requires St().Valid() && |image| in {2, 4, 8}
      requires St().RoomFor(|image|) && (endian == MACHINE || chain == [] || error || St().InOneArea(|image|))
      modifies this, mem
      ensures St().Valid() && ok == !error && mem == old(mem)
      ensures Wrote(old(St()), St(), old(mem[..]), mem[..], Padding(old(offset), |image|), Wire(image, endian))
      ensures !error ==> lastDataSize == |image|
    {
      hide State.Shape, State.Valid, State.RoomFor, State.InOneArea, Wrote, Advanced, Padding, Wire;
      ghost var s, m0 := St(), mem[..];
      var last; ghost var alignment;
      last, alignment := PadValue(|image|);
      ghost var t := St();
      SerializeAligned(image, endian, last);
      BasicWritten(s, t, St(), m0, mem[..], alignment, Wire(image, endian));
      ok := !error;
    }

    /** UCDR_DESERIALIZE_BYTE_N; on an error the caller's value stays as it was */
    method DeserializeBasic(prior: seq<byte>, endian: Endianness) returns (ok: bool, image: seq<byte>)
      requires St().Valid() && |prior| in {2, 4, 8}
      requires St().RoomFor(|prior|) && (endian == MACHINE || chain == [] || error || St().InOneArea(|prior|))
      modifies this
      ensures St().Valid() && ok == !error && mem == old(mem) && |image| == |prior|
      ensures Took(old(St()), St(), mem[..], Padding(old(offset), |prior|), Wire(image, endian))
      ensures error ==> image == prior
      ensures !error ==> lastDataSize == |prior|
    {
      hide State.Shape, State.Valid, State.RoomFor, State.InOneArea, Took, Advanced, Padding, Wire;
      ghost var s := St();
      var last; ghost var alignment;
      last, alignment := PadValue(|prior|);
      ghost var t := St();
      image := DeserializeAligned(|prior|, endian, last);
      BasicTaken(s, t, St(), mem[..], alignment, Wire(image, endian));
      if error {
        FailedTakeOf(s, St(), mem[..], Padding(s.offset, |prior|), Wire(image, endian), Wire(prior, endian));
        image := prior;
      }
      ok := !error;
    }

    /** The padding in front of an array: ucdr_advance_buffer, without its change of the size of
        the last value. */
    method PadArray(size: nat) returns (ghost alignment: nat)
      requires St().Valid() && size in {2, 4, 8}
      modifies this
      ensures St().Valid() && mem == old(mem) && Advanced(old(St()), St(), alignment)
      ensures !old(error) ==> alignment == Padding(old(offset), size)
      ensures !error ==> AlignedTo(offset, size)
    {
      ValidGives(St());
      hide State.Shape, State.Valid, Advanced, Padding, AlignedTo;
      ghost var s := St();
      var n := GetAlignment(size);
      var last := lastDataSize;
      AdvanceBuffer(n);
      AfterArrayPadding(s, St(), n, size);
      lastDataSize := last;
      alignment := n;
    }

    /** UCDR_SERIALIZE_ARRAY_BYTE_N; `image` is the array in memory, `count` values of `size` bytes */
    method SerializeArray(image: seq<byte>, count: nat, size: nat, endian: Endianness) returns (ok: bool)
      requires St().Valid() && size in {2, 4, 8} && |image| == BytesIn(count, size)
      requires endian == MACHINE || chain == []
      modifies this, mem
      ensures St().Valid() && ok == !error && mem == old(mem)
      ensures Wrote(old(St()), St(), old(mem[..]), mem[..], Padding(old(offset), size), WireArray(image, size, endian))
    {
      ValidGives(St());
      hide State.Shape, State.Valid, Wrote, Advanced, Padding, BytesIn, WireArray, AlignedTo;
      ghost var s, m0 := St(), mem[..];
      ghost var alignment := PadArray(size);
      ghost var t := St();
      ValidGives(t);
      if endian == MACHINE {
        ArrayToBuffer(image, size);
        MachineArray(image, size);
        ArrayWritten(s, t, St(), m0, mem[..], alignment, image, count, size);
      } else {
        NoMoreAreas(s, t, alignment);
        SerializeEach(image, count, size, endian);
        ArrayWritten(s, t, St(), m0, mem[..], alignment, WireArray(image, size, endian), count, size);
      }
      ok := !error;
    }

    /** The loop of UCDR_SERIALIZE_ARRAY_BYTE_N for the other byte order. */
    method SerializeEach(image: seq<byte>, count: nat, size: nat, endian: Endianness)
      requires St().Valid() && size in {2, 4, 8} && |image| == BytesIn(count, size) && chain == []
      requires !error ==> AlignedTo(offset, size)
      modifies this, mem
      ensures St().Valid() && mem == old(mem)
      ensures Wrote(old(St()), St(), old(mem[..]), mem[..], 0, WireArray(image, size, endian))
    {
      ValidGives(St());
      hide State.Shape, State.Valid, Wrote, Advanced, Padding, BytesIn, WireArray, Wire, AlignedTo, NoDuplicates;
      ghost var t, m0 := St(), mem[..];
      NothingDone(t, m0);
      WireArrayOfNone(size, endian);
      NoBytes(size);
      var i, at := 0, 0;
      assert image[..at] == [];
      while i < count
        invariant 0 <= i <= count && at == BytesIn(i, size) <= |image| && mem == old(mem) && St().Valid() && chain == []
        invariant !error ==> AlignedTo(offset, size)
        invariant Wrote(t, St(), m0, mem[..], 0, WireArray(image[..at], size, endian))
      {
        BytesNext(i, count, size);
        SerializeElement(image, at, size, endian, t, m0, i);
        i := i + 1;
        at := at + size;
      }
      assert image[..at] == image;
    }

    /** The value at byte `at` of the array. */
    method SerializeElement(image: seq<byte>, at: nat, size: nat, endian: Endianness, ghost t: State,
        ghost m0: seq<byte>, ghost i: nat)
      requires St().Valid() && size in {2, 4, 8} && at == BytesIn(i, size)
      requires at + size <= |image| && chain == [] && t.Shape()
      requires !error ==> AlignedTo(offset, size)
      requires Wrote(t, St(), m0, mem[..], 0, WireArray(image[..at], size, endian))
      modifies this, mem
      ensures St().Valid() && mem == old(mem) && chain == []
      ensures !error ==> AlignedTo(offset, size)
      ensures Wrote(t, St(), m0, mem[..], 0, WireArray(image[..at + size], size, endian))
    {
      hide State.Shape, State.Valid, Wrote, Advanced, Padding, BytesIn, WireArray, Wire, AlignedTo;
      ghost var u, m1 := St(), mem[..];
      var _ := SerializeBasic(image[at..at + size], endian);
      ElementWritten(t, u, St(), m0, m1, mem[..], image, at, size, endian, i);
    }

    /** UCDR_DESERIALIZE_ARRAY_BYTE_N; on an error the result is what could be read */
    method DeserializeArray(count: nat, size: nat, endian: Endianness) returns (ok: bool, image: seq<byte>)
      requires St().Valid() && size in {2, 4, 8}
      requires endian == MACHINE || chain == []
      modifies this
      ensures St().Valid() && ok == !error && mem == old(mem)
      ensures Advanced(old(St()), St(), Padding(old(offset), size) + BytesIn(count, size))
      ensures ok ==> |image| == BytesIn(count, size) && Took(old(St()), St(), mem[..], Padding(old(offset), size), WireArray(image, size, endian))
    {
      ValidGives(St());
      hide State.Shape, State.Valid, Took, Advanced, Padding, BytesIn, WireArray, AlignedTo;
      ghost var s := St();
      ghost var alignment := PadArray(size);
      ghost var t := St();
      ValidGives(t);
      if endian == MACHINE {
        image := BufferToArray(BytesIn(count, size), size);
        MachineArray(image, size);
        ArrayTaken(s, t, St(), mem[..], alignment, image, count, size);
      } else {
        NoMoreAreas(s, t, alignment);
        image := DeserializeEach(count, size, endian);
        TookAdvances(t, St(), mem[..], 0, WireArray(image, size, endian));
        ArrayTaken(s, t, St(), mem[..], alignment, WireArray(image, size, endian), count, size);
      }
      ok := !error;
    }

    /** The loop of UCDR_DESERIALIZE_ARRAY_BYTE_N for the other byte order. */
    method DeserializeEach(count: nat, size: nat, endian: Endianness) returns (image: seq<byte>)
      requires St().Valid() && size in {2, 4, 8} && chain == []
      requires !error ==> AlignedTo(offset, size)
      modifies this
      ensures St().Valid() && mem == old(mem) && |image| == BytesIn(count, size)
      ensures Took(old(St()), St(), mem[..], 0, WireArray(image, size, endian))
    {
      ValidGives(St());
      hide State.Shape, State.Valid, Took, Advanced, Padding, BytesIn, WireArray, Wire, AlignedTo;
      ghost var t := St();
      NothingDone(t, mem[..]);
      WireArrayOfNone(size, endian);
      NoBytes(size);
      image := [];
      var i := 0;
      while i < count
        invariant 0 <= i <= count && |image| == BytesIn(i, size) && mem == old(mem) && St().Valid() && chain == []
        invariant !error ==> AlignedTo(offset, size)
        invariant Took(t, St(), mem[..], 0, WireArray(image, size, endian))
      {
        BytesNext(i, count, size);
        ghost var u := St();
        var _, value := DeserializeBasic(seq(size, k => 0), endian);
        ElementTaken(t, u, St(), mem[..], image, value, size, endian, i);
        image := image + value;
        i := i + 1;
      }
    }
  }

  lemma WireArrayOfNone(size: nat, endianness: Endianness)
    requires size > 0
    ensures WireArray([], size, endianness) == []
  {}

  lemma MachineArray(image: seq<byte>, size: nat)
    requires size > 0
    ensures WireArray(image, size, MACHINE) == image
  {}

  lemma NoMoreAreas(s: State, t: State, n: nat)
    requires Advanced(s, t, n)
    ensures |t.chain| <= |s.chain|
  {}
}
