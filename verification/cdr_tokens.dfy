/** CDR streams as lists of tokens: single values and blocks of bytes, each laid out from the
    offset where it comes.  Gaps are the padding bytes, which nobody writes. */
module CdrTokens {
  import opened Memory
  import opened MicroCdr

  datatype Token =
    | Basic(image: seq<byte>)  // a value of 1, 2, 4 or 8 bytes, by its memory image
    | Block(bytes: seq<byte>)

  datatype Cell = Gap | Octet(value: byte)

  ghost predicate GoodToken(token: Token) {
    token.Basic? ==> |token.image| in {1, 2, 4, 8}
  }

  ghost function PaddingOf(token: Token, offset: nat): nat
    requires GoodToken(token)
  {
    if token.Basic? then Padding(offset, |token.image|) else 0
  }

  ghost function BytesOf(token: Token, endianness: Endianness): seq<byte> {
    if token.Basic? then Wire(token.image, endianness) else token.bytes
  }

  ghost function Octets(bytes: seq<byte>): (cells: seq<Cell>)
    ensures |cells| == |bytes| && forall i | 0 <= i < |bytes| :: cells[i] == Octet(bytes[i])
  {
    seq(|bytes|, i requires 0 <= i < |bytes| => Octet(bytes[i]))
  }

  ghost function Gaps(n: nat): (cells: seq<Cell>)
    ensures |cells| == n && forall i | 0 <= i < n :: cells[i] == Gap
  {
    seq(n, i => Gap)
  }

  ghost function CellsOf(token: Token, offset: nat, endianness: Endianness): seq<Cell>
    requires GoodToken(token)
  {
    Gaps(PaddingOf(token, offset)) + Octets(BytesOf(token, endianness))
  }

  ghost predicate Good(tokens: seq<Token>) {
    forall token | token in tokens :: GoodToken(token)
  }

  /** The cells of a list of tokens, from the offset on. */
  ghost function Layout(tokens: seq<Token>, offset: nat, endianness: Endianness): seq<Cell>
    requires Good(tokens)
  {
    if tokens == [] then []
    else
      var cells := CellsOf(tokens[0], offset, endianness);
      cells + Layout(tokens[1..], offset + |cells|, endianness)
  }

  lemma {:induction false} LayoutConcat(a: seq<Token>, b: seq<Token>, offset: nat, endianness: Endianness)
    requires Good(a) && Good(b)
    ensures Good(a + b)
    ensures Layout(a + b, offset, endianness) == Layout(a, offset, endianness) + Layout(b, offset + |Layout(a, offset, endianness)|, endianness)
  {
    hide CellsOf;
    if a == [] {
      assert a + b == b;
    } else {
      var cells := CellsOf(a[0], offset, endianness);
      assert (a + b)[1..] == a[1..] + b;
      LayoutConcat(a[1..], b, offset + |cells|, endianness);
    }
  }

  /** The layout depends on the offset modulo 8 only. */
  lemma {:induction false} LayoutIsPeriodic(tokens: seq<Token>, offset: nat, offset': nat, endianness: Endianness)
    requires Good(tokens) && offset % 8 == offset' % 8
    ensures Layout(tokens, offset, endianness) == Layout(tokens, offset', endianness)
  {
    hide CellsOf;
    if tokens != [] {
      assert tokens[0] in tokens;
      CellsArePeriodic(tokens[0], offset, offset', endianness);
      var n := |CellsOf(tokens[0], offset, endianness)|;
      SumRemainder(offset, offset', n);
      LayoutIsPeriodic(tokens[1..], offset + n, offset' + n, endianness);
    }
  }

  lemma CellsArePeriodic(token: Token, offset: nat, offset': nat, endianness: Endianness)
    requires GoodToken(token) && offset % 8 == offset' % 8
    ensures CellsOf(token, offset, endianness) == CellsOf(token, offset', endianness)
  {
    hide Padding, Wire;
    if token.Basic? {
      PaddingIsPeriodic(offset, offset', |token.image|);
    }
  }

  lemma SumRemainder(x: nat, y: nat, n: nat)
    requires x % 8 == y % 8
    ensures (x + n) % 8 == (y + n) % 8
  {}

  lemma PaddingIsPeriodic(x: nat, y: nat, size: nat)
    requires x % 8 == y % 8 && size in {1, 2, 4, 8}
    ensures Padding(x, size) == Padding(y, size)
  {
    var p, q, r := x / 8, y / 8, x % 8;
    assert x == 8 * p + r && y == 8 * q + r;
    if size == 4 {
      LowBits(2 * p, r, 4);
      LowBits(2 * q, r, 4);
    } else if size == 2 {
      LowBits(4 * p, r, 2);
      LowBits(4 * q, r, 2);
    }
  }

  /** Memory along the path, from index `at` on, has the octets of these cells. */
  ghost predicate HoldsCells(m: seq<byte>, path: seq<nat>, at: nat, cells: seq<Cell>) {
    var holds :=
      && at + |cells| <= |path|
      && forall i | at <= i < at + |cells| :: cells[i - at].Octet? ==> path[i] < |m| && m[path[i]] == cells[i - at].value;
    holds
  }

  lemma CellsSplit(m: seq<byte>, path: seq<nat>, at: nat, a: seq<Cell>, b: seq<Cell>)
    requires HoldsCells(m, path, at, a + b)
    ensures HoldsCells(m, path, at, a) && HoldsCells(m, path, at + |a|, b)
  {
    forall i | at <= i < at + |a|
      ensures a[i - at].Octet? ==> path[i] < |m| && m[path[i]] == a[i - at].value
    {
      assert (a + b)[i - at] == a[i - at];
    }
    forall i | at + |a| <= i < at + |a| + |b|
      ensures b[i - at - |a|].Octet? ==> path[i] < |m| && m[path[i]] == b[i - at - |a|].value
    {
      assert (a + b)[i - at] == b[i - at - |a|];
    }
  }

  lemma OctetsAreHeld(m: seq<byte>, path: seq<nat>, at: nat, bytes: seq<byte>)
    requires HoldsCells(m, path, at, Octets(bytes))
    ensures Holds(m, path, at, bytes)
  {
    forall i | at <= i < at + |bytes|
      ensures path[i] < |m| && m[path[i]] == bytes[i - at]
    {
      assert Octets(bytes)[i - at].Octet?;
    }
  }

  /** What lies ahead of a buffer starts with these tokens. */
  ghost predicate Spells(s: State, m: seq<byte>, tokens: seq<Token>) {
    var holds :=
      && Good(tokens) && !s.error
      && HoldsCells(m, s.path, s.pos, Layout(tokens, s.offset, s.endianness));
    holds
  }

  lemma LayoutCons(token: Token, rest: seq<Token>, offset: nat, endianness: Endianness)
    requires GoodToken(token) && Good([token] + rest)
    ensures Good(rest)
    ensures var cells := CellsOf(token, offset, endianness);
      Layout([token] + rest, offset, endianness) == cells + Layout(rest, offset + |cells|, endianness)
  {
    var tokens := [token] + rest;
    assert tokens[0] == token && tokens[1..] == rest;
    assert forall x | x in rest :: x in tokens;
  }

  /** A value that was taken from where the tokens lie is the first token, and the rest of them
      lies ahead. */
  lemma TokenTaken(s: State, t: State, m: seq<byte>, token: Token, data: seq<byte>, rest: seq<Token>)
    requires GoodToken(token) && Spells(s, m, [token] + rest)
    requires |data| == |BytesOf(token, s.endianness)|
    requires Took(s, t, m, PaddingOf(token, s.offset), data)
    ensures !t.error && data == BytesOf(token, s.endianness) && Spells(t, m, rest)
  {
    hide Padding, Wire, State.Shape, NoDuplicates, HoldsCells, Good, Layout, Holds, PaddingOf, BytesOf;
    var pad, bytes := PaddingOf(token, s.offset), BytesOf(token, s.endianness);
    var cells := CellsOf(token, s.offset, s.endianness);
    LayoutCons(token, rest, s.offset, s.endianness);
    var more := Layout(rest, s.offset + |cells|, s.endianness);
    CellsFit(m, s.path, s.pos, cells + more);
    CellsSplit(m, s.path, s.pos, cells, more);
    CellsSplit(m, s.path, s.pos, Gaps(pad), Octets(bytes));
    OctetsAreHeld(m, s.path, s.pos + pad, bytes);
    HoldsIsUnique(m, s.path, s.pos + pad, data, bytes);
  }

  lemma CellsFit(m: seq<byte>, path: seq<nat>, at: nat, cells: seq<Cell>)
    requires HoldsCells(m, path, at, cells)
    ensures at + |cells| <= |path|
  {}

  /** What a writer did since it stood at `start` over memory `memory`. */
  datatype Log = Log(start: State, memory: seq<byte>, tokens: seq<Token>) {
    ghost function Add(more: seq<Token>): Log {
      this.(tokens := tokens + more)
    }
  }

  /** From its start to s the writer wrote these tokens and touched nothing else, or ran out of
      room and has the error. */
  ghost predicate Written(w: Log, s: State, m: seq<byte>) {
    var holds :=
      && Good(w.tokens)
      && var cells := Layout(w.tokens, w.start.offset, w.start.endianness);
      && Advanced(w.start, s, |cells|) && w.start.Shape()
      && SameExcept(w.memory, m, w.start.path, w.start.pos, if s.error then |w.start.path| else s.pos)
      && (!s.error ==> HoldsCells(m, w.start.path, w.start.pos, cells));
    holds
  }

  lemma NothingWrittenYet(s: State, m: seq<byte>)
    requires s.Shape()
    ensures Written(Log(s, m, []), s, m)
  {
    ShapeGives(s);
  }

  lemma AddIsAssociative(w: Log, a: seq<Token>, b: seq<Token>, rest: seq<Token>)
    ensures w.Add(a).Add(b) == w.Add(a + b) && (a + b) + rest == a + (b + rest)
    ensures w.Add([]) == w && [] + rest == rest
  {
    assert (w.tokens + a) + b == w.tokens + (a + b);
    assert w.tokens + [] == w.tokens;
  }

  /** Once a writer failed it does not matter what else it should have written. */
  lemma FailedAnyway(w: Log, s: State, m: seq<byte>, more: seq<Token>)
    requires Written(w, s, m) && s.error && Good(more)
    ensures Written(w.Add(more), s, m)
  {
    hide CellsOf, HoldsCells, SameExcept, State.Shape;
    LayoutConcat(w.tokens, more, w.start.offset, w.start.endianness);
  }

  lemma CellsJoin(m: seq<byte>, path: seq<nat>, at: nat, a: seq<Cell>, pad: nat, bytes: seq<byte>)
    requires HoldsCells(m, path, at, a) && Holds(m, path, at + |a| + pad, bytes)
    ensures HoldsCells(m, path, at, a + (Gaps(pad) + Octets(bytes)))
  {
    var b := Gaps(pad) + Octets(bytes);
    forall i | at <= i < at + |a + b|
      ensures (a + b)[i - at].Octet? ==> path[i] < |m| && m[path[i]] == (a + b)[i - at].value
    {
      if i < at + |a| {
        assert (a + b)[i - at] == a[i - at];
      } else {
        assert (a + b)[i - at] == b[i - at - |a|];
      }
    }
  }

  lemma CellsElsewhere(m: seq<byte>, n: seq<byte>, path: seq<nat>, at: nat, cells: seq<Cell>, from: nat, to: nat)
    requires NoDuplicates(path) && HoldsCells(m, path, at, cells) && SameExcept(m, n, path, from, to)
    requires at + |cells| <= from && to <= |path|
    ensures HoldsCells(n, path, at, cells)
  {
    forall i | at <= i < at + |cells|
      ensures cells[i - at].Octet? ==> path[i] < |n| && n[path[i]] == cells[i - at].value
    {
      assert !Within(path, from, to, path[i]);
    }
  }

  /** One more token: what was written before stays, and the new bytes lie behind it. */
  lemma TokenWritten(w: Log, s: State, t: State, m0: seq<byte>, m1: seq<byte>, token: Token)
    requires GoodToken(token) && Written(w, s, m0)
    requires Wrote(s, t, m0, m1, PaddingOf(token, s.offset), BytesOf(token, s.endianness))
    ensures Written(w.Add([token]), t, m1)
  {
    hide Padding, Wire, State.Shape, HoldsCells, Layout, PaddingOf, BytesOf, SameExcept, Holds, NoDuplicates, Advanced;
    WrittenMeans(w, s, m0);
    WroteMeans(s, t, m0, m1, PaddingOf(token, s.offset), BytesOf(token, s.endianness));
    if s.error {
      FailedWriteKeeps(w, s, t, m0, m1, PaddingOf(token, s.offset) + |BytesOf(token, s.endianness)|);
      FailedAnyway(w, t, m1, [token]);
    } else {
      var e, cells := w.start.endianness, Layout(w.tokens, w.start.offset, w.start.endianness);
      var pad, bytes := PaddingOf(token, s.offset), BytesOf(token, s.endianness);
      LayoutConcat(w.tokens, [token], w.start.offset, e);
      LayoutOfOne(token, s.offset, e);
      AdvancesCompose(w.start, s, t, |cells|, pad + |bytes|);
      if t.error {
        SameExceptWidens(w, s, m0, m1, s.pos, s.pos, |s.path|);
      } else {
        SameExceptWidens(w, s, m0, m1, s.pos, s.pos + pad, t.pos);
        CellsElsewhere(m0, m1, s.path, w.start.pos, cells, s.pos + pad, t.pos);
        CellsJoin(m1, s.path, w.start.pos, cells, pad, bytes);
      }
    }
  }

  lemma LayoutOfOne(token: Token, offset: nat, endianness: Endianness)
    requires GoodToken(token)
    ensures Layout([token], offset, endianness) == Gaps(PaddingOf(token, offset)) + Octets(BytesOf(token, endianness))
  {
    assert [token][1..] == [];
  }

  lemma WrittenMeans(w: Log, s: State, m: seq<byte>)
    requires Written(w, s, m)
    ensures Good(w.tokens)
    ensures var cells := Layout(w.tokens, w.start.offset, w.start.endianness);
      && Advanced(w.start, s, |cells|) && w.start.Shape() && s.Shape()
      && SameExcept(w.memory, m, w.start.path, w.start.pos, if s.error then |w.start.path| else s.pos)
      && s.path == w.start.path && s.endianness == w.start.endianness && w.start.pos <= s.pos && (w.start.error ==> s.error)
      && (!s.error ==> s.pos == w.start.pos + |cells| && s.offset == w.start.offset + |cells|)
      && (!s.error ==> HoldsCells(m, w.start.path, w.start.pos, cells))
      && s.pos <= |s.path|
  {
    ShapeGives(s);
  }

  lemma WroteMeans(s: State, t: State, m0: seq<byte>, m1: seq<byte>, pad: nat, bytes: seq<byte>)
    requires Wrote(s, t, m0, m1, pad, bytes)
    ensures Advanced(s, t, pad + |bytes|) && t.Shape() && NoDuplicates(t.path) && s.pos <= t.pos
    ensures t.path == s.path && (s.error ==> t.error) && SameExcept(m0, m1, s.path, s.pos, |s.path|)
    ensures !t.error ==> t.pos == s.pos + pad + |bytes| && t.pos <= |t.path|
    ensures !t.error ==> Holds(m1, s.path, s.pos + pad, bytes) && SameExcept(m0, m1, s.path, s.pos + pad, t.pos)
  {
    ShapeGives(t);
  }

  lemma SameExceptWidens(w: Log, s: State, m0: seq<byte>, m1: seq<byte>, end: nat, from: nat, to: nat)
    requires w.start.pos <= from <= to <= |s.path| && end <= to && s.path == w.start.path
    requires SameExcept(w.memory, m0, s.path, w.start.pos, end) && SameExcept(m0, m1, s.path, from, to)
    requires w.start.pos <= end
    ensures SameExcept(w.memory, m1, s.path, w.start.pos, to)
  {
    WidenWritten(w.memory, m0, s.path, w.start.pos, end, w.start.pos, to);
    WidenWritten(m0, m1, s.path, from, to, w.start.pos, to);
    SameExceptIsTransitive(w.memory, m0, m1, s.path, w.start.pos, to);
  }

  lemma FailedWriteKeeps(w: Log, s: State, t: State, m0: seq<byte>, m1: seq<byte>, n: nat)
    requires Written(w, s, m0) && s.error && t.error && t.Shape() && s.pos <= |s.path|
    requires SameExcept(m0, m1, s.path, s.pos, |s.path|)
    requires Advanced(s, t, n)
    ensures Written(w, t, m1)
  {
    hide State.Shape, NoDuplicates, HoldsCells, Layout;
    SameExceptWidens(w, s, m0, m1, |s.path|, s.pos, |s.path|);
  }
}
