/** The bytes of the variable-length queue: every message behind its 1 to 3 byte length. */
module LQueueFormat {
  import opened Memory

  type Message = s: seq<byte> | 0 < |s| < 0x1_0000 witness [0]

  function Pow256(k: nat): (p: nat)
    ensures p > 0
  {
    if k == 0 then 1 else 0x100 * Pow256(k - 1)
  }

  /** The length field: the top two bits of the first byte count the bytes that follow. */
  function Header(length: nat): (h: seq<byte>)
    requires 0 < length < 0x1_0000
    ensures 1 <= |h| <= 3
  {
    if length < 0x40 then [length]
    else if length < 0x4000 then [0x40 + length / 0x100, length % 0x100]
    else [0x80 + length / 0x1_0000, length / 0x100 % 0x100, length % 0x100]
  }

  /** A byte shifted left by k bytes. */
  function Shifted(b: nat, k: nat): nat {
    b * Pow256(k)
  }

  /** What a length is once its last k bytes are taken off. */
  ghost function Without(length: nat, k: nat): int {
    length - length % Pow256(k)
  }

  /** What the bytes of a length field say, the way decodeLength takes them. */
  lemma HeaderBytes(length: nat, j: nat)
    requires 0 < length < 0x1_0000 && j < |Header(length)|
    ensures var h := Header(length); var last := |h| - 1;
      && h[0] / 0x40 == last
      && Shifted(h[0] % 0x40, last) == Without(length, last)
      && (0 < j ==> Without(length, last - j + 1) + Shifted(h[j], last - j) == Without(length, last - j))
  {
    assert Pow256(1) == 0x100 && Pow256(2) == 0x1_0000;
    if |Header(length)| == 3 {
      assert length / 0x100 < 0x100;
    }
  }

  /** How long a field is, and what it says: the bytes behind its first six bits, most significant
      first. */
  lemma HeaderInNumbers(length: nat)
    requires 0 < length < 0x1_0000
    ensures var h := Header(length);
      && (|h| == 1 <==> length <= 63) && (|h| == 2 <==> 64 <= length <= 16383) && (|h| == 3 <==> 16384 <= length)
      && h[0] / 64 == |h| - 1 && FieldValue(h) == length
  {
    if length >= 16384 {
      assert length / 0x100 % 0x100 == length / 0x100;
      assert length / 0x1_0000 == 0;
    }
  }

  /** What a field of one to three bytes says. */
  function FieldValue(h: seq<byte>): nat
    requires 1 <= |h| <= 3
  {
    var first: nat := h[0] % 64;
    if |h| == 1 then first
    else
      var second: nat := h[1];
      if |h| == 2 then first * 256 + second else first * 65536 + second * 256 + h[2]
  }

  /** No field of this kind says the length in less bytes, and none of the same size says it otherwise. */
  lemma HeaderIsShortest(length: nat, h: seq<byte>)
    requires 0 < length < 0x1_0000 && 1 <= |h| <= 3 && h[0] / 64 == |h| - 1 && FieldValue(h) == length
    ensures |Header(length)| <= |h| && (|h| == |Header(length)| ==> h == Header(length))
  {
    HeaderInNumbers(length);
    if |h| == |Header(length)| {
      HeaderIsUnique(h, Header(length));
    }
  }

  lemma HeaderIsUnique(x: seq<byte>, y: seq<byte>)
    requires 1 <= |x| == |y| <= 3 && x[0] / 64 == y[0] / 64 && FieldValue(x) == FieldValue(y)
    ensures x == y
  {
    assert x[0] == 64 * (x[0] / 64) + x[0] % 64 && y[0] == 64 * (y[0] / 64) + y[0] % 64;
    if |x| > 1 {
      assert x[1] == y[1];
    }
  }

  /** The room that messages take in the ring. */
  function Taken(messages: seq<Message>): nat {
    if messages == [] then 0
    else
      (if |messages[0]| < 64 then 1 else if |messages[0]| < 16384 then 2 else 3) + |messages[0]| + Taken(messages[1..])
  }

  lemma {:induction false} FlatIsTaken(messages: seq<Message>)
    ensures |Flat(messages)| == Taken(messages)
  {
    if messages != [] {
      HeaderInNumbers(|messages[0]|);
      FlatIsTaken(messages[1..]);
    }
  }

  lemma WithoutNothing(length: nat)
    ensures Without(length, 0) == length
  {}

  function Encoded(message: Message): seq<byte> {
    Header(|message|) + message
  }

  function Flat(messages: seq<Message>): seq<byte> {
    if messages == [] then [] else Encoded(messages[0]) + Flat(messages[1..])
  }

  lemma NoMessagesNoBytes()
    ensures Flat([]) == []
  {}

  lemma FlatFirst(messages: seq<Message>)
    requires messages != []
    ensures Flat(messages) == Encoded(messages[0]) + Flat(messages[1..])
  {}

  lemma {:induction false} FlatOfTwo(a: seq<Message>, b: seq<Message>)
    ensures Flat(a + b) == Flat(a) + Flat(b)
  {
    hide Encoded, Flat;
    if a == [] {
      NoMessagesNoBytes();
      assert a + b == b;
    } else {
      FlatOfTwo(a[1..], b);
      FlatFirst(a);
      FlatFirst(a + b);
      assert (a + b)[1..] == a[1..] + b;
    }
  }

  lemma FlatOfOne(message: Message)
    ensures Flat([message]) == Encoded(message)
  {}

  lemma FlatTail(messages: seq<Message>, k: nat)
    requires k < |messages|
    ensures Flat(messages[k..]) == Encoded(messages[k]) + Flat(messages[k + 1..])
  {
    hide Encoded;
    assert messages[k..][0] == messages[k] && messages[k..][1..] == messages[k + 1..];
  }

  /** The first k messages, the next one, and the rest. */
  lemma FlatAt(messages: seq<Message>, k: nat)
    requires k < |messages|
    ensures Flat(messages) == Flat(messages[..k]) + Flat(messages[k..])
    ensures Flat(messages[k..]) == Encoded(messages[k]) + Flat(messages[k + 1..])
    ensures Flat(messages[..k + 1]) == Flat(messages[..k]) + Encoded(messages[k])
  {
    hide Flat, Encoded;
    FlatTail(messages, k);
    FlatOfTwo(messages[..k], messages[k..]);
    FlatOfTwo(messages[..k], [messages[k]]);
    FlatOfOne(messages[k]);
    assert messages == messages[..k] + messages[k..];
    assert messages[..k + 1] == messages[..k] + [messages[k]];
  }

  lemma {:induction false} FlatIsMonotone(messages: seq<Message>, j: nat, k: nat)
    requires j < k <= |messages|
    ensures |Flat(messages[..j])| + 2 <= |Flat(messages[..k])| <= |Flat(messages)|
    decreases |messages| - j
  {
    hide Flat, Header;
    FlatAt(messages, j);
    FlatOfTwo(messages[..k], messages[k..]);
    assert messages == messages[..k] + messages[k..];
    if j + 1 < k {
      FlatIsMonotone(messages, j + 1, k);
    }
  }

  /** Every queued message takes at least two bytes. */
  lemma {:induction false} TwoBytesEach(messages: seq<Message>)
    ensures 2 * |messages| <= |Flat(messages)|
  {
    if messages != [] {
      TwoBytesEach(messages[1..]);
    }
  }

  lemma HeaderIsInjective(x: nat, y: nat)
    requires 0 < x < 0x1_0000 && 0 < y < 0x1_0000 && Header(x) == Header(y)
    ensures x == y
  {
    var hx, hy := Header(x), Header(y);
    assert x == 0x100 * (x / 0x100) + x % 0x100 && y == 0x100 * (y / 0x100) + y % 0x100;
    assert x / 0x100 < 0x100 && y / 0x100 < 0x100;
    if |hx| == 3 {
      assert hx[1] == hy[1] && hx[2] == hy[2];
    } else if |hx| == 2 {
      assert hx[0] == hy[0] && hx[1] == hy[1];
    } else {
      assert hx[0] == hy[0];
    }
  }

  /** The length of a message can be read off its encoding, whatever follows. */
  lemma HeaderIsSelfDescribing(a: Message, b: Message, s: seq<byte>, t: seq<byte>)
    requires Encoded(a) + s == Encoded(b) + t
    ensures a == b && s == t
  {
    var x, y := Encoded(a) + s, Encoded(b) + t;
    var ha, hb := Header(|a|), Header(|b|);
    HeaderBytes(|a|, 0);
    HeaderBytes(|b|, 0);
    assert ha[0] == x[0] == y[0] == hb[0];
    assert |ha| == |hb|;
    assert forall i | 0 <= i < |ha| :: ha[i] == x[i] && hb[i] == y[i];
    HeaderIsInjective(|a|, |b|);
    assert a == x[|ha|..|ha| + |a|] && b == y[|hb|..|hb| + |b|];
    assert s == x[|ha| + |a|..] && t == y[|hb| + |b|..];
  }

  /** So the bytes of the queue determine its messages. */
  lemma {:induction false} FlatIsInjective(a: seq<Message>, b: seq<Message>)
    requires Flat(a) == Flat(b)
    ensures a == b
  {
    if a != [] && b != [] {
      HeaderIsSelfDescribing(a[0], b[0], Flat(a[1..]), Flat(b[1..]));
      FlatIsInjective(a[1..], b[1..]);
      assert a == [a[0]] + a[1..] && b == [b[0]] + b[1..];
    }
  }

  /** Index i steps after `start` in a ring of n bytes. */
  function At(n: nat, start: nat, i: nat): nat
    requires start < n && i <= n
  {
    if start + i < n then start + i else start + i - n
  }

  /** From `start` on the ring spells s. */
  ghost predicate RingHolds(m: seq<byte>, start: nat, s: seq<byte>) {
    start < |m| && |s| <= |m| && forall i | 0 <= i < |s| :: m[At(|m|, start, i)] == s[i]
  }

  lemma AtAdds(n: nat, start: nat, i: nat, j: nat)
    requires start < n && i + j <= n && i < n
    ensures At(n, start, i) < n && At(n, At(n, start, i), j) == At(n, start, i + j)
  {}

  lemma AtIsInside(n: nat, start: nat, i: nat)
    requires start < n && i <= n
    ensures At(n, start, i) < n
  {}

  lemma AtIsInjective(n: nat, start: nat, i: nat, j: nat)
    requires start < n && i < n && j < n && At(n, start, i) == At(n, start, j)
    ensures i == j
  {}

  /** The ring spells a, and right behind it b. */
  lemma RingParts(m: seq<byte>, start: nat, a: seq<byte>, b: seq<byte>)
    requires RingHolds(m, start, a + b) && |a| < |m|
    ensures RingHolds(m, start, a) && RingHolds(m, At(|m|, start, |a|), b)
  {
    forall i | 0 <= i < |a|
      ensures m[At(|m|, start, i)] == a[i]
    {
      assert (a + b)[i] == a[i];
    }
    forall i | 0 <= i < |b|
      ensures m[At(|m|, At(|m|, start, |a|), i)] == b[i]
    {
      AtAdds(|m|, start, |a|, i);
      assert (a + b)[|a| + i] == b[i];
    }
  }

  /** The bytes of message k of a queue that starts at `start`. */
  lemma RingMessage(m: seq<byte>, start: nat, messages: seq<Message>, k: nat)
    requires start < |m| && RingHolds(m, start, Flat(messages)) && |Flat(messages)| < |m| && k < |messages|
    ensures |Flat(messages[..k])| + |Encoded(messages[k])| == |Flat(messages[..k + 1])| <= |Flat(messages)|
    ensures var p := At(|m|, start, |Flat(messages[..k])|);
      var h := Header(|messages[k]|);
      && RingHolds(m, p, h) && |h| < |m|
      && RingHolds(m, At(|m|, p, |h|), messages[k])
      && |h| + |messages[k]| < |m|
      && RingHolds(m, At(|m|, start, |Flat(messages[..k + 1])|), Flat(messages[k + 1..]))
  {
    hide RingHolds, At, Flat, Header;
    FlatAt(messages, k);
    FlatIsMonotone(messages, k, k + 1);
    AtIsInside(|m|, start, |Flat(messages[..k])|);
    var before, h, message, rest := Flat(messages[..k]), Header(|messages[k]|), messages[k], Flat(messages[k + 1..]);
    RingParts(m, start, before, Flat(messages[k..]));
    var p := At(|m|, start, |before|);
    assert Flat(messages[k..]) == h + (message + rest);
    RingParts(m, p, h, message + rest);
    RingParts(m, At(|m|, p, |h|), message, rest);
    AtAdds(|m|, p, |h|, |message|);
    AtAdds(|m|, start, |before|, |h| + |message|);
  }
}
