/** Messages and their fragments in the log of what was sent. */
module FragmentChains {
  import opened Memory
  import opened ReliableRing
  import opened InputWindow

  /** Some message of log[first..end] is not an intermediate fragment. */
  ghost predicate HasEnd(kindOf: KindOf, log: seq<seq<byte>>, first: int, end: int)
    requires 0 <= first <= end <= |log|
  {
    exists j | first <= j < end :: !kindOf(log[j]).IntermediateFragment?
  }

  /** Fragments come in chains: after an intermediate fragment comes another fragment, no chain
      has more than `longest` of them, and each has bytes behind its subheader. */
  ghost predicate Chained(kindOf: KindOf, log: seq<seq<byte>>, longest: nat) {
    var holds :=
      && (forall k | 0 < k < |log| && kindOf(log[k]).NotFragmented? :: !kindOf(log[k - 1]).IntermediateFragment?)
      && (forall k, end | 0 <= k <= end <= |log| && end == k + longest :: HasEnd(kindOf, log, k, end))
      && (forall k | 0 <= k < |log| && !kindOf(log[k]).NotFragmented? :: |log[k]| > SUBHEADER_SIZE);
    holds
  }

  /** No message is cut at n: the first n entries end with a single message or a last fragment. */
  ghost predicate AtBoundary(kindOf: KindOf, log: seq<seq<byte>>, n: int) {
    0 <= n <= |log| && (n > 0 ==> !kindOf(log[n - 1]).IntermediateFragment?)
  }

  function FragmentBytes(message: seq<byte>): seq<byte> {
    if |message| >= SUBHEADER_SIZE then message[SUBHEADER_SIZE..] else []
  }

  /** The payloads of these fragments, one after the other. */
  function Joined(parts: seq<seq<byte>>): seq<byte> {
    if parts == [] then [] else FragmentBytes(parts[0]) + Joined(parts[1..])
  }

  lemma JoinedSlice(log: seq<seq<byte>>, first: int, end: int)
    requires 0 <= first < end <= |log|
    ensures Joined(log[first..end]) == FragmentBytes(log[first]) + Joined(log[first + 1..end])
  {
    assert log[first..end][0] == log[first] && log[first..end][1..] == log[first + 1..end];
  }

  /** Where the run of intermediate fragments that ends at n starts. */
  ghost function ChainStart(kindOf: KindOf, log: seq<seq<byte>>, n: int): (c: int)
    requires 0 <= n <= |log|
    ensures 0 <= c <= n
    decreases n
  {
    if n > 0 && kindOf(log[n - 1]).IntermediateFragment? then ChainStart(kindOf, log, n - 1) else n
  }

  /** The messages that the first n entries of the log complete, fragments put together. */
  ghost function Completed(kindOf: KindOf, log: seq<seq<byte>>, n: int): seq<seq<byte>>
    requires 0 <= n <= |log|
    decreases n
  {
    if n == 0 then []
    else match kindOf(log[n - 1])
      case NotFragmented => Completed(kindOf, log, n - 1) + [log[n - 1]]
      case IntermediateFragment => Completed(kindOf, log, n - 1)
      case LastFragment => Completed(kindOf, log, n - 1) + [Joined(log[ChainStart(kindOf, log, n - 1)..n])]
  }

  /** Intermediate fragments complete nothing. */
  lemma {:induction false} NothingCompleted(kindOf: KindOf, log: seq<seq<byte>>, first: int, n: int)
    requires AtBoundary(kindOf, log, first) && first <= n <= |log|
    requires forall k | first <= k < n :: kindOf(log[k]).IntermediateFragment?
    ensures Completed(kindOf, log, n) == Completed(kindOf, log, first)
    ensures ChainStart(kindOf, log, n) == first
    decreases n
  {
    if first < n {
      NothingCompleted(kindOf, log, first, n - 1);
    }
  }

  /** Whatever is sent later does not change what was completed before. */
  lemma {:induction false} CompletedIsStable(kindOf: KindOf, log: seq<seq<byte>>, more: seq<seq<byte>>, n: int)
    requires log <= more && 0 <= n <= |log|
    ensures Completed(kindOf, more, n) == Completed(kindOf, log, n)
    decreases n
  {
    hide Joined, ChainStart;
    if n > 0 {
      CompletedIsStable(kindOf, log, more, n - 1);
      StartIsStable(kindOf, log, more, n - 1);
      var c := ChainStart(kindOf, log, n - 1);
      assert more[c..n] == log[c..n];
    }
  }

  lemma {:induction false} StartIsStable(kindOf: KindOf, log: seq<seq<byte>>, more: seq<seq<byte>>, n: int)
    requires log <= more && 0 <= n <= |log|
    ensures ChainStart(kindOf, more, n) == ChainStart(kindOf, log, n)
    decreases n
  {
    if n > 0 {
      StartIsStable(kindOf, log, more, n - 1);
    }
  }

  /** Without fragments the messages are the log itself. */
  lemma {:induction false} CompletedUnfragmented(kindOf: KindOf, log: seq<seq<byte>>, n: int)
    requires 0 <= n <= |log| && forall k | 0 <= k < n :: kindOf(log[k]).NotFragmented?
    ensures Completed(kindOf, log, n) == log[..n]
    decreases n
  {
    if n > 0 {
      CompletedUnfragmented(kindOf, log, n - 1);
      assert log[..n] == log[..n - 1] + [log[n - 1]];
    }
  }

  /** The run of intermediate fragments that ends at n starts at a boundary. */
  lemma {:induction false} ChainFrom(kindOf: KindOf, log: seq<seq<byte>>, n: int) returns (c: int)
    requires 0 <= n <= |log|
    ensures c == ChainStart(kindOf, log, n) && AtBoundary(kindOf, log, c)
    ensures forall j | c <= j < n :: kindOf(log[j]).IntermediateFragment?
    decreases n
  {
    if n > 0 && kindOf(log[n - 1]).IntermediateFragment? {
      c := ChainFrom(kindOf, log, n - 1);
    } else {
      c := n;
    }
  }

  /** What was completed last: the entries from c on, alone or as a chain. */
  lemma LastCompleted(kindOf: KindOf, log: seq<seq<byte>>, longest: nat, n: int) returns (c: int)
    requires Chained(kindOf, log, longest) && AtBoundary(kindOf, log, n) && 0 < n
    ensures 0 <= c < n && AtBoundary(kindOf, log, c) && (kindOf(log[n - 1]).NotFragmented? ==> c == n - 1)
    ensures forall j | c <= j < n - 1 :: kindOf(log[j]).IntermediateFragment?
    ensures Completed(kindOf, log, n) ==
      Completed(kindOf, log, c) + [if kindOf(log[n - 1]).NotFragmented? then log[n - 1] else Joined(log[c..n])]
  {
    hide Joined;
    if kindOf(log[n - 1]).NotFragmented? {
      c := n - 1;
    } else {
      c := ChainFrom(kindOf, log, n - 1);
      NothingCompleted(kindOf, log, c, n - 1);
    }
  }

  /** Every entry of the log before a boundary is completed: a single message as it is, a fragment
      as part of its chain log[c..e]. */
  lemma {:induction false} EntryIsCompleted(kindOf: KindOf, log: seq<seq<byte>>, longest: nat, n: int, k: int)
      returns (i: int, c: int, e: int)
    requires Chained(kindOf, log, longest) && AtBoundary(kindOf, log, n) && 0 <= k < n
    ensures 0 <= c <= k < e <= n && i == |Completed(kindOf, log, k)| < |Completed(kindOf, log, n)|
    ensures kindOf(log[k]).NotFragmented? ==> Completed(kindOf, log, n)[i] == log[k]
    ensures !kindOf(log[k]).NotFragmented? ==>
      && Completed(kindOf, log, n)[i] == Joined(log[c..e])
      && AtBoundary(kindOf, log, c) && kindOf(log[e - 1]).LastFragment?
      && forall j | c <= j < e - 1 :: kindOf(log[j]).IntermediateFragment?
    decreases n
  {
    hide Joined, Completed, Chained;
    c := LastCompleted(kindOf, log, longest, n);
    if k >= c {
      NothingCompleted(kindOf, log, c, k);
      i, e := |Completed(kindOf, log, c)|, n;
    } else {
      i, c, e := EntryIsCompleted(kindOf, log, longest, c, k);
    }
  }
}
