/**
 * Reading the edge list (`read_graph`): one edge per input line, lines whose
 * values are out of range are skipped, any other failure aborts the read and
 * makes it report zero edges.
 */
module GraphInput {
  import opened Types

  /**
   * Reference definition of what a complete read collects: the parsed pairs,
   * in input order, up to the first end-of-file or hard error, skipping the
   * out-of-range lines.
   */
  function ParsedEdges(lines: seq<LineResult>): seq<Edge>
  {
    if |lines| == 0 then []
    else match lines[0]
      case Pair(a, b) => [Edge(a, b)] + ParsedEdges(lines[1..])
      case Overflow => ParsedEdges(lines[1..])
      case OtherError => []
      case Eof => []
  }

  /** The read stops on end of file rather than on a hard error. */
  predicate EndsAtEof(lines: seq<LineResult>)
  {
    if |lines| == 0 then true
    else match lines[0]
      case Pair(_, _) => EndsAtEof(lines[1..])
      case Overflow => EndsAtEof(lines[1..])
      case OtherError => false
      case Eof => true
  }

  /**
   * `read_graph` as written: the capacity `cap` is accepted but never
   * consulted, so every parsed pair is written, however many there are.
   * `stored` lists the pairs the loop writes, in order: pair `k` goes to
   * slot `k` of both arrays. Within the capacity that is what the arrays
   * hold; past it the slots alias (see `Memory` and `Aliased`). A skipped
   * out-of-range line is taken to write nothing. `n` is the returned count
   * (0 after a hard error).
   */
  method ReadGraphAsWritten(lines: seq<LineResult>, cap: nat) returns (n: nat, stored: seq<Edge>)
    ensures stored == ParsedEdges(lines)
    ensures EndsAtEof(lines) ==> n == |stored|
    ensures !EndsAtEof(lines) ==> n == 0
  {
    var pos := 0;
    var failed := false;
    stored := [];
    while pos < |lines|
      invariant 0 <= pos <= |lines|
      invariant stored + ParsedEdges(lines[pos..]) == ParsedEdges(lines)
      invariant EndsAtEof(lines[pos..]) == EndsAtEof(lines)
    {
      assert lines[pos..][0] == lines[pos] && lines[pos..][1..] == lines[pos + 1..];
      match lines[pos]
      case Pair(a, b) =>
        stored := stored + [Edge(a, b)];
        pos := pos + 1;
      case Overflow =>
        pos := pos + 1;
      case OtherError =>
        failed := true;
        break;
      case Eof =>
        break;
    }
    n := if failed then 0 else |stored|;
  }

  /**
   * `read_graph` with the capacity respected: reading a pair beyond the
   * capacity fails like any other hard error, so the caller sees zero edges
   * instead of a buffer overrun.
   */
  method ReadGraph(lines: seq<LineResult>, cap: nat) returns (edges: seq<Edge>)
    ensures |edges| <= cap
    ensures EndsAtEof(lines) && |ParsedEdges(lines)| <= cap ==> edges == ParsedEdges(lines)
    ensures !EndsAtEof(lines) || |ParsedEdges(lines)| > cap ==> edges == []
  {
    var pos := 0;
    var failed := false;
    var full := false;
    var buf: seq<Edge> := [];
    while pos < |lines|
      invariant 0 <= pos <= |lines|
      invariant |buf| <= cap
      invariant buf + ParsedEdges(lines[pos..]) == ParsedEdges(lines)
      invariant EndsAtEof(lines[pos..]) == EndsAtEof(lines)
      invariant !failed && !full
    {
      assert lines[pos..][0] == lines[pos] && lines[pos..][1..] == lines[pos + 1..];
      match lines[pos]
      case Pair(a, b) =>
        if |buf| == cap {
          full := true;
          break;
        }
        buf := buf + [Edge(a, b)];
        pos := pos + 1;
      case Overflow =>
        pos := pos + 1;
      case OtherError =>
        failed := true;
        break;
      case Eof =>
        break;
    }
    edges := if failed || full then [] else buf;
  }

  /**
   * The edge buffer as the program lays it out: one block of `2 * cap`
   * words, the first array starting at word 0 and the second at word `cap`.
   * Writing pair `k` sets word `k` to its first value and then word
   * `cap + k` to its second. `Memory(stored, cap)` is the last value written
   * to each word, treating memory past the block as plain memory. Only the
   * pairs are written: a skipped out-of-range line is taken to write nothing.
   */
  function Memory(stored: seq<Edge>, cap: nat): (m: map<nat, u32>)
    ensures forall k :: 0 <= k < |stored| ==> k in m
    ensures forall a :: cap <= a < cap + |stored| ==> a in m
    ensures forall a :: a in m ==> a < |stored| || cap <= a < cap + |stored|
    decreases |stored|
  {
    if |stored| == 0 then map[]
    else
      var i := |stored| - 1;
      Memory(stored[..i], cap)[i := stored[i].u][cap + i := stored[i].v]
  }

  /** The pairs the program reads back: the first array's slot `k` and the second's. */
  function Aliased(stored: seq<Edge>, cap: nat): (es: seq<Edge>)
    ensures |es| == |stored|
  {
    var m := Memory(stored, cap);
    seq(|stored|, k requires 0 <= k < |stored| => Edge(m[k], m[cap + k]))
  }

  /** Every write lands inside the `2 * cap`-word block exactly when there are at most `cap` pairs. */
  lemma WritesWithinBuffer(stored: seq<Edge>, cap: nat)
    ensures (forall a :: a in Memory(stored, cap) ==> a < 2 * cap) <==> |stored| <= cap
  {
    if |stored| > cap {
      assert cap + |stored| - 1 in Memory(stored, cap);
    }
  }

  /** Within the capacity no word is written twice, so each array slot keeps its own value. */
  lemma {:induction false} MemoryWithinCapacity(stored: seq<Edge>, cap: nat)
    requires |stored| <= cap
    ensures forall k :: 0 <= k < |stored| ==> Memory(stored, cap)[k] == stored[k].u
    ensures forall k :: 0 <= k < |stored| ==> Memory(stored, cap)[cap + k] == stored[k].v
    decreases |stored|
  {
    if |stored| > 0 {
      var i := |stored| - 1;
      MemoryWithinCapacity(stored[..i], cap);
    }
  }

  /** Within the capacity the arrays hold exactly the pairs written. */
  lemma AliasedWithinCapacity(stored: seq<Edge>, cap: nat)
    requires |stored| <= cap
    ensures Aliased(stored, cap) == stored
  {
    MemoryWithinCapacity(stored, cap);
  }

  /**
   * Two valid lines against a capacity of one: the second pair's first
   * value lands on the second array's slot 0, and its second value on
   * word 2, past the two-word block. The program then reads back the pairs
   * (1, 3) and (3, 4).
   */
  lemma OverrunAliasesAsWritten()
    ensures var stored := ParsedEdges([Pair(1, 2), Pair(3, 4), Eof]);
      && stored == [Edge(1, 2), Edge(3, 4)]
      && 2 in Memory(stored, 1)
      && Aliased(stored, 1) == [Edge(1, 3), Edge(3, 4)]
  {
    TwoPairsParsed();
    var stored := [Edge(1, 2), Edge(3, 4)];
    OverrunMemory();
    var es := Aliased(stored, 1);
    assert es[0] == Edge(1, 3);
    assert es[1] == Edge(3, 4);
  }

  lemma TwoPairsParsed()
    ensures ParsedEdges([Pair(1, 2), Pair(3, 4), Eof]) == [Edge(1, 2), Edge(3, 4)]
  {
    var lines := [Pair(1, 2), Pair(3, 4), Eof];
    assert lines[1..] == [Pair(3, 4), Eof];
    assert lines[1..][1..] == [Eof];
  }

  lemma OverrunMemory()
    ensures Memory([Edge(1, 2), Edge(3, 4)], 1) == map[0 := 1, 1 := 3, 2 := 4]
  {
    var stored := [Edge(1, 2), Edge(3, 4)];
    assert stored[..1] == [Edge(1, 2)];
    assert [Edge(1, 2)][..0] == [];
    assert Memory([Edge(1, 2)], 1) == map[0 := 1, 1 := 2];
  }

  /**
   * Two valid lines against a capacity of one: the as-written reader counts
   * both, so it stores an edge at index 1 of arrays that hold one edge.
   */
  lemma CapacityIgnoredAsWritten()
    ensures var lines := [Pair(1, 2), Pair(3, 4), Eof];
      EndsAtEof(lines) && |ParsedEdges(lines)| == 2
  {
    var lines := [Pair(1, 2), Pair(3, 4), Eof];
    assert lines[1..] == [Pair(3, 4), Eof];
    assert lines[1..][1..] == [Eof];
  }
}
