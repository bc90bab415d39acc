/**
 * The connected-components driver: read the edges, give every node its own
 * label, then repeat scan / resolve / relabel rounds until a scan proposes no
 * merge, and report the final labels (or an error).
 */
module Driver {
  import opened Types
  import opened Graph
  import opened GraphInput
  import opened LabelTable
  import opened EdgeScan
  import opened MergeChains
  import opened Relabel
  import opened DriverProofs

  /** Some edge joins two distinct nodes. */
  predicate HasCrossEdge(es: seq<Edge>)
  {
    exists e :: e in es && e.u != e.v
  }

  /**
   * What holds between rounds: the table is sound for the original edges,
   * the live edges are original edges, every original edge that is no longer
   * live lies within one label, and a non-empty reverse index (which only
   * exists when it was asked for) agrees with the table.
   */
  ghost predicate Invariant(orig: seq<Edge>, t: Table, live: seq<Edge>, idx: set<IndexEntry>, useIndex: bool)
  {
    && LabelsInvariant(orig, t, live)
    && (idx != {} ==> Indexed(t, idx))
    && (!useIndex ==> idx == {})
  }

  /** The part of the invariant about the table and the live edges. */
  ghost predicate LabelsInvariant(orig: seq<Edge>, t: Table, live: seq<Edge>)
  {
    && Sound(orig, t)
    && (forall e :: e in live ==> e in orig)
    && (forall e :: e in orig ==> Labeled(t, e) && (e in live || SameLabel(t, e)))
  }

  /**
   * One round of the driver's loop: scan the live edges, and unless no merge
   * was proposed, resolve the merge chains and relabel the table. `merges` is
   * the number of merge sources and `k` the number of table entries
   * rewritten.
   */
  method Round(orig: seq<Edge>, t: Table, live: seq<Edge>, idx: set<IndexEntry>, useIndex: bool)
    returns (t': Table, live': seq<Edge>, idx': set<IndexEntry>, merges: nat, k: nat)
    requires Invariant(orig, t, live, idx, useIndex)
    ensures Invariant(orig, t', live', idx', useIndex)
    ensures merges == 0 ==> t' == t && forall e :: e in orig ==> SameLabel(t, e)
    ensures merges > 0 ==> k > 0 && t'.Values < t.Values
    ensures merges > 0 && (forall v :: v in t ==> t[v] == v) ==> HasCrossEdge(orig)
  {
    var merge;
    live', merge := ScanEdges(live, t);
    merges := |merge|;
    if merges == 0 {
      NoMergesAllPruned(orig, t, live', merge);
      t', idx', k := t, idx, 0;
      return;
    }
    t', idx', k := MergeRound(orig, t, live, live', merge, idx, useIndex);
  }

  /** The second half of a round that proposed merges: resolve the chains and relabel. */
  method MergeRound(orig: seq<Edge>, t: Table, live: seq<Edge>, live': seq<Edge>, merge: map<Label, Label>,
                    idx: set<IndexEntry>, useIndex: bool)
    returns (t': Table, idx': set<IndexEntry>, k: nat)
    requires Invariant(orig, t, live, idx, useIndex)
    requires forall e :: e in live' ==> e in live && Cross(t, e)
    requires forall e :: e in live ==> e in live' || SameLabel(t, e)
    requires RecordsMerges(t, live', merge) && Descending(merge) && |merge| > 0
    ensures Invariant(orig, t', live', idx', useIndex)
    ensures k > 0 && t'.Values < t.Values
    ensures (forall v :: v in t ==> t[v] == v) ==> HasCrossEdge(orig)
  {
    MergesJoinConnectedLabels(orig, t, live', merge);
    if forall v :: v in t ==> t[v] == v {
      FirstMergeNeedsCrossEdge(orig, t, live', merge);
    }
    var resolved := ResolveChains(merge);
    RoundEffects(orig, t, live, live', merge, resolved);
    t', idx', k := ApplyMerges(t, idx, resolved, useIndex);
  }

  /**
   * Relabels the table with one round of resolved merges: through the
   * reverse index when one exists, otherwise by a full table scan, which
   * also builds the index when it is asked for.
   */
  method ApplyMerges(t: Table, idx: set<IndexEntry>, resolved: map<Label, Label>, useIndex: bool)
    returns (t': Table, idx': set<IndexEntry>, k: nat)
    requires idx != {} ==> Indexed(t, idx)
    requires !useIndex ==> idx == {}
    requires Descending(resolved) && Compressed(resolved) && Populated(t, resolved)
    ensures t' == Apply(t, resolved)
    ensures k == |Moved(t, resolved)|
    ensures idx' != {} ==> Indexed(t', idx')
    ensures !useIndex ==> idx' == {}
  {
    if |idx| == 0 {
      t', k, idx' := RelabelScan(t, resolved, useIndex);
    } else {
      t', idx', k := RelabelIndexed(t, idx, resolved);
    }
  }

  /**
   * The relabeling that closes a round with merges keeps the invariant,
   * shrinks the labels in use and rewrites at least one entry.
   */
  lemma RoundEffects(orig: seq<Edge>, t: Table, live: seq<Edge>, live': seq<Edge>,
                     merge: map<Label, Label>, resolved: map<Label, Label>)
    requires LabelsInvariant(orig, t, live)
    requires forall e :: e in live' ==> e in live
    requires forall e :: e in live ==> e in live' || SameLabel(t, e)
    requires Descending(merge) && |merge| > 0
    requires forall h :: h in merge ==> Connected(orig, h, merge[h])
    requires forall h :: h in merge ==> h in t.Values && merge[h] in t.Values
    requires resolved.Keys == merge.Keys
    requires forall h :: h in resolved ==> resolved[h] == Root(merge, h)
    ensures LabelsInvariant(orig, Apply(t, resolved), live')
    ensures Apply(t, resolved).Values < t.Values
    ensures Populated(t, resolved)
    ensures |Moved(t, resolved)| > 0
  {
    RelabelKeepsSound(orig, t, merge, resolved);
    RelabelShrinksLabels(t, merge, resolved);
    RelabelKeepsPruned(orig, live', t, resolved);
    PopulatedMovesSome(t, resolved);
  }

  /**
   * The driver's loop. Every node starts as its own label; rounds repeat
   * until a scan proposes no merge. `j` counts the completed rounds and
   * `failed` is raised when a round rewrites no table entry, which the
   * source treats as an inconsistency. The loop always ends, never fails,
   * and leaves each node labeled with the smallest node of its component.
   */
  method Run(orig: seq<Edge>, useIndex: bool) returns (t: Table, j: nat, failed: bool)
    ensures !failed
    ensures ComponentLabeling(orig, t)
    ensures j == 0 <==> !HasCrossEdge(orig)
    ensures j <= |Nodes(orig)|
    ensures |orig| > 0 ==> j < |Nodes(orig)|
  {
    t := InitLabels(orig);
    InitialInvariant(orig, t);
    InitialLabelCount(orig, t);
    var live := orig;
    var idx: set<IndexEntry> := {};
    var rounds: int := 0;
    failed := false;
    while true
      invariant Invariant(orig, t, live, idx, useIndex)
      invariant 0 <= rounds
      invariant rounds == 0 ==> forall v :: v in t ==> t[v] == v
      invariant rounds > 0 ==> HasCrossEdge(orig)
      invariant rounds + |t.Values| <= |Nodes(orig)|
      invariant !failed
      decreases t.Values
    {
      var t', live', idx', merges, k := Round(orig, t, live, idx, useIndex);
      if merges == 0 {
        break;
      }
      ghost var before := t;
      t, live, idx := t', live', idx';
      // a round that rewrote nothing is reported as an error: the count drops to zero
      failed := k == 0;
      rounds := if failed then 0 else rounds + 1;
      if failed {
        break;
      }
      StrictSubsetSmaller(t.Values, before.Values);
    }
    j := rounds;
    if |orig| > 0 {
      SomeLabelRemains(orig, t);
    }
    FixedPointIsComponentLabeling(orig, t);
    if j == 0 {
      forall e | e in orig
        ensures e.u == e.v
      {
        assert Labeled(t, e);
      }
    }
  }

  /** The initial table, each node labeled by itself, satisfies the invariant. */
  lemma InitialInvariant(orig: seq<Edge>, t: Table)
    requires t.Keys == Nodes(orig)
    requires forall v :: v in t ==> t[v] == v
    ensures Invariant(orig, t, orig, {}, false) && Invariant(orig, t, orig, {}, true)
  {
    EndpointsLabeled(orig, t);
    forall v | v in t
      ensures Connected(orig, v, t[v])
    {
      ConnectedRefl(orig, v);
    }
  }

  /** In the initial table there are as many labels in use as there are nodes. */
  lemma InitialLabelCount(orig: seq<Edge>, t: Table)
    requires t.Keys == Nodes(orig)
    requires forall v :: v in t ==> t[v] == v
    ensures |t.Values| == |Nodes(orig)|
  {
    assert t.Values == t.Keys;
  }

  /** A table covering the nodes of a non-empty edge list has at least one label in use. */
  lemma SomeLabelRemains(orig: seq<Edge>, t: Table)
    requires |orig| > 0 && t.Keys == Nodes(orig)
    ensures |t.Values| > 0
  {
    assert orig[0].u in Nodes(orig);
    assert t[orig[0].u] in t.Values;
  }

  lemma StrictSubsetSmaller(a: set<Label>, b: set<Label>)
    requires a < b
    ensures |a| < |b|
  {
    var x :| x in b && x !in a;
    assert b == a + (b - a);
    assert x in b - a;
  }

  /** Why the program produced no labeling. */
  datatype Failure = NoBufferSize | NoEdges | ProcessingError

  /**
   * What the program reports: the final label of every node, or a failure.
   * `Overrun` marks a run of the program as written whose read went past the
   * capacity, which the model does not follow further.
   */
  datatype Outcome = Labels(table: Table) | Failed(why: Failure) | Overrun

  /**
   * The whole program with both corrections applied: the reader respects
   * the capacity, and only an inconsistent round is reported as a
   * processing error. An input made only of self-loops gets its labeling.
   */
  method Sccs(lines: seq<LineResult>, cap: nat, useIndex: bool) returns (out: Outcome)
    ensures cap == 0 ==> out == Failed(NoBufferSize)
    ensures cap > 0 && (!EndsAtEof(lines) || |ParsedEdges(lines)| == 0 || |ParsedEdges(lines)| > cap)
      ==> out == Failed(NoEdges)
    ensures cap > 0 && EndsAtEof(lines) && 0 < |ParsedEdges(lines)| <= cap
      ==> out.Labels? && ComponentLabeling(ParsedEdges(lines), out.table)
  {
    if cap == 0 {
      return Failed(NoBufferSize);
    }
    var edges := ReadGraph(lines, cap);
    if |edges| == 0 {
      return Failed(NoEdges);
    }
    var t, j, failed := Run(edges, useIndex);
    if failed {
      return Failed(ProcessingError);
    }
    return Labels(t);
  }

  /**
   * The whole program as written: the reader ignores the capacity, and a run
   * that completed no round (`j == 0`) is reported as a processing error,
   * which is exactly the case of an input with no edge between two distinct
   * nodes. Once the read has gone past the capacity the two edge arrays
   * overlap, and every later swap-remove writes through both of them; the
   * model does not follow such a run and reports `Overrun` instead, whether
   * the read then ended at end of file or on a hard error.
   */
  method SccsAsWritten(lines: seq<LineResult>, cap: nat, useIndex: bool) returns (out: Outcome)
    ensures cap == 0 ==> out == Failed(NoBufferSize)
    ensures cap > 0 && |ParsedEdges(lines)| <= cap && (!EndsAtEof(lines) || |ParsedEdges(lines)| == 0)
      ==> out == Failed(NoEdges)
    ensures cap > 0 && EndsAtEof(lines) && 0 < |ParsedEdges(lines)| <= cap && !HasCrossEdge(ParsedEdges(lines))
      ==> out == Failed(ProcessingError)
    ensures cap > 0 && EndsAtEof(lines) && |ParsedEdges(lines)| <= cap && HasCrossEdge(ParsedEdges(lines))
      ==> out.Labels? && ComponentLabeling(ParsedEdges(lines), out.table)
    ensures cap > 0 && |ParsedEdges(lines)| > cap ==> out == Overrun
  {
    if cap == 0 {
      return Failed(NoBufferSize);
    }
    var n, stored := ReadGraphAsWritten(lines, cap);
    if |stored| > cap {
      return Overrun;
    }
    if n == 0 {
      return Failed(NoEdges);
    }
    var t, j, failed := Run(stored, useIndex);
    if j == 0 {
      return Failed(ProcessingError);
    }
    return Labels(t);
  }

  /**
   * Two valid lines against a capacity of one, as written: the pairs read
   * back are (1, 3) and (3, 4), which join distinct nodes, and node 2 of the
   * input appears in neither of them.
   */
  lemma OverrunLosesNodeAsWritten()
    ensures var lines := [Pair(1, 2), Pair(3, 4), Eof];
      && EndsAtEof(lines)
      && |ParsedEdges(lines)| > 1
      && HasCrossEdge(Aliased(ParsedEdges(lines), 1))
      && 2 in Nodes(ParsedEdges(lines))
      && 2 !in Nodes(Aliased(ParsedEdges(lines), 1))
  {
    CapacityIgnoredAsWritten();
    OverrunAliasesAsWritten();
    var es := [Edge(1, 3), Edge(3, 4)];
    assert es[0] in es && es[0].u != es[0].v;
    assert Edge(1, 2) in [Edge(1, 2), Edge(3, 4)];
    assert Nodes(es) == {1, 3, 4};
  }

  /**
   * A single self-loop: a complete, well-formed input with a perfectly good
   * labeling (the node labeled by itself), which the program as written
   * reports as a processing error because no round ever merges anything.
   */
  lemma SelfLoopReportedAsError()
    ensures var lines := [Pair(7, 7), Eof];
      && EndsAtEof(lines)
      && ParsedEdges(lines) == [Edge(7, 7)]
      && !HasCrossEdge(ParsedEdges(lines))
      && ComponentLabeling(ParsedEdges(lines), map[7 := 7])
  {
    var lines := [Pair(7, 7), Eof];
    assert lines[1..] == [Eof];
    var es := [Edge(7, 7)];
    assert Nodes(es) == {7};
    FixedPointIsComponentLabeling(es, map[7 := 7]) by {
      ConnectedRefl(es, 7);
    }
  }
}
