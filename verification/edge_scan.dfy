/**
 * The edge store's swap-remove and the per-iteration scan over the live
 * edges: edges whose endpoints already share a label are dropped, every other
 * edge proposes merging its larger label into its smaller one.
 */
module EdgeScan {
  import opened Types
  import opened LabelTable

  /**
   * Removes slot `i` of the edge store: the last live edge is copied into
   * slot `i` and the live length drops by one.
   */
  function SwapRemove(s: seq<Edge>, i: nat): (r: seq<Edge>)
    requires i < |s|
    ensures |r| == |s| - 1
    ensures forall k :: 0 <= k < i ==> r[k] == s[k]
    ensures i < |r| ==> r[i] == s[|s| - 1]
    ensures forall k :: i < k < |r| ==> r[k] == s[k]
    ensures multiset(r) + multiset{s[i]} == multiset(s)
    ensures forall e :: e in r ==> e in s
    ensures forall e :: e in s ==> e in r || e == s[i]
  {
    if i == |s| - 1 then
      SwapRemoveLast(s);
      s[..i]
    else
      SwapRemoveInner(s, i);
      s[..i] + [s[|s| - 1]] + s[i + 1..|s| - 1]
  }

  lemma SwapRemoveLast(s: seq<Edge>)
    requires |s| > 0
    ensures s == s[..|s| - 1] + [s[|s| - 1]]
    ensures multiset(s[..|s| - 1]) + multiset{s[|s| - 1]} == multiset(s)
  {
  }

  lemma SwapRemoveInner(s: seq<Edge>, i: nat)
    requires i < |s| - 1
    ensures s == s[..i] + [s[i]] + s[i + 1..|s| - 1] + [s[|s| - 1]]
    ensures var r := s[..i] + [s[|s| - 1]] + s[i + 1..|s| - 1];
      && |r| == |s| - 1
      && (forall k :: 0 <= k < |r| && k != i ==> r[k] == s[k])
      && r[i] == s[|s| - 1]
    ensures multiset(s[..i] + [s[|s| - 1]] + s[i + 1..|s| - 1]) + multiset{s[i]} == multiset(s)
  {
    var a, x, b, y := s[..i], s[i], s[i + 1..|s| - 1], s[|s| - 1];
    assert s == a + [x] + b + [y];
    assert multiset(a + [x] + b + [y]) == multiset(a) + multiset{x} + multiset(b) + multiset{y};
    assert multiset(a + [y] + b) == multiset(a) + multiset{y} + multiset(b);
  }

  /**
   * `merge` is the merge map recorded from the cross-label edges `es`: each
   * such edge's larger label is a source whose target is at most its smaller
   * label, and every target is the smaller label of some edge with that
   * source, so it is the minimum over those edges.
   */
  ghost predicate RecordsMerges(t: Table, es: seq<Edge>, merge: map<Label, Label>)
  {
    && (forall e :: e in es ==> Labeled(t, e) && Hi(t, e) in merge && merge[Hi(t, e)] <= Lo(t, e))
    && (forall h :: h in merge ==> exists e :: e in es && Labeled(t, e) && Hi(t, e) == h && Lo(t, e) == merge[h])
  }

  /** The endpoints of `e` are labeled, with different labels. */
  predicate Cross(t: Table, e: Edge)
  {
    Labeled(t, e) && !SameLabel(t, e)
  }

  /**
   * Swap-removes edges at slot `i` for as long as the edge there joins two
   * nodes with the same label, so every edge moved into the slot is examined
   * in turn. Slots before `i` are untouched.
   */
  method PruneAt(live: seq<Edge>, i: nat, t: Table) returns (live': seq<Edge>)
    requires i <= |live|
    requires forall e :: e in live ==> Labeled(t, e)
    ensures i <= |live'| <= |live|
    ensures live'[..i] == live[..i]
    ensures multiset(live') <= multiset(live)
    ensures forall e :: e in live' ==> e in live
    ensures forall e :: e in live ==> e in live' || SameLabel(t, e)
    ensures forall e :: Cross(t, e) ==> multiset(live')[e] == multiset(live)[e]
    ensures i < |live'| ==> Cross(t, live'[i])
  {
    live' := live;
    while i < |live'| && SameLabel(t, live'[i])
      invariant i <= |live'| <= |live|
      invariant live'[..i] == live[..i]
      invariant multiset(live') <= multiset(live)
      invariant forall e :: e in live' ==> e in live
      invariant forall e :: e in live ==> e in live' || SameLabel(t, e)
      invariant forall e :: Cross(t, e) ==> multiset(live')[e] == multiset(live)[e]
      decreases |live'|
    {
      live' := SwapRemove(live', i);
    }
  }

  /**
   * Records the proposal `hi -> lo` in the merge map, keeping the smaller
   * target when `hi` already has one.
   */
  function RecordMerge(merge: map<Label, Label>, hi: Label, lo: Label): (r: map<Label, Label>)
    ensures r.Keys == merge.Keys + {hi}
    ensures hi in merge ==> r[hi] == if lo < merge[hi] then lo else merge[hi]
    ensures hi !in merge ==> r[hi] == lo
    ensures forall h :: h in merge && h != hi ==> r[h] == merge[h]
  {
    if hi !in merge then merge[hi := lo]
    else if lo < merge[hi] then merge[hi := lo]
    else merge
  }

  /** Recording the proposal of one more cross-label edge keeps the merge map in step. */
  lemma RecordsMergesSnoc(t: Table, es: seq<Edge>, merge: map<Label, Label>, e: Edge)
    requires Labeled(t, e)
    requires RecordsMerges(t, es, merge)
    ensures RecordsMerges(t, es + [e], RecordMerge(merge, Hi(t, e), Lo(t, e)))
  {
    var es', r := es + [e], RecordMerge(merge, Hi(t, e), Lo(t, e));
    forall h | h in r
      ensures exists f :: f in es' && Labeled(t, f) && Hi(t, f) == h && Lo(t, f) == r[h]
    {
      if h == Hi(t, e) && r[h] == Lo(t, e) {
        assert e in es';
      } else {
        var f :| f in es && Labeled(t, f) && Hi(t, f) == h && Lo(t, f) == merge[h];
        assert f in es';
      }
    }
  }

  /**
   * The edge store only ever loses edges, and only edges whose endpoints
   * share a label: every copy of a cross-label edge is kept.
   */
  ghost predicate Pruned(edges: seq<Edge>, t: Table, live: seq<Edge>)
    requires forall e :: e in edges ==> Labeled(t, e)
  {
    && multiset(live) <= multiset(edges)
    && (forall e :: e in live ==> e in edges)
    && (forall e :: e in edges ==> e in live || SameLabel(t, e))
    && (forall e :: Cross(t, e) ==> multiset(live)[e] == multiset(edges)[e])
  }

  /**
   * The first `i` slots of the store hold cross-label edges, whose proposals
   * `merge` records.
   */
  ghost predicate Proposed(t: Table, live: seq<Edge>, i: nat, merge: map<Label, Label>)
  {
    && i <= |live|
    && (forall e :: e in live[..i] ==> Cross(t, e))
    && RecordsMerges(t, live[..i], merge)
    && Descending(merge)
  }

  /** Pruning the store once more keeps it pruned with respect to the original edges. */
  lemma PrunedStep(edges: seq<Edge>, t: Table, live: seq<Edge>, live': seq<Edge>)
    requires forall e :: e in edges ==> Labeled(t, e)
    requires Pruned(edges, t, live)
    requires multiset(live') <= multiset(live)
    requires forall e :: e in live' ==> e in live
    requires forall e :: e in live ==> e in live' || SameLabel(t, e)
    requires forall e :: Cross(t, e) ==> multiset(live')[e] == multiset(live)[e]
    ensures Pruned(edges, t, live')
  {
  }

  /** Recording the proposal of the cross-label edge at slot `i` extends the scanned prefix by one. */
  lemma ProposedStep(t: Table, live: seq<Edge>, i: nat, merge: map<Label, Label>, live': seq<Edge>)
    requires Proposed(t, live, i, merge) && i < |live'|
    requires live'[..i] == live[..i]
    requires Cross(t, live'[i])
    ensures Proposed(t, live', i + 1, RecordMerge(merge, Hi(t, live'[i]), Lo(t, live'[i])))
  {
    TakeSnoc(live', i);
    RecordsMergesSnoc(t, live'[..i], merge, live'[i]);
  }

  /** Pruning beyond the scanned prefix leaves the prefix and its proposals alone. */
  lemma ProposedKeep(t: Table, live: seq<Edge>, i: nat, merge: map<Label, Label>, live': seq<Edge>)
    requires Proposed(t, live, i, merge) && i <= |live'|
    requires live'[..i] == live[..i]
    ensures Proposed(t, live', i, merge)
  {
  }

  lemma TakeSnoc(s: seq<Edge>, i: nat)
    requires i < |s|
    ensures s[..i + 1] == s[..i] + [s[i]]
  {
  }

  /**
   * One scan over the live edges. An edge whose endpoints carry the same
   * label is swap-removed and the edge moved into its slot is examined at the
   * same index; any other edge records `hi -> lo` in the merge map, keeping
   * the smallest `lo` per `hi`.
   */
  method ScanEdges(edges: seq<Edge>, t: Table) returns (live: seq<Edge>, merge: map<Label, Label>)
    requires forall e :: e in edges ==> Labeled(t, e)
    ensures multiset(live) <= multiset(edges)
    ensures forall e :: e in live ==> e in edges
    ensures forall e :: e in edges ==> e in live || SameLabel(t, e)
    ensures forall e :: Cross(t, e) ==> multiset(live)[e] == multiset(edges)[e]
    ensures forall e :: e in live ==> Cross(t, e)
    ensures RecordsMerges(t, live, merge)
    ensures Descending(merge)
  {
    live := edges;
    merge := map[];
    var i := 0;
    while i < |live|
      invariant Pruned(edges, t, live)
      invariant Proposed(t, live, i, merge)
      decreases |live| - i
    {
      var live' := PruneAt(live, i, t);
      PrunedStep(edges, t, live, live');
      if i == |live'| {
        ProposedKeep(t, live, i, merge, live');
        live := live';
        break;
      }
      ProposedStep(t, live, i, merge, live');
      live := live';
      merge := RecordMerge(merge, Hi(t, live[i]), Lo(t, live[i]));
      i := i + 1;
    }
    assert live[..i] == live;
  }
}
