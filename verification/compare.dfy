/**
 * The labeling cross-check: two labelings (node -> label tables) are read,
 * the first is sorted by node and the second by label, and for every group
 * of nodes that the second labeling puts together, the check confirms that
 * the first labeling also puts them together.
 */
module Compare {
  import opened Types

  /** One line of a labeling: a node and the label it was assigned. */
  datatype Entry = Entry(node: u32, scc: u32)

  // ---------------------------------------------------------------------
  // Reading a labeling
  // ---------------------------------------------------------------------

  /**
   * Reads a labeling: every line up to end of file must hold two values in
   * range. Unlike the edge reader, an out-of-range value is not skipped: it
   * stops the read and the read fails.
   */
  function ReadSccs(lines: seq<LineResult>): Option<seq<Entry>>
  {
    if |lines| == 0 then Some([])
    else match lines[0]
      case Pair(a, b) =>
        (match ReadSccs(lines[1..])
          case None => None
          case Some(rest) => Some([Entry(a, b)] + rest))
      case Eof => Some([])
      case Overflow => None
      case OtherError => None
  }

  /** Line `i` is the first line that is not a pair, and it is a failure rather than end of file. */
  ghost predicate FailsAt(lines: seq<LineResult>, i: nat)
  {
    && i < |lines|
    && (lines[i].Overflow? || lines[i].OtherError?)
    && forall k :: 0 <= k < i ==> lines[k].Pair?
  }

  /**
   * The read fails exactly when some line before the end of file is not a
   * valid pair; otherwise it returns the pairs before the end of file, in
   * input order.
   */
  lemma {:induction false} ReadSccsSpec(lines: seq<LineResult>)
    ensures ReadSccs(lines).None? <==> exists i :: FailsAt(lines, i)
    ensures ReadSccs(lines).Some? ==>
      var es := ReadSccs(lines).value;
      && |es| <= |lines|
      && (forall k :: 0 <= k < |es| ==> lines[k] == Pair(es[k].node, es[k].scc))
      && (|es| < |lines| ==> lines[|es|] == Eof)
    decreases |lines|
  {
    if |lines| > 0 {
      var tail := lines[1..];
      ReadSccsSpec(tail);
      match lines[0]
      case Pair(a, b) =>
        if i: nat :| FailsAt(tail, i) {
          assert tail[i] == lines[i + 1];
          assert forall k :: 1 <= k < i + 1 ==> lines[k] == tail[k - 1];
          assert FailsAt(lines, i + 1);
        }
        if i: nat :| FailsAt(lines, i) {
          assert i != 0;
          assert forall k :: 0 <= k < i - 1 ==> tail[k] == lines[k + 1];
          assert FailsAt(tail, i - 1);
        }
      case Eof =>
        if i: nat :| FailsAt(lines, i) {
          assert i == 0;
        }
      case Overflow =>
        assert FailsAt(lines, 0);
      case OtherError =>
        assert FailsAt(lines, 0);
    }
  }

  /**
   * Writing a labeling out one pair per line, followed by end of file, as the
   * components program prints its result. It is the inverse of `ReadSccs`
   * that `ReadRender` uses.
   */
  function Render(es: seq<Entry>): (lines: seq<LineResult>)
    ensures |lines| == |es| + 1
  {
    if |es| == 0 then [Eof] else [Pair(es[0].node, es[0].scc)] + Render(es[1..])
  }

  /** Reading back a rendered labeling gives the labeling. */
  lemma {:induction false} ReadRender(es: seq<Entry>)
    ensures ReadSccs(Render(es)) == Some(es)
    decreases |es|
  {
    if |es| > 0 {
      ReadRender(es[1..]);
      assert Render(es)[1..] == Render(es[1..]);
      assert [es[0]] + es[1..] == es;
    }
  }

  // ---------------------------------------------------------------------
  // Sorting
  // ---------------------------------------------------------------------

  /** The two sort orders: the first labeling by node, the second by label. */
  datatype Order = ByNode | ByLabel

  function Key(e: Entry, o: Order): u32
  {
    match o
    case ByNode => e.node
    case ByLabel => e.scc
  }

  /** Keys are non-decreasing (entries with equal keys may come in any order). */
  predicate Sorted(s: seq<Entry>, o: Order)
  {
    forall i, j :: 0 <= i < j < |s| ==> Key(s[i], o) <= Key(s[j], o)
  }

  function Insert(x: Entry, s: seq<Entry>, o: Order): (r: seq<Entry>)
    requires Sorted(s, o)
    ensures Sorted(r, o)
    ensures multiset(r) == multiset{x} + multiset(s)
    ensures forall e :: e in r ==> e == x || e in s
  {
    if |s| == 0 then [x]
    else if Key(x, o) <= Key(s[0], o) then [x] + s
    else
      var rest := Insert(x, s[1..], o);
      assert forall k :: 0 <= k < |rest| ==> Key(s[0], o) <= Key(rest[k], o) by {
        forall k | 0 <= k < |rest|
          ensures Key(s[0], o) <= Key(rest[k], o)
        {
          assert rest[k] in rest;
        }
      }
      assert s == [s[0]] + s[1..];
      [s[0]] + rest
  }

  /**
   * Sorts by the key of `o`. The source's sort is not stable, so it may order
   * entries with equal keys differently; everything below is stated for any
   * sorted permutation, and this one is only the witness the model uses.
   */
  function SortBy(s: seq<Entry>, o: Order): (r: seq<Entry>)
    ensures Sorted(r, o)
    ensures multiset(r) == multiset(s)
  {
    if |s| == 0 then []
    else
      assert s == [s[0]] + s[1..];
      Insert(s[0], SortBy(s[1..], o), o)
  }

  // ---------------------------------------------------------------------
  // Looking a node up in the first labeling
  // ---------------------------------------------------------------------

  /**
   * Binary search for the first position in `s[lo..hi]` whose node is not
   * below `x`, knowing that everything before `lo` is below `x` and nothing
   * from `hi` on is.
   */
  function LowerBound(s: seq<Entry>, x: u32, lo: nat, hi: nat): (r: nat)
    requires Sorted(s, ByNode) && lo <= hi <= |s|
    requires forall i :: 0 <= i < lo ==> s[i].node < x
    requires forall i :: hi <= i < |s| ==> x <= s[i].node
    ensures lo <= r <= hi
    ensures forall i :: 0 <= i < r ==> s[i].node < x
    ensures forall i :: r <= i < |s| ==> x <= s[i].node
    decreases hi - lo
  {
    if lo == hi then lo
    else
      var mid := lo + (hi - lo) / 2;
      if s[mid].node < x then LowerBound(s, x, mid + 1, hi)
      else LowerBound(s, x, lo, mid)
  }

  /**
   * The label the first labeling gives `x`: the entry the binary search
   * lands on, if its node is `x`. That is the first entry for `x` in the
   * sorted order; there is none exactly when `x` is absent.
   */
  function Find(s1: seq<Entry>, x: u32): Option<u32>
    requires Sorted(s1, ByNode)
  {
    var y := LowerBound(s1, x, 0, |s1|);
    if y < |s1| && s1[y].node == x then Some(s1[y].scc) else None
  }

  /**
   * The lookup finds nothing exactly when no entry has node `x`; otherwise it
   * yields the first entry for `x` in the sorted order.
   */
  lemma FindSpec(s1: seq<Entry>, x: u32)
    requires Sorted(s1, ByNode)
    ensures Find(s1, x).None? <==> forall i :: 0 <= i < |s1| ==> s1[i].node != x
    ensures Find(s1, x).Some? ==> exists i :: 0 <= i < |s1| && s1[i] == Entry(x, Find(s1, x).value)
                                           && forall k :: 0 <= k < i ==> s1[k].node != x
  {
  }

  // ---------------------------------------------------------------------
  // The group scan
  // ---------------------------------------------------------------------

  /** How the scan ended: all groups consistent, a node missing from the first labeling, or a split group. */
  datatype Verdict = Consistent | NotFound(node: u32) | Mismatch(node: u32)

  /** What the first labeling says about each node of `s2`, entry by entry. */
  function Lookups(s1: seq<Entry>, s2: seq<Entry>): (ls: seq<Option<u32>>)
    requires Sorted(s1, ByNode)
    ensures |ls| == |s2|
    decreases |s2|
  {
    if |s2| == 0 then [] else [Find(s1, s2[0].node)] + Lookups(s1, s2[1..])
  }

  /** Entry `i` of the lookups is the lookup of the node of entry `i`. */
  lemma {:induction false} LookupsAt(s1: seq<Entry>, s2: seq<Entry>, i: nat)
    requires Sorted(s1, ByNode) && i < |s2|
    ensures Lookups(s1, s2)[i] == Find(s1, s2[i].node)
    decreases i
  {
    if i > 0 {
      LookupsAt(s1, s2[1..], i - 1);
    }
  }

  /**
   * Among the first `n` entries of `s2`, every node was found (`ls` holds
   * the lookups), and entries that share a label in `s2` were given the same
   * label.
   */
  ghost predicate AgreeUpTo(s2: seq<Entry>, ls: seq<Option<u32>>, n: nat)
    requires n <= |s2| == |ls|
  {
    && (forall i :: 0 <= i < n ==> ls[i].Some?)
    && (forall i, j :: 0 <= i < n && 0 <= j < n && s2[i].scc == s2[j].scc ==> ls[i] == ls[j])
  }

  /**
   * The grouping of `s2` refines the grouping of `s1` on the nodes of `s2`:
   * every node of `s2` is in `s1`, and nodes that share a label in `s2`
   * share one in `s1`.
   */
  ghost predicate Refines(s1: seq<Entry>, s2: seq<Entry>)
    requires Sorted(s1, ByNode)
  {
    AgreeUpTo(s2, Lookups(s1, s2), |s2|)
  }

  /** A label that differs from `first`: one more, wrapping around at 2^32 like `unsigned int`. */
  function Sentinel(first: u32): (r: u32)
    ensures r != first
    ensures first < 0xFFFF_FFFF ==> r > first
  {
    ((first as int + 1) % 0x1_0000_0000) as u32
  }

  /** A consistent prefix stays consistent when shortened. */
  lemma AgreeUpToShorter(s2: seq<Entry>, ls: seq<Option<u32>>, m: nat, n: nat)
    requires m <= n <= |s2| == |ls|
    requires AgreeUpTo(s2, ls, n)
    ensures AgreeUpTo(s2, ls, m)
  {
  }

  /**
   * Extending a consistent prefix by entry `i`, which was found: when `i`
   * opens a new label group, the prefix stays consistent; otherwise it stays
   * consistent exactly when `i` agrees with `g`, the first member of its
   * group.
   */
  lemma AgreeUpToStep(s2: seq<Entry>, ls: seq<Option<u32>>, i: nat, g: nat)
    requires Sorted(s2, ByLabel) && |s2| == |ls| && i < |s2| && g < i
    requires AgreeUpTo(s2, ls, i)
    requires ls[i].Some?
    requires s2[g].scc == s2[i - 1].scc
    ensures s2[i].scc != s2[i - 1].scc ==> AgreeUpTo(s2, ls, i + 1)
    ensures s2[i].scc == s2[i - 1].scc ==> (AgreeUpTo(s2, ls, i + 1) <==> ls[i] == ls[g])
  {
    if s2[i].scc != s2[i - 1].scc {
      forall j | 0 <= j < i
        ensures s2[j].scc != s2[i].scc
      {
        assert Key(s2[j], ByLabel) <= Key(s2[i - 1], ByLabel);
      }
    } else if ls[i] == ls[g] {
      forall j | 0 <= j < i && s2[j].scc == s2[i].scc
        ensures ls[j] == ls[i]
      {
        assert s2[j].scc == s2[g].scc;
      }
    }
  }

  /**
   * The state of the scan before entry `i`: the first `i` entries agree;
   * before the first entry the remembered label is the sentinel, which
   * differs from the first entry's label; afterwards it is the previous
   * entry's label, and `sccid1` is what the first labeling says about
   * `group`, the first member of the current group.
   */
  ghost predicate ScanState(s2: seq<Entry>, ls: seq<Option<u32>>, i: nat, sccid2: u32, sccid1: u32, group: nat)
  {
    && i <= |s2| == |ls|
    && AgreeUpTo(s2, ls, i)
    && (i == 0 ==> |s2| > 0 && sccid2 != s2[0].scc)
    && (i > 0 ==> group < i && sccid2 == s2[i - 1].scc && s2[group].scc == sccid2 && ls[group] == Some(sccid1))
  }

  /** An entry whose label differs from the remembered one opens a new group. */
  lemma ScanNewGroup(s2: seq<Entry>, ls: seq<Option<u32>>, i: nat, sccid2: u32, sccid1: u32, group: nat)
    requires Sorted(s2, ByLabel) && ScanState(s2, ls, i, sccid2, sccid1, group) && i < |s2|
    requires ls[i].Some? && s2[i].scc != sccid2
    ensures ScanState(s2, ls, i + 1, s2[i].scc, ls[i].value, i)
  {
    if i > 0 {
      AgreeUpToStep(s2, ls, i, group);
    }
  }

  /** An entry with the remembered label and the remembered first-labeling label extends the group. */
  lemma ScanSameGroup(s2: seq<Entry>, ls: seq<Option<u32>>, i: nat, sccid2: u32, sccid1: u32, group: nat)
    requires Sorted(s2, ByLabel) && ScanState(s2, ls, i, sccid2, sccid1, group) && i < |s2|
    requires ls[i] == Some(sccid1) && s2[i].scc == sccid2
    ensures ScanState(s2, ls, i + 1, sccid2, sccid1, group)
  {
    AgreeUpToStep(s2, ls, i, group);
  }

  /** An entry with the remembered label but another first-labeling label splits the group. */
  lemma ScanMismatch(s2: seq<Entry>, ls: seq<Option<u32>>, i: nat, sccid2: u32, sccid1: u32, group: nat)
    requires Sorted(s2, ByLabel) && ScanState(s2, ls, i, sccid2, sccid1, group) && i < |s2|
    requires ls[i].Some? && ls[i] != Some(sccid1) && s2[i].scc == sccid2
    ensures AgreeUpTo(s2, ls, i) && !AgreeUpTo(s2, ls, i + 1)
  {
    AgreeUpToStep(s2, ls, i, group);
  }

  /**
   * The group scan over `s2` (sorted by label) against `s1` (sorted by node):
   * each entry is looked up in `s1`; an entry whose label differs from the
   * previous one opens a new group and fixes the `s1` label the group must
   * have, and every later member must have that label. The scan stops at
   * the first node that is missing or disagrees.
   */
  method CheckLabelings(s1: seq<Entry>, s2: seq<Entry>) returns (v: Verdict)
    requires Sorted(s1, ByNode) && Sorted(s2, ByLabel)
    ensures v == Consistent <==> Refines(s1, s2)
    ensures v.NotFound? ==> exists i :: 0 <= i < |s2| && s2[i].node == v.node
                                      && Lookups(s1, s2)[i].None? && AgreeUpTo(s2, Lookups(s1, s2), i)
    ensures v.Mismatch? ==> exists i :: 0 <= i < |s2| && s2[i].node == v.node
                                      && Lookups(s1, s2)[i].Some?
                                      && AgreeUpTo(s2, Lookups(s1, s2), i)
                                      && !AgreeUpTo(s2, Lookups(s1, s2), i + 1)
  {
    if |s2| == 0 {
      return Consistent;
    }
    ghost var ls := Lookups(s1, s2);
    var sccid2 := Sentinel(s2[0].scc);
    var sccid1: u32 := 0;
    ghost var group: nat := 0;
    var i := 0;
    while i < |s2|
      invariant ScanState(s2, ls, i, sccid2, sccid1, group)
    {
      var x := s2[i];
      var y := Find(s1, x.node);
      LookupsAt(s1, s2, i);
      if y.None? {
        NotAgreeing(s2, ls, i + 1);
        return NotFound(x.node);
      }
      if x.scc != sccid2 {
        // a new group: remember what the first labeling says about it
        ScanNewGroup(s2, ls, i, sccid2, sccid1, group);
        sccid1 := y.value;
        sccid2 := x.scc;
        group := i;
      } else if y.value != sccid1 {
        ScanMismatch(s2, ls, i, sccid2, sccid1, group);
        NotAgreeing(s2, ls, i + 1);
        return Mismatch(x.node);
      } else {
        ScanSameGroup(s2, ls, i, sccid2, sccid1, group);
      }
      i := i + 1;
    }
    return Consistent;
  }

  /** An inconsistent prefix makes the whole scan inconsistent. */
  lemma NotAgreeing(s2: seq<Entry>, ls: seq<Option<u32>>, n: nat)
    requires n <= |s2| == |ls|
    requires !AgreeUpTo(s2, ls, n)
    ensures !AgreeUpTo(s2, ls, |s2|)
  {
    if AgreeUpTo(s2, ls, |s2|) {
      AgreeUpToShorter(s2, ls, n, |s2|);
    }
  }

  /**
   * The scan as written reads the label of the second labeling's first entry
   * before looking at its length; with an empty second labeling that read is
   * out of bounds, shown here as `None`.
   */
  method CheckLabelingsAsWritten(s1: seq<Entry>, s2: seq<Entry>) returns (v: Option<Verdict>)
    requires Sorted(s1, ByNode) && Sorted(s2, ByLabel)
    ensures v.None? <==> |s2| == 0
    ensures v.Some? ==> (v.value == Consistent <==> Refines(s1, s2))
  {
    if |s2| == 0 {
      return None;
    }
    var r := CheckLabelings(s1, s2);
    return Some(r);
  }

  /**
   * An empty second labeling (a file with no lines) is read successfully and
   * trivially refines any first labeling, so the intended verdict is
   * "consistent"; the scan as written reads past its end instead.
   */
  lemma EmptySecondLabeling(s1: seq<Entry>)
    requires Sorted(s1, ByNode)
    ensures ReadSccs([]) == Some([]) && ReadSccs([Eof]) == Some([])
    ensures Refines(s1, [])
  {
  }

  /**
   * The check is one-directional: a second labeling that splits a group of
   * the first still passes, while the same check with the roles swapped
   * fails.
   */
  lemma ConverseNotChecked()
    ensures var s1, s2 := [Entry(1, 1), Entry(2, 1)], [Entry(1, 1), Entry(2, 2)];
      && Sorted(s1, ByNode) && Sorted(s2, ByLabel)
      && Sorted(s2, ByNode) && Sorted(s1, ByLabel)
      && Refines(s1, s2)
      && !Refines(s2, s1)
  {
    var s1, s2 := [Entry(1, 1), Entry(2, 1)], [Entry(1, 1), Entry(2, 2)];
    FindsInPair(s1);
    FindsInPair(s2);
    RefinesTwo(s1, s2);
    RefinesTwo(s2, s1);
  }

  /** In a labeling of nodes 1 and 2, in that order, each node is found with its own label. */
  lemma FindsInPair(s: seq<Entry>)
    requires |s| == 2 && s[0].node == 1 && s[1].node == 2
    ensures Sorted(s, ByNode)
    ensures Find(s, 1) == Some(s[0].scc) && Find(s, 2) == Some(s[1].scc)
  {
    assert UniqueNodes(s);
    FindUnique(s, s, 1);
    FindUnique(s, s, 2);
  }

  /** Whether one labeling refines another that has two entries. */
  lemma RefinesTwo(s1: seq<Entry>, s2: seq<Entry>)
    requires Sorted(s1, ByNode) && |s2| == 2
    ensures Refines(s1, s2) <==>
      && Find(s1, s2[0].node).Some? && Find(s1, s2[1].node).Some?
      && (s2[0].scc == s2[1].scc ==> Find(s1, s2[0].node) == Find(s1, s2[1].node))
  {
    TwoLookups(s1, s2);
  }

  /** The lookups of a two-entry labeling, entry by entry. */
  lemma TwoLookups(s1: seq<Entry>, s2: seq<Entry>)
    requires Sorted(s1, ByNode) && |s2| == 2
    ensures Lookups(s1, s2) == [Find(s1, s2[0].node), Find(s1, s2[1].node)]
  {
    LookupsAt(s1, s2, 0);
    LookupsAt(s1, s2, 1);
  }

  // ---------------------------------------------------------------------
  // The whole cross-check
  // ---------------------------------------------------------------------

  /** No node appears in `s` with two different labels. */
  predicate UniqueNodes(s: seq<Entry>)
  {
    forall e, f :: e in s && f in s && e.node == f.node ==> e == f
  }

  /**
   * Order-independent statement of what the check confirms, on the
   * labelings as read: every node of the second labeling has a label in the
   * first, and nodes the second labeling puts together get the same label
   * from the first.
   */
  ghost predicate RefinesAsRead(s1: seq<Entry>, s2: seq<Entry>)
  {
    && (forall e :: e in s2 ==> exists l :: Entry(e.node, l) in s1)
    && (forall e, f, l, m ::
          (e in s2 && f in s2 && e.scc == f.scc && Entry(e.node, l) in s1 && Entry(f.node, m) in s1) ==> l == m)
  }

  /** Through any sorted copy of a labeling without duplicate nodes, the lookup returns the node's label. */
  lemma FindUnique(s1: seq<Entry>, sorted: seq<Entry>, x: u32)
    requires Sorted(sorted, ByNode) && multiset(sorted) == multiset(s1) && UniqueNodes(s1)
    ensures Find(sorted, x).None? <==> forall l :: Entry(x, l) !in s1
    ensures forall l :: Find(sorted, x) == Some(l) <==> Entry(x, l) in s1
  {
    FindSpec(sorted, x);
    if Find(sorted, x).Some? {
      var i :| 0 <= i < |sorted| && sorted[i] == Entry(x, Find(sorted, x).value);
      assert sorted[i] in multiset(sorted);
    }
    forall l | Entry(x, l) in s1
      ensures Find(sorted, x) == Some(l)
    {
      assert Entry(x, l) in multiset(sorted);
      var i :| 0 <= i < |sorted| && sorted[i] == Entry(x, l);
    }
  }

  /**
   * When the first labeling has no duplicate nodes, the verdict depends only
   * on the labelings as read, not on how the sorts order equal keys.
   */
  lemma RefinesIndependentOfOrder(s1: seq<Entry>, s2: seq<Entry>, t1: seq<Entry>, t2: seq<Entry>)
    requires Sorted(t1, ByNode) && multiset(t1) == multiset(s1) && UniqueNodes(s1)
    requires multiset(t2) == multiset(s2)
    ensures Refines(t1, t2) <==> RefinesAsRead(s1, s2)
  {
    if Refines(t1, t2) {
      RefinesGivesAsRead(s1, s2, t1, t2);
    }
    if RefinesAsRead(s1, s2) {
      AsReadGivesRefines(s1, s2, t1, t2);
    }
  }

  lemma RefinesGivesAsRead(s1: seq<Entry>, s2: seq<Entry>, t1: seq<Entry>, t2: seq<Entry>)
    requires Sorted(t1, ByNode) && multiset(t1) == multiset(s1) && UniqueNodes(s1)
    requires multiset(t2) == multiset(s2)
    requires Refines(t1, t2)
    ensures RefinesAsRead(s1, s2)
  {
    var ls := Lookups(t1, t2);
    forall e | e in s2
      ensures exists l :: Entry(e.node, l) in s1
    {
      assert e in multiset(t2);
      var i :| 0 <= i < |t2| && t2[i] == e;
      assert ls[i].Some?;
      LookupsAt(t1, t2, i);
      FindUnique(s1, t1, e.node);
      assert Entry(e.node, ls[i].value) in s1;
    }
    forall e, f, l, m | e in s2 && f in s2 && e.scc == f.scc && Entry(e.node, l) in s1 && Entry(f.node, m) in s1
      ensures l == m
    {
      assert e in multiset(t2) && f in multiset(t2);
      var i :| 0 <= i < |t2| && t2[i] == e;
      var j :| 0 <= j < |t2| && t2[j] == f;
      LookupsAt(t1, t2, i);
      LookupsAt(t1, t2, j);
      FindUnique(s1, t1, e.node);
      FindUnique(s1, t1, f.node);
      assert ls[i] == Some(l) && ls[j] == Some(m);
    }
  }

  lemma AsReadGivesRefines(s1: seq<Entry>, s2: seq<Entry>, t1: seq<Entry>, t2: seq<Entry>)
    requires Sorted(t1, ByNode) && multiset(t1) == multiset(s1) && UniqueNodes(s1)
    requires multiset(t2) == multiset(s2)
    requires RefinesAsRead(s1, s2)
    ensures Refines(t1, t2)
  {
    var ls := Lookups(t1, t2);
    forall i | 0 <= i < |t2|
      ensures ls[i].Some?
    {
      LookupAsRead(s1, s2, t1, t2, i);
    }
    forall i, j | 0 <= i < |t2| && 0 <= j < |t2| && t2[i].scc == t2[j].scc
      ensures ls[i] == ls[j]
    {
      LookupAsRead(s1, s2, t1, t2, i);
      LookupAsRead(s1, s2, t1, t2, j);
      assert t2[i] in multiset(s2) && t2[j] in multiset(s2);
    }
  }

  /** Entry `i` of the lookups over sorted copies is the label the first labeling as read gives its node. */
  lemma LookupAsRead(s1: seq<Entry>, s2: seq<Entry>, t1: seq<Entry>, t2: seq<Entry>, i: nat)
    requires Sorted(t1, ByNode) && multiset(t1) == multiset(s1) && UniqueNodes(s1)
    requires multiset(t2) == multiset(s2)
    requires RefinesAsRead(s1, s2)
    requires i < |t2|
    ensures t2[i] in s2
    ensures Lookups(t1, t2)[i].Some? && Entry(t2[i].node, Lookups(t1, t2)[i].value) in s1
  {
    assert t2[i] in multiset(s2);
    LookupsAt(t1, t2, i);
    FindUnique(s1, t1, t2[i].node);
  }

  /** What the cross-check reports: a labeling could not be read, or the verdict of the scan. */
  datatype Report = ReadFailed | Checked(verdict: Verdict)

  /**
   * The cross-check with the corrected scan: read both labelings (the second
   * is not read once the first fails), sort the first by node and the second
   * by label, and scan. An empty second labeling gives `Checked(Consistent)`
   * here, where the tool as written reads past the end of the second list
   * (`CheckLabelingsAsWritten`).
   */
  method CompareLabelings(lines1: seq<LineResult>, lines2: seq<LineResult>) returns (r: Report)
    ensures r == ReadFailed <==> ReadSccs(lines1).None? || ReadSccs(lines2).None?
    ensures r.Checked? ==>
      (r.verdict == Consistent <==>
         Refines(SortBy(ReadSccs(lines1).value, ByNode), SortBy(ReadSccs(lines2).value, ByLabel)))
    ensures r.Checked? && UniqueNodes(ReadSccs(lines1).value) ==>
      (r.verdict == Consistent <==> RefinesAsRead(ReadSccs(lines1).value, ReadSccs(lines2).value))
  {
    var read1 := ReadSccs(lines1);
    if read1.None? {
      return ReadFailed;
    }
    var read2 := ReadSccs(lines2);
    if read2.None? {
      return ReadFailed;
    }
    var s1 := SortBy(read1.value, ByNode);
    var s2 := SortBy(read2.value, ByLabel);
    var v := CheckLabelings(s1, s2);
    if UniqueNodes(read1.value) {
      RefinesIndependentOfOrder(read1.value, read2.value, s1, s2);
    }
    return Checked(v);
  }
}
