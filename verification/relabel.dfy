/**
 * Applying one round of resolved merges to the label table, in the two ways
 * the driver can: a full scan of the table (which can also build the reverse
 * index), or moving exactly the members of each merged label through the
 * reverse index.
 */
module Relabel {
  import opened Types
  import opened LabelTable
  import opened MergeChains

  /**
   * Unindexed relabeling: every table entry is visited once, in the table's
   * order; an entry whose label is a merge source is rewritten to the
   * source's target and counted. With `buildIndex` each entry's new label is
   * also filed in a fresh reverse index.
   */
  method RelabelScan(t: Table, resolved: map<Label, Label>, buildIndex: bool)
    returns (t': Table, k: nat, idx: set<IndexEntry>)
    ensures t'.Keys == t.Keys
    ensures forall v :: v in t && t[v] in resolved ==> t'[v] == resolved[t[v]]
    ensures forall v :: v in t && t[v] !in resolved ==> t'[v] == t[v]
    ensures t' == Apply(t, resolved)
    ensures Descending(resolved) ==> forall v :: v in t ==> t'[v] <= t[v]
    ensures k == |Moved(t, resolved)|
    ensures buildIndex ==> Indexed(t', idx)
    ensures !buildIndex ==> idx == {}
  {
    t' := t;
    k := 0;
    idx := {};
    var todo := t.Keys;
    while todo != {}
      invariant todo <= t.Keys
      invariant RelabeledExcept(t, t', resolved, todo)
      invariant k == |Moved(t, resolved) - todo|
      invariant buildIndex ==> IndexedExcept(t', idx, todo)
      invariant !buildIndex ==> idx == {}
      decreases |todo|
    {
      var v :| v in todo;
      MovedStep(t, resolved, todo, v);
      RelabeledExceptStep(t, t', resolved, todo, v);
      var l := t'[v];
      if l in resolved {
        t' := t'[v := resolved[l]];
        k := k + 1;
      }
      if buildIndex {
        IndexedExceptStep(t', idx, todo, v);
        idx := idx + {IndexEntry(t'[v], v)};
      }
      todo := todo - {v};
    }
    ScanIsApply(t, resolved, t');
    if Descending(resolved) {
      ApplyLowers(t, resolved);
    }
  }

  /** `t'` has relabeled every node of `t` outside `todo` and kept the others. */
  ghost predicate RelabeledExcept(t: Table, t': Table, resolved: map<Label, Label>, todo: set<Node>)
  {
    && t'.Keys == t.Keys
    && forall v :: v in t ==> t'[v] == if v in todo then t[v] else Relabeled(resolved, t[v])
  }

  lemma RelabeledExceptStep(t: Table, t': Table, resolved: map<Label, Label>, todo: set<Node>, v: Node)
    requires RelabeledExcept(t, t', resolved, todo) && v in todo && v in t
    ensures v in t' && t'[v] == t[v]
    ensures t[v] in resolved ==> RelabeledExcept(t, t'[v := resolved[t[v]]], resolved, todo - {v})
    ensures t[v] !in resolved ==> RelabeledExcept(t, t', resolved, todo - {v})
  {
  }

  lemma ScanIsApply(t: Table, resolved: map<Label, Label>, t': Table)
    requires RelabeledExcept(t, t', resolved, {})
    ensures t' == Apply(t, resolved)
  {
  }

  /** The reverse index agrees with the table on every node outside `todo` and has nothing else. */
  ghost predicate IndexedExcept(t: Table, idx: set<IndexEntry>, todo: set<Node>)
  {
    forall e {:trigger e in idx} :: e in idx <==> e.node in t && e.node !in todo && t[e.node] == e.key
  }

  lemma IndexedExceptStep(t: Table, idx: set<IndexEntry>, todo: set<Node>, v: Node)
    requires IndexedExcept(t, idx, todo) && v in todo && v in t
    ensures IndexedExcept(t, idx + {IndexEntry(t[v], v)}, todo - {v})
  {
  }

  lemma MovedStep(t: Table, resolved: map<Label, Label>, todo: set<Node>, v: Node)
    requires v in todo && v in t
    ensures |Moved(t, resolved) - (todo - {v})|
      == |Moved(t, resolved) - todo| + if t[v] in resolved then 1 else 0
  {
    if t[v] in resolved {
      assert Moved(t, resolved) - (todo - {v}) == (Moved(t, resolved) - todo) + {v};
    } else {
      assert Moved(t, resolved) - (todo - {v}) == Moved(t, resolved) - todo;
    }
  }

  /** The nodes whose label in `t` is `l`. */
  function Carrying(t: Table, l: Label): set<Node>
  {
    set v | v in t && t[v] == l
  }

  /**
   * Moves every member of label `src` to label `tgt`, one index entry at a
   * time: the entry is taken out of the reverse index, re-filed under `tgt`,
   * and the node's table entry is rewritten. Stops when no entry is filed
   * under `src`.
   */
  method MoveMembers(cur: Table, idx: set<IndexEntry>, src: Label, tgt: Label)
    returns (cur': Table, idx': set<IndexEntry>, moved: nat)
    requires Indexed(cur, idx) && src != tgt
    ensures cur'.Keys == cur.Keys
    ensures Indexed(cur', idx')
    ensures forall v :: v in cur && cur[v] == src ==> cur'[v] == tgt
    ensures forall v :: v in cur && cur[v] != src ==> cur'[v] == cur[v]
    ensures moved == |Carrying(cur, src)|
  {
    cur' := cur;
    idx' := idx;
    moved := 0;
    while Members(idx', src) != {}
      invariant cur'.Keys == cur.Keys
      invariant Indexed(cur', idx')
      invariant forall v :: v in cur && cur[v] != src ==> cur'[v] == cur[v]
      invariant forall v :: v in cur && cur[v] == src ==> cur'[v] == src || cur'[v] == tgt
      invariant moved + |Carrying(cur', src)| == |Carrying(cur, src)|
      decreases |Members(idx', src)|
    {
      var e :| e in Members(idx', src);
      MoveOneEntry(cur', idx', e, tgt);
      idx' := idx' - {e} + {IndexEntry(tgt, e.node)};
      cur' := cur'[e.node := tgt];
      moved := moved + 1;
    }
    NoMembersNoCarriers(cur', idx', src);
    forall v | v in cur && cur[v] == src
      ensures cur'[v] == tgt
    {
      assert v !in Carrying(cur', src);
    }
  }

  /** Re-filing one index entry under a new label keeps table and index in step. */
  lemma MoveOneEntry(t: Table, idx: set<IndexEntry>, e: IndexEntry, tgt: Label)
    requires Indexed(t, idx) && e in idx && e.key != tgt
    ensures Indexed(t[e.node := tgt], idx - {e} + {IndexEntry(tgt, e.node)})
    ensures Members(idx - {e} + {IndexEntry(tgt, e.node)}, e.key) == Members(idx, e.key) - {e}
    ensures Carrying(t[e.node := tgt], e.key) == Carrying(t, e.key) - {e.node}
    ensures e.node in Carrying(t, e.key)
  {
    var t', idx' := t[e.node := tgt], idx - {e} + {IndexEntry(tgt, e.node)};
    forall f
      ensures f in idx' <==> f.node in t' && t'[f.node] == f.key
    {
      if f.node == e.node {
        assert f in idx ==> f == e;
      }
    }
  }

  /** Through a consistent index, a label has index entries exactly when it has members. */
  lemma NoMembersNoCarriers(t: Table, idx: set<IndexEntry>, l: Label)
    requires Indexed(t, idx)
    ensures Members(idx, l) == {} <==> Carrying(t, l) == {}
  {
    if v :| v in Carrying(t, l) {
      assert IndexEntry(l, v) in idx;
      assert IndexEntry(l, v) in Members(idx, l);
    }
    if e :| e in Members(idx, l) {
      assert e.node in Carrying(t, l);
    }
  }

  /**
   * Indexed relabeling: for each merge source, in the merge map's order, the
   * members filed under that source in the reverse index are moved to the
   * source's target. A source with no members at all is an inconsistency:
   * the count is reset to zero and the round stops.
   */
  method RelabelIndexed(t: Table, idx: set<IndexEntry>, resolved: map<Label, Label>)
    returns (t': Table, idx': set<IndexEntry>, k: nat)
    requires Indexed(t, idx)
    requires Descending(resolved) && Compressed(resolved)
    ensures Populated(t, resolved) ==> t' == Apply(t, resolved)
    ensures Populated(t, resolved) ==> Indexed(t', idx')
    ensures Populated(t, resolved) ==> k == |Moved(t, resolved)|
    ensures !Populated(t, resolved) ==> k == 0
  {
    t' := t;
    idx' := idx;
    k := 0;
    var failed := false;
    var todo := resolved.Keys;
    while todo != {}
      invariant todo <= resolved.Keys
      invariant t'.Keys == t.Keys
      invariant Indexed(t', idx')
      invariant forall v :: v in t ==> t'[v] == Expected(t, resolved, todo, v)
      invariant k == |Moved(t, resolved) - MembersOf(t, todo)|
      invariant forall s :: s in resolved && s !in todo ==> Carrying(t, s) != {}
      invariant !failed
      decreases |todo|
    {
      var src :| src in todo;
      var tgt := resolved[src];
      PendingSourceCarriers(t, t', resolved, todo, src);
      NoMembersNoCarriers(t', idx', src);
      if Members(idx', src) == {} {
        // no node carries src: src is not a label of the table
        CarryingValues(t, src);
        k := 0;
        failed := true;
        break;
      }
      CarryingValues(t, src);
      var moved;
      ghost var pre := t';
      t', idx', moved := MoveMembers(t', idx', src, tgt);
      MembersOfStep(t, resolved, todo, src);
      k := k + moved;
      ExpectedAfterMove(t, resolved, todo, src, pre, t');
      todo := todo - {src};
    }
    if !failed {
      forall s | s in resolved
        ensures s in t.Values
      {
        CarryingValues(t, s);
      }
      assert MembersOf(t, {}) == {};
      AllAppliedIsApply(t, resolved, t');
    }
  }

  /** Moving the carriers of `src` to its target marks `src` as applied. */
  lemma ExpectedAfterMove(t: Table, resolved: map<Label, Label>, todo: set<Label>, src: Label, pre: Table, post: Table)
    requires src in resolved
    requires pre.Keys == t.Keys && post.Keys == t.Keys
    requires forall v :: v in t ==> pre[v] == Expected(t, resolved, todo, v)
    requires Carrying(pre, src) == Carrying(t, src)
    requires forall v :: v in pre && pre[v] == src ==> post[v] == resolved[src]
    requires forall v :: v in pre && pre[v] != src ==> post[v] == pre[v]
    ensures forall v :: v in t ==> post[v] == Expected(t, resolved, todo - {src}, v)
  {
    forall v | v in t
      ensures post[v] == Expected(t, resolved, todo - {src}, v)
    {
      if t[v] == src {
        assert v in Carrying(pre, src);
      } else {
        assert v !in Carrying(pre, src);
      }
    }
  }

  lemma AllAppliedIsApply(t: Table, resolved: map<Label, Label>, t': Table)
    requires t'.Keys == t.Keys
    requires forall v :: v in t ==> t'[v] == Expected(t, resolved, {}, v)
    ensures t' == Apply(t, resolved)
  {
  }

  /**
   * While `src` is still pending, the nodes carrying `src` are exactly those
   * that carried it at the start of the round: compressed targets are never
   * sources, so no node has been moved onto `src`.
   */
  lemma PendingSourceCarriers(t: Table, t': Table, resolved: map<Label, Label>, todo: set<Label>, src: Label)
    requires Compressed(resolved) && todo <= resolved.Keys && src in todo
    requires t'.Keys == t.Keys
    requires forall v :: v in t ==> t'[v] == Expected(t, resolved, todo, v)
    ensures Carrying(t', src) == Carrying(t, src)
  {
    forall v | v in t && t'[v] == src
      ensures t[v] == src
    {
    }
  }

  lemma CarryingValues(t: Table, l: Label)
    ensures Carrying(t, l) == {} <==> l !in t.Values
  {
    if l in t.Values {
      var v :| v in t && t[v] == l;
      assert v in Carrying(t, l);
    }
  }

  lemma MembersOfStep(t: Table, resolved: map<Label, Label>, todo: set<Label>, src: Label)
    requires todo <= resolved.Keys && src in todo
    ensures |Moved(t, resolved) - MembersOf(t, todo - {src})|
      == |Moved(t, resolved) - MembersOf(t, todo)| + |Carrying(t, src)|
  {
    var before := Moved(t, resolved) - MembersOf(t, todo);
    assert Moved(t, resolved) - MembersOf(t, todo - {src}) == before + Carrying(t, src);
    assert before * Carrying(t, src) == {};
  }

  /** The label node `v` should carry once every source outside `todo` is applied. */
  ghost function Expected(t: Table, resolved: map<Label, Label>, todo: set<Label>, v: Node): Label
    requires v in t
  {
    if t[v] in resolved && t[v] !in todo then resolved[t[v]] else t[v]
  }

  /** The nodes whose label is one of `ls`. */
  ghost function MembersOf(t: Table, ls: set<Label>): set<Node>
  {
    set v | v in t && t[v] in ls
  }
}
