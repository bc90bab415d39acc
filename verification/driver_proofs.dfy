/**
 * The facts that carry the driver's loop invariant across one iteration:
 * every label stays a node reachable from its owner and no larger than it,
 * edges already pruned stay within one label, and the set of labels in use
 * strictly shrinks.
 */
module DriverProofs {
  import opened Types
  import opened Graph
  import opened LabelTable
  import opened EdgeScan
  import opened MergeChains

  /**
   * The driver's invariant on the label table: it covers exactly the nodes
   * of the original edges, and each node's label is a node no larger than
   * it, reachable from it.
   */
  ghost predicate Sound(orig: seq<Edge>, t: Table)
  {
    && t.Keys == Nodes(orig)
    && (forall v :: v in t ==> t[v] <= v)
    && (forall v {:trigger Connected(orig, v, t[v])} :: v in t ==> Connected(orig, v, t[v]))
  }

  lemma EndpointsLabeled(orig: seq<Edge>, t: Table)
    requires t.Keys == Nodes(orig)
    ensures forall e :: e in orig ==> Labeled(t, e)
  {
    forall e | e in orig
      ensures Labeled(t, e)
    {
      assert e.u in (set f | f in orig :: f.u);
      assert e.v in (set f | f in orig :: f.v);
    }
  }

  /** The two labels at the ends of an original edge are connected nodes. */
  lemma EdgeLabelsConnected(orig: seq<Edge>, t: Table, e: Edge)
    requires Sound(orig, t) && e in orig
    ensures Labeled(t, e)
    ensures Connected(orig, t[e.u], t[e.v]) && Connected(orig, t[e.v], t[e.u])
  {
    EndpointsLabeled(orig, t);
    ConnectedSym(orig, e.u, t[e.u]);
    ConnectedEdge(orig, e);
    ConnectedTrans(orig, t[e.u], e.u, e.v);
    ConnectedTrans(orig, t[e.u], e.v, t[e.v]);
    ConnectedSym(orig, t[e.u], t[e.v]);
  }

  /**
   * Each recorded merge joins two labels in use that are connected through
   * the edge that proposed it.
   */
  lemma MergesJoinConnectedLabels(orig: seq<Edge>, t: Table, live: seq<Edge>, merge: map<Label, Label>)
    requires Sound(orig, t)
    requires forall e :: e in live ==> e in orig && Labeled(t, e)
    requires RecordsMerges(t, live, merge)
    ensures forall h :: h in merge ==> Connected(orig, h, merge[h])
    ensures forall h :: h in merge ==> h in t.Values && merge[h] in t.Values
  {
    forall h | h in merge
      ensures Connected(orig, h, merge[h]) && h in t.Values && merge[h] in t.Values
    {
      var e :| e in live && Hi(t, e) == h && Lo(t, e) == merge[h];
      EdgeLabelsConnected(orig, t, e);
    }
  }

  lemma {:induction false} RootConnected(orig: seq<Edge>, m: map<Label, Label>, x: Label)
    requires Descending(m)
    requires forall h :: h in m ==> Connected(orig, h, m[h])
    ensures Connected(orig, x, Root(m, x))
    decreases x
  {
    if x in m {
      RootConnected(orig, m, m[x]);
      ConnectedTrans(orig, x, m[x], Root(m, m[x]));
    } else {
      ConnectedRefl(orig, x);
    }
  }

  /** Applying the resolved merges sends each node to the end of its label's chain. */
  lemma ApplyIsRoot(t: Table, merge: map<Label, Label>, resolved: map<Label, Label>)
    requires Descending(merge)
    requires resolved.Keys == merge.Keys
    requires forall h :: h in resolved ==> resolved[h] == Root(merge, h)
    ensures Apply(t, resolved).Keys == t.Keys
    ensures forall v :: v in t ==> Apply(t, resolved)[v] == Root(merge, t[v])
  {
  }

  /** One relabeling round keeps the table sound. */
  lemma RelabelKeepsSound(orig: seq<Edge>, t: Table, merge: map<Label, Label>, resolved: map<Label, Label>)
    requires Sound(orig, t)
    requires Descending(merge)
    requires forall h :: h in merge ==> Connected(orig, h, merge[h])
    requires resolved.Keys == merge.Keys
    requires forall h :: h in resolved ==> resolved[h] == Root(merge, h)
    ensures Sound(orig, Apply(t, resolved))
  {
    ApplyIsRoot(t, merge, resolved);
    var t' := Apply(t, resolved);
    forall v | v in t'
      ensures t'[v] <= v && Connected(orig, v, t'[v])
    {
      RootConnected(orig, merge, t[v]);
      ConnectedTrans(orig, v, t[v], Root(merge, t[v]));
    }
  }

  /**
   * A non-empty merge round removes every merge source from the labels in use
   * and introduces no new label, so the set of labels in use strictly shrinks.
   */
  lemma RelabelShrinksLabels(t: Table, merge: map<Label, Label>, resolved: map<Label, Label>)
    requires Descending(merge) && |merge| > 0
    requires forall h :: h in merge ==> h in t.Values && merge[h] in t.Values
    requires resolved.Keys == merge.Keys
    requires forall h :: h in resolved ==> resolved[h] == Root(merge, h)
    ensures Apply(t, resolved).Values < t.Values
  {
    ApplyIsRoot(t, merge, resolved);
    var t' := Apply(t, resolved);
    forall x | x in t'.Values
      ensures x in t.Values && x !in merge
    {
      var v :| v in t' && t'[v] == x;
      RootWithin(merge, t[v], t.Values);
    }
    var h :| h in merge;
    assert h in t.Values && h !in t'.Values;
  }

  /** An edge whose endpoints shared a label keeps sharing one. */
  lemma RelabelKeepsPruned(orig: seq<Edge>, live: seq<Edge>, t: Table, resolved: map<Label, Label>)
    requires forall e :: e in orig ==> Labeled(t, e)
    requires forall e :: e in orig ==> e in live || SameLabel(t, e)
    ensures forall e :: e in orig ==> Labeled(Apply(t, resolved), e)
    ensures forall e :: e in orig ==> e in live || SameLabel(Apply(t, resolved), e)
  {
    forall e | e in orig && e !in live
      ensures Labeled(Apply(t, resolved), e) && SameLabel(Apply(t, resolved), e)
    {
      ApplyKeepsSameLabel(t, resolved, e);
    }
  }

  /** With every node its own label, a recorded merge needs an edge between two distinct nodes. */
  lemma FirstMergeNeedsCrossEdge(orig: seq<Edge>, t: Table, live: seq<Edge>, merge: map<Label, Label>)
    requires forall v :: v in t ==> t[v] == v
    requires forall e :: e in live ==> e in orig && Labeled(t, e)
    requires RecordsMerges(t, live, merge) && Descending(merge) && |merge| > 0
    ensures exists e :: e in orig && e.u != e.v
  {
    var h :| h in merge;
    var e :| e in live && Hi(t, e) == h && Lo(t, e) == merge[h];
    assert e.u != e.v;
  }

  /** A scan that records no merge leaves every original edge within one label. */
  lemma NoMergesAllPruned(orig: seq<Edge>, t: Table, live: seq<Edge>, merge: map<Label, Label>)
    requires forall e :: e in orig ==> Labeled(t, e)
    requires forall e :: e in live ==> Labeled(t, e)
    requires forall e :: e in orig ==> e in live || SameLabel(t, e)
    requires RecordsMerges(t, live, merge) && |merge| == 0
    ensures forall e :: e in orig ==> SameLabel(t, e)
  {
  }
}
