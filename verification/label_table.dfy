/**
 * The label table (node -> current component label), its initial state, the
 * optional reverse index (label -> member nodes) and the relabeling that one
 * round of resolved merges applies to the table.
 */
module LabelTable {
  import opened Types
  import opened Graph

  type Table = map<Node, Label>

  /** Both endpoints of `e` have a label. */
  predicate Labeled(t: Table, e: Edge)
  {
    e.u in t && e.v in t
  }

  predicate SameLabel(t: Table, e: Edge)
    requires Labeled(t, e)
  {
    t[e.u] == t[e.v]
  }

  /** The smaller of the two endpoint labels. */
  function Lo(t: Table, e: Edge): Label
    requires Labeled(t, e)
  {
    if t[e.u] <= t[e.v] then t[e.u] else t[e.v]
  }

  /** The larger of the two endpoint labels. */
  function Hi(t: Table, e: Edge): Label
    requires Labeled(t, e)
  {
    if t[e.u] <= t[e.v] then t[e.v] else t[e.u]
  }

  /**
   * Builds the table from the edge list: every endpoint not yet present is
   * inserted as its own label.
   */
  method InitLabels(edges: seq<Edge>) returns (t: Table)
    ensures t.Keys == Nodes(edges)
    ensures forall v :: v in t ==> t[v] == v
  {
    t := map[];
    var i := 0;
    while i < |edges|
      invariant 0 <= i <= |edges|
      invariant t.Keys == Nodes(edges[..i])
      invariant forall v :: v in t ==> t[v] == v
    {
      NodesOfSnoc(edges[..i], edges[i]);
      assert edges[..i + 1] == edges[..i] + [edges[i]];
      if edges[i].u !in t {
        t := t[edges[i].u := edges[i].u];
      }
      if edges[i].v !in t {
        t := t[edges[i].v := edges[i].v];
      }
      i := i + 1;
    }
    assert edges[..i] == edges;
  }

  lemma NodesOfSnoc(es: seq<Edge>, e: Edge)
    ensures Nodes(es + [e]) == Nodes(es) + {e.u, e.v}
  {
    var es' := es + [e];
    forall x | x in Nodes(es')
      ensures x in Nodes(es) + {e.u, e.v}
    {
      var f :| f in es' && (x == f.u || x == f.v);
      if f != e {
        assert f in es;
      }
    }
    forall x | x in Nodes(es)
      ensures x in Nodes(es')
    {
      var f :| f in es && (x == f.u || x == f.v);
      assert f in es';
    }
    assert e in es';
  }

  /** The label a node carrying `l` gets once the resolved merges are applied. */
  function Relabeled(resolved: map<Label, Label>, l: Label): Label
  {
    if l in resolved then resolved[l] else l
  }

  /**
   * Reference definition of one relabeling round: every node whose label is a
   * merge source moves to that source's target, every other node keeps its
   * label.
   */
  function Apply(t: Table, resolved: map<Label, Label>): Table
  {
    map v | v in t :: Relabeled(resolved, t[v])
  }

  /** The nodes a relabeling round must rewrite. */
  function Moved(t: Table, resolved: map<Label, Label>): set<Node>
  {
    set v | v in t && t[v] in resolved
  }

  /** The nodes whose label differs between `t` and `t'`. */
  function Changed(t: Table, t': Table): set<Node>
  {
    set v | v in t && v in t' && t'[v] != t[v]
  }

  /** Merge targets are strictly below their sources. */
  predicate Descending(m: map<Label, Label>)
  {
    forall h :: h in m ==> m[h] < h
  }

  /** Every merge source is the label of at least one node. */
  predicate Populated(t: Table, resolved: map<Label, Label>)
  {
    forall s :: s in resolved ==> s in t.Values
  }

  /**
   * Relabeling with descending merges only lowers labels, and the nodes it
   * changes are exactly the ones whose label is a merge source.
   */
  lemma ApplyLowers(t: Table, resolved: map<Label, Label>)
    requires Descending(resolved)
    ensures Apply(t, resolved).Keys == t.Keys
    ensures forall v :: v in t ==> Apply(t, resolved)[v] <= t[v]
    ensures Changed(t, Apply(t, resolved)) == Moved(t, resolved)
  {
  }

  /** A populated, non-empty merge round rewrites at least one node. */
  lemma PopulatedMovesSome(t: Table, resolved: map<Label, Label>)
    requires Populated(t, resolved) && |resolved| > 0
    ensures |Moved(t, resolved)| > 0
  {
    var s :| s in resolved;
    assert s in t.Values;
    var v :| v in t && t[v] == s;
    assert v in Moved(t, resolved);
  }

  /** Two nodes that shared a label still share one after relabeling. */
  lemma ApplyKeepsSameLabel(t: Table, resolved: map<Label, Label>, e: Edge)
    requires Labeled(t, e) && SameLabel(t, e)
    ensures Labeled(Apply(t, resolved), e) && SameLabel(Apply(t, resolved), e)
  {
  }

  /** One entry of the reverse index: `node` currently carries `key`. */
  datatype IndexEntry = IndexEntry(key: Label, node: Node)

  /** The reverse index holds `(l, v)` exactly when the table maps `v` to `l`. */
  ghost predicate Indexed(t: Table, idx: set<IndexEntry>)
  {
    forall e {:trigger e in idx} :: e in idx <==> e.node in t && t[e.node] == e.key
  }

  /** The index entries currently filed under label `l`. */
  function Members(idx: set<IndexEntry>, l: Label): set<IndexEntry>
  {
    set e | e in idx && e.key == l
  }
}
