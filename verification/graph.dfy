/**
 * Undirected reachability over an edge list, and what it means for a
 * node -> label table to be the connected-components labeling of that list:
 * two nodes share a label exactly when they are connected, and each label is
 * the smallest node id in its component.
 */
module Graph {
  import opened Types

  /** Every node that appears as an endpoint of some edge. */
  function Nodes(es: seq<Edge>): set<Node>
  {
    (set e | e in es :: e.u) + (set e | e in es :: e.v)
  }

  ghost predicate Adjacent(es: seq<Edge>, a: Node, b: Node)
  {
    Edge(a, b) in es || Edge(b, a) in es
  }

  /** A non-empty walk whose consecutive nodes are joined by edges of `es`. */
  ghost predicate IsPath(es: seq<Edge>, p: seq<Node>)
  {
    |p| > 0 && forall i :: 0 <= i < |p| - 1 ==> Adjacent(es, p[i], p[i + 1])
  }

  ghost predicate Connected(es: seq<Edge>, a: Node, b: Node)
  {
    exists p :: IsPath(es, p) && p[0] == a && p[|p| - 1] == b
  }

  /** `l` is the smallest node id reachable from `v`. */
  ghost predicate IsMinReachable(es: seq<Edge>, v: Node, l: Label)
  {
    Connected(es, v, l) && forall w :: Connected(es, v, w) ==> l <= w
  }

  /** `t` labels every node of `es` by its connected component. */
  ghost predicate ComponentLabeling(es: seq<Edge>, t: map<Node, Label>)
  {
    && t.Keys == Nodes(es)
    && EdgesWithinLabels(es, t)
    && LabelsAreComponents(es, t)
    && LabelsAreMinimal(es, t)
  }

  /** The two endpoints of every edge carry the same label. */
  ghost predicate EdgesWithinLabels(es: seq<Edge>, t: map<Node, Label>)
  {
    forall e :: e in es ==> e.u in t && e.v in t && t[e.u] == t[e.v]
  }

  /** Two labeled nodes share a label exactly when they are connected. */
  ghost predicate LabelsAreComponents(es: seq<Edge>, t: map<Node, Label>)
  {
    forall v, w {:trigger Connected(es, v, w)} :: v in t && w in t ==> (t[v] == t[w] <==> Connected(es, v, w))
  }

  /** Every node's label is the smallest node id reachable from it. */
  ghost predicate LabelsAreMinimal(es: seq<Edge>, t: map<Node, Label>)
  {
    forall v {:trigger IsMinReachable(es, v, t[v])} :: v in t ==> IsMinReachable(es, v, t[v])
  }

  lemma ConnectedRefl(es: seq<Edge>, a: Node)
    ensures Connected(es, a, a)
  {
    assert IsPath(es, [a]);
  }

  lemma ConnectedEdge(es: seq<Edge>, e: Edge)
    requires e in es
    ensures Connected(es, e.u, e.v) && Connected(es, e.v, e.u)
  {
    assert Adjacent(es, e.u, e.v);
    assert IsPath(es, [e.u, e.v]);
    assert IsPath(es, [e.v, e.u]);
  }

  lemma ConnectedSym(es: seq<Edge>, a: Node, b: Node)
    requires Connected(es, a, b)
    ensures Connected(es, b, a)
  {
    var p :| IsPath(es, p) && p[0] == a && p[|p| - 1] == b;
    var q := seq(|p|, i requires 0 <= i < |p| => p[|p| - 1 - i]);
    forall i | 0 <= i < |q| - 1
      ensures Adjacent(es, q[i], q[i + 1])
    {
      assert Adjacent(es, p[|p| - 2 - i], p[|p| - 1 - i]);
    }
    assert IsPath(es, q);
  }

  lemma ConnectedTrans(es: seq<Edge>, a: Node, b: Node, c: Node)
    requires Connected(es, a, b) && Connected(es, b, c)
    ensures Connected(es, a, c)
  {
    var p :| IsPath(es, p) && p[0] == a && p[|p| - 1] == b;
    var q :| IsPath(es, q) && q[0] == b && q[|q| - 1] == c;
    var r := p + q[1..];
    forall i | 0 <= i < |r| - 1
      ensures Adjacent(es, r[i], r[i + 1])
    {
      if i < |p| - 1 {
        assert r[i] == p[i] && r[i + 1] == p[i + 1];
      } else {
        assert r[i] == q[i - |p| + 1] && r[i + 1] == q[i - |p| + 2];
      }
    }
    assert IsPath(es, r);
  }

  /** Whatever is reachable from an endpoint is itself an endpoint. */
  lemma ConnectedStaysInNodes(es: seq<Edge>, a: Node, b: Node)
    requires a in Nodes(es) && Connected(es, a, b)
    ensures b in Nodes(es)
  {
    var p :| IsPath(es, p) && p[0] == a && p[|p| - 1] == b;
    if |p| > 1 {
      var x, y := p[|p| - 2], p[|p| - 1];
      assert Adjacent(es, x, y);
      if Edge(x, y) in es {
        assert y == Edge(x, y).v;
      } else {
        assert y == Edge(y, x).u;
      }
    }
  }

  /**
   * If every edge joins two nodes with the same label, then every node on a
   * path carries the label of the path's first node.
   */
  lemma {:induction false} PathKeepsLabel(es: seq<Edge>, t: map<Node, Label>, p: seq<Node>)
    requires t.Keys == Nodes(es)
    requires forall e :: e in es ==> t[e.u] == t[e.v]
    requires IsPath(es, p) && p[0] in t
    ensures p[|p| - 1] in t && t[p[|p| - 1]] == t[p[0]]
    decreases |p|
  {
    if |p| > 1 {
      var q := p[..|p| - 1];
      assert IsPath(es, q) by {
        forall i | 0 <= i < |q| - 1
          ensures Adjacent(es, q[i], q[i + 1])
        {
          assert q[i] == p[i] && q[i + 1] == p[i + 1];
        }
      }
      PathKeepsLabel(es, t, q);
      var x, y := p[|p| - 2], p[|p| - 1];
      assert x == q[|q| - 1];
      assert Adjacent(es, x, y);
      if Edge(x, y) in es {
        assert y == Edge(x, y).v;
        assert t[x] == t[y];
      } else {
        assert y == Edge(y, x).u;
        assert t[y] == t[x];
      }
    }
  }

  /**
   * The fixed point of the driver: when every label is a node reachable from
   * its owner and no larger than it, and no edge crosses two labels, the table
   * is the connected-components labeling.
   */
  lemma FixedPointIsComponentLabeling(es: seq<Edge>, t: map<Node, Label>)
    requires t.Keys == Nodes(es)
    requires forall v :: v in t ==> t[v] <= v
    requires forall v {:trigger Connected(es, v, t[v])} :: v in t ==> Connected(es, v, t[v])
    requires forall e :: e in es ==> t[e.u] == t[e.v]
    ensures t.Keys == Nodes(es)
    ensures EdgesWithinLabels(es, t)
    ensures LabelsAreComponents(es, t)
    ensures LabelsAreMinimal(es, t)
  {
    forall v, w | v in t && w in t
      ensures t[v] == t[w] <==> Connected(es, v, w)
    {
      if t[v] == t[w] {
        ConnectedSym(es, w, t[w]);
        ConnectedTrans(es, v, t[v], w);
      }
      if Connected(es, v, w) {
        var p :| IsPath(es, p) && p[0] == v && p[|p| - 1] == w;
        PathKeepsLabel(es, t, p);
      }
    }
    forall v | v in t
      ensures IsMinReachable(es, v, t[v])
    {
      forall w | Connected(es, v, w)
        ensures t[v] <= w
      {
        ConnectedStaysInNodes(es, v, w);
        var p :| IsPath(es, p) && p[0] == v && p[|p| - 1] == w;
        PathKeepsLabel(es, t, p);
      }
    }
  }

  /**
   * The components labeling of an edge list is unique, so the driver's answer
   * does not depend on iteration order or on which relabeling mode ran.
   */
  lemma ComponentLabelingUnique(es: seq<Edge>, t1: map<Node, Label>, t2: map<Node, Label>)
    requires ComponentLabeling(es, t1) && ComponentLabeling(es, t2)
    ensures t1 == t2
  {
    assert t1.Keys == t2.Keys;
    forall v | v in t1
      ensures t1[v] == t2[v]
    {
      MinReachableUnique(es, v, t1[v], t2[v]);
    }
  }

  lemma MinReachableUnique(es: seq<Edge>, v: Node, l1: Label, l2: Label)
    requires IsMinReachable(es, v, l1) && IsMinReachable(es, v, l2)
    ensures l1 == l2
  {
  }

  /**
   * Reachability depends only on which edges occur, so listing an edge twice
   * (or in another order) leaves the components labeling unchanged.
   */
  lemma SameEdgeSetSameLabeling(es1: seq<Edge>, es2: seq<Edge>, t: map<Node, Label>)
    requires forall e :: e in es1 <==> e in es2
    requires ComponentLabeling(es1, t)
    ensures ComponentLabeling(es2, t)
  {
    assert Nodes(es1) == Nodes(es2);
    forall a, b | Connected(es1, a, b)
      ensures Connected(es2, a, b)
    {
      var p :| IsPath(es1, p) && p[0] == a && p[|p| - 1] == b;
      assert IsPath(es2, p);
    }
    forall a, b | Connected(es2, a, b)
      ensures Connected(es1, a, b)
    {
      var p :| IsPath(es2, p) && p[0] == a && p[|p| - 1] == b;
      assert IsPath(es1, p);
    }
    forall v, w | v in t && w in t
      ensures t[v] == t[w] <==> Connected(es2, v, w)
    {
      assert t[v] == t[w] <==> Connected(es1, v, w);
    }
    forall v | v in t
      ensures IsMinReachable(es2, v, t[v])
    {
      assert IsMinReachable(es1, v, t[v]);
    }
  }
}
