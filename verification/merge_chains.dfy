/**
 * Chain resolution over the merge map: a source whose target is itself a
 * source is redirected to the end of its chain, so that afterwards every
 * source points straight at a label that is not merged any further.
 */
module MergeChains {
  import opened Types
  import opened LabelTable

  /**
   * The end of the merge chain starting at `x`. It exists because targets
   * are strictly below their sources.
   */
  function Root(m: map<Label, Label>, x: Label): (r: Label)
    requires Descending(m)
    ensures r !in m
    ensures r <= x
    ensures x in m ==> r < x
    decreases x
  {
    if x in m then Root(m, m[x]) else x
  }

  /** No merge target is itself a merge source. */
  predicate Compressed(m: map<Label, Label>)
  {
    forall h :: h in m ==> m[h] !in m
  }

  /**
   * Redirecting one source straight to the end of its chain keeps the map
   * descending and leaves the end of every chain where it was.
   */
  lemma {:induction false} ShortcutKeepsRoots(m: map<Label, Label>, y: Label, x: Label)
    requires Descending(m) && y in m
    ensures Descending(m[y := Root(m, y)])
    ensures Root(m[y := Root(m, y)], x) == Root(m, x)
    decreases x
  {
    var m' := m[y := Root(m, y)];
    assert Descending(m');
    if x == y {
      assert Root(m, y) !in m';
      assert Root(m', y) == Root(m', Root(m, y));
    } else if x in m {
      ShortcutKeepsRoots(m, y, m[x]);
    }
  }

  /**
   * Resolves every merge chain. Sources are visited in an arbitrary order
   * (the hash map's); for each one the chain is followed, the sources passed
   * on the way are stacked, and then all of them are pointed at the chain's
   * final target.
   */
  method ResolveChains(merge: map<Label, Label>) returns (res: map<Label, Label>)
    requires Descending(merge)
    ensures res.Keys == merge.Keys
    ensures Descending(res)
    ensures Compressed(res)
    ensures forall h :: h in res ==> res[h] == Root(merge, h)
  {
    res := merge;
    var todo := merge.Keys;
    while todo != {}
      invariant todo <= merge.Keys
      invariant res.Keys == merge.Keys
      invariant Descending(res)
      invariant forall x :: Root(res, x) == Root(merge, x)
      invariant forall h :: h in res && h !in todo ==> res[h] !in res
      decreases |todo|
    {
      var h :| h in todo;
      // follow the chain from h, stacking every source whose target is a source
      var updates: seq<Label> := [];
      var cur := h;
      while res[cur] in res
        invariant cur in res
        invariant Root(res, cur) == Root(res, h)
        invariant |updates| == 0 ==> cur == h
        invariant |updates| > 0 ==> updates[0] == h
        invariant forall x :: x in updates ==> x in res && Root(res, x) == Root(res, h)
        decreases res[cur]
      {
        updates := updates + [cur];
        cur := res[cur];
      }
      var last := res[cur];
      assert last == Root(res, h);
      // unwind the stack, pointing each stacked source at the chain's end
      while |updates| > 0
        invariant res.Keys == merge.Keys
        invariant Descending(res)
        invariant last !in res
        invariant forall x :: Root(res, x) == Root(merge, x)
        invariant forall x :: x in updates ==> x in res && Root(res, x) == last
        invariant |updates| > 0 ==> updates[0] == h
        invariant |updates| == 0 ==> res[h] !in res
        invariant forall g :: g in res && g !in todo ==> res[g] !in res
        decreases |updates|
      {
        var y := updates[|updates| - 1];
        forall x
          ensures Root(res[y := Root(res, y)], x) == Root(res, x)
        {
          ShortcutKeepsRoots(res, y, x);
        }
        ShortcutKeepsRoots(res, y, y);
        res := res[y := last];
        updates := updates[..|updates| - 1];
      }
      todo := todo - {h};
    }
    forall h | h in res
      ensures res[h] == Root(merge, h)
    {
      assert Root(res, h) == Root(res, res[h]);
    }
  }

  /** The end of a chain is its start or one of the map's targets. */
  lemma {:induction false} RootWithin(m: map<Label, Label>, x: Label, s: set<Label>)
    requires Descending(m) && x in s
    requires forall h :: h in m ==> m[h] in s
    ensures Root(m, x) in s
    decreases x
  {
    if x in m {
      RootWithin(m, m[x], s);
    }
  }
}
