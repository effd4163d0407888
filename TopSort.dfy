/// The top-sort filter: of the trees the parser accepted, keep those whose
/// production is a start production of the requested sort.
module TopSort {
  import opened Forests

  datatype Option<T> = None | Some(value: T)

  /// The non-ambiguity trees of an ambiguity cluster, looking through
  /// nested ambiguities, whose production is a start production of sort;
  /// in left-to-right order.
  function TopSortAlternatives(tbl: ParseTable, alts: seq<Forest>, sort: string): seq<Forest>
    decreases alts
  {
    if alts == [] then []
    else
      var a := alts[|alts| - 1];
      TopSortAlternatives(tbl, alts[..|alts| - 1], sort)
      + (if a.Amb? then TopSortAlternatives(tbl, a.alts, sort)
         else if tbl.matchesTopSort(LabelOf(a), sort) then [a]
         else [])
  }

  /// x is one of the alternatives of a cluster, directly or inside nested
  /// ambiguities.
  predicate InCluster(x: Forest, alts: seq<Forest>)
    decreases alts
  {
    exists i :: 0 <= i < |alts| && (alts[i] == x || (alts[i].Amb? && InCluster(x, alts[i].alts)))
  }

  /// The collected trees are exactly the non-ambiguity members of the
  /// cluster that have the requested start sort.
  lemma {:induction false} TopSortAlternativesSpec(tbl: ParseTable, alts: seq<Forest>, sort: string, x: Forest)
    ensures x in TopSortAlternatives(tbl, alts, sort)
            <==> !x.Amb? && tbl.matchesTopSort(LabelOf(x), sort) && InCluster(x, alts)
    decreases alts
  {
    if alts != [] {
      var init := alts[..|alts| - 1];
      var a := alts[|alts| - 1];
      TopSortAlternativesSpec(tbl, init, sort, x);
      if a.Amb? {
        TopSortAlternativesSpec(tbl, a.alts, sort, x);
      }
      InClusterSplit(x, alts);
    }
  }

  /// Membership in a cluster splits into the prefix and the last element.
  lemma InClusterSplit(x: Forest, alts: seq<Forest>)
    requires alts != []
    ensures var a := alts[|alts| - 1];
            InCluster(x, alts)
            <==> InCluster(x, alts[..|alts| - 1]) || a == x || (a.Amb? && InCluster(x, a.alts))
  {
    var init := alts[..|alts| - 1];
    var a := alts[|alts| - 1];
    if InCluster(x, alts) {
      var i :| 0 <= i < |alts| && (alts[i] == x || (alts[i].Amb? && InCluster(x, alts[i].alts)));
      if i < |init| {
        assert init[i] == alts[i];
      }
    }
    if InCluster(x, init) {
      var i :| 0 <= i < |init| && (init[i] == x || (init[i].Amb? && InCluster(x, init[i].alts)));
      assert alts[i] == init[i];
    }
    if a == x || (a.Amb? && InCluster(x, a.alts)) {
      assert alts[|alts| - 1] == a;
    }
  }

  /// The collection as the recursive loop that performs it, appending to
  /// the given result list.
  method AddTopSortAlternatives(tbl: ParseTable, alts: seq<Forest>, sort: string, results: seq<Forest>)
    returns (out: seq<Forest>)
    ensures out == results + TopSortAlternatives(tbl, alts, sort)
    decreases alts
  {
    out := results;
    for i := 0 to |alts|
      invariant out == results + TopSortAlternatives(tbl, alts[..i], sort)
    {
      assert alts[..i + 1][..i] == alts[..i];
      var amb := alts[i];
      if amb.Amb? {
        out := AddTopSortAlternatives(tbl, amb.alts, sort, out);
      } else if tbl.matchesTopSort(LabelOf(amb), sort) {
        out := out + [amb];
      }
    }
    assert alts[..|alts|] == alts;
  }

  /// The trees of t with the requested start sort: for an ambiguity, none,
  /// the only one, or a new ambiguity over all of them; any other tree is
  /// kept exactly when its own production has the sort.
  function SelectOnTopSort(tbl: ParseTable, t: Forest, sort: string): Option<Forest>
  {
    if t.Amb? then
      var results := TopSortAlternatives(tbl, t.alts, sort);
      if |results| == 0 then None
      else if |results| == 1 then Some(results[0])
      else Some(Amb(results))
    else if tbl.matchesTopSort(LabelOf(t), sort) then Some(t)
    else None
  }

  /// The filter applies only when a sort is requested and top-sort
  /// filtering is on; finding nothing means the start symbol is missing.
  function ApplyTopSortFilter(cfg: Config, tbl: ParseTable, sort: Option<string>, t: Forest): Outcome<Forest>
  {
    if sort.Some? && cfg.filterTopSort then
      match SelectOnTopSort(tbl, t, sort.value)
      case None => Fail(StartSymbolNotFound)
      case Some(r) => Ok(r)
    else Ok(t)
  }

  /// What the top-sort filter promises: it reports a missing start symbol
  /// exactly when no tree of t has the sort, and otherwise returns one such
  /// tree or an ambiguity over two or more such trees, all taken from t.
  lemma ApplyTopSortFilterSpec(cfg: Config, tbl: ParseTable, sort: string, t: Forest)
    requires cfg.filterTopSort
    ensures var r := ApplyTopSortFilter(cfg, tbl, Some(sort), t);
            var found := if t.Amb? then (exists x :: InCluster(x, t.alts) && !x.Amb? && tbl.matchesTopSort(LabelOf(x), sort))
                         else tbl.matchesTopSort(LabelOf(t), sort);
            (r == Fail(StartSymbolNotFound) <==> !found)
            && (r.Ok? ==>
                 (!r.value.Amb? && tbl.matchesTopSort(LabelOf(r.value), sort)
                  && (if t.Amb? then InCluster(r.value, t.alts) else r.value == t))
                 || (t.Amb? && r.value.Amb? && |r.value.alts| >= 2
                     && forall x :: x in r.value.alts ==>
                          !x.Amb? && tbl.matchesTopSort(LabelOf(x), sort) && InCluster(x, t.alts)))
  {
    if t.Amb? {
      var results := TopSortAlternatives(tbl, t.alts, sort);
      forall x
        ensures x in results <==> !x.Amb? && tbl.matchesTopSort(LabelOf(x), sort) && InCluster(x, t.alts)
      {
        TopSortAlternativesSpec(tbl, t.alts, sort, x);
      }
      if results != [] {
        assert results[0] in results;
      }
    }
  }
}
