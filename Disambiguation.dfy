/// The disambiguation pipeline: the top-sort filter, the cycle check, and
/// the bottom-up tree filter that resolves every ambiguity cluster by the
/// tournament and applies the associativity and priority filters to every
/// rebuilt node; and the disambiguator object holding the filter switches.
module Disambiguation {
  import opened Forests
  import opened Tournament
  import opened AssocPriority
  import opened TopSort

  // ---------------------------------------------------------------------
  // The tree filter

  /// The associativity and priority filters, when associativity filtering
  /// is on (the tree filter's own guard; the filters check the switches
  /// again inside).
  function AssocStep(cfg: Config, tbl: ParseTable, t: Forest): Outcome<Forest> {
    if cfg.filterAssociativity then ApplyAssocPrio(cfg, tbl, t) else Ok(t)
  }

  /// The tree filter on t, bottom-up.
  ///  - An ambiguity resolves its cluster; outside a cluster the result
  ///    then passes the associativity step, inside one it is returned as
  ///    it is (the source's reject check there looks at the ambiguity node
  ///    itself, which is never a reject node).
  ///  - A node first filters its kids; then, with reject filtering on, a
  ///    table with rejects and no integrated recovery, a reject node is a
  ///    filter failure; otherwise it is rebuilt as a plain node over the
  ///    filtered kids and passes the associativity step.
  ///  - A character leaf is returned as it is.
  function FilterTree(cfg: Config, tbl: ParseTable, t: Forest, inCluster: bool): Outcome<Forest>
    decreases t, 0
  {
    match t
    case Amb(alts) =>
      if inCluster then FilterAmbiguities(cfg, tbl, alts)
      else
        (match FilterAmbiguities(cfg, tbl, alts)
         case Fail(f) => Fail(f)
         case Ok(r) => AssocStep(cfg, tbl, r))
    case Node(l, kids, reject) =>
      (match FilterTreeList(cfg, tbl, kids)
       case Fail(f) => Fail(f)
       case Ok(newKids) =>
         if cfg.filterReject && tbl.hasRejects && reject && !cfg.useIntegratedRecovery then Fail(FilterRejected)
         else AssocStep(cfg, tbl, Node(l, newKids, false)))
    case Leaf(_) => Ok(t)
  }

  /// The tree filter on each element of ts in order, inside or outside a
  /// cluster; the first failure ends it.
  function FilterEach(cfg: Config, tbl: ParseTable, ts: seq<Forest>, inCluster: bool): Outcome<seq<Forest>>
    decreases ts, 0
  {
    if ts == [] then Ok([])
    else
      match FilterEach(cfg, tbl, ts[..|ts| - 1], inCluster)
      case Fail(f) => Fail(f)
      case Ok(done) =>
        match FilterTree(cfg, tbl, ts[|ts| - 1], inCluster)
        case Fail(f) => Fail(f)
        case Ok(r) => Ok(done + [r])
  }

  /// An ambiguity cluster: every alternative is filtered inside the
  /// cluster, then the tournament resolves the survivors.
  function FilterAmbiguities(cfg: Config, tbl: ParseTable, alts: seq<Forest>): Outcome<Forest>
    decreases alts, 1
  {
    match FilterEach(cfg, tbl, alts, true)
    case Fail(f) => Fail(f)
    case Ok(newAmbs) => ResolveCluster(cfg, tbl, newAmbs)
  }

  /// The kids of a node: each is filtered outside any cluster, then, when
  /// any filtering is on, each result passes the associativity and
  /// priority filters once more.
  function FilterTreeList(cfg: Config, tbl: ParseTable, kids: seq<Forest>): Outcome<seq<Forest>>
    decreases kids, 1
  {
    match FilterEach(cfg, tbl, kids, false)
    case Fail(f) => Fail(f)
    case Ok(newArgs) => if cfg.filterAny then AssocEach(cfg, tbl, newArgs) else Ok(newArgs)
  }

  /// The associativity and priority filters on each element in order.
  function AssocEach(cfg: Config, tbl: ParseTable, ts: seq<Forest>): Outcome<seq<Forest>>
  {
    if ts == [] then Ok([])
    else
      match AssocEach(cfg, tbl, ts[..|ts| - 1])
      case Fail(f) => Fail(f)
      case Ok(done) =>
        match ApplyAssocPrio(cfg, tbl, ts[|ts| - 1])
        case Fail(f) => Fail(f)
        case Ok(r) => Ok(done + [r])
  }

  // ---------------------------------------------------------------------
  // The output holds no reject node

  /// Every tree in ts is free of reject nodes.
  predicate AllNoReject(ts: seq<Forest>) {
    forall i :: 0 <= i < |ts| ==> NoRejectNodes(ts[i])
  }

  lemma AllNoRejectAppend(a: seq<Forest>, x: Forest)
    requires AllNoReject(a) && NoRejectNodes(x)
    ensures AllNoReject(a + [x])
  {
  }

  /// The tree filter only ever builds plain nodes: whatever it returns is
  /// free of reject nodes, whatever the switches.
  lemma {:induction false} FilterTreeNoReject(cfg: Config, tbl: ParseTable, t: Forest, inCluster: bool)
    requires FilterTree(cfg, tbl, t, inCluster).Ok?
    ensures NoRejectNodes(FilterTree(cfg, tbl, t, inCluster).value)
    decreases t, 0
  {
    match t
    case Amb(alts) =>
      FilterAmbiguitiesNoReject(cfg, tbl, alts);
      if !inCluster {
        AssocStepNoReject(cfg, tbl, FilterAmbiguities(cfg, tbl, alts).value);
      }
    case Node(l, kids, reject) =>
      FilterTreeListNoReject(cfg, tbl, kids);
      var newKids := FilterTreeList(cfg, tbl, kids).value;
      assert NoRejectNodes(Node(l, newKids, false));
      AssocStepNoReject(cfg, tbl, Node(l, newKids, false));
    case Leaf(_) =>
  }

  lemma {:induction false} FilterEachNoReject(cfg: Config, tbl: ParseTable, ts: seq<Forest>, inCluster: bool)
    requires FilterEach(cfg, tbl, ts, inCluster).Ok?
    ensures AllNoReject(FilterEach(cfg, tbl, ts, inCluster).value)
    ensures |FilterEach(cfg, tbl, ts, inCluster).value| == |ts|
    decreases ts, 0
  {
    if ts != [] {
      FilterEachNoReject(cfg, tbl, ts[..|ts| - 1], inCluster);
      FilterTreeNoReject(cfg, tbl, ts[|ts| - 1], inCluster);
      AllNoRejectAppend(FilterEach(cfg, tbl, ts[..|ts| - 1], inCluster).value,
                        FilterTree(cfg, tbl, ts[|ts| - 1], inCluster).value);
    }
  }

  lemma {:induction false} FilterAmbiguitiesNoReject(cfg: Config, tbl: ParseTable, alts: seq<Forest>)
    requires FilterAmbiguities(cfg, tbl, alts).Ok?
    ensures NoRejectNodes(FilterAmbiguities(cfg, tbl, alts).value)
    decreases alts, 1
  {
    FilterEachNoReject(cfg, tbl, alts, true);
    var newAmbs := FilterEach(cfg, tbl, alts, true).value;
    ResolveClusterShape(cfg, tbl, newAmbs);
    var r := ResolveCluster(cfg, tbl, newAmbs).value;
    if r in newAmbs {
      var i :| 0 <= i < |newAmbs| && newAmbs[i] == r;
    } else {
      forall i | 0 <= i < |r.alts|
        ensures NoRejectNodes(r.alts[i])
      {
        assert r.alts[i] in r.alts;
        var k :| 0 <= k < |newAmbs| && newAmbs[k] == r.alts[i];
      }
    }
  }

  lemma {:induction false} FilterTreeListNoReject(cfg: Config, tbl: ParseTable, kids: seq<Forest>)
    requires FilterTreeList(cfg, tbl, kids).Ok?
    ensures AllNoReject(FilterTreeList(cfg, tbl, kids).value)
    decreases kids, 1
  {
    FilterEachNoReject(cfg, tbl, kids, false);
    if cfg.filterAny {
      AssocEachNoReject(cfg, tbl, FilterEach(cfg, tbl, kids, false).value);
    }
  }

  lemma {:induction false} AssocEachNoReject(cfg: Config, tbl: ParseTable, ts: seq<Forest>)
    requires AllNoReject(ts) && AssocEach(cfg, tbl, ts).Ok?
    ensures AllNoReject(AssocEach(cfg, tbl, ts).value)
  {
    if ts != [] {
      AssocEachNoReject(cfg, tbl, ts[..|ts| - 1]);
      ApplyAssocPrioNoReject(cfg, tbl, ts[|ts| - 1]);
      AllNoRejectAppend(AssocEach(cfg, tbl, ts[..|ts| - 1]).value, ApplyAssocPrio(cfg, tbl, ts[|ts| - 1]).value);
    }
  }

  lemma AssocStepNoReject(cfg: Config, tbl: ParseTable, t: Forest)
    requires NoRejectNodes(t) && AssocStep(cfg, tbl, t).Ok?
    ensures NoRejectNodes(AssocStep(cfg, tbl, t).value)
  {
    if cfg.filterAssociativity {
      ApplyAssocPrioNoReject(cfg, tbl, t);
    }
  }

  /// The associativity and priority filters only rearrange trees they are
  /// given and build plain nodes, so they add no reject node.
  lemma ApplyAssocPrioNoReject(cfg: Config, tbl: ParseTable, t: Forest)
    requires NoRejectNodes(t) && ApplyAssocPrio(cfg, tbl, t).Ok?
    ensures NoRejectNodes(ApplyAssocPrio(cfg, tbl, t).value)
  {
    if t.Node? && t.kids != [] {
      var assoc :=
        if cfg.filterAssociativity && tbl.isLeftAssociative(t.prodLabel) then LeftAssocFilter(t)
        else if cfg.filterAssociativity && tbl.isRightAssociative(t.prodLabel) then RightAssocFilter(t)
        else Ok(t);
      assert assoc.Ok?;
      var r := assoc.value;
      if cfg.filterAssociativity && tbl.isLeftAssociative(t.prodLabel) {
        LeftAssocNoReject(t);
      } else if cfg.filterAssociativity && tbl.isRightAssociative(t.prodLabel) {
        RightAssocNoReject(t);
      }
      assert NoRejectNodes(r);
      if cfg.filterPriorities && tbl.hasPriorities && |tbl.priorities(t.prodLabel)| > 0 && r.Node? {
        PriorityFromShape(cfg, tbl, r, 0);
      }
    } else if t.Node? {
      var r := ApplyAssocPrio(cfg, tbl, t).value;
      if cfg.filterPriorities && tbl.hasPriorities && |tbl.priorities(t.prodLabel)| > 0 {
        PriorityFromShape(cfg, tbl, t, 0);
      }
    }
  }

  /// A collapsed survivor list of alternatives free of reject nodes is free
  /// of them too.
  lemma CollapsedNoReject(lbl: int, x: Forest, alts: seq<Forest>)
    requires AllNoReject(alts) && CollapsedSurvivors(lbl, x, alts)
    ensures NoRejectNodes(x)
  {
    if x in alts {
      var i :| 0 <= i < |alts| && alts[i] == x;
    } else {
      forall i | 0 <= i < |x.alts|
        ensures NoRejectNodes(x.alts[i])
      {
        assert x.alts[i] in x.alts;
        var k :| 0 <= k < |alts| && alts[k] == x.alts[i];
      }
    }
  }

  lemma LeftAssocNoReject(t: Forest)
    requires t.Node? && t.kids != [] && NoRejectNodes(t) && LeftAssocFilter(t).Ok?
    ensures NoRejectNodes(LeftAssocFilter(t).value)
  {
    LeftAssocFilterSpec(t);
    var r := LeftAssocFilter(t).value;
    if r != t {
      var n := |t.kids|;
      var last := t.kids[n - 1];
      CollapsedNoReject(t.prodLabel, r.alts[n - 1], last.alts);
      forall i | 0 <= i < |r.alts|
        ensures NoRejectNodes(r.alts[i])
      {
        if i < n - 1 {
          assert r.alts[i] == r.alts[..n - 1][i];
        }
      }
    }
  }

  lemma RightAssocNoReject(t: Forest)
    requires t.Node? && t.kids != [] && NoRejectNodes(t) && RightAssocFilter(t).Ok?
    ensures NoRejectNodes(RightAssocFilter(t).value)
  {
    RightAssocFilterSpec(t);
    var r := RightAssocFilter(t).value;
    if r != t {
      var m := |r.kids|;
      CollapsedNoReject(t.prodLabel, r.kids[m - 1], t.kids[0].alts);
      forall i | 0 <= i < m
        ensures NoRejectNodes(r.kids[i])
      {
        if i < m - 1 {
          assert r.kids[i] == r.kids[..m - 1][i] == t.kids[1..|t.kids| - 1][i];
        }
      }
    }
  }

  // ---------------------------------------------------------------------
  // A reject node anywhere fails the filter

  /// Reject filtering is in force: the switch is on, the table has reject
  /// productions and the parser does not recover.
  predicate RejectsChecked(cfg: Config, tbl: ParseTable) {
    cfg.filterReject && tbl.hasRejects && !cfg.useIntegratedRecovery
  }

  /// With reject filtering in force, a tree holding a reject node anywhere
  /// (inside clusters too: the failure is never caught on the way up)
  /// makes the tree filter fail.
  lemma {:induction false} FilterTreeFailsOnReject(cfg: Config, tbl: ParseTable, t: Forest, inCluster: bool)
    requires RejectsChecked(cfg, tbl) && HasRejectNode(t)
    ensures FilterTree(cfg, tbl, t, inCluster).Fail?
    decreases t, 0
  {
    match t
    case Amb(alts) =>
      var i :| 0 <= i < |alts| && HasRejectNode(alts[i]);
      FilterEachFails(cfg, tbl, alts, true, i);
    case Node(l, kids, reject) =>
      if !reject {
        var i :| 0 <= i < |kids| && HasRejectNode(kids[i]);
        FilterEachFails(cfg, tbl, kids, false, i);
      }
  }

  lemma {:induction false} FilterEachFails(cfg: Config, tbl: ParseTable, ts: seq<Forest>, inCluster: bool, i: nat)
    requires RejectsChecked(cfg, tbl) && i < |ts| && HasRejectNode(ts[i])
    ensures FilterEach(cfg, tbl, ts, inCluster).Fail?
    decreases ts, 0
  {
    var init := ts[..|ts| - 1];
    if i == |ts| - 1 {
      FilterTreeFailsOnReject(cfg, tbl, ts[i], inCluster);
    } else {
      assert init[i] == ts[i];
      FilterEachFails(cfg, tbl, init, inCluster, i);
    }
  }

  // ---------------------------------------------------------------------
  // The tree filter as the recursive loops that perform it

  method FilterTreeRec(cfg: Config, tbl: ParseTable, t: Forest, inCluster: bool) returns (r: Outcome<Forest>)
    ensures r == FilterTree(cfg, tbl, t, inCluster)
    decreases t, 0
  {
    match t
    case Amb(alts) =>
      r := FilterAmbiguitiesRec(cfg, tbl, alts);
      if !inCluster && r.Ok? && cfg.filterAssociativity {
        r := ApplyAssocPrio(cfg, tbl, r.value);
      }
    case Node(l, kids, reject) =>
      var newArgs := FilterTreeListRec(cfg, tbl, kids);
      if newArgs.Fail? {
        return Fail(newArgs.failure);
      }
      if cfg.filterReject && tbl.hasRejects {
        if reject && !cfg.useIntegratedRecovery {
          return Fail(FilterRejected);
        }
      }
      var n := Node(l, newArgs.value, false);
      if cfg.filterAssociativity {
        r := ApplyAssocPrio(cfg, tbl, n);
      } else {
        r := Ok(n);
      }
    case Leaf(_) =>
      r := Ok(t);
  }

  method FilterEachRec(cfg: Config, tbl: ParseTable, ts: seq<Forest>, inCluster: bool)
    returns (r: Outcome<seq<Forest>>)
    ensures r == FilterEach(cfg, tbl, ts, inCluster)
    decreases ts, 0
  {
    var out: seq<Forest> := [];
    for i := 0 to |ts|
      invariant FilterEach(cfg, tbl, ts[..i], inCluster) == Ok(out)
    {
      assert ts[..i + 1][..i] == ts[..i];
      var filtered := FilterTreeRec(cfg, tbl, ts[i], inCluster);
      if filtered.Fail? {
        FilterEachFailPersists(cfg, tbl, ts, inCluster, i + 1);
        return Fail(filtered.failure);
      }
      out := out + [filtered.value];
    }
    assert ts[..|ts|] == ts;
    return Ok(out);
  }

  lemma {:induction false} FilterEachFailPersists(cfg: Config, tbl: ParseTable, ts: seq<Forest>, inCluster: bool, k: nat)
    requires k <= |ts| && FilterEach(cfg, tbl, ts[..k], inCluster).Fail?
    ensures FilterEach(cfg, tbl, ts, inCluster) == FilterEach(cfg, tbl, ts[..k], inCluster)
    decreases |ts| - k
  {
    if k < |ts| {
      assert ts[..k + 1][..k] == ts[..k];
      FilterEachFailPersists(cfg, tbl, ts, inCluster, k + 1);
    } else {
      assert ts[..k] == ts;
    }
  }

  method FilterAmbiguitiesRec(cfg: Config, tbl: ParseTable, alts: seq<Forest>) returns (r: Outcome<Forest>)
    ensures r == FilterAmbiguities(cfg, tbl, alts)
    decreases alts, 1
  {
    var newAmbiguities := FilterEachRec(cfg, tbl, alts, true);
    if newAmbiguities.Fail? {
      return Fail(newAmbiguities.failure);
    }
    r := ResolveClusterLoop(cfg, tbl, newAmbiguities.value);
  }

  method FilterTreeListRec(cfg: Config, tbl: ParseTable, kids: seq<Forest>) returns (r: Outcome<seq<Forest>>)
    ensures r == FilterTreeList(cfg, tbl, kids)
    decreases kids, 1
  {
    var newArgs := FilterEachRec(cfg, tbl, kids, false);
    if newArgs.Fail? || !cfg.filterAny {
      return newArgs;
    }
    var args := newArgs.value;
    var filtered: seq<Forest> := [];
    for i := 0 to |args|
      invariant AssocEach(cfg, tbl, args[..i]) == Ok(filtered)
    {
      assert args[..i + 1][..i] == args[..i];
      var n := ApplyAssocPrio(cfg, tbl, args[i]);
      if n.Fail? {
        AssocEachFailPersists(cfg, tbl, args, i + 1);
        return Fail(n.failure);
      }
      filtered := filtered + [n.value];
    }
    assert args[..|args|] == args;
    return Ok(filtered);
  }

  lemma {:induction false} AssocEachFailPersists(cfg: Config, tbl: ParseTable, ts: seq<Forest>, k: nat)
    requires k <= |ts| && AssocEach(cfg, tbl, ts[..k]).Fail?
    ensures AssocEach(cfg, tbl, ts) == AssocEach(cfg, tbl, ts[..k])
    decreases |ts| - k
  {
    if k < |ts| {
      assert ts[..k + 1][..k] == ts[..k];
      AssocEachFailPersists(cfg, tbl, ts, k + 1);
    } else {
      assert ts[..k] == ts;
    }
  }

  // ---------------------------------------------------------------------
  // The whole pipeline

  /// The cycle check: when cycle filtering is on and the parser recorded
  /// ambiguities, the cyclic-term search runs on the root. It finds nothing
  /// below a character leaf, is unimplemented for a node outside a
  /// cluster, and meets an ambiguity node as a node of no known kind.
  function ApplyCycleDetectFilter(cfg: Config, t: Forest, maxAmbiguities: int): (r: Outcome<Forest>)
    ensures r.Ok? ==> r.value == t
    ensures r.Ok? <==> !cfg.filterCycles || maxAmbiguities <= 0 || t.Leaf?
  {
    if cfg.filterCycles && maxAmbiguities > 0 then
      match t
      case Leaf(_) => Ok(t)
      case Node(_, _, _) => Fail(Crash(NotImplemented))
      case Amb(_) => Fail(Crash(Fatal))
    else Ok(t)
  }

  /// The filters in order: top sort, then, when any filtering is on, the
  /// cycle check and the tree filter from the root. An unchecked exception
  /// anywhere surfaces as a filter failure (Crash).
  function ApplyFiltersSpec(cfg: Config, tbl: ParseTable, root: Forest, sort: Option<string>, maxAmbiguities: int)
    : Outcome<Forest>
  {
    match ApplyTopSortFilter(cfg, tbl, sort, root)
    case Fail(f) => Fail(f)
    case Ok(t) =>
      if !cfg.filterAny then Ok(t)
      else
        match ApplyCycleDetectFilter(cfg, t, maxAmbiguities)
        case Fail(f) => Fail(f)
        case Ok(t2) => FilterTree(cfg, tbl, t2, false)
  }

  /// With any filtering on, a successful result holds no reject node, and
  /// with reject filtering in force a root whose selected tree holds one
  /// never succeeds.
  lemma ApplyFiltersNoReject(cfg: Config, tbl: ParseTable, root: Forest, sort: Option<string>, maxAmbiguities: int)
    requires cfg.filterAny
    ensures ApplyFiltersSpec(cfg, tbl, root, sort, maxAmbiguities).Ok? ==>
              NoRejectNodes(ApplyFiltersSpec(cfg, tbl, root, sort, maxAmbiguities).value)
    ensures RejectsChecked(cfg, tbl) && ApplyTopSortFilter(cfg, tbl, sort, root).Ok?
            && HasRejectNode(ApplyTopSortFilter(cfg, tbl, sort, root).value)
            ==> ApplyFiltersSpec(cfg, tbl, root, sort, maxAmbiguities).Fail?
  {
    var s := ApplyTopSortFilter(cfg, tbl, sort, root);
    if s.Ok? {
      var c := ApplyCycleDetectFilter(cfg, s.value, maxAmbiguities);
      if c.Ok? {
        if FilterTree(cfg, tbl, c.value, false).Ok? {
          FilterTreeNoReject(cfg, tbl, c.value, false);
        }
        if RejectsChecked(cfg, tbl) && HasRejectNode(s.value) {
          FilterTreeFailsOnReject(cfg, tbl, c.value, false);
        }
      }
    }
  }

  /// The top-sort filter as the code that performs it, collecting the
  /// alternatives of an ambiguous root by the recursive loop.
  method ApplyTopSortFilterRec(cfg: Config, tbl: ParseTable, sort: Option<string>, t: Forest)
    returns (r: Outcome<Forest>)
    ensures r == ApplyTopSortFilter(cfg, tbl, sort, t)
  {
    if sort.Some? && cfg.filterTopSort {
      if t.Amb? {
        var results := AddTopSortAlternatives(tbl, t.alts, sort.value, []);
        assert results == TopSortAlternatives(tbl, t.alts, sort.value);
        if |results| == 0 {
          return Fail(StartSymbolNotFound);
        } else if |results| == 1 {
          return Ok(results[0]);
        } else {
          return Ok(Amb(results));
        }
      } else if tbl.matchesTopSort(LabelOf(t), sort.value) {
        return Ok(t);
      } else {
        return Fail(StartSymbolNotFound);
      }
    }
    return Ok(t);
  }

  /// The pipeline as the code that performs it.
  method ApplyFiltersRec(cfg: Config, tbl: ParseTable, root: Forest, sort: Option<string>, maxAmbiguities: int)
    returns (r: Outcome<Forest>)
    ensures r == ApplyFiltersSpec(cfg, tbl, root, sort, maxAmbiguities)
  {
    var selected := ApplyTopSortFilterRec(cfg, tbl, sort, root);
    if selected.Fail? {
      return selected;
    }
    var t := selected.value;
    if cfg.filterAny {
      var c := ApplyCycleDetectFilter(cfg, t, maxAmbiguities);
      if c.Fail? {
        return c;
      }
      r := FilterTreeRec(cfg, tbl, t, false);
    } else {
      r := Ok(t);
    }
  }

  // ---------------------------------------------------------------------
  // The disambiguator object

  /// The disambiguator: the filter switches, changed by the setters and
  /// read by every filter.
  class Disambiguator {
    var filterAny: bool
    var filterCycles: bool
    var filterDirectPreference: bool
    var filterPreferenceCount: bool
    var filterInjectionCount: bool
    var filterTopSort: bool
    var filterReject: bool
    var filterAssociativity: bool
    var filterPriorities: bool
    var filterStrict: bool

    /// The switches as a configuration, with the parser's recovery flag.
    function Cfg(useIntegratedRecovery: bool): (c: Config)
      reads this
      ensures c.filterAny == filterAny && c.filterReject == filterReject
      ensures c.useIntegratedRecovery == useIntegratedRecovery
    {
      Config(filterAny, filterCycles, filterDirectPreference, filterPreferenceCount, filterInjectionCount,
             filterTopSort, filterReject, filterAssociativity, filterPriorities, filterStrict,
             useIntegratedRecovery)
    }

    /// The default switches: all filters on except cycle detection, the
    /// two counting heuristics and strict priority filtering.
    predicate IsDefault()
      reads this
    {
      filterAny && !filterCycles && filterDirectPreference && !filterPreferenceCount
      && !filterInjectionCount && filterTopSort && filterReject && filterAssociativity
      && filterPriorities && !filterStrict
    }

    constructor ()
      ensures IsDefault()
    {
      filterAny := true;
      filterCycles := false;
      filterDirectPreference := true;
      filterPreferenceCount := false;
      filterInjectionCount := false;
      filterTopSort := true;
      filterReject := true;
      filterAssociativity := true;
      filterPriorities := true;
      filterStrict := false;
    }

    method SetDefaultFilters()
      modifies this
      ensures IsDefault()
    {
      filterAny := true;
      filterCycles := false;
      filterDirectPreference := true;
      filterPreferenceCount := false;
      filterInjectionCount := false;
      filterTopSort := true;
      filterReject := true;
      filterAssociativity := true;
      filterPriorities := true;
      filterStrict := false;
    }

    /// The heuristic switch sets both counting rules and nothing else.
    method SetHeuristicFilters(heuristicFilters: bool)
      modifies this
      ensures Cfg(false) == old(Cfg(false)).(filterPreferenceCount := heuristicFilters,
                                             filterInjectionCount := heuristicFilters)
    {
      filterPreferenceCount := heuristicFilters;
      filterInjectionCount := heuristicFilters;
    }

    method SetFilterAny(b: bool)
      modifies this
      ensures Cfg(false) == old(Cfg(false)).(filterAny := b)
    {
      filterAny := b;
    }

    method SetFilterCycles(b: bool)
      modifies this
      ensures Cfg(false) == old(Cfg(false)).(filterCycles := b)
    {
      filterCycles := b;
    }

    method SetFilterDirectPreference(b: bool)
      modifies this
      ensures Cfg(false) == old(Cfg(false)).(filterDirectPreference := b)
    {
      filterDirectPreference := b;
    }

    method SetFilterPreferenceCount(b: bool)
      modifies this
      ensures Cfg(false) == old(Cfg(false)).(filterPreferenceCount := b)
    {
      filterPreferenceCount := b;
    }

    method SetFilterInjectionCount(b: bool)
      modifies this
      ensures Cfg(false) == old(Cfg(false)).(filterInjectionCount := b)
    {
      filterInjectionCount := b;
    }

    method SetFilterTopSort(b: bool)
      modifies this
      ensures Cfg(false) == old(Cfg(false)).(filterTopSort := b)
    {
      filterTopSort := b;
    }

    method SetFilterReject(b: bool)
      modifies this
      ensures Cfg(false) == old(Cfg(false)).(filterReject := b)
    {
      filterReject := b;
    }

    method SetFilterAssociativity(b: bool)
      modifies this
      ensures Cfg(false) == old(Cfg(false)).(filterAssociativity := b)
    {
      filterAssociativity := b;
    }

    method SetFilterPriorities(b: bool)
      modifies this
      ensures Cfg(false) == old(Cfg(false)).(filterPriorities := b)
    {
      filterPriorities := b;
    }

    method SetFilterStrict(b: bool)
      modifies this
      ensures Cfg(false) == old(Cfg(false)).(filterStrict := b)
    {
      filterStrict := b;
    }

    /// The filters on the parser's result, with the current switches.
    method ApplyFilters(tbl: ParseTable, root: Forest, sort: Option<string>, useIntegratedRecovery: bool,
                        maxAmbiguities: int)
      returns (r: Outcome<Forest>)
      ensures r == ApplyFiltersSpec(Cfg(useIntegratedRecovery), tbl, root, sort, maxAmbiguities)
      ensures filterAny && r.Ok? ==> NoRejectNodes(r.value)
    {
      var cfg := Cfg(useIntegratedRecovery);
      if filterAny {
        ApplyFiltersNoReject(cfg, tbl, root, sort, maxAmbiguities);
      }
      r := ApplyFiltersRec(cfg, tbl, root, sort, maxAmbiguities);
    }
  }
}
