/// The pairwise rules of the disambiguator's ambiguity tournament: the
/// ordered rule chain `Filter` and each rule it consults, with the counting
/// and injection-skipping helpers they use.
module Preferences {
  import opened Productions
  import opened Forests

  // ---------------------------------------------------------------------
  // Injection skipping

  /// Follows the chain of first kids through nodes whose production is a
  /// user-defined injection, starting from node n inside t. The walk ends in
  /// one of three ways: a node that is not an injection gives back t itself
  /// (not the node reached), a non-node first kid is returned, and an
  /// injection node without kids raises an index error.
  function JumpOverInjectionsFrom(tbl: ParseTable, t: Forest, n: Forest): Eval<Forest>
    requires n.Node?
    decreases n
  {
    if !tbl.isUserDefinedInjection(n.prodLabel) then Returns(t)
    else if |n.kids| == 0 then Throws(IndexOutOfBounds)
    else if n.kids[0].Node? then JumpOverInjectionsFrom(tbl, t, n.kids[0])
    else Returns(n.kids[0])
  }

  function JumpOverInjections(tbl: ParseTable, t: Forest): Eval<Forest> {
    if t.Node? then JumpOverInjectionsFrom(tbl, t, t) else Returns(t)
  }

  /// The node reached by a first-kid chain of the given length.
  predicate FirstKidChain(t: Forest, x: Forest, depth: nat)
    decreases depth
  {
    if depth == 0 then x == t
    else t.Node? && |t.kids| > 0 && FirstKidChain(t.kids[0], x, depth - 1)
  }

  /// Skipping injections returns either the node itself or a non-node that
  /// sits at the end of a chain of first kids; it never returns an inner
  /// node of the chain.
  lemma {:induction false} JumpOverInjectionsResult(tbl: ParseTable, t: Forest, n: Forest, depth: nat)
    requires n.Node? && FirstKidChain(t, n, depth)
    requires JumpOverInjectionsFrom(tbl, t, n).Returns?
    ensures var r := JumpOverInjectionsFrom(tbl, t, n).value;
            r == t || (!r.Node? && exists d: nat :: d > depth && FirstKidChain(t, r, d))
    decreases n
  {
    if tbl.isUserDefinedInjection(n.prodLabel) && |n.kids| > 0 {
      ChainExtends(t, n, depth);
      if n.kids[0].Node? {
        JumpOverInjectionsResult(tbl, t, n.kids[0], depth + 1);
      } else {
        assert JumpOverInjectionsFrom(tbl, t, n) == Returns(n.kids[0]);
        var r := n.kids[0];
        assert !r.Node?;
        assert FirstKidChain(t, r, depth + 1);
        assert exists d: nat :: d > depth && FirstKidChain(t, r, d);
      }
    }
  }

  lemma {:induction false} ChainExtends(t: Forest, n: Forest, depth: nat)
    requires FirstKidChain(t, n, depth) && n.Node? && |n.kids| > 0
    ensures FirstKidChain(t, n.kids[0], depth + 1)
    decreases depth
  {
    if depth > 0 {
      ChainExtends(t.kids[0], n, depth - 1);
    }
  }

  /// A node whose production is not an injection is returned as it is, and
  /// so is every non-node.
  lemma JumpOverInjectionsStops(tbl: ParseTable, t: Forest)
    requires !t.Node? || !tbl.isUserDefinedInjection(t.prodLabel)
    ensures JumpOverInjections(tbl, t) == Returns(t)
  {
  }

  /// The walk over injections as the loop that performs it.
  method JumpOverInjectionsLoop(tbl: ParseTable, t: Forest) returns (r: Eval<Forest>)
    ensures r == JumpOverInjections(tbl, t)
  {
    if t.Node? {
      var n := t;
      while tbl.isUserDefinedInjection(n.prodLabel)
        invariant n.Node?
        invariant JumpOverInjectionsFrom(tbl, t, n) == JumpOverInjections(tbl, t)
        decreases n
      {
        if |n.kids| == 0 {
          return Throws(IndexOutOfBounds);
        }
        var x := n.kids[0];
        if x.Node? {
          n := x;
        } else {
          return Returns(x);
        }
      }
    }
    return Returns(t);
  }

  /// The type of the production of a non-ambiguity node; an ambiguity node
  /// has no label, and asking for its type dereferences a missing label.
  function ProductionTypeOf(tbl: ParseTable, t: Forest): Eval<ProductionType> {
    if t.Amb? then Throws(NullPointer) else Returns(tbl.productionType(LabelOf(t)))
  }

  /// Injection skipping that stops at prefer and avoid productions: from a
  /// node that is neither, follows first kids while the label is an
  /// injection, returning the first kid that is not a plain (non-prefer,
  /// non-avoid) node, or the node whose label is not an injection.
  function JumpModuloEagernessFrom(tbl: ParseTable, t: Forest): Eval<Forest>
    requires t.Node?
    decreases t
  {
    if !tbl.isInjection(t.prodLabel) then Returns(t)
    else if |t.kids| == 0 then Throws(IndexOutOfBounds)
    else
      var k := t.kids[0];
      if k.Node? && !IsPreferOrAvoid(tbl.productionType(k.prodLabel)) then JumpModuloEagernessFrom(tbl, k)
      else Returns(k)
  }

  function JumpOverInjectionsModuloEagerness(tbl: ParseTable, t: Forest): (r: Eval<Forest>)
    ensures t.Amb? ==> r == Throws(NullPointer)
    ensures t.Leaf? ==> r == Returns(t)
  {
    if t.Amb? then Throws(NullPointer)
    else if t.Node? && !IsPreferOrAvoid(tbl.productionType(t.prodLabel)) then JumpModuloEagernessFrom(tbl, t)
    else Returns(t)
  }

  /// The walk stops at the first node that is a prefer or avoid node, or
  /// whose label is not an injection: a returned plain node is never an
  /// injection.
  lemma {:induction false} JumpModuloEagernessStopsAtNonInjection(tbl: ParseTable, t: Forest)
    requires t.Node? && !IsPreferOrAvoid(tbl.productionType(t.prodLabel))
    requires JumpModuloEagernessFrom(tbl, t).Returns?
    ensures var r := JumpModuloEagernessFrom(tbl, t).value;
            r.Node? && !IsPreferOrAvoid(tbl.productionType(r.prodLabel)) ==> !tbl.isInjection(r.prodLabel)
    decreases t
  {
    if tbl.isInjection(t.prodLabel) {
      var k := t.kids[0];
      if k.Node? && !IsPreferOrAvoid(tbl.productionType(k.prodLabel)) {
        JumpModuloEagernessStopsAtNonInjection(tbl, k);
      }
    }
  }

  // ---------------------------------------------------------------------
  // Direct and indirect preference

  /// The eagerness order on two nodes; a character node cannot be cast to
  /// a production node.
  function IsMoreEager(tbl: ParseTable, left: Forest, right: Forest): (r: Eval<bool>)
    ensures r.Returns? <==> left.Node? && right.Node?
  {
    if !left.Node? || !right.Node? then Throws(ClassCast)
    else Returns(tbl.isMoreEager(left.prodLabel, right.prodLabel))
  }

  /// Left is more eager than right directly, or after both sides skip their
  /// plain injections.
  function IsLeftMoreEager(tbl: ParseTable, left: Forest, right: Forest): Eval<bool> {
    match IsMoreEager(tbl, left, right)
    case Throws(e) => Throws(e)
    case Returns(direct) =>
      if direct then Returns(true)
      else
        match JumpOverInjectionsModuloEagerness(tbl, left)
        case Throws(e) => Throws(e)
        case Returns(newLeft) =>
          match JumpOverInjectionsModuloEagerness(tbl, right)
          case Throws(e) => Throws(e)
          case Returns(newRight) =>
            if newLeft.Node? && newRight.Node? then Returns(tbl.isMoreEager(newLeft.prodLabel, newRight.prodLabel))
            else Returns(false)
  }

  function FilterOnDirectPrefers(tbl: ParseTable, left: Forest, right: Forest): Eval<Verdict> {
    match IsLeftMoreEager(tbl, left, right)
    case Throws(e) => Throws(e)
    case Returns(l) =>
      if l then Returns(LeftWins)
      else
        match IsLeftMoreEager(tbl, right, left)
        case Throws(e) => Throws(e)
        case Returns(r) => Returns(if r then RightWins else Draw)
  }

  /// Direct preference picks the strictly more eager side: the left side
  /// wins exactly when it is more eager, and the right side wins exactly
  /// when it is more eager and the left side is not.
  lemma DirectPrefersVerdicts(tbl: ParseTable, left: Forest, right: Forest)
    requires FilterOnDirectPrefers(tbl, left, right).Returns?
    ensures FilterOnDirectPrefers(tbl, left, right).value == LeftWins
            <==> IsLeftMoreEager(tbl, left, right) == Returns(true)
    ensures FilterOnDirectPrefers(tbl, left, right).value == RightWins
            <==> IsLeftMoreEager(tbl, left, right) == Returns(false)
                 && IsLeftMoreEager(tbl, right, left) == Returns(true)
  {
  }

  /// The number of positions below |leftArgs| where the two argument lists
  /// differ; a right list shorter than the left one runs the scan off its end.
  function ComputeDistinctArguments(leftArgs: seq<Forest>, rightArgs: seq<Forest>): (r: Eval<nat>)
    ensures r.Returns? <==> |leftArgs| <= |rightArgs|
    ensures r.Returns? ==> r.value <= |leftArgs|
    ensures r == Returns(0) <==> |leftArgs| <= |rightArgs| && leftArgs == rightArgs[..|leftArgs|]
  {
    if |leftArgs| > |rightArgs| then Throws(IndexOutOfBounds)
    else Returns(DistinctPrefix(leftArgs, rightArgs, |leftArgs|))
  }

  /// The count of positions below n where the lists differ.
  function DistinctPrefix(leftArgs: seq<Forest>, rightArgs: seq<Forest>, n: nat): (r: nat)
    requires n <= |leftArgs| && n <= |rightArgs|
    ensures r <= n
    ensures r == 0 <==> leftArgs[..n] == rightArgs[..n]
  {
    if n == 0 then 0
    else
      assert leftArgs[..n] == leftArgs[..n - 1] + [leftArgs[n - 1]];
      assert rightArgs[..n] == rightArgs[..n - 1] + [rightArgs[n - 1]];
      DistinctPrefix(leftArgs, rightArgs, n - 1) + (if leftArgs[n - 1] != rightArgs[n - 1] then 1 else 0)
  }

  /// The counting loop as written.
  method CountDistinctArguments(leftArgs: seq<Forest>, rightArgs: seq<Forest>) returns (r: Eval<nat>)
    ensures r == ComputeDistinctArguments(leftArgs, rightArgs)
  {
    var count := 0;
    for i := 0 to |leftArgs|
      invariant i <= |rightArgs|
      invariant count == DistinctPrefix(leftArgs, rightArgs, i)
    {
      if i >= |rightArgs| {
        return Throws(IndexOutOfBounds);
      }
      if leftArgs[i] != rightArgs[i] {
        count := count + 1;
      }
    }
    return Returns(count);
  }

  /// With exactly one differing position among equally long lists, that
  /// position is the first one where they differ.
  function FirstDifference(leftArgs: seq<Forest>, rightArgs: seq<Forest>, from: nat): (i: nat)
    requires from <= |leftArgs| <= |rightArgs|
    requires exists k :: from <= k < |leftArgs| && leftArgs[k] != rightArgs[k]
    ensures from <= i < |leftArgs| && leftArgs[i] != rightArgs[i]
    ensures forall k :: from <= k < i ==> leftArgs[k] == rightArgs[k]
    decreases |leftArgs| - from
  {
    if leftArgs[from] != rightArgs[from] then from
    else FirstDifference(leftArgs, rightArgs, from + 1)
  }

  /// Indirect preference: for two nodes of the same production that differ
  /// in exactly one argument, compare those arguments; for nodes of
  /// different productions, fall back to direct preference.
  function FilterOnIndirectPrefers(tbl: ParseTable, left: Forest, right: Forest): Eval<Verdict>
    decreases left
  {
    if left.Amb? || right.Amb? then Returns(Draw)
    else if LabelOf(left) != LabelOf(right) then FilterOnDirectPrefers(tbl, left, right)
    else if !left.Node? || !right.Node? then Throws(ClassCast)
    else
      match ComputeDistinctArguments(left.kids, right.kids)
      case Throws(e) => Throws(e)
      case Returns(diffs) =>
        if diffs != 1 then Returns(Draw)
        else
          var i := FirstDifference(left.kids, right.kids, 0);
          FilterOnIndirectPrefers(tbl, left.kids[i], right.kids[i])
  }

  /// Whenever the two sides have the same label, the indirect rule
  /// descends into the single differing argument, so the verdict is the
  /// verdict on that argument pair.
  lemma IndirectPrefersDescends(tbl: ParseTable, left: Forest, right: Forest, i: nat)
    requires left.Node? && right.Node? && left.prodLabel == right.prodLabel
    requires |left.kids| <= |right.kids| && i < |left.kids|
    requires left.kids[i] != right.kids[i]
    requires forall k :: 0 <= k < |left.kids| && k != i ==> left.kids[k] == right.kids[k]
    ensures FilterOnIndirectPrefers(tbl, left, right)
            == FilterOnIndirectPrefers(tbl, left.kids[i], right.kids[i])
  {
    var d := ComputeDistinctArguments(left.kids, right.kids);
    DistinctPrefixSingle(left.kids, right.kids, |left.kids|, i);
    assert d == Returns(1);
    var j := FirstDifference(left.kids, right.kids, 0);
    assert j == i;
  }

  lemma {:induction false} DistinctPrefixSingle(leftArgs: seq<Forest>, rightArgs: seq<Forest>, n: nat, i: nat)
    requires n <= |leftArgs| && n <= |rightArgs| && i < n
    requires leftArgs[i] != rightArgs[i]
    requires forall k :: 0 <= k < n && k != i ==> leftArgs[k] == rightArgs[k]
    ensures DistinctPrefix(leftArgs, rightArgs, n) == 1
  {
    if n - 1 == i {
      assert DistinctPrefix(leftArgs, rightArgs, n - 1) == 0 by {
        assert leftArgs[..n - 1] == rightArgs[..n - 1];
      }
    } else {
      DistinctPrefixSingle(leftArgs, rightArgs, n - 1, i);
    }
  }

  // ---------------------------------------------------------------------
  // Prefer and avoid counts

  /// The number of prefer nodes in t. A prefer node counts 1 and an avoid
  /// node 0, without looking below either; every alternative of an
  /// ambiguity node counts.
  function CountPrefers(tbl: ParseTable, t: Forest): nat
    decreases t, 1
  {
    match t
    case Amb(alts) => CountPrefersList(tbl, alts)
    case Node(prodLabel, kids, _) =>
      if tbl.productionType(prodLabel) == Prefer then 1
      else if tbl.productionType(prodLabel) == Avoid then 0
      else CountPrefersList(tbl, kids)
    case Leaf(_) => 0
  }

  function CountPrefersList(tbl: ParseTable, ts: seq<Forest>): nat
    decreases ts, 0
  {
    if ts == [] then 0 else CountPrefers(tbl, ts[0]) + CountPrefersList(tbl, ts[1..])
  }

  /// The number of avoid nodes in t, counted the same way.
  function CountAvoids(tbl: ParseTable, t: Forest): nat
    decreases t, 1
  {
    match t
    case Amb(alts) => CountAvoidsList(tbl, alts)
    case Node(prodLabel, kids, _) =>
      if tbl.productionType(prodLabel) == Prefer then 0
      else if tbl.productionType(prodLabel) == Avoid then 1
      else CountAvoidsList(tbl, kids)
    case Leaf(_) => 0
  }

  function CountAvoidsList(tbl: ParseTable, ts: seq<Forest>): nat
    decreases ts, 0
  {
    if ts == [] then 0 else CountAvoids(tbl, ts[0]) + CountAvoidsList(tbl, ts[1..])
  }

  /// Counting over a list is additive over concatenation.
  lemma {:induction false} CountsAdditive(tbl: ParseTable, a: seq<Forest>, b: seq<Forest>)
    ensures CountPrefersList(tbl, a + b) == CountPrefersList(tbl, a) + CountPrefersList(tbl, b)
    ensures CountAvoidsList(tbl, a + b) == CountAvoidsList(tbl, a) + CountAvoidsList(tbl, b)
  {
    if a == [] {
      assert a + b == b;
    } else {
      assert (a + b)[0] == a[0];
      assert (a + b)[1..] == a[1..] + b;
      CountsAdditive(tbl, a[1..], b);
    }
  }

  /// A node is counted at most once: prefer and avoid counts of one subtree
  /// never both come from the same node, so a tree with no prefer label
  /// counts no prefers and one with no avoid label counts no avoids.
  predicate NoLabelOfType(tbl: ParseTable, t: Forest, k: ProductionType) {
    match t
    case Amb(alts) => forall i :: 0 <= i < |alts| ==> NoLabelOfType(tbl, alts[i], k)
    case Node(prodLabel, kids, _) =>
      tbl.productionType(prodLabel) != k && forall i :: 0 <= i < |kids| ==> NoLabelOfType(tbl, kids[i], k)
    case Leaf(_) => true
  }

  lemma {:induction false} NoPreferNodesCountsZero(tbl: ParseTable, t: Forest)
    requires NoLabelOfType(tbl, t, Prefer)
    ensures CountPrefers(tbl, t) == 0
    decreases t, 1
  {
    match t
    case Amb(alts) => NoPreferNodesCountsZeroList(tbl, alts);
    case Node(_, kids, _) => NoPreferNodesCountsZeroList(tbl, kids);
    case Leaf(_) =>
  }

  lemma {:induction false} NoPreferNodesCountsZeroList(tbl: ParseTable, ts: seq<Forest>)
    requires forall i :: 0 <= i < |ts| ==> NoLabelOfType(tbl, ts[i], Prefer)
    ensures CountPrefersList(tbl, ts) == 0
    decreases ts, 0
  {
    if ts != [] {
      NoPreferNodesCountsZero(tbl, ts[0]);
      NoPreferNodesCountsZeroList(tbl, ts[1..]);
    }
  }

  /// The prefer/avoid count rule: a side wins with strictly more prefers
  /// and no more avoids, or equal prefers and strictly fewer avoids; when
  /// both sides meet that condition the result is a draw.
  function FilterOnPreferCount(tbl: ParseTable, left: Forest, right: Forest): Verdict {
    if !(tbl.hasPrefers || tbl.hasAvoids) then Draw
    else
      var lp := CountPrefers(tbl, left);
      var rp := CountPrefers(tbl, right);
      var la := CountAvoids(tbl, left);
      var ra := CountAvoids(tbl, right);
      var leftBetter := (lp > rp && la <= ra) || (lp == rp && la < ra);
      var rightBetter := (rp > lp && ra <= la) || (rp == lp && ra < la);
      if leftBetter && rightBetter then Draw
      else if leftBetter then LeftWins
      else if rightBetter then RightWins
      else Draw
  }

  /// The prefer-count rule is antisymmetric, a draw without prefers and
  /// avoids in the table, and a draw when both sides count the same.
  lemma PreferCountAntisymmetric(tbl: ParseTable, left: Forest, right: Forest)
    ensures FilterOnPreferCount(tbl, left, right) == LeftWins
            <==> FilterOnPreferCount(tbl, right, left) == RightWins
    ensures FilterOnPreferCount(tbl, left, right) == Draw
            <==> FilterOnPreferCount(tbl, right, left) == Draw
    ensures !(tbl.hasPrefers || tbl.hasAvoids) ==> FilterOnPreferCount(tbl, left, right) == Draw
    ensures CountPrefers(tbl, left) == CountPrefers(tbl, right)
            && CountAvoids(tbl, left) == CountAvoids(tbl, right)
            ==> FilterOnPreferCount(tbl, left, right) == Draw
  {
  }

  /// The prefer-count rule spelled out: the left side wins exactly when it
  /// has more prefers and no more avoids, or as many prefers and fewer
  /// avoids (the two win conditions cannot hold together on counts).
  lemma PreferCountLeftWins(tbl: ParseTable, left: Forest, right: Forest)
    requires tbl.hasPrefers || tbl.hasAvoids
    ensures var lp, rp := CountPrefers(tbl, left), CountPrefers(tbl, right);
            var la, ra := CountAvoids(tbl, left), CountAvoids(tbl, right);
            FilterOnPreferCount(tbl, left, right) == LeftWins
            <==> (lp > rp && la <= ra) || (lp == rp && la < ra)
  {
  }

  // ---------------------------------------------------------------------
  // Injection counts

  /// Counting injections descends only into the first alternative of an
  /// ambiguity node; this says that descent never meets an empty one.
  predicate InjectionCountDefined(t: Forest) {
    match t
    case Amb(alts) => |alts| > 0 && InjectionCountDefined(alts[0])
    case Node(_, kids, _) => forall i :: 0 <= i < |kids| ==> InjectionCountDefined(kids[i])
    case Leaf(_) => true
  }

  /// The number of injection nodes in t, looking only at the first
  /// alternative of each ambiguity node; leaves count nothing.
  function CountAllInjections(tbl: ParseTable, t: Forest): nat
    requires InjectionCountDefined(t)
    decreases t, 1
  {
    match t
    case Amb(alts) => CountAllInjections(tbl, alts[0])
    case Node(prodLabel, kids, _) => (if tbl.isInjection(prodLabel) then 1 else 0) + CountAllInjectionsList(tbl, kids)
    case Leaf(_) => 0
  }

  function CountAllInjectionsList(tbl: ParseTable, ts: seq<Forest>): nat
    requires forall i :: 0 <= i < |ts| ==> InjectionCountDefined(ts[i])
    decreases ts, 0
  {
    if ts == [] then 0 else CountAllInjections(tbl, ts[0]) + CountAllInjectionsList(tbl, ts[1..])
  }

  /// The injection count as an outcome: an empty ambiguity node on the
  /// first-alternative descent raises an index error.
  function InjectionCount(tbl: ParseTable, t: Forest): Eval<nat> {
    if InjectionCountDefined(t) then Returns(CountAllInjections(tbl, t)) else Throws(IndexOutOfBounds)
  }

  /// The side with fewer injections wins; equal counts are a draw.
  function FilterOnInjectionCount(tbl: ParseTable, left: Forest, right: Forest): Eval<Verdict> {
    match InjectionCount(tbl, left)
    case Throws(e) => Throws(e)
    case Returns(lc) =>
      match InjectionCount(tbl, right)
      case Throws(e) => Throws(e)
      case Returns(rc) =>
        if lc > rc then Returns(RightWins) else if rc > lc then Returns(LeftWins) else Returns(Draw)
  }

  /// The injection-count rule: fewer injections win, a draw iff the counts
  /// are equal, and swapping the sides swaps the verdict.
  lemma InjectionCountRule(tbl: ParseTable, left: Forest, right: Forest)
    requires InjectionCountDefined(left) && InjectionCountDefined(right)
    ensures var lc, rc := CountAllInjections(tbl, left), CountAllInjections(tbl, right);
            && (FilterOnInjectionCount(tbl, left, right) == Returns(LeftWins) <==> lc < rc)
            && (FilterOnInjectionCount(tbl, left, right) == Returns(RightWins) <==> lc > rc)
            && (FilterOnInjectionCount(tbl, left, right) == Returns(Draw) <==> lc == rc)
    ensures FilterOnInjectionCount(tbl, left, right) == Returns(LeftWins)
            <==> FilterOnInjectionCount(tbl, right, left) == Returns(RightWins)
  {
  }

  /// Leaves count no injection; an injection node counts one more than its
  /// kids; an ambiguity node counts as its first alternative.
  lemma InjectionCountShape(tbl: ParseTable, prodLabel: int, kids: seq<Forest>, alts: seq<Forest>, c: int)
    requires forall i :: 0 <= i < |kids| ==> InjectionCountDefined(kids[i])
    requires |alts| > 0 && InjectionCountDefined(alts[0])
    ensures CountAllInjections(tbl, Leaf(c)) == 0
    ensures tbl.isInjection(prodLabel) ==>
      CountAllInjections(tbl, Node(prodLabel, kids, false)) == 1 + CountAllInjectionsList(tbl, kids)
    ensures CountAllInjections(tbl, Amb(alts)) == CountAllInjections(tbl, alts[0])
  {
  }

  // ---------------------------------------------------------------------
  // Permissive literals

  /// The permissive-literal workaround: the left side, a node whose first
  /// kid is a character, beats a right side that wraps exactly the left
  /// side as its only kid.
  function FilterPermissiveLiterals(left: Forest, right: Forest): Verdict {
    if left.Node? && right.Node? && |left.kids| > 0 && |right.kids| == 1
       && left.kids[0].Leaf? && right.kids[0] == left
    then LeftWins
    else Draw
  }

  /// The workaround never lets the right side win, and it cannot fire in
  /// both directions: the wrapping side is strictly larger.
  lemma PermissiveLiteralsOneWay(left: Forest, right: Forest)
    ensures FilterPermissiveLiterals(left, right) != RightWins
    ensures FilterPermissiveLiterals(left, right) == LeftWins
            ==> FilterPermissiveLiterals(right, left) == Draw && left != right
  {
    if FilterPermissiveLiterals(left, right) == LeftWins {
      assert right.kids[0] == left;
      assert left < right;
    }
  }

  // ---------------------------------------------------------------------
  // The rule chain

  /// The ordered rule chain: equal alternatives (left wins), indirect
  /// preference, preference count, injection count, permissive literals.
  /// Each rule is consulted only when enabled and only when every earlier
  /// rule gave a draw.
  function Filter(cfg: Config, tbl: ParseTable, left: Forest, right: Forest): Eval<Verdict> {
    if left == right then Returns(LeftWins)
    else
      var indirect := if cfg.filterDirectPreference && tbl.hasPrefersOrAvoids
                      then FilterOnIndirectPrefers(tbl, left, right) else Returns(Draw);
      if indirect != Returns(Draw) then indirect
      else
        var count := if cfg.filterPreferenceCount && tbl.hasPrefersOrAvoids
                     then Returns(FilterOnPreferCount(tbl, left, right)) else Returns(Draw);
        if count != Returns(Draw) then count
        else
          var injections := if cfg.filterInjectionCount
                            then FilterOnInjectionCount(tbl, left, right) else Returns(Draw);
          if injections != Returns(Draw) then injections
          else Returns(FilterPermissiveLiterals(left, right))
  }

  /// Structurally equal alternatives always give "left wins".
  lemma FilterEqualLeftWins(cfg: Config, tbl: ParseTable, t: Forest)
    ensures Filter(cfg, tbl, t, t) == Returns(LeftWins)
  {
  }

  /// With every optional rule switched off, only equality and the
  /// permissive-literal workaround decide, and nothing can fail.
  lemma FilterWithoutRules(cfg: Config, tbl: ParseTable, left: Forest, right: Forest)
    requires !cfg.filterDirectPreference && !cfg.filterPreferenceCount && !cfg.filterInjectionCount
    ensures Filter(cfg, tbl, left, right)
            == Returns(if left == right then LeftWins else FilterPermissiveLiterals(left, right))
  {
  }
}
