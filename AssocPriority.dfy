/// The associativity and priority filters that the disambiguator applies
/// to every node it rebuilds: a left-associative node may not have a node
/// of its own production as last kid, a right-associative node may not
/// have one as first kid, and no kid may be built by a production of lower
/// priority at that argument position.
module AssocPriority {
  import opened Forests
  import opened Preferences

  // ---------------------------------------------------------------------
  // Priority lookup

  /// Whether a priority edge of l0 puts l0 above l1 at argument position arg.
  predicate EdgeApplies(p: Priority, l1: int, arg: int) {
    p.right == l1 && (p.arg == -1 || p.arg == arg)
  }

  /// l0 has priority over l1 at argument arg: some "greater than" edge of
  /// l0 names l1, at that argument or at every argument.
  predicate HasGreaterPriority(tbl: ParseTable, l0: int, l1: int, arg: int) {
    exists i :: 0 <= i < |tbl.priorities(l0)| && EdgeApplies(tbl.priorities(l0)[i], l1, arg)
  }

  /// The lookup as the loop over l0's edges that performs it, stopping at
  /// the first edge that applies.
  method HasGreaterPriorityLoop(tbl: ParseTable, l0: int, l1: int, arg: int) returns (b: bool)
    ensures b == HasGreaterPriority(tbl, l0, l1, arg)
  {
    var prios := tbl.priorities(l0);
    for i := 0 to |prios|
      invariant forall k :: 0 <= k < i ==> !EdgeApplies(prios[k], l1, arg)
    {
      var p := prios[i];
      if l1 == p.right {
        if p.arg == -1 || p.arg == arg {
          return true;
        }
      }
    }
    return false;
  }

  // ---------------------------------------------------------------------
  // Associativity

  /// Whether an alternative under the checked kid of a node with label lbl
  /// is kept: every alternative except a node of the same production.
  predicate Survives(lbl: int, a: Forest) {
    !(a.Node? && a.prodLabel == lbl)
  }

  /// Whether an alternative can be inspected at all: the left-associative
  /// filter accepts ambiguity alternatives, the right-associative filter
  /// casts every alternative to a node; anything else is a cast error.
  predicate Castable(a: Forest, ambAllowed: bool) {
    a.Node? || (ambAllowed && a.Amb?)
  }

  /// The surviving alternatives, in order; the first alternative that
  /// cannot be cast ends the scan with a cast error.
  function Survivors(lbl: int, alts: seq<Forest>, ambAllowed: bool): Eval<seq<Forest>>
  {
    if alts == [] then Returns([])
    else
      match Survivors(lbl, alts[..|alts| - 1], ambAllowed)
      case Throws(e) => Throws(e)
      case Returns(kept) =>
        var a := alts[|alts| - 1];
        if !Castable(a, ambAllowed) then Throws(ClassCast)
        else if Survives(lbl, a) then Returns(kept + [a])
        else Returns(kept)
  }

  /// The scan completes exactly when every alternative can be cast, and
  /// then keeps exactly the alternatives that survive.
  lemma {:induction false} SurvivorsSpec(lbl: int, alts: seq<Forest>, ambAllowed: bool)
    ensures Survivors(lbl, alts, ambAllowed).Returns?
            <==> forall i :: 0 <= i < |alts| ==> Castable(alts[i], ambAllowed)
    ensures Survivors(lbl, alts, ambAllowed).Returns? ==>
              forall x :: x in Survivors(lbl, alts, ambAllowed).value <==> x in alts && Survives(lbl, x)
  {
    if alts != [] {
      var init := alts[..|alts| - 1];
      SurvivorsSpec(lbl, init, ambAllowed);
      assert alts == init + [alts[|alts| - 1]];
    }
  }

  /// The scan as the loop that performs it.
  method SurvivorsLoop(lbl: int, alts: seq<Forest>, ambAllowed: bool) returns (r: Eval<seq<Forest>>)
    ensures r == Survivors(lbl, alts, ambAllowed)
  {
    var kept: seq<Forest> := [];
    for i := 0 to |alts|
      invariant Survivors(lbl, alts[..i], ambAllowed) == Returns(kept)
    {
      assert alts[..i + 1][..i] == alts[..i];
      var a := alts[i];
      if !Castable(a, ambAllowed) {
        SurvivorsThrowPersists(lbl, alts, ambAllowed, i + 1);
        return Throws(ClassCast);
      }
      if Survives(lbl, a) {
        kept := kept + [a];
      }
    }
    assert alts[..|alts|] == alts;
    return Returns(kept);
  }

  /// A scan that fails on a prefix fails the same on the whole list.
  lemma {:induction false} SurvivorsThrowPersists(lbl: int, alts: seq<Forest>, ambAllowed: bool, k: nat)
    requires k <= |alts| && Survivors(lbl, alts[..k], ambAllowed).Throws?
    ensures Survivors(lbl, alts, ambAllowed) == Survivors(lbl, alts[..k], ambAllowed)
    decreases |alts| - k
  {
    if k < |alts| {
      assert alts[..k + 1][..k] == alts[..k];
      SurvivorsThrowPersists(lbl, alts, ambAllowed, k + 1);
    } else {
      assert alts[..k] == alts;
    }
  }

  /// A non-empty survivor list as one tree: its only element, or an
  /// ambiguity over all of them.
  function Collapse(alts: seq<Forest>): Forest
    requires alts != []
  {
    if |alts| > 1 then Amb(alts) else alts[0]
  }

  /// x is what a non-empty list of surviving alternatives of alts
  /// collapses to: one surviving alternative, or an ambiguity over two or
  /// more of them.
  predicate CollapsedSurvivors(lbl: int, x: Forest, alts: seq<Forest>) {
    (x in alts && Survives(lbl, x))
    || (x.Amb? && |x.alts| >= 2 && forall y :: y in x.alts ==> y in alts && Survives(lbl, y))
  }

  lemma CollapseSurvivors(lbl: int, alts: seq<Forest>, ambAllowed: bool)
    requires Survivors(lbl, alts, ambAllowed).Returns? && Survivors(lbl, alts, ambAllowed).value != []
    ensures CollapsedSurvivors(lbl, Collapse(Survivors(lbl, alts, ambAllowed).value), alts)
  {
    SurvivorsSpec(lbl, alts, ambAllowed);
    var kept := Survivors(lbl, alts, ambAllowed).value;
    assert kept[0] in kept;
  }

  /// The left-associativity filter on node t. When the last kid is an
  /// ambiguity, its same-production alternatives are removed, and the
  /// result is an AMBIGUITY node over the other kids followed by the
  /// remaining alternatives (the source builds an ambiguity here, not a
  /// node). A last kid that is itself a node of the same production
  /// rejects t. A node without kids has no last kid: index error.
  function LeftAssocFilter(t: Forest): Outcome<Forest>
    requires t.Node?
  {
    var kids := t.kids;
    if kids == [] then Fail(Crash(IndexOutOfBounds))
    else
      var last := kids[|kids| - 1];
      if last.Amb? then
        match Survivors(t.prodLabel, last.alts, true)
        case Throws(e) => Fail(Crash(e))
        case Returns(newAmbs) =>
          if newAmbs == [] then Fail(FilterRejected)
          else Ok(Amb(kids[..|kids| - 1] + [Collapse(newAmbs)]))
      else if last.Node? && last.prodLabel == t.prodLabel then Fail(FilterRejected)
      else Ok(t)
  }

  /// What the left-associativity filter promises: it rejects exactly a
  /// node whose last kid is a node of its own production or an ambiguity
  /// all of whose alternatives are; otherwise it returns t unchanged or an
  /// ambiguity that keeps the other kids and ends in what the surviving
  /// alternatives of the last kid collapse to.
  lemma LeftAssocFilterSpec(t: Forest)
    requires t.Node? && t.kids != []
    ensures var last := t.kids[|t.kids| - 1];
            LeftAssocFilter(t) == Fail(FilterRejected)
            <==> (last.Node? && last.prodLabel == t.prodLabel)
                 || (last.Amb? && (forall i :: 0 <= i < |last.alts| ==> Castable(last.alts[i], true))
                     && (forall i :: 0 <= i < |last.alts| ==> !Survives(t.prodLabel, last.alts[i])))
    ensures var last := t.kids[|t.kids| - 1];
            LeftAssocFilter(t).Ok? && LeftAssocFilter(t).value != t ==>
              var r := LeftAssocFilter(t).value;
              last.Amb? && r.Amb? && |r.alts| == |t.kids|
              && r.alts[..|t.kids| - 1] == t.kids[..|t.kids| - 1]
              && CollapsedSurvivors(t.prodLabel, r.alts[|t.kids| - 1], last.alts)
  {
    var last := t.kids[|t.kids| - 1];
    if last.Amb? {
      SurvivorsSpec(t.prodLabel, last.alts, true);
      var s := Survivors(t.prodLabel, last.alts, true);
      if s.Returns? {
        if s.value == [] {
          forall i | 0 <= i < |last.alts|
            ensures !Survives(t.prodLabel, last.alts[i])
          {
            assert last.alts[i] in last.alts;
          }
        } else {
          CollapseSurvivors(t.prodLabel, last.alts, true);
          assert s.value[0] in last.alts;
          var x := s.value[0];
          assert Survives(t.prodLabel, x);
        }
      }
    }
  }

  /// The right-associativity filter on node t. When the first kid is an
  /// ambiguity, its same-production alternatives are removed, and the
  /// result is a new node of t's production whose kids are t's kids
  /// without the first AND the last one, followed by the remaining
  /// alternatives: the source takes the sub-list from index 1 to the last
  /// index exclusive and appends to it. For a single kid that sub-list
  /// range is inverted (illegal argument). A first kid that is a node of
  /// the same production rejects t.
  function RightAssocFilter(t: Forest): Outcome<Forest>
    requires t.Node?
  {
    var kids := t.kids;
    if kids == [] then Fail(Crash(IndexOutOfBounds))
    else
      var first := kids[0];
      if first.Amb? then
        if |kids| < 2 then Fail(Crash(IllegalArgument))
        else
          match Survivors(t.prodLabel, first.alts, false)
          case Throws(e) => Fail(Crash(e))
          case Returns(newAmbs) =>
            if newAmbs == [] then Fail(FilterRejected)
            else Ok(Node(t.prodLabel, kids[1..|kids| - 1] + [Collapse(newAmbs)], false))
      else if first.Node? && first.prodLabel == t.prodLabel then Fail(FilterRejected)
      else Ok(t)
  }

  /// What the right-associativity filter promises: it rejects exactly a
  /// node whose first kid is a node of its own production, or (with two or
  /// more kids) an ambiguity whose alternatives are all such nodes;
  /// otherwise it returns t or a fresh node of t's production, one kid
  /// shorter, that ends in what the surviving alternatives of the first
  /// kid collapse to.
  lemma RightAssocFilterSpec(t: Forest)
    requires t.Node? && t.kids != []
    ensures var first := t.kids[0];
            RightAssocFilter(t) == Fail(FilterRejected)
            <==> (first.Node? && first.prodLabel == t.prodLabel)
                 || (first.Amb? && |t.kids| >= 2
                     && (forall i :: 0 <= i < |first.alts| ==> first.alts[i].Node?)
                     && (forall i :: 0 <= i < |first.alts| ==> !Survives(t.prodLabel, first.alts[i])))
    ensures RightAssocFilter(t).Ok? && RightAssocFilter(t).value != t ==>
              var r := RightAssocFilter(t).value;
              t.kids[0].Amb? && r.Node? && r.prodLabel == t.prodLabel && !r.reject
              && |r.kids| == |t.kids| - 1
              && r.kids[..|r.kids| - 1] == t.kids[1..|t.kids| - 1]
              && CollapsedSurvivors(t.prodLabel, r.kids[|r.kids| - 1], t.kids[0].alts)
  {
    var first := t.kids[0];
    if first.Amb? && |t.kids| >= 2 {
      SurvivorsSpec(t.prodLabel, first.alts, false);
      var s := Survivors(t.prodLabel, first.alts, false);
      if s.Returns? {
        if s.value == [] {
          forall i | 0 <= i < |first.alts|
            ensures !Survives(t.prodLabel, first.alts[i])
          {
            assert first.alts[i] in first.alts;
          }
        } else {
          CollapseSurvivors(t.prodLabel, first.alts, false);
          assert s.value[0] in first.alts;
          var x := s.value[0];
          assert Survives(t.prodLabel, x);
        }
      }
    }
  }

  // ---------------------------------------------------------------------
  // Priorities

  /// The alternatives of an ambiguous kid at position arg of a node of
  /// production l0 that the priority filter collects: those that are
  /// nodes after skipping injections, provided l0 has priority over ITSELF
  /// at arg (the source looks up the parent's own label here, not the
  /// alternative's).
  function PrioritySurvivors(tbl: ParseTable, l0: int, alts: seq<Forest>, arg: int): Eval<seq<Forest>>
  {
    if alts == [] then Returns([])
    else
      match PrioritySurvivors(tbl, l0, alts[..|alts| - 1], arg)
      case Throws(e) => Throws(e)
      case Returns(kept) =>
        var a := alts[|alts| - 1];
        match JumpOverInjections(tbl, a)
        case Throws(e) => Throws(e)
        case Returns(inj) =>
          if inj.Node? && HasGreaterPriority(tbl, l0, l0, arg) then Returns(kept + [a])
          else Returns(kept)
  }

  /// Nothing is ever collected unless l0 has priority over itself at arg.
  lemma {:induction false} PrioritySurvivorsNeedSelfPriority(tbl: ParseTable, l0: int, alts: seq<Forest>, arg: int)
    requires !HasGreaterPriority(tbl, l0, l0, arg)
    requires PrioritySurvivors(tbl, l0, alts, arg).Returns?
    ensures PrioritySurvivors(tbl, l0, alts, arg).value == []
  {
    if alts != [] {
      PrioritySurvivorsNeedSelfPriority(tbl, l0, alts[..|alts| - 1], arg);
    }
  }

  /// The collection as the loop that performs it.
  method PrioritySurvivorsLoop(tbl: ParseTable, l0: int, alts: seq<Forest>, arg: int) returns (r: Eval<seq<Forest>>)
    ensures r == PrioritySurvivors(tbl, l0, alts, arg)
  {
    var kept: seq<Forest> := [];
    for j := 0 to |alts|
      invariant PrioritySurvivors(tbl, l0, alts[..j], arg) == Returns(kept)
    {
      assert alts[..j + 1][..j] == alts[..j];
      var a := alts[j];
      var injAmb := JumpOverInjectionsLoop(tbl, a);
      if injAmb.Throws? {
        PrioritySurvivorsThrowPersists(tbl, l0, alts, arg, j + 1);
        return Throws(injAmb.cause);
      }
      if injAmb.value.Node? {
        var greater := HasGreaterPriorityLoop(tbl, l0, l0, arg);
        if greater {
          kept := kept + [a];
        }
      }
    }
    assert alts[..|alts|] == alts;
    return Returns(kept);
  }

  /// A collection that throws on a prefix throws the same on the whole list.
  lemma {:induction false} PrioritySurvivorsThrowPersists(tbl: ParseTable, l0: int, alts: seq<Forest>, arg: int, k: nat)
    requires k <= |alts| && PrioritySurvivors(tbl, l0, alts[..k], arg).Throws?
    ensures PrioritySurvivors(tbl, l0, alts, arg) == PrioritySurvivors(tbl, l0, alts[..k], arg)
    decreases |alts| - k
  {
    if k < |alts| {
      assert alts[..k + 1][..k] == alts[..k];
      PrioritySurvivorsThrowPersists(tbl, l0, alts, arg, k + 1);
    } else {
      assert alts[..k] == alts;
    }
  }

  /// The priority filter on node t from kid i on. Each kid is looked at
  /// through its injections:
  ///  - an ambiguity: when alternatives are collected they would be put
  ///    back under the injections, which the source leaves unimplemented;
  ///    when none are, strict filtering rejects t and otherwise t is
  ///    returned as it is, ending the filter;
  ///  - a node whose production has lower priority than t's at this
  ///    position rejects t;
  ///  - anything else is kept.
  /// When every kid is kept, t is rebuilt as a fresh node with the same kids.
  function PriorityFrom(cfg: Config, tbl: ParseTable, t: Forest, i: nat): Outcome<Forest>
    requires t.Node? && i <= |t.kids|
    decreases |t.kids| - i
  {
    if i == |t.kids| then Ok(Node(t.prodLabel, t.kids, false))
    else
      match JumpOverInjections(tbl, t.kids[i])
      case Throws(e) => Fail(Crash(e))
      case Returns(inj) =>
        if inj.Amb? then
          match PrioritySurvivors(tbl, t.prodLabel, inj.alts, i)
          case Throws(e) => Fail(Crash(e))
          case Returns(kept) =>
            if kept != [] then Fail(Crash(NotImplemented))
            else if cfg.filterStrict then Fail(FilterRejected)
            else Ok(t)
        else if inj.Node? && HasGreaterPriority(tbl, t.prodLabel, inj.prodLabel, i) then Fail(FilterRejected)
        else PriorityFrom(cfg, tbl, t, i + 1)
  }

  function PriorityFilter(cfg: Config, tbl: ParseTable, t: Forest): Outcome<Forest>
    requires t.Node?
  {
    PriorityFrom(cfg, tbl, t, 0)
  }

  /// Kid i of t is plain: skipping its injections succeeds and does not
  /// reach an ambiguity.
  predicate PlainKid(tbl: ParseTable, t: Forest, i: int)
    requires t.Node? && 0 <= i < |t.kids|
  {
    JumpOverInjections(tbl, t.kids[i]).Returns? && !JumpOverInjections(tbl, t.kids[i]).value.Amb?
  }

  /// Kid i of t, seen through its injections, is not a node whose
  /// production t's production has priority over at position i.
  predicate NoConflictAt(tbl: ParseTable, t: Forest, i: int)
    requires t.Node? && 0 <= i < |t.kids|
  {
    var j := JumpOverInjections(tbl, t.kids[i]);
    j.Returns? && j.value.Node? ==> !HasGreaterPriority(tbl, t.prodLabel, j.value.prodLabel, i)
  }

  /// No kid of t is in priority conflict with t.
  predicate NoPriorityConflict(tbl: ParseTable, t: Forest)
    requires t.Node?
  {
    forall i :: 0 <= i < |t.kids| ==> NoConflictAt(tbl, t, i)
  }

  /// The priority filter only ever returns t itself or a fresh node with
  /// t's production and kids.
  lemma {:induction false} PriorityFromShape(cfg: Config, tbl: ParseTable, t: Forest, i: nat)
    requires t.Node? && i <= |t.kids|
    requires PriorityFrom(cfg, tbl, t, i).Ok?
    ensures PriorityFrom(cfg, tbl, t, i).value in {t, Node(t.prodLabel, t.kids, false)}
    decreases |t.kids| - i
  {
    if i < |t.kids| {
      var j := JumpOverInjections(tbl, t.kids[i]);
      if j.Returns? && !j.value.Amb? {
        PriorityFromShape(cfg, tbl, t, i + 1);
      }
    }
  }

  /// On a node whose kids are all plain, the priority filter succeeds
  /// exactly when there is no priority conflict, and otherwise rejects.
  lemma {:induction false} PriorityFromPlain(cfg: Config, tbl: ParseTable, t: Forest, i: nat)
    requires t.Node? && i <= |t.kids|
    requires forall k :: i <= k < |t.kids| ==> PlainKid(tbl, t, k)
    ensures PriorityFrom(cfg, tbl, t, i) == Ok(Node(t.prodLabel, t.kids, false))
            <==> forall k :: i <= k < |t.kids| ==> NoConflictAt(tbl, t, k)
    ensures PriorityFrom(cfg, tbl, t, i).Fail? ==> PriorityFrom(cfg, tbl, t, i) == Fail(FilterRejected)
    decreases |t.kids| - i
  {
    if i < |t.kids| {
      PriorityFromPlain(cfg, tbl, t, i + 1);
      assert PlainKid(tbl, t, i);
      var inj := JumpOverInjections(tbl, t.kids[i]).value;
      if inj.Node? && HasGreaterPriority(tbl, t.prodLabel, inj.prodLabel, i) {
        assert !NoConflictAt(tbl, t, i);
        assert PriorityFrom(cfg, tbl, t, i) == Fail(FilterRejected);
      } else {
        assert NoConflictAt(tbl, t, i);
        assert PriorityFrom(cfg, tbl, t, i) == PriorityFrom(cfg, tbl, t, i + 1);
      }
    }
  }

  lemma PriorityFilterPlain(cfg: Config, tbl: ParseTable, t: Forest)
    requires t.Node? && forall k :: 0 <= k < |t.kids| ==> PlainKid(tbl, t, k)
    ensures PriorityFilter(cfg, tbl, t) == Ok(Node(t.prodLabel, t.kids, false)) <==> NoPriorityConflict(tbl, t)
    ensures PriorityFilter(cfg, tbl, t).Fail? ==> PriorityFilter(cfg, tbl, t) == Fail(FilterRejected)
  {
    PriorityFromPlain(cfg, tbl, t, 0);
  }

  /// The priority filter as the loop over the kids that performs it.
  method PriorityFilterLoop(cfg: Config, tbl: ParseTable, t: Forest) returns (r: Outcome<Forest>)
    requires t.Node?
    ensures r == PriorityFilter(cfg, tbl, t)
  {
    var kids := t.kids;
    var l0 := t.prodLabel;
    var newKids: seq<Forest> := [];
    for i := 0 to |kids|
      invariant newKids == kids[..i]
      invariant PriorityFrom(cfg, tbl, t, i) == PriorityFilter(cfg, tbl, t)
    {
      var kid := kids[i];
      var injection := JumpOverInjectionsLoop(tbl, kid);
      if injection.Throws? {
        return Fail(Crash(injection.cause));
      }
      var inj := injection.value;
      if inj.Amb? {
        var newAmbiguities := PrioritySurvivorsLoop(tbl, l0, inj.alts, i);
        if newAmbiguities.Throws? {
          return Fail(Crash(newAmbiguities.cause));
        }
        if newAmbiguities.value != [] {
          return Fail(Crash(NotImplemented));
        } else if cfg.filterStrict {
          return Fail(FilterRejected);
        } else {
          return Ok(t);
        }
      } else if inj.Node? {
        var greater := HasGreaterPriorityLoop(tbl, l0, inj.prodLabel, i);
        if greater {
          return Fail(FilterRejected);
        }
      }
      newKids := newKids + [kid];
    }
    assert newKids == kids;
    return Ok(Node(t.prodLabel, newKids, false));
  }

  // ---------------------------------------------------------------------
  // The combined filter

  /// The associativity filter for t's production (left before right), then,
  /// when t's production has priority edges, the priority filter on the
  /// result unless that result is an ambiguity. Only nodes are filtered.
  function ApplyAssocPrio(cfg: Config, tbl: ParseTable, t: Forest): Outcome<Forest>
  {
    if !t.Node? then Ok(t)
    else
      var assoc :=
        if cfg.filterAssociativity && tbl.isLeftAssociative(t.prodLabel) then LeftAssocFilter(t)
        else if cfg.filterAssociativity && tbl.isRightAssociative(t.prodLabel) then RightAssocFilter(t)
        else Ok(t);
      match assoc
      case Fail(f) => Fail(f)
      case Ok(r) =>
        if cfg.filterPriorities && tbl.hasPriorities && |tbl.priorities(t.prodLabel)| > 0 && r.Node? then
          PriorityFilter(cfg, tbl, r)
        else Ok(r)
  }

  /// The combined filter leaves non-nodes alone, never changes the
  /// production of a node it returns, and returns t itself when neither
  /// associativity nor priority filtering applies.
  lemma ApplyAssocPrioSpec(cfg: Config, tbl: ParseTable, t: Forest)
    ensures !t.Node? ==> ApplyAssocPrio(cfg, tbl, t) == Ok(t)
    ensures t.Node? && ApplyAssocPrio(cfg, tbl, t).Ok? && ApplyAssocPrio(cfg, tbl, t).value.Node? ==>
              ApplyAssocPrio(cfg, tbl, t).value.prodLabel == t.prodLabel
    ensures t.Node? && ApplyAssocPrio(cfg, tbl, t).Ok? && ApplyAssocPrio(cfg, tbl, t).value.Amb? ==>
              cfg.filterAssociativity && tbl.isLeftAssociative(t.prodLabel)
    ensures t.Node? && (!cfg.filterAssociativity || !(tbl.isLeftAssociative(t.prodLabel) || tbl.isRightAssociative(t.prodLabel)))
            && (!cfg.filterPriorities || !tbl.hasPriorities || |tbl.priorities(t.prodLabel)| == 0)
            ==> ApplyAssocPrio(cfg, tbl, t) == Ok(t)
  {
    if t.Node? {
      var assoc :=
        if cfg.filterAssociativity && tbl.isLeftAssociative(t.prodLabel) then LeftAssocFilter(t)
        else if cfg.filterAssociativity && tbl.isRightAssociative(t.prodLabel) then RightAssocFilter(t)
        else Ok(t);
      if assoc.Ok? && assoc.value.Node? {
        assert assoc.value.prodLabel == t.prodLabel;
        if cfg.filterPriorities && tbl.hasPriorities && |tbl.priorities(t.prodLabel)| > 0 {
          var p := PriorityFilter(cfg, tbl, assoc.value);
          if p.Ok? {
            PriorityFromShape(cfg, tbl, assoc.value, 0);
          }
        }
      }
    }
  }
}
