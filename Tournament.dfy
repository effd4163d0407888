/// The pairwise tournament that resolves one ambiguity cluster: each
/// alternative in turn is taken out of the survivor list and compared with
/// every remaining survivor by the rule chain.
module Tournament {
  import opened Forests
  import opened Preferences

  /// The state of one pass over the survivors: the ones kept so far and
  /// whether the challenger is still to be kept.
  datatype Scan = Scan(kept: seq<Forest>, keepT: bool)

  /// One step of a pass: the survivor amb meets challenger t with verdict v.
  /// A survivor that draws is kept, one that wins is kept and the
  /// challenger is dropped, one that loses is dropped.
  function ScanStep(s: Scan, amb: Forest, v: Verdict): Scan {
    if v == Draw then Scan(s.kept + [amb], s.keepT)
    else if v == RightWins then Scan(s.kept + [amb], false)
    else s
  }

  /// The pass of challenger t over ambs, left to right; the first
  /// comparison that throws ends the pass.
  function ScanAmbiguities(cfg: Config, tbl: ParseTable, ambs: seq<Forest>, t: Forest): Eval<Scan>
  {
    if ambs == [] then Returns(Scan([], true))
    else
      match ScanAmbiguities(cfg, tbl, ambs[..|ambs| - 1], t)
      case Throws(e) => Throws(e)
      case Returns(s) =>
        match Filter(cfg, tbl, t, ambs[|ambs| - 1])
        case Throws(e) => Throws(e)
        case Returns(v) => Returns(ScanStep(s, ambs[|ambs| - 1], v))
  }

  /// The survivors after challenger t has met every element of ambs; an
  /// empty list simply admits t.
  function FilterAmbiguityList(cfg: Config, tbl: ParseTable, ambs: seq<Forest>, t: Forest): Eval<seq<Forest>>
  {
    if ambs == [] then Returns([t])
    else
      match ScanAmbiguities(cfg, tbl, ambs, t)
      case Throws(e) => Throws(e)
      case Returns(s) => Returns(s.kept + (if s.keepT then [t] else []))
  }

  /// The pass completes exactly when no comparison throws.
  lemma {:induction false} ScanAmbiguitiesReturns(cfg: Config, tbl: ParseTable, ambs: seq<Forest>, t: Forest)
    ensures ScanAmbiguities(cfg, tbl, ambs, t).Returns?
            <==> forall i :: 0 <= i < |ambs| ==> Filter(cfg, tbl, t, ambs[i]).Returns?
  {
    if ambs != [] {
      var init := ambs[..|ambs| - 1];
      ScanAmbiguitiesReturns(cfg, tbl, init, t);
      assert forall i :: 0 <= i < |init| ==> ambs[i] == init[i];
    }
  }

  /// What a completed pass over ambs keeps: exactly the elements t does
  /// not beat, each at most as often as it occurs, never t itself; the
  /// challenger stays exactly when no element beats it.
  ghost predicate KeepsUnbeaten(cfg: Config, tbl: ParseTable, ambs: seq<Forest>, t: Forest, s: Scan) {
    && (forall x :: x in s.kept <==> x in ambs && Filter(cfg, tbl, t, x) != Returns(LeftWins))
    && (s.keepT <==> forall x :: x in ambs ==> Filter(cfg, tbl, t, x) != Returns(RightWins))
    && multiset(s.kept) <= multiset(ambs)
    && t !in s.kept
  }

  /// One more element scanned keeps the property for the longer list.
  lemma ScanStepKeeps(cfg: Config, tbl: ParseTable, init: seq<Forest>, amb: Forest, t: Forest, s0: Scan, v: Verdict)
    requires KeepsUnbeaten(cfg, tbl, init, t, s0) && Filter(cfg, tbl, t, amb) == Returns(v)
    ensures KeepsUnbeaten(cfg, tbl, init + [amb], t, ScanStep(s0, amb, v))
  {
    FilterEqualLeftWins(cfg, tbl, t);
    var ambs := init + [amb];
    assert forall x :: x in ambs <==> x in init || x == amb;
    assert multiset(ambs) == multiset(init) + multiset{amb};
  }

  lemma {:induction false} ScanAmbiguitiesKeeps(cfg: Config, tbl: ParseTable, ambs: seq<Forest>, t: Forest, r: Eval<Scan>)
    requires r == ScanAmbiguities(cfg, tbl, ambs, t) && r.Returns?
    ensures KeepsUnbeaten(cfg, tbl, ambs, t, r.value)
  {
    if ambs != [] {
      var init := ambs[..|ambs| - 1];
      var amb := ambs[|ambs| - 1];
      assert ambs == init + [amb];
      var r0 := ScanAmbiguities(cfg, tbl, init, t);
      ScanAmbiguitiesKeeps(cfg, tbl, init, t, r0);
      var v := Filter(cfg, tbl, t, amb).value;
      ScanStepKeeps(cfg, tbl, init, amb, t, r0.value, v);
    }
  }


  /// filterAmbiguityList: the result holds only elements of ambs and t;
  /// an element other than t survives exactly when t does not beat it; t
  /// is kept exactly when nothing beats it; an empty list gives exactly
  /// [t]; the result is never empty and holds t at most once.
  lemma FilterAmbiguityListSurvivors(cfg: Config, tbl: ParseTable, ambs: seq<Forest>, t: Forest)
    requires FilterAmbiguityList(cfg, tbl, ambs, t).Returns?
    ensures var res := FilterAmbiguityList(cfg, tbl, ambs, t).value;
      && (forall x :: x in res ==> x in ambs || x == t)
      && (forall x :: x in ambs && x != t ==> (x in res <==> Filter(cfg, tbl, t, x) != Returns(LeftWins)))
      && (t in res <==> forall x :: x in ambs ==> Filter(cfg, tbl, t, x) != Returns(RightWins))
      && (ambs == [] ==> res == [t])
      && res != []
      && multiset(res)[t] <= 1
      && (forall x :: x != t ==> multiset(res)[x] <= multiset(ambs)[x])
  {
    if ambs != [] {
      ScanAmbiguitiesKeeps(cfg, tbl, ambs, t, ScanAmbiguities(cfg, tbl, ambs, t));
      var s := ScanAmbiguities(cfg, tbl, ambs, t).value;
      var res := FilterAmbiguityList(cfg, tbl, ambs, t).value;
      assert res == s.kept + (if s.keepT then [t] else []);
      if !s.keepT {
        var x :| x in ambs && Filter(cfg, tbl, t, x) == Returns(RightWins);
        assert x in s.kept;
      }
      forall x | x != t
        ensures multiset(res)[x] <= multiset(ambs)[x]
      {
        assert multiset(res)[x] == multiset(s.kept)[x];
      }
    }
  }

  /// A comparison that throws ends the pass by throwing.
  lemma FilterAmbiguityListThrows(cfg: Config, tbl: ParseTable, ambs: seq<Forest>, t: Forest)
    ensures FilterAmbiguityList(cfg, tbl, ambs, t).Throws?
            <==> exists i :: 0 <= i < |ambs| && Filter(cfg, tbl, t, ambs[i]).Throws?
  {
    ScanAmbiguitiesReturns(cfg, tbl, ambs, t);
  }

  /// A pass that throws on a prefix throws the same on the whole list.
  lemma {:induction false} ScanThrowPersists(cfg: Config, tbl: ParseTable, ambs: seq<Forest>, t: Forest, k: nat)
    requires k <= |ambs| && ScanAmbiguities(cfg, tbl, ambs[..k], t).Throws?
    ensures ScanAmbiguities(cfg, tbl, ambs, t) == ScanAmbiguities(cfg, tbl, ambs[..k], t)
    decreases |ambs| - k
  {
    if k < |ambs| {
      assert ambs[..k + 1][..k] == ambs[..k];
      ScanThrowPersists(cfg, tbl, ambs, t, k + 1);
    } else {
      assert ambs[..k] == ambs;
    }
  }

  /// The pass as the loop that performs it.
  method FilterAmbiguityListLoop(cfg: Config, tbl: ParseTable, ambs: seq<Forest>, t: Forest)
    returns (r: Eval<seq<Forest>>)
    ensures r == FilterAmbiguityList(cfg, tbl, ambs, t)
  {
    var keepT := true;
    var kept: seq<Forest> := [];
    if ambs == [] {
      return Returns([t]);
    }
    for i := 0 to |ambs|
      invariant ScanAmbiguities(cfg, tbl, ambs[..i], t) == Returns(Scan(kept, keepT))
    {
      assert ambs[..i + 1][..i] == ambs[..i];
      var amb := ambs[i];
      var v := Filter(cfg, tbl, t, amb);
      match v {
        case Throws(e) =>
          ScanThrowPersists(cfg, tbl, ambs, t, i + 1);
          return Throws(e);
        case Returns(verdict) =>
          if verdict == Draw {
            kept := kept + [amb];
          } else if verdict == RightWins {
            kept := kept + [amb];
            keepT := false;
          }
      }
    }
    assert ambs[..|ambs|] == ambs;
    return Returns(kept + (if keepT then [t] else []));
  }

  /// The list without the first occurrence of x (the list's remove).
  function RemoveFirst(s: seq<Forest>, x: Forest): (r: seq<Forest>)
    requires x in s
    ensures multiset(r) == multiset(s) - multiset{x}
    ensures |r| == |s| - 1
  {
    assert s == [s[0]] + s[1..];
    if s[0] == x then s[1..]
    else [s[0]] + RemoveFirst(s[1..], x)
  }

  /// The rounds of the tournament over the elements of olds, in order: an
  /// element still among the survivors is taken out and challenges the rest.
  function TournamentRounds(cfg: Config, tbl: ParseTable, list: seq<Forest>, olds: seq<Forest>): Eval<seq<Forest>>
  {
    if olds == [] then Returns(list)
    else
      match TournamentRounds(cfg, tbl, list, olds[..|olds| - 1])
      case Throws(e) => Throws(e)
      case Returns(cur) =>
        var amb := olds[|olds| - 1];
        if amb in cur then FilterAmbiguityList(cfg, tbl, RemoveFirst(cur, amb), amb)
        else Returns(cur)
  }

  /// The resolution of a cluster whose alternatives are already filtered:
  /// with two or more, run the tournament; then no survivor is a filter
  /// failure, one survivor is returned as it is, more become an ambiguity.
  function ResolveCluster(cfg: Config, tbl: ParseTable, newAmbs: seq<Forest>): Outcome<Forest>
  {
    var rounds := if |newAmbs| > 1 then TournamentRounds(cfg, tbl, newAmbs, newAmbs) else Returns(newAmbs);
    match rounds
    case Throws(e) => Fail(Crash(e))
    case Returns(res) =>
      if res == [] then Fail(FilterRejected)
      else if |res| == 1 then Ok(res[0])
      else Ok(Amb(res))
  }

  /// The survivor list of a tournament is never emptied, holds only
  /// elements of the starting list, and after an element's round holds it
  /// at most once.
  /// What the rounds for olds leave of list: nothing emptied, only
  /// alternatives of list, each one whose round has been played at most
  /// once, the others at most as often as in list.
  ghost predicate RoundsSurvivors(list: seq<Forest>, olds: seq<Forest>, res: seq<Forest>) {
    && (list != [] ==> res != [])
    && (forall x :: x in res ==> x in list)
    && (forall x :: x in olds ==> multiset(res)[x] <= 1)
    && (forall x :: x !in olds ==> multiset(res)[x] <= multiset(list)[x])
  }

  /// One more round, for amb, keeps the property for the longer olds.
  lemma RoundStepSurvivors(cfg: Config, tbl: ParseTable, list: seq<Forest>, init: seq<Forest>, amb: Forest,
                           cur: seq<Forest>, res: seq<Forest>)
    requires RoundsSurvivors(list, init, cur) && amb in cur
    requires FilterAmbiguityList(cfg, tbl, RemoveFirst(cur, amb), amb) == Returns(res)
    ensures RoundsSurvivors(list, init + [amb], res)
  {
    var olds := init + [amb];
    var rest := RemoveFirst(cur, amb);
    FilterAmbiguityListSurvivors(cfg, tbl, rest, amb);
    forall x | x in res ensures x in list {
      if x != amb {
        assert multiset(rest)[x] > 0;
        assert x in cur;
      }
    }
    forall x | x in olds ensures multiset(res)[x] <= 1 {
      if x != amb {
        assert x in init;
        assert multiset(res)[x] <= multiset(rest)[x] <= multiset(cur)[x];
      }
    }
    forall x | x !in olds ensures multiset(res)[x] <= multiset(list)[x] {
      assert x !in init && x != amb;
      assert multiset(res)[x] <= multiset(rest)[x] <= multiset(cur)[x];
    }
  }

  lemma {:induction false} TournamentRoundsSurvivors(cfg: Config, tbl: ParseTable, list: seq<Forest>, olds: seq<Forest>,
                                                     r: Eval<seq<Forest>>)
    requires r == TournamentRounds(cfg, tbl, list, olds) && r.Returns?
    ensures RoundsSurvivors(list, olds, r.value)
  {
    if olds != [] {
      var init := olds[..|olds| - 1];
      var amb := olds[|olds| - 1];
      assert olds == init + [amb];
      var r0 := TournamentRounds(cfg, tbl, list, init);
      TournamentRoundsSurvivors(cfg, tbl, list, init, r0);
      var cur := r0.value;
      if amb in cur {
        RoundStepSurvivors(cfg, tbl, list, init, amb, cur, r.value);
      } else {
        assert multiset(cur)[amb] == 0;
      }
    }
  }


  /// An element that occurs at most once does not occur at a second position.
  lemma OnceMeansDistinct(s: seq<Forest>, i: int, j: int)
    requires 0 <= i < j < |s| && multiset(s)[s[i]] <= 1
    ensures s[i] != s[j]
  {
    assert s == s[..j] + s[j..];
    assert s[i] in s[..j];
    assert s[j] in s[j..];
    assert multiset(s) == multiset(s[..j]) + multiset(s[j..]);
  }

  /// The tournament of a cluster collapses duplicates: the survivors are
  /// pairwise distinct, all drawn from the cluster, and there is at least one.
  lemma TournamentDistinctSurvivors(cfg: Config, tbl: ParseTable, list: seq<Forest>)
    requires TournamentRounds(cfg, tbl, list, list).Returns?
    ensures var res := TournamentRounds(cfg, tbl, list, list).value;
      && (list != [] ==> res != [])
      && (forall x :: x in res ==> x in list)
      && (forall i, j :: 0 <= i < j < |res| ==> res[i] != res[j])
  {
    TournamentRoundsSurvivors(cfg, tbl, list, list, TournamentRounds(cfg, tbl, list, list));
    var res := TournamentRounds(cfg, tbl, list, list).value;
    forall i, j | 0 <= i < j < |res| ensures res[i] != res[j] {
      assert res[i] in list;
      OnceMeansDistinct(res, i, j);
    }
  }

  /// A cluster fails with a filter failure exactly when it has no
  /// alternative at all; one alternative is returned unwrapped; otherwise
  /// a successful result is a lone surviving alternative or a new ambiguity
  /// over two or more distinct survivors.
  lemma ResolveClusterShape(cfg: Config, tbl: ParseTable, newAmbs: seq<Forest>)
    ensures ResolveCluster(cfg, tbl, newAmbs) == Fail(FilterRejected) <==> newAmbs == []
    ensures |newAmbs| == 1 ==> ResolveCluster(cfg, tbl, newAmbs) == Ok(newAmbs[0])
    ensures |newAmbs| > 1 && ResolveCluster(cfg, tbl, newAmbs).Ok? ==>
      var r := ResolveCluster(cfg, tbl, newAmbs).value;
      r in newAmbs
      || (r.Amb? && |r.alts| >= 2 && (forall x :: x in r.alts ==> x in newAmbs)
          && (forall i, j :: 0 <= i < j < |r.alts| ==> r.alts[i] != r.alts[j]))
  {
    if |newAmbs| > 1 {
      var rounds := TournamentRounds(cfg, tbl, newAmbs, newAmbs);
      if rounds.Returns? {
        TournamentDistinctSurvivors(cfg, tbl, newAmbs);
        var res := rounds.value;
        assert res != [];
        if |res| > 1 {
          assert ResolveCluster(cfg, tbl, newAmbs) == Ok(Amb(res));
        }
      }
    }
  }

  /// A tournament that throws in some round throws the same in the end.
  lemma {:induction false} TournamentThrowPersists(cfg: Config, tbl: ParseTable, list: seq<Forest>, olds: seq<Forest>, k: nat)
    requires k <= |olds| && TournamentRounds(cfg, tbl, list, olds[..k]).Throws?
    ensures TournamentRounds(cfg, tbl, list, olds) == TournamentRounds(cfg, tbl, list, olds[..k])
    decreases |olds| - k
  {
    if k < |olds| {
      assert olds[..k + 1][..k] == olds[..k];
      TournamentThrowPersists(cfg, tbl, list, olds, k + 1);
    } else {
      assert olds[..k] == olds;
    }
  }

  /// The cluster resolution as the loops that perform it.
  method ResolveClusterLoop(cfg: Config, tbl: ParseTable, newAmbs: seq<Forest>) returns (r: Outcome<Forest>)
    ensures r == ResolveCluster(cfg, tbl, newAmbs)
  {
    var newAmbiguities := newAmbs;
    if |newAmbiguities| > 1 {
      var oldAmbiguities := newAmbiguities;
      for i := 0 to |oldAmbiguities|
        invariant TournamentRounds(cfg, tbl, newAmbs, oldAmbiguities[..i]) == Returns(newAmbiguities)
      {
        assert oldAmbiguities[..i + 1][..i] == oldAmbiguities[..i];
        var amb := oldAmbiguities[i];
        if amb in newAmbiguities {
          var filtered := FilterAmbiguityListLoop(cfg, tbl, RemoveFirst(newAmbiguities, amb), amb);
          if filtered.Throws? {
            TournamentThrowPersists(cfg, tbl, newAmbs, oldAmbiguities, i + 1);
            return Fail(Crash(filtered.cause));
          }
          newAmbiguities := filtered.value;
        }
      }
      assert oldAmbiguities[..|oldAmbiguities|] == oldAmbiguities;
    }
    if newAmbiguities == [] {
      return Fail(FilterRejected);
    }
    if |newAmbiguities| == 1 {
      return Ok(newAmbiguities[0]);
    }
    return Ok(Amb(newAmbiguities));
  }
}
