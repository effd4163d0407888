/// The shifter of the JSGLR parser on the stack as a value: every pending
/// shift either joins the frame of the new frontier that already has its
/// target state or creates that frame, and links it to the shift's source
/// with the node of the current character.
module SglrShifter {
  import opened SglrStack

  /// A pending shift: from frame `st` into parse state `s`.
  datatype ActionState = ActionState(st: nat, s: int)

  /// Every shift starts at one of the first `frames` frames and targets one
  /// of the `n` states.
  predicate ShiftsOk(fs: seq<ActionState>, frames: nat, n: nat) {
    forall i :: 0 <= i < |fs| ==> fs[i].st < frames && 0 <= fs[i].s < n
  }

  /// A shift is carried out unless the table has reject productions and
  /// every link of its source frame has been rejected.
  predicate Live(g: Gss, a: ActionState, hasRejects: bool)
    requires GssOk(g) && a.st < |g.frames|
  {
    !(hasRejects && AllLinksRejected(g, a.st))
  }

  /// One shift, as SGLR.shifter performs it on the new frontier `act`.
  function ShiftStep(g: Gss, act: seq<nat>, a: ActionState, node: ParseNode, hasRejects: bool): (Gss, seq<nat>)
    requires GssOk(g) && Below(act, |g.frames|) && a.st < |g.frames|
  {
    if !Live(g, a, hasRejects) then (g, act)
    else match FindStack(g, act, a.s)
      case None =>
        var (g1, f) := NewFrame(g, a.s);
        (AddLink(g1, f, a.st, node, 1).0, [f] + act)
      case Some(f) => (AddLink(g, f, a.st, node, 1).0, act)
  }

  /// The shifts `fs` carried out in order, front first.
  function ShiftFrom(g: Gss, act: seq<nat>, fs: seq<ActionState>, node: ParseNode, hasRejects: bool, n: nat): (Gss, seq<nat>)
    requires GssOk(g) && StatesBelow(g, n) && Below(act, |g.frames|) && ShiftsOk(fs, |g.frames|, n)
    decreases |fs|
  {
    if fs == [] then (g, act)
    else
      var r1 := ShiftStep(g, act, fs[0], node, hasRejects);
      ShiftStepOk(g, act, fs[0], node, hasRejects, n);
      ShiftFrom(r1.0, r1.1, fs[1..], node, hasRejects, n)
  }

  /// g2 only adds to g: links and frames are appended, frames keep their
  /// states, and a frame's links only grow at the end.
  predicate OnlyAdds(g: Gss, g2: Gss) {
    |g.frames| <= |g2.frames| && |g.links| <= |g2.links|
    && (forall l :: 0 <= l < |g.links| ==> g2.links[l] == g.links[l])
    && (forall f :: 0 <= f < |g.frames| ==> g2.frames[f].state == g.frames[f].state && g.frames[f].links <= g2.frames[f].links)
  }

  lemma OnlyAddsTransitive(g1: Gss, g2: Gss, g3: Gss)
    requires OnlyAdds(g1, g2) && OnlyAdds(g2, g3)
    ensures OnlyAdds(g1, g3)
  {
    forall f | 0 <= f < |g1.frames|
      ensures g1.frames[f].links <= g3.frames[f].links
    {
      assert g1.frames[f].links <= g2.frames[f].links <= g3.frames[f].links;
    }
  }

  lemma HasLinkToKept(g: Gss, g2: Gss, f: nat, p: nat)
    requires GssOk(g) && GssOk(g2) && OnlyAdds(g, g2) && f < |g.frames| && HasLinkTo(g, f, p)
    ensures HasLinkTo(g2, f, p)
  {
    var k :| 0 <= k < |g.frames[f].links| && g.links[g.frames[f].links[k]].parent == p;
    assert g2.frames[f].links[k] == g.frames[f].links[k];
  }

  lemma ShiftStepOk(g: Gss, act: seq<nat>, a: ActionState, node: ParseNode, hasRejects: bool, n: nat)
    requires GssOk(g) && StatesBelow(g, n) && Below(act, |g.frames|) && a.st < |g.frames| && 0 <= a.s < n
    ensures var r1 := ShiftStep(g, act, a, node, hasRejects);
            GssOk(r1.0) && StatesBelow(r1.0, n) && Below(r1.1, |r1.0.frames|) && OnlyAdds(g, r1.0)
  {
    if Live(g, a, hasRejects) {
      match FindStack(g, act, a.s)
      case None =>
        var (g1, f) := NewFrame(g, a.s);
        NewFrameOk(g, a.s, n);
        AddLinkOk(g1, f, a.st, node, 1, n);
      case Some(f) =>
        FindStackSpec(g, act, a.s);
        AddLinkOk(g, f, a.st, node, 1, n);
    }
  }

  /// What the shifter keeps true of the new frontier `act`, relative to the
  /// stack `g0` it started from: the first frames and links of `g0` are
  /// untouched and the frontier holds only new frames of distinct states.
  predicate Frontier(g0: Gss, g: Gss, act: seq<nat>, n: nat) {
    GssOk(g) && StatesBelow(g, n) && OnlyAdds(g0, g)
    && (forall f :: 0 <= f < |g0.frames| ==> g.frames[f] == g0.frames[f])
    && (forall i :: 0 <= i < |act| ==> |g0.frames| <= act[i] < |g.frames|)
    && DistinctStates(g, act)
  }

  /// Whether all links of a frame are rejected is read on frames the
  /// shifter does not touch, so it is the same before and after.
  lemma RejectedKept(g0: Gss, g: Gss, f: nat)
    requires GssOk(g0) && GssOk(g) && OnlyAdds(g0, g) && f < |g0.frames| && g.frames[f] == g0.frames[f]
    ensures AllLinksRejected(g, f) == AllLinksRejected(g0, f)
  {
  }

  /// The frame of the frontier with a's target state is linked to a's
  /// source.
  predicate Covered(g: Gss, act: seq<nat>, a: ActionState)
    requires GssOk(g) && Below(act, |g.frames|)
  {
    exists j :: 0 <= j < |act| && g.frames[act[j]].state == a.s && HasLinkTo(g, act[j], a.st)
  }

  /// State s is the target of one of the live shifts fs.
  predicate Explained(g0: Gss, fs: seq<ActionState>, s: int, hasRejects: bool)
    requires GssOk(g0) && forall i :: 0 <= i < |fs| ==> fs[i].st < |g0.frames|
  {
    exists i :: 0 <= i < |fs| && Live(g0, fs[i], hasRejects) && fs[i].s == s
  }

  /// The three outcomes of one shift.
  lemma ShiftStepShape(g: Gss, act: seq<nat>, a: ActionState, node: ParseNode, hasRejects: bool)
    requires GssOk(g) && Below(act, |g.frames|) && a.st < |g.frames|
    ensures var r1 := ShiftStep(g, act, a, node, hasRejects);
            var k := Link(a.st, node, 1, 0, false, []);
            (!Live(g, a, hasRejects) ==> r1.0 == g && r1.1 == act)
            && (Live(g, a, hasRejects) && FindStack(g, act, a.s).None? ==>
                  r1.1 == [|g.frames|] + act && r1.0.links == g.links + [k]
                  && r1.0.frames == g.frames + [Frame(a.s, [|g.links|])])
            && (Live(g, a, hasRejects) && FindStack(g, act, a.s).Some? ==>
                  var f := FindStack(g, act, a.s).value;
                  r1.1 == act && r1.0.links == g.links + [k]
                  && r1.0.frames == g.frames[f := Frame(g.frames[f].state, g.frames[f].links + [|g.links|])])
  {
    if Live(g, a, hasRejects) && FindStack(g, act, a.s).None? {
      var (g1, f) := NewFrame(g, a.s);
      assert g1.frames[f].links + [|g.links|] == [|g.links|];
    }
  }

  /// A shift that creates a new frame keeps the frontier.
  lemma FrontierNewFrame(g0: Gss, g: Gss, act: seq<nat>, a: ActionState, node: ParseNode, n: nat)
    requires Frontier(g0, g, act, n) && a.st < |g0.frames| && 0 <= a.s < n
    requires forall i :: 0 <= i < |act| ==> g.frames[act[i]].state != a.s
    ensures var g1 := Gss(g.frames + [Frame(a.s, [|g.links|])], g.links + [Link(a.st, node, 1, 0, false, [])]);
            Frontier(g0, g1, [|g.frames|] + act, n) && OnlyAdds(g, g1)
  {
    var g1 := Gss(g.frames + [Frame(a.s, [|g.links|])], g.links + [Link(a.st, node, 1, 0, false, [])]);
    var act1 := [|g.frames|] + act;
    assert OnlyAdds(g, g1) by {
      forall f | 0 <= f < |g.frames|
        ensures g1.frames[f] == g.frames[f]
      {
      }
    }
    OnlyAddsTransitive(g0, g, g1);
    assert GssOk(g1) by {
      forall f | 0 <= f < |g1.frames|
        ensures forall k :: 0 <= k < |g1.frames[f].links| ==> g1.frames[f].links[k] < |g1.links|
      {
        if f < |g.frames| {
          assert g1.frames[f] == g.frames[f];
        }
      }
    }
    assert DistinctStates(g1, act1) by {
      forall i, j | 0 <= i < j < |act1|
        ensures g1.frames[act1[i]].state != g1.frames[act1[j]].state
      {
        assert act1[j] == act[j - 1];
        if i > 0 {
          assert act1[i] == act[i - 1];
        }
      }
    }
  }

  /// A shift that joins the frontier frame f keeps the frontier.
  lemma FrontierJoin(g0: Gss, g: Gss, act: seq<nat>, i: nat, a: ActionState, node: ParseNode, n: nat)
    requires Frontier(g0, g, act, n) && a.st < |g0.frames| && i < |act|
    ensures var f := act[i];
            var g1 := Gss(g.frames[f := Frame(g.frames[f].state, g.frames[f].links + [|g.links|])],
                          g.links + [Link(a.st, node, 1, 0, false, [])]);
            Frontier(g0, g1, act, n) && OnlyAdds(g, g1)
  {
    var f := act[i];
    var g1 := Gss(g.frames[f := Frame(g.frames[f].state, g.frames[f].links + [|g.links|])],
                  g.links + [Link(a.st, node, 1, 0, false, [])]);
    assert OnlyAdds(g, g1) by {
      assert g.frames[f].links <= g1.frames[f].links;
    }
    OnlyAddsTransitive(g0, g, g1);
    assert GssOk(g1) by {
      forall h | 0 <= h < |g1.frames|
        ensures forall k :: 0 <= k < |g1.frames[h].links| ==> g1.frames[h].links[k] < |g1.links|
      {
        if h != f {
          assert g1.frames[h] == g.frames[h];
        } else {
          forall k | 0 <= k < |g1.frames[h].links|
            ensures g1.frames[h].links[k] < |g1.links|
          {
            if k < |g.frames[f].links| {
              assert g1.frames[h].links[k] == g.frames[f].links[k];
            }
          }
        }
      }
    }
    assert forall h :: 0 <= h < |g0.frames| ==> g1.frames[h] == g0.frames[h] by {
      assert f >= |g0.frames|;
    }
  }

  /// One shift keeps the frontier, only adds to the stack and keeps the
  /// old frontier frames at its end.
  lemma ShiftStepFrontier(g0: Gss, g: Gss, act: seq<nat>, a: ActionState, node: ParseNode, hasRejects: bool, n: nat)
    requires GssOk(g0) && Frontier(g0, g, act, n) && a.st < |g0.frames| && 0 <= a.s < n
    ensures var r1 := ShiftStep(g, act, a, node, hasRejects);
            Frontier(g0, r1.0, r1.1, n) && OnlyAdds(g, r1.0)
            && |r1.1| >= |act| && r1.1[|r1.1| - |act|..] == act
  {
    ShiftStepShape(g, act, a, node, hasRejects);
    var (g1, act1) := ShiftStep(g, act, a, node, hasRejects);
    if Live(g, a, hasRejects) {
      FindStackSpec(g, act, a.s);
      if FindStack(g, act, a.s).None? {
        FrontierNewFrame(g0, g, act, a, node, n);
        assert act1[|act1| - |act|..] == act;
      } else {
        var i :| 0 <= i < |act| && act[i] == FindStack(g, act, a.s).value && g.frames[act[i]].state == a.s
                 && forall j :: 0 <= j < i ==> g.frames[act[j]].state != a.s;
        FrontierJoin(g0, g, act, i, a, node, n);
        assert act1[|act1| - |act|..] == act;
      }
    } else {
      assert act1[|act1| - |act|..] == act;
    }
  }

  /// The link a shift adds is a link from its frame to the shifted-from
  /// frame; the frame keeps its state.
  lemma AddLinkLinks(g: Gss, f: nat, p: nat, node: ParseNode, n: nat)
    requires GssOk(g) && StatesBelow(g, n) && f < |g.frames| && p < |g.frames|
    ensures var g2 := AddLink(g, f, p, node, 1).0;
            GssOk(g2) && |g2.frames| == |g.frames| && HasLinkTo(g2, f, p) && g2.frames[f].state == g.frames[f].state
  {
    AddLinkOk(g, f, p, node, 1, n);
    var g2 := AddLink(g, f, p, node, 1).0;
    var m := |g.frames[f].links|;
    assert g2.links[g2.frames[f].links[m]].parent == p;
  }

  /// A live shift leaves a frame in its target state on the frontier with
  /// a link to the frame it shifts from.
  lemma ShiftStepCovered(g: Gss, act: seq<nat>, a: ActionState, node: ParseNode, hasRejects: bool, n: nat)
    requires GssOk(g) && StatesBelow(g, n) && Below(act, |g.frames|) && a.st < |g.frames| && 0 <= a.s < n
    requires Live(g, a, hasRejects)
    ensures var r1 := ShiftStep(g, act, a, node, hasRejects);
            GssOk(r1.0) && Below(r1.1, |r1.0.frames|) && Covered(r1.0, r1.1, a)
  {
    ShiftStepOk(g, act, a, node, hasRejects, n);
    FindStackSpec(g, act, a.s);
    var r1 := ShiftStep(g, act, a, node, hasRejects);
    if FindStack(g, act, a.s).None? {
      var (g2, f) := NewFrame(g, a.s);
      NewFrameOk(g, a.s, n);
      AddLinkLinks(g2, f, a.st, node, n);
      assert r1.1[0] == f && r1.0.frames[f].state == a.s;
    } else {
      var f := FindStack(g, act, a.s).value;
      var i :| 0 <= i < |act| && act[i] == f && g.frames[act[i]].state == a.s;
      AddLinkLinks(g, f, a.st, node, n);
      assert r1.1[i] == f && r1.0.frames[f].state == a.s;
    }
  }

  /// A live shift is covered after its step, and the frame it adds, if
  /// any, has its target state.
  lemma ShiftStepCovers(g0: Gss, g: Gss, act: seq<nat>, a: ActionState, node: ParseNode, hasRejects: bool, n: nat)
    requires GssOk(g0) && Frontier(g0, g, act, n) && a.st < |g0.frames| && 0 <= a.s < n
    ensures var r1 := ShiftStep(g, act, a, node, hasRejects);
            Below(r1.1, |r1.0.frames|) && GssOk(r1.0)
            && (Live(g0, a, hasRejects) ==> Covered(r1.0, r1.1, a))
            && (forall j :: 0 <= j < |r1.1| - |act| ==> Live(g0, a, hasRejects) && r1.0.frames[r1.1[j]].state == a.s)
  {
    RejectedKept(g0, g, a.st);
    ShiftStepOk(g, act, a, node, hasRejects, n);
    ShiftStepShape(g, act, a, node, hasRejects);
    if Live(g, a, hasRejects) {
      ShiftStepCovered(g, act, a, node, hasRejects, n);
    }
  }


  /// A suffix of a suffix is a suffix.
  lemma SuffixOfSuffix(a: seq<nat>, b: seq<nat>, c: seq<nat>)
    requires |a| <= |b| <= |c| && b[|b| - |a|..] == a && c[|c| - |b|..] == b
    ensures c[|c| - |a|..] == a
  {
    assert c[|c| - |a|..] == c[|c| - |b|..][|b| - |a|..];
  }

  /// The first shift of `fs` on a frontier: what it leaves and how the
  /// rest of the shifts continue from there.
  lemma ShiftCons(g0: Gss, g: Gss, act: seq<nat>, fs: seq<ActionState>, node: ParseNode, hasRejects: bool, n: nat)
    returns (g1: Gss, act1: seq<nat>)
    requires GssOk(g0) && Frontier(g0, g, act, n) && ShiftsOk(fs, |g0.frames|, n) && fs != []
    ensures Frontier(g0, g1, act1, n) && OnlyAdds(g, g1) && |act1| >= |act| && act1[|act1| - |act|..] == act
    ensures Live(g0, fs[0], hasRejects) ==> Covered(g1, act1, fs[0])
    ensures forall j :: 0 <= j < |act1| - |act| ==> Live(g0, fs[0], hasRejects) && g1.frames[act1[j]].state == fs[0].s
    ensures ShiftsOk(fs[1..], |g1.frames|, n)
    ensures ShiftFrom(g, act, fs, node, hasRejects, n) == ShiftFrom(g1, act1, fs[1..], node, hasRejects, n)
  {
    var r1 := ShiftStep(g, act, fs[0], node, hasRejects);
    ShiftStepFrontier(g0, g, act, fs[0], node, hasRejects, n);
    ShiftStepCovers(g0, g, act, fs[0], node, hasRejects, n);
    g1, act1 := r1.0, r1.1;
  }

  /// The shifts `fs` carried out on a frontier, with result r, keep it
  /// one, only add to the stack and keep the old frontier frames at its end.
  lemma {:induction false} ShiftFromFrontier(g0: Gss, g: Gss, act: seq<nat>, fs: seq<ActionState>, node: ParseNode,
                                             hasRejects: bool, n: nat, r: (Gss, seq<nat>))
    requires GssOk(g0) && Frontier(g0, g, act, n) && ShiftsOk(fs, |g0.frames|, n)
    requires r == ShiftFrom(g, act, fs, node, hasRejects, n)
    ensures Frontier(g0, r.0, r.1, n) && OnlyAdds(g, r.0) && |r.1| >= |act| && r.1[|r.1| - |act|..] == act
    decreases |fs|
  {
    if fs == [] {
      assert act[|act| - |act|..] == act;
    } else {
      var g1, act1 := ShiftCons(g0, g, act, fs, node, hasRejects, n);
      ShiftFromFrontier(g0, g1, act1, fs[1..], node, hasRejects, n, r);
      OnlyAddsTransitive(g, g1, r.0);
      SuffixOfSuffix(act, act1, r.1);
    }
  }

  /// A shift covered on a frontier stays covered while the stack only
  /// grows and the frontier keeps it at its end.
  lemma CoveredKept(g1: Gss, act1: seq<nat>, g2: Gss, act2: seq<nat>, a: ActionState)
    requires GssOk(g1) && GssOk(g2) && Below(act1, |g1.frames|) && Below(act2, |g2.frames|) && OnlyAdds(g1, g2)
    requires |act1| <= |act2| && act2[|act2| - |act1|..] == act1 && Covered(g1, act1, a)
    ensures Covered(g2, act2, a)
  {
    var j :| 0 <= j < |act1| && g1.frames[act1[j]].state == a.s && HasLinkTo(g1, act1[j], a.st);
    var d := |act2| - |act1|;
    assert act2[d + j] == act1[j];
    HasLinkToKept(g1, g2, act1[j], a.st);
  }

  /// Coverage of the first shift and of the rest combine.
  lemma CoversCombine(g0: Gss, fs: seq<ActionState>, g2: Gss, act2: seq<nat>, hasRejects: bool)
    requires GssOk(g0) && GssOk(g2) && Below(act2, |g2.frames|) && fs != []
    requires forall i :: 0 <= i < |fs| ==> fs[i].st < |g0.frames|
    requires Live(g0, fs[0], hasRejects) ==> Covered(g2, act2, fs[0])
    requires forall i :: 0 <= i < |fs[1..]| && Live(g0, fs[1..][i], hasRejects) ==> Covered(g2, act2, fs[1..][i])
    ensures forall i :: 0 <= i < |fs| && Live(g0, fs[i], hasRejects) ==> Covered(g2, act2, fs[i])
  {
    forall i | 0 <= i < |fs| && Live(g0, fs[i], hasRejects)
      ensures Covered(g2, act2, fs[i])
    {
      if i > 0 {
        assert fs[i] == fs[1..][i - 1];
      }
    }
  }

  /// Every live shift of `fs` is covered in the result r of carrying them out.
  lemma {:induction false} ShiftFromCovers(g0: Gss, g: Gss, act: seq<nat>, fs: seq<ActionState>, node: ParseNode,
                                           hasRejects: bool, n: nat, r: (Gss, seq<nat>))
    requires GssOk(g0) && Frontier(g0, g, act, n) && ShiftsOk(fs, |g0.frames|, n)
    requires r == ShiftFrom(g, act, fs, node, hasRejects, n)
    ensures GssOk(r.0) && Below(r.1, |r.0.frames|)
    ensures forall i :: 0 <= i < |fs| && Live(g0, fs[i], hasRejects) ==> Covered(r.0, r.1, fs[i])
    decreases |fs|
  {
    if fs == [] {
      ShiftFromFrontier(g0, g, act, fs, node, hasRejects, n, r);
    } else {
      var g1, act1 := ShiftCons(g0, g, act, fs, node, hasRejects, n);
      ShiftFromCovers(g0, g1, act1, fs[1..], node, hasRejects, n, r);
      ShiftFromFrontier(g0, g1, act1, fs[1..], node, hasRejects, n, r);
      if Live(g0, fs[0], hasRejects) {
        CoveredKept(g1, act1, r.0, r.1, fs[0]);
      }
      CoversCombine(g0, fs, r.0, r.1, hasRejects);
    }
  }

  /// Every frame that carrying out the shifts `fs` adds to the frontier in
  /// the result r has the target state of a live shift.
  lemma {:induction false} ShiftFromExplains(g0: Gss, g: Gss, act: seq<nat>, fs: seq<ActionState>, node: ParseNode,
                                             hasRejects: bool, n: nat, r: (Gss, seq<nat>))
    requires GssOk(g0) && Frontier(g0, g, act, n) && ShiftsOk(fs, |g0.frames|, n)
    requires r == ShiftFrom(g, act, fs, node, hasRejects, n)
    ensures GssOk(r.0) && Below(r.1, |r.0.frames|) && |r.1| >= |act|
    ensures forall j :: 0 <= j < |r.1| - |act| ==> Explained(g0, fs, r.0.frames[r.1[j]].state, hasRejects)
    decreases |fs|
  {
    if fs == [] {
      ShiftFromFrontier(g0, g, act, fs, node, hasRejects, n, r);
    } else {
      var g1, act1 := ShiftCons(g0, g, act, fs, node, hasRejects, n);
      ShiftFromExplains(g0, g1, act1, fs[1..], node, hasRejects, n, r);
      ShiftFromFrontier(g0, g1, act1, fs[1..], node, hasRejects, n, r);
      ExplainsCombine(g0, fs, act, g1, act1, r.0, r.1, hasRejects);
    }
  }

  lemma ExplainsCombine(g0: Gss, fs: seq<ActionState>, act: seq<nat>, g1: Gss, act1: seq<nat>, g2: Gss, act2: seq<nat>,
                        hasRejects: bool)
    requires GssOk(g0) && GssOk(g1) && GssOk(g2) && Below(act1, |g1.frames|) && Below(act2, |g2.frames|)
    requires fs != [] && forall i :: 0 <= i < |fs| ==> fs[i].st < |g0.frames|
    requires OnlyAdds(g1, g2) && |act| <= |act1| <= |act2| && act2[|act2| - |act1|..] == act1
    requires forall j :: 0 <= j < |act1| - |act| ==> Live(g0, fs[0], hasRejects) && g1.frames[act1[j]].state == fs[0].s
    requires forall j :: 0 <= j < |act2| - |act1| ==> Explained(g0, fs[1..], g2.frames[act2[j]].state, hasRejects)
    ensures forall j :: 0 <= j < |act2| - |act| ==> Explained(g0, fs, g2.frames[act2[j]].state, hasRejects)
  {
    var d2 := |act2| - |act1|;
    forall j | 0 <= j < |act2| - |act|
      ensures Explained(g0, fs, g2.frames[act2[j]].state, hasRejects)
    {
      var s := g2.frames[act2[j]].state;
      if j < d2 {
        assert Explained(g0, fs[1..], s, hasRejects);
        var i :| 0 <= i < |fs[1..]| && Live(g0, fs[1..][i], hasRejects) && fs[1..][i].s == s;
        assert fs[i + 1] == fs[1..][i];
      } else {
        assert act2[j] == act1[j - d2];
        assert g1.frames[act1[j - d2]].state == fs[0].s;
        assert Live(g0, fs[0], hasRejects) && fs[0].s == s;
      }
    }
  }

  /// On a frontier of distinct states a covered shift has exactly one
  /// frame of its target state.
  lemma CoveredOnce(g: Gss, act: seq<nat>, a: ActionState)
    requires GssOk(g) && Below(act, |g.frames|) && DistinctStates(g, act) && Covered(g, act, a)
    ensures exists j :: 0 <= j < |act| && g.frames[act[j]].state == a.s && HasLinkTo(g, act[j], a.st)
                        && forall j' :: 0 <= j' < |act| && j' != j ==> g.frames[act[j']].state != a.s
  {
    var j :| 0 <= j < |act| && g.frames[act[j]].state == a.s && HasLinkTo(g, act[j], a.st);
    assert forall j' :: 0 <= j' < |act| && j' != j ==> g.frames[act[j']].state != g.frames[act[j]].state;
  }

  /// SGLR.shifter from an empty frontier: the new active stacks are fresh
  /// frames of pairwise distinct states; each live shift has exactly one of
  /// them with its target state, and that one is linked to the shift's
  /// source; each of them is the target of a live shift; the old frames
  /// keep their links.
  lemma ShifterSpec(g0: Gss, fs: seq<ActionState>, node: ParseNode, hasRejects: bool, n: nat, r: (Gss, seq<nat>))
    requires GssOk(g0) && StatesBelow(g0, n) && ShiftsOk(fs, |g0.frames|, n)
    requires r == ShiftFrom(g0, [], fs, node, hasRejects, n)
    ensures GssOk(r.0) && StatesBelow(r.0, n) && OnlyAdds(g0, r.0) && Below(r.1, |r.0.frames|)
            && DistinctStates(r.0, r.1)
            && (forall i :: 0 <= i < |r.1| ==> r.1[i] >= |g0.frames|)
            && (forall f :: 0 <= f < |g0.frames| ==> r.0.frames[f] == g0.frames[f])
            && (forall i :: 0 <= i < |fs| && Live(g0, fs[i], hasRejects) ==>
                  exists j :: 0 <= j < |r.1| && r.0.frames[r.1[j]].state == fs[i].s && HasLinkTo(r.0, r.1[j], fs[i].st)
                              && forall j' :: 0 <= j' < |r.1| && j' != j ==> r.0.frames[r.1[j']].state != fs[i].s)
            && (forall j :: 0 <= j < |r.1| ==>
                  exists i :: 0 <= i < |fs| && Live(g0, fs[i], hasRejects) && fs[i].s == r.0.frames[r.1[j]].state)
  {
    assert Frontier(g0, g0, [], n);
    ShiftFromFrontier(g0, g0, [], fs, node, hasRejects, n, r);
    assert Frontier(g0, r.0, r.1, n);
    forall i | 0 <= i < |fs| && Live(g0, fs[i], hasRejects)
      ensures exists j :: 0 <= j < |r.1| && r.0.frames[r.1[j]].state == fs[i].s && HasLinkTo(r.0, r.1[j], fs[i].st)
                          && forall j' :: 0 <= j' < |r.1| && j' != j ==> r.0.frames[r.1[j']].state != fs[i].s
    {
      ShiftFromCovers(g0, g0, [], fs, node, hasRejects, n, r);
      CoveredOnce(r.0, r.1, fs[i]);
    }
    forall j | 0 <= j < |r.1|
      ensures exists i :: 0 <= i < |fs| && Live(g0, fs[i], hasRejects) && fs[i].s == r.0.frames[r.1[j]].state
    {
      ShiftFromExplains(g0, g0, [], fs, node, hasRejects, n, r);
      assert Explained(g0, fs, r.0.frames[r.1[j]].state, hasRejects);
    }
  }
}
