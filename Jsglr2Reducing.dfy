/// The JSGLR2 reducer that skips layout and lexical parse nodes and handles
/// reject productions, and the Elkhound reduce manager that dispatches a
/// reduction to a deterministic (plain LR) path when the stack allows it.
///
/// The graph-structured stack, its links and the parse nodes live in one
/// arena, the `Parse` class; a stack node, a link or a parse node is its
/// index in the corresponding sequence.
module Jsglr2Reducing {
  import opened Productions

  datatype Option<T> = None | Some(value: T)

  /// A stack node: its parse state, the input offset it was created at and
  /// the length of the deterministic (single-link) path below it.
  datatype StackNode = StackNode(state: int, position: int, deterministicDepth: nat)

  /// A link from a stack node down to the node it was pushed on, carrying
  /// the parse forest of the reduced symbol, or none for a reject or a
  /// skipped production.
  datatype StackLink = StackLink(from: nat, to: nat, parseForest: Option<nat>, rejected: bool)

  /// One way of deriving a parse node: the production applied to the
  /// forests of its right-hand side, starting at a position.
  datatype Derivation = Derivation(position: int, production: Production, productionType: ProductionType,
                                   parseForests: seq<int>)

  datatype ParseNode = ParseNode(position: int, production: Production, derivations: seq<Derivation>)

  /// A reduce action of the parse table.
  datatype Reduce = Reduce(production: Production, productionType: ProductionType, arity: nat)
  {
    predicate IsRejectProduction() { productionType == Reject }
  }

  /// The whole state the reducer reads and changes.
  datatype Gss = Gss(
    stacks: seq<StackNode>,
    links: seq<StackLink>,
    nodes: seq<ParseNode>,
    activeStacks: seq<nat>,
    forActor: seq<nat>,
    currentOffset: int)

  predicate LinkInArena(g: Gss, k: StackLink) {
    k.from < |g.stacks| && k.to < |g.stacks| && (k.parseForest.Some? ==> k.parseForest.value < |g.nodes|)
  }

  /// Every index held in the state refers to an existing entry.
  predicate Valid(g: Gss) {
    (forall i :: 0 <= i < |g.links| ==> LinkInArena(g, g.links[i]))
    && (forall i :: 0 <= i < |g.activeStacks| ==> g.activeStacks[i] < |g.stacks|)
    && (forall i :: 0 <= i < |g.forActor| ==> g.forActor[i] < |g.stacks|)
  }

  // ---------------------------------------------------------------------
  // The stack and parse-forest managers' primitive effects

  /// A new stack node with the given state at the current offset.
  function WithStackNode(g: Gss, state: int): (Gss, nat) {
    (g.(stacks := g.stacks + [StackNode(state, g.currentOffset, 0)]), |g.stacks|)
  }

  /// A new, unrejected link.
  function WithStackLink(g: Gss, from: nat, to: nat, parseForest: Option<nat>): (Gss, nat) {
    (g.(links := g.links + [StackLink(from, to, parseForest, false)]), |g.links|)
  }

  function WithLinkRejected(g: Gss, l: nat): Gss
    requires l < |g.links|
  {
    g.(links := g.links[l := g.links[l].(rejected := true)])
  }

  /// A new parse node holding exactly one derivation.
  function WithParseNode(g: Gss, position: int, production: Production, d: Derivation): (Gss, nat) {
    (g.(nodes := g.nodes + [ParseNode(position, production, [d])]), |g.nodes|)
  }

  function WithDerivation(g: Gss, n: nat, d: Derivation): Gss
    requires n < |g.nodes|
  {
    g.(nodes := g.nodes[n := g.nodes[n].(derivations := g.nodes[n].derivations + [d])])
  }

  // ---------------------------------------------------------------------
  // The three reducer cases

  /// A link with the goto state already leads to the path's origin: a
  /// reject production rejects it; otherwise, when the link is not
  /// rejected and carries a parse node, the reduction is added to that
  /// node as one more derivation, at the origin's position.
  function ExistingStackWithDirectLink(g: Gss, reduce: Reduce, link: nat, parseForests: seq<int>): Gss
    requires Valid(g) && link < |g.links|
  {
    var k := g.links[link];
    if reduce.IsRejectProduction() then WithLinkRejected(g, link)
    else if !k.rejected && k.parseForest.Some? then
      WithDerivation(g, k.parseForest.value,
                     Derivation(g.stacks[k.to].position, reduce.production, reduce.productionType, parseForests))
    else g
  }

  /// A new link from `from` down to `stack` for the reduction: rejected
  /// and without a forest for a reject production, without a forest for a
  /// production the parse forest skips, and otherwise with a new parse
  /// node of one derivation at the position of `stack`.
  function NewLinkFor(g: Gss, reduce: Reduce, from: nat, stack: nat, parseForests: seq<int>): (Gss, nat)
    requires Valid(g) && from < |g.stacks| && stack < |g.stacks|
  {
    if reduce.IsRejectProduction() then
      var (g1, l) := WithStackLink(g, from, stack, None);
      (WithLinkRejected(g1, l), l)
    else if reduce.production.isSkippableInParseForest then
      WithStackLink(g, from, stack, None)
    else
      var position := g.stacks[stack].position;
      var d := Derivation(position, reduce.production, reduce.productionType, parseForests);
      var (g1, n) := WithParseNode(g, position, reduce.production, d);
      WithStackLink(g1, from, stack, Some(n))
  }

  /// An active stack with the goto state exists but has no link to the
  /// origin: a new link is made from it.
  function ExistingStackWithoutDirectLink(g: Gss, reduce: Reduce, existing: nat, stack: nat, parseForests: seq<int>)
    : (Gss, nat)
    requires Valid(g) && existing < |g.stacks| && stack < |g.stacks|
  {
    NewLinkFor(g, reduce, existing, stack, parseForests)
  }

  /// No active stack has the goto state: a new stack node is made and
  /// linked to the origin; the result names the new stack node.
  function NoExistingStack(g: Gss, reduce: Reduce, stack: nat, gotoState: int, parseForests: seq<int>): (Gss, nat)
    requires Valid(g) && stack < |g.stacks|
  {
    var (g1, s) := WithStackNode(g, gotoState);
    var (g2, _) := NewLinkFor(g1, reduce, s, stack, parseForests);
    (g2, s)
  }

  // ---------------------------------------------------------------------
  // What the three cases promise

  /// With an existing link, a reject production rejects exactly that link
  /// and adds no derivation; any other production leaves every link as it
  /// was and adds one derivation, at the origin's position, to the link's
  /// parse node exactly when the link is unrejected and has one.
  lemma ExistingStackWithDirectLinkSpec(g: Gss, reduce: Reduce, link: nat, parseForests: seq<int>)
    requires Valid(g) && link < |g.links|
    ensures var g' := ExistingStackWithDirectLink(g, reduce, link, parseForests);
            var k := g.links[link];
            g'.stacks == g.stacks && |g'.links| == |g.links| && |g'.nodes| == |g.nodes|
            && g'.activeStacks == g.activeStacks && g'.forActor == g.forActor
            && (reduce.IsRejectProduction() ==>
                  g'.links[link] == k.(rejected := true)
                  && (forall i :: 0 <= i < |g.links| && i != link ==> g'.links[i] == g.links[i])
                  && g'.nodes == g.nodes)
            && (!reduce.IsRejectProduction() ==> g'.links == g.links)
            && (!reduce.IsRejectProduction() && !k.rejected && k.parseForest.Some? ==>
                  var n := k.parseForest.value;
                  g'.nodes[n].derivations
                  == g.nodes[n].derivations
                     + [Derivation(g.stacks[k.to].position, reduce.production, reduce.productionType, parseForests)]
                  && (forall i :: 0 <= i < |g.nodes| && i != n ==> g'.nodes[i] == g.nodes[i]))
            && ((reduce.IsRejectProduction() || k.rejected || k.parseForest.None?) ==> g'.nodes == g.nodes)
  {
  }

  /// The new link is appended, runs from `from` to `stack`, is rejected
  /// exactly for a reject production and carries a forest exactly when the
  /// production is neither a reject nor skipped; that forest is a new parse
  /// node at the position of `stack` with one derivation of the production.
  /// Everything that existed before is unchanged.
  lemma NewLinkForSpec(g: Gss, reduce: Reduce, from: nat, stack: nat, parseForests: seq<int>)
    requires Valid(g) && from < |g.stacks| && stack < |g.stacks|
    ensures var (g', l) := NewLinkFor(g, reduce, from, stack, parseForests);
            var skip := reduce.IsRejectProduction() || reduce.production.isSkippableInParseForest;
            l == |g.links| && g'.links == g.links + [g'.links[l]]
            && g'.links[l].from == from && g'.links[l].to == stack
            && g'.links[l].rejected == reduce.IsRejectProduction()
            && (g'.links[l].parseForest.None? <==> skip)
            && g'.stacks == g.stacks && g'.activeStacks == g.activeStacks && g'.forActor == g.forActor
            && (skip ==> g'.nodes == g.nodes)
            && (!skip ==>
                  g'.links[l].parseForest == Some(|g.nodes|)
                  && g'.nodes == g.nodes + [ParseNode(g.stacks[stack].position, reduce.production,
                                                      [Derivation(g.stacks[stack].position, reduce.production,
                                                                  reduce.productionType, parseForests)])])
  {
  }

  /// The case without an existing stack always returns a stack node that
  /// did not exist before, with the goto state at the current offset,
  /// linked by the new link (the last one) to the origin.
  lemma NoExistingStackSpec(g: Gss, reduce: Reduce, stack: nat, gotoState: int, parseForests: seq<int>)
    requires Valid(g) && stack < |g.stacks|
    ensures var (g', s) := NoExistingStack(g, reduce, stack, gotoState, parseForests);
            s == |g.stacks| && g'.stacks == g.stacks + [StackNode(gotoState, g.currentOffset, 0)]
            && |g'.links| == |g.links| + 1 && g'.links[..|g.links|] == g.links
            && g'.links[|g.links|].from == s && g'.links[|g.links|].to == stack
            && g'.links[|g.links|].rejected == reduce.IsRejectProduction()
  {
    var (g1, s) := WithStackNode(g, gotoState);
    ValidWithStackNode(g, gotoState);
    NewLinkForSpec(g1, reduce, s, stack, parseForests);
  }

  lemma ValidWithStackNode(g: Gss, state: int)
    requires Valid(g)
    ensures Valid(WithStackNode(g, state).0)
  {
    var g' := WithStackNode(g, state).0;
    forall i | 0 <= i < |g'.links|
      ensures LinkInArena(g', g'.links[i])
    {
      assert LinkInArena(g, g.links[i]);
    }
  }

  /// Each of the three cases keeps every index in the state valid.
  lemma {:induction false} ReducerCasesPreserveValid(g: Gss, reduce: Reduce, link: nat, existing: nat, stack: nat,
                                                     gotoState: int, parseForests: seq<int>)
    requires Valid(g) && existing < |g.stacks| && stack < |g.stacks|
    ensures link < |g.links| ==> Valid(ExistingStackWithDirectLink(g, reduce, link, parseForests))
    ensures Valid(ExistingStackWithoutDirectLink(g, reduce, existing, stack, parseForests).0)
    ensures Valid(NoExistingStack(g, reduce, stack, gotoState, parseForests).0)
  {
    if link < |g.links| {
      var g' := ExistingStackWithDirectLink(g, reduce, link, parseForests);
      ExistingStackWithDirectLinkSpec(g, reduce, link, parseForests);
      forall i | 0 <= i < |g'.links|
        ensures LinkInArena(g', g'.links[i])
      {
        assert LinkInArena(g, g.links[i]);
      }
    }
    NewLinkForValid(g, reduce, existing, stack, parseForests);
    var (g1, s) := WithStackNode(g, gotoState);
    ValidWithStackNode(g, gotoState);
    NewLinkForValid(g1, reduce, s, stack, parseForests);
  }

  lemma NewLinkForValid(g: Gss, reduce: Reduce, from: nat, stack: nat, parseForests: seq<int>)
    requires Valid(g) && from < |g.stacks| && stack < |g.stacks|
    ensures Valid(NewLinkFor(g, reduce, from, stack, parseForests).0)
  {
    var (g', l) := NewLinkFor(g, reduce, from, stack, parseForests);
    NewLinkForSpec(g, reduce, from, stack, parseForests);
    forall i | 0 <= i < |g'.links|
      ensures LinkInArena(g', g'.links[i])
    {
      if i < |g.links| {
        assert g'.links[i] == g.links[i];
        assert LinkInArena(g, g.links[i]);
      }
    }
  }

  // ---------------------------------------------------------------------
  // The parse state as the objects the reducer changes in place

  class Parse {
    var stacks: seq<StackNode>
    var links: seq<StackLink>
    var nodes: seq<ParseNode>
    var activeStacks: seq<nat>
    var forActor: seq<nat>
    var currentOffset: int

    function State(): Gss
      reads this
    {
      Gss(stacks, links, nodes, activeStacks, forActor, currentOffset)
    }

    constructor(offset: int)
      ensures State() == Gss([], [], [], [], [], offset)
    {
      stacks := [];
      links := [];
      nodes := [];
      activeStacks := [];
      forActor := [];
      currentOffset := offset;
    }

    method CreateStackNode(state: int) returns (s: nat)
      modifies this
      ensures (State(), s) == WithStackNode(old(State()), state)
    {
      s := |stacks|;
      stacks := stacks + [StackNode(state, currentOffset, 0)];
    }

    method CreateStackLink(from: nat, to: nat, parseForest: Option<nat>) returns (l: nat)
      modifies this
      ensures (State(), l) == WithStackLink(old(State()), from, to, parseForest)
    {
      l := |links|;
      links := links + [StackLink(from, to, parseForest, false)];
    }

    method RejectStackLink(l: nat)
      requires l < |links|
      modifies this
      ensures State() == WithLinkRejected(old(State()), l)
    {
      links := links[l := links[l].(rejected := true)];
    }

    method CreateParseNode(position: int, production: Production, d: Derivation) returns (n: nat)
      modifies this
      ensures (State(), n) == WithParseNode(old(State()), position, production, d)
    {
      n := |nodes|;
      nodes := nodes + [ParseNode(position, production, [d])];
    }

    method AddDerivation(n: nat, d: Derivation)
      requires n < |nodes|
      modifies this
      ensures State() == WithDerivation(old(State()), n, d)
    {
      nodes := nodes[n := nodes[n].(derivations := nodes[n].derivations + [d])];
    }
  }

  method ReducerExistingStackWithDirectLink(parse: Parse, reduce: Reduce, link: nat, parseForests: seq<int>)
    requires Valid(parse.State()) && link < |parse.links|
    modifies parse
    ensures parse.State() == ExistingStackWithDirectLink(old(parse.State()), reduce, link, parseForests)
  {
    var k := parse.links[link];
    if reduce.IsRejectProduction() {
      parse.RejectStackLink(link);
    } else if !k.rejected && k.parseForest.Some? {
      assert LinkInArena(parse.State(), k);
      var d := Derivation(parse.stacks[k.to].position, reduce.production, reduce.productionType, parseForests);
      parse.AddDerivation(k.parseForest.value, d);
    }
  }

  /// The link-making part shared by the two cases that create a link.
  method CreateLinkFor(parse: Parse, reduce: Reduce, from: nat, stack: nat, parseForests: seq<int>) returns (l: nat)
    requires Valid(parse.State()) && from < |parse.stacks| && stack < |parse.stacks|
    modifies parse
    ensures (parse.State(), l) == NewLinkFor(old(parse.State()), reduce, from, stack, parseForests)
  {
    if reduce.IsRejectProduction() {
      l := parse.CreateStackLink(from, stack, None);
      parse.RejectStackLink(l);
    } else {
      var parseNode: Option<nat>;
      if reduce.production.isSkippableInParseForest {
        parseNode := None;
      } else {
        var position := parse.stacks[stack].position;
        var d := Derivation(position, reduce.production, reduce.productionType, parseForests);
        var n := parse.CreateParseNode(position, reduce.production, d);
        parseNode := Some(n);
      }
      l := parse.CreateStackLink(from, stack, parseNode);
    }
  }

  method ReducerExistingStackWithoutDirectLink(parse: Parse, reduce: Reduce, existing: nat, stack: nat,
                                               parseForests: seq<int>)
    returns (l: nat)
    requires Valid(parse.State()) && existing < |parse.stacks| && stack < |parse.stacks|
    modifies parse
    ensures (parse.State(), l)
            == ExistingStackWithoutDirectLink(old(parse.State()), reduce, existing, stack, parseForests)
  {
    l := CreateLinkFor(parse, reduce, existing, stack, parseForests);
  }

  method ReducerNoExistingStack(parse: Parse, reduce: Reduce, stack: nat, gotoState: int, parseForests: seq<int>)
    returns (s: nat)
    requires Valid(parse.State()) && stack < |parse.stacks|
    modifies parse
    ensures (parse.State(), s) == NoExistingStack(old(parse.State()), reduce, stack, gotoState, parseForests)
  {
    ghost var g := parse.State();
    s := parse.CreateStackNode(gotoState);
    ValidWithStackNode(g, gotoState);
    var _ := CreateLinkFor(parse, reduce, s, stack, parseForests);
  }

  // ---------------------------------------------------------------------
  // The Elkhound reduce manager

  /// A path of stack links of a reduction's length: its links, the parse
  /// forests along it and the stack node it ends at (its head).
  datatype StackPath = StackPath(links: seq<nat>, parseForests: seq<int>, head: nat)
  {
    predicate Contains(l: nat) { l in links }
  }

  /// A path may be reduced when no link is required or it contains it.
  predicate Through(p: StackPath, throughLink: Option<nat>) {
    throughLink.None? || p.Contains(throughLink.value)
  }

  /// The paths among `paths` that pass the through-link test, in order.
  function PathsThrough(paths: seq<StackPath>, throughLink: Option<nat>): seq<StackPath>
  {
    if paths == [] then []
    else PathsThrough(paths[..|paths| - 1], throughLink)
         + (if Through(paths[|paths| - 1], throughLink) then [paths[|paths| - 1]] else [])
  }

  /// How the manager treats a reduction: the deterministic path with the
  /// plain LR reducer, or the paths it hands to the general reducePath.
  datatype Dispatch = Dispatch(elkhoundPath: Option<StackPath>, reducePaths: seq<StackPath>)

  /// The dispatch for a stack of the given deterministic depth: when the
  /// depth reaches the arity the single deterministic path is used (if it
  /// passes the through-link test), by the LR shortcut exactly when one
  /// stack is active; otherwise every path of the arity that passes the
  /// test goes to reducePath.
  function DispatchFor(deterministicDepth: nat, arity: nat, deterministicPath: StackPath,
                       allPaths: seq<StackPath>, throughLink: Option<nat>, activeCount: nat): Dispatch
  {
    if deterministicDepth >= arity then
      if Through(deterministicPath, throughLink) then
        if activeCount == 1 then Dispatch(Some(deterministicPath), [])
        else Dispatch(None, [deterministicPath])
      else Dispatch(None, [])
    else Dispatch(None, PathsThrough(allPaths, throughLink))
  }

  /// The filtered paths are exactly those of `paths` that pass the test,
  /// with their relative order kept.
  lemma {:induction false} PathsThroughSpec(paths: seq<StackPath>, throughLink: Option<nat>)
    ensures forall p :: p in PathsThrough(paths, throughLink) <==> p in paths && Through(p, throughLink)
    ensures |PathsThrough(paths, throughLink)| <= |paths|
    ensures throughLink.None? ==> PathsThrough(paths, throughLink) == paths
  {
    if paths != [] {
      var init := paths[..|paths| - 1];
      PathsThroughSpec(init, throughLink);
      assert paths == init + [paths[|paths| - 1]];
    }
  }

  /// The deterministic path is used exactly when the depth reaches the
  /// arity; otherwise every path is considered. Every path reduced passes
  /// the through-link test, and the LR shortcut is taken only with a
  /// single active stack.
  lemma DispatchForSpec(deterministicDepth: nat, arity: nat, deterministicPath: StackPath,
                        allPaths: seq<StackPath>, throughLink: Option<nat>, activeCount: nat)
    ensures var d := DispatchFor(deterministicDepth, arity, deterministicPath, allPaths, throughLink, activeCount);
            (d.elkhoundPath.Some? ==> activeCount == 1 && deterministicDepth >= arity
                                      && d.elkhoundPath.value == deterministicPath && d.reducePaths == [])
            && (deterministicDepth >= arity ==>
                  forall p :: p in d.reducePaths ==> p == deterministicPath && activeCount != 1)
            && (deterministicDepth >= arity && Through(deterministicPath, throughLink) ==>
                  (d.elkhoundPath.Some? <==> activeCount == 1) && (d.reducePaths == [] <==> activeCount == 1))
            && (deterministicDepth < arity ==>
                  d.elkhoundPath.None?
                  && forall p :: p in d.reducePaths <==> p in allPaths && Through(p, throughLink))
            && (forall p :: p in d.reducePaths ==> Through(p, throughLink))
  {
    PathsThroughSpec(allPaths, throughLink);
  }

  /// The through-link filter as the loop over all paths that performs it.
  method FilterPathsThrough(allPaths: seq<StackPath>, throughLink: Option<nat>) returns (r: seq<StackPath>)
    ensures r == PathsThrough(allPaths, throughLink)
  {
    r := [];
    for i := 0 to |allPaths|
      invariant r == PathsThrough(allPaths[..i], throughLink)
    {
      assert allPaths[..i + 1][..i] == allPaths[..i];
      var path := allPaths[i];
      if throughLink.None? || path.Contains(throughLink.value) {
        r := r + [path];
      }
    }
    assert allPaths[..|allPaths|] == allPaths;
  }

  /// The effect of the LR shortcut: a stack node is always created anew
  /// for the goto state and appended to both the active stacks and the
  /// actor queue.
  function ElkhoundReduced(g: Gss, reduce: Reduce, head: nat, gotoState: int, parseForests: seq<int>): Gss
    requires Valid(g) && head < |g.stacks|
  {
    var (g1, s) := NoExistingStack(g, reduce, head, gotoState, parseForests);
    g1.(activeStacks := g1.activeStacks + [s], forActor := g1.forActor + [s])
  }

  /// The stack the shortcut adds is new: it is neither an existing stack
  /// node nor already active or queued, and it is the last element of both
  /// queues, which otherwise keep their contents.
  lemma ElkhoundReducedSpec(g: Gss, reduce: Reduce, head: nat, gotoState: int, parseForests: seq<int>)
    requires Valid(g) && head < |g.stacks|
    ensures var g' := ElkhoundReduced(g, reduce, head, gotoState, parseForests);
            var s := |g.stacks|;
            g'.activeStacks == g.activeStacks + [s] && g'.forActor == g.forActor + [s]
            && s !in g.activeStacks && s !in g.forActor
            && g'.stacks == g.stacks + [StackNode(gotoState, g.currentOffset, 0)]
            && Valid(g')
  {
    NoExistingStackSpec(g, reduce, head, gotoState, parseForests);
    ReducerCasesPreserveValid(g, reduce, 0, head, head, gotoState, parseForests);
    var s := |g.stacks|;
    assert forall i :: 0 <= i < |g.activeStacks| ==> g.activeStacks[i] != s;
    assert forall i :: 0 <= i < |g.forActor| ==> g.forActor[i] != s;
  }

  /// The goto state of the LR shortcut: the head's goto entry for the
  /// production's number, or a NoSuchElementException when the table has
  /// none.
  function GotoOf(gotoTable: (int, int) -> Option<int>, g: Gss, head: nat, reduce: Reduce): Option<int>
    requires head < |g.stacks|
  {
    gotoTable(g.stacks[head].state, reduce.production.productionNumber)
  }

  method ReducerElkhound(parse: Parse, stack: nat, gotoState: int, reduce: Reduce, parseForests: seq<int>)
    requires Valid(parse.State()) && stack < |parse.stacks|
    modifies parse
    ensures parse.State() == ElkhoundReduced(old(parse.State()), reduce, stack, gotoState, parseForests)
  {
    var newStack := ReducerNoExistingStack(parse, reduce, stack, gotoState, parseForests);
    parse.activeStacks := parse.activeStacks + [newStack];
    parse.forActor := parse.forActor + [newStack];
  }

  /// The LR shortcut for one path; returns false where the source throws
  /// because the goto entry is missing, in which case nothing changes.
  method ReduceElkhoundPath(parse: Parse, gotoTable: (int, int) -> Option<int>, parseForests: seq<int>, pathBegin: nat,
                            reduce: Reduce)
    returns (ok: bool)
    requires Valid(parse.State()) && pathBegin < |parse.stacks|
    modifies parse
    ensures var goto := GotoOf(gotoTable, old(parse.State()), pathBegin, reduce);
            ok == goto.Some?
            && parse.State() == (if goto.Some?
                                 then ElkhoundReduced(old(parse.State()), reduce, pathBegin, goto.value, parseForests)
                                 else old(parse.State()))
  {
    var gotoId := gotoTable(parse.stacks[pathBegin].state, reduce.production.productionNumber);
    if gotoId.None? {
      return false;
    }
    ReducerElkhound(parse, pathBegin, gotoId.value, reduce, parseForests);
    return true;
  }

  /// One reduction of the Elkhound manager from `stack`. The paths come
  /// from the stack manager's path search and are given: the deterministic
  /// path of the arity and all paths of the arity. The LR shortcut is
  /// performed here; the paths handed to the general reducePath are
  /// returned, in order, for it to reduce.
  method DoReductionsHelper(parse: Parse, gotoTable: (int, int) -> Option<int>, stack: nat, reduce: Reduce,
                            throughLink: Option<nat>, deterministicPath: StackPath, allPaths: seq<StackPath>)
    returns (reducePaths: seq<StackPath>, ok: bool)
    requires Valid(parse.State()) && stack < |parse.stacks| && deterministicPath.head < |parse.stacks|
    modifies parse
    ensures var g := old(parse.State());
            var d := DispatchFor(g.stacks[stack].deterministicDepth, reduce.arity, deterministicPath, allPaths,
                                 throughLink, |g.activeStacks|);
            reducePaths == d.reducePaths
            && (d.elkhoundPath.None? ==> ok && parse.State() == g)
            && (d.elkhoundPath.Some? ==>
                  var goto := GotoOf(gotoTable, g, deterministicPath.head, reduce);
                  ok == goto.Some?
                  && parse.State() == (if goto.Some?
                                       then ElkhoundReduced(g, reduce, deterministicPath.head, goto.value,
                                                            deterministicPath.parseForests)
                                       else g))
  {
    reducePaths := [];
    ok := true;
    if parse.stacks[stack].deterministicDepth >= reduce.arity {
      if throughLink.None? || deterministicPath.Contains(throughLink.value) {
        if |parse.activeStacks| == 1 {
          ok := ReduceElkhoundPath(parse, gotoTable, deterministicPath.parseForests, deterministicPath.head, reduce);
        } else {
          reducePaths := [deterministicPath];
        }
      }
    } else {
      reducePaths := FilterPathsThrough(allPaths, throughLink);
    }
  }
}
