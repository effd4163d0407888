/// The graph-structured stack of the JSGLR parser as an arena: frames
/// (stack nodes holding a parse state) and links (edges down to the frame
/// below, labelled with the parse node of the symbol between them), both
/// addressed by index. This module holds the stack as a value and the
/// operations the parser performs on it.
module SglrStack {

  datatype Option<T> = None | Some(value: T)

  /// Parse nodes as the parser builds them: the node of a shifted
  /// character, or a production applied to its children.
  datatype ParseNode = CharNode(c: int) | Applied(prodLabel: int, kids: seq<ParseNode>)

  /// A link from a frame down to `parent`: the parse node, the number of
  /// characters it spans, its recovery cost, whether a reject production
  /// rejected it, and the further derivations packed into it as ambiguities.
  datatype Link = Link(parent: nat, node: ParseNode, length: int, recoverCount: int, rejected: bool,
                       ambiguities: seq<ParseNode>)

  /// A frame: its parse state and its links, oldest first.
  datatype Frame = Frame(state: int, links: seq<nat>)

  datatype Gss = Gss(frames: seq<Frame>, links: seq<Link>)

  /// Every link index a frame holds and every parent a link names exists.
  predicate GssOk(g: Gss) {
    (forall f :: 0 <= f < |g.frames| ==> forall k :: 0 <= k < |g.frames[f].links| ==> g.frames[f].links[k] < |g.links|)
    && (forall l :: 0 <= l < |g.links| ==> g.links[l].parent < |g.frames|)
  }

  /// Every frame's state is one of the table's `n` states.
  predicate StatesBelow(g: Gss, n: nat) {
    forall f :: 0 <= f < |g.frames| ==> 0 <= g.frames[f].state < n
  }

  predicate Below(q: seq<nat>, n: nat) {
    forall i :: 0 <= i < |q| ==> q[i] < n
  }

  /// g2 grew from g: nothing removed and every old frame keeps its state.
  predicate Extends(g: Gss, g2: Gss) {
    |g.frames| <= |g2.frames| && |g.links| <= |g2.links|
    && forall f :: 0 <= f < |g.frames| ==> g2.frames[f].state == g.frames[f].state
  }

  lemma ExtendsTransitive(g1: Gss, g2: Gss, g3: Gss)
    requires Extends(g1, g2) && Extends(g2, g3)
    ensures Extends(g1, g3)
  {
  }

  // ---------------------------------------------------------------------
  // Elementary changes

  /// A new frame without links.
  function NewFrame(g: Gss, s: int): (Gss, nat) {
    (g.(frames := g.frames + [Frame(s, [])]), |g.frames|)
  }

  /// Frame.addLink: a new link from f down to parent, unrejected and of
  /// recovery cost 0, appended to f's links.
  function AddLink(g: Gss, f: nat, parent: nat, node: ParseNode, length: int): (Gss, nat)
    requires f < |g.frames|
  {
    var l := |g.links|;
    (Gss(g.frames[f := g.frames[f].(links := g.frames[f].links + [l])],
         g.links + [Link(parent, node, length, 0, false, [])]), l)
  }

  function SetLink(g: Gss, l: nat, k: Link): Gss
    requires l < |g.links|
  {
    g.(links := g.links[l := k])
  }

  lemma NewFrameOk(g: Gss, s: int, n: nat)
    requires GssOk(g) && StatesBelow(g, n) && 0 <= s < n
    ensures var (g2, f) := NewFrame(g, s);
            GssOk(g2) && StatesBelow(g2, n) && Extends(g, g2) && f == |g.frames| && |g2.frames| == f + 1
            && g2.frames[f] == Frame(s, []) && g2.links == g.links
  {
    var (g2, f) := NewFrame(g, s);
    forall i | 0 <= i < |g2.frames|
      ensures forall k :: 0 <= k < |g2.frames[i].links| ==> g2.frames[i].links[k] < |g2.links|
    {
      if i < |g.frames| {
        assert g2.frames[i] == g.frames[i];
      }
    }
  }

  lemma AddLinkOk(g: Gss, f: nat, parent: nat, node: ParseNode, length: int, n: nat)
    requires GssOk(g) && StatesBelow(g, n) && f < |g.frames| && parent < |g.frames|
    ensures var (g2, l) := AddLink(g, f, parent, node, length);
            GssOk(g2) && StatesBelow(g2, n) && Extends(g, g2) && l == |g.links| && |g2.frames| == |g.frames|
  {
    var (g2, l) := AddLink(g, f, parent, node, length);
    forall i | 0 <= i < |g2.frames|
      ensures forall k :: 0 <= k < |g2.frames[i].links| ==> g2.frames[i].links[k] < |g2.links|
    {
      if i != f {
        assert g2.frames[i] == g.frames[i];
      } else {
        forall k | 0 <= k < |g2.frames[i].links|
          ensures g2.frames[i].links[k] < |g2.links|
        {
          if k < |g.frames[f].links| {
            assert g2.frames[i].links[k] == g.frames[f].links[k];
          }
        }
      }
    }
  }

  lemma SetLinkOk(g: Gss, l: nat, k: Link, n: nat)
    requires GssOk(g) && StatesBelow(g, n) && l < |g.links| && k.parent == g.links[l].parent
    ensures GssOk(SetLink(g, l, k)) && StatesBelow(SetLink(g, l, k), n) && Extends(g, SetLink(g, l, k))
  {
  }

  // ---------------------------------------------------------------------
  // Queries

  /// Frame.allLinksRejected: the frame has links and every one of them is
  /// rejected. A frame without links (the start frame) is not rejected.
  predicate AllLinksRejected(g: Gss, f: nat)
    requires GssOk(g) && f < |g.frames|
  {
    |g.frames[f].links| > 0 && forall k :: 0 <= k < |g.frames[f].links| ==> g.links[g.frames[f].links[k]].rejected
  }

  /// f has a link down to p.
  predicate HasLinkTo(g: Gss, f: nat, p: nat)
    requires GssOk(g) && f < |g.frames|
  {
    exists k :: 0 <= k < |g.frames[f].links| && g.links[g.frames[f].links[k]].parent == p
  }

  /// The first of the links `ls` whose parent is st0.
  function FindDirectLinkIn(g: Gss, ls: seq<nat>, st0: nat): (r: Option<nat>)
    requires forall k :: 0 <= k < |ls| ==> ls[k] < |g.links|
    ensures r.Some? ==> r.value < |g.links| && g.links[r.value].parent == st0
    decreases |ls|
  {
    if ls == [] then None
    else if g.links[ls[0]].parent == st0 then Some(ls[0])
    else FindDirectLinkIn(g, ls[1..], st0)
  }

  /// Frame.findDirectLink: the first link of f down to st0, if any.
  function FindDirectLink(g: Gss, f: nat, st0: nat): (r: Option<nat>)
    requires GssOk(g) && f < |g.frames|
    ensures r.Some? ==> r.value < |g.links| && g.links[r.value].parent == st0
  {
    FindDirectLinkIn(g, g.frames[f].links, st0)
  }

  /// The link found is one of f's links and leads to st0; none is found
  /// exactly when f has no link to st0.
  lemma {:induction false} FindDirectLinkInSpec(g: Gss, ls: seq<nat>, st0: nat)
    requires forall k :: 0 <= k < |ls| ==> ls[k] < |g.links|
    ensures var r := FindDirectLinkIn(g, ls, st0);
            (r.None? <==> forall k :: 0 <= k < |ls| ==> g.links[ls[k]].parent != st0)
            && (r.Some? ==> r.value in ls && g.links[r.value].parent == st0)
    decreases |ls|
  {
    if ls != [] && g.links[ls[0]].parent != st0 {
      FindDirectLinkInSpec(g, ls[1..], st0);
      assert forall k :: 1 <= k < |ls| ==> ls[k] == ls[1..][k - 1];
    }
  }

  lemma FindDirectLinkSpec(g: Gss, f: nat, st0: nat)
    requires GssOk(g) && f < |g.frames|
    ensures var r := FindDirectLink(g, f, st0);
            (r.None? <==> !HasLinkTo(g, f, st0))
            && (r.Some? ==> r.value in g.frames[f].links && r.value < |g.links| && g.links[r.value].parent == st0)
  {
    FindDirectLinkInSpec(g, g.frames[f].links, st0);
  }

  /// The first of `stacks` whose state is s.
  function FindStack(g: Gss, stacks: seq<nat>, s: int): (r: Option<nat>)
    requires Below(stacks, |g.frames|)
    ensures r.Some? ==> r.value < |g.frames|
    decreases |stacks|
  {
    if stacks == [] then None
    else if g.frames[stacks[0]].state == s then Some(stacks[0])
    else FindStack(g, stacks[1..], s)
  }

  /// findStack returns the first frame of the list with the state, and
  /// nothing exactly when no frame of the list has it.
  lemma {:induction false} FindStackSpec(g: Gss, stacks: seq<nat>, s: int)
    requires Below(stacks, |g.frames|)
    ensures var r := FindStack(g, stacks, s);
            (r.None? <==> forall i :: 0 <= i < |stacks| ==> g.frames[stacks[i]].state != s)
            && (r.Some? ==> exists i :: 0 <= i < |stacks| && stacks[i] == r.value && g.frames[stacks[i]].state == s
                                        && forall j :: 0 <= j < i ==> g.frames[stacks[j]].state != s)
    decreases |stacks|
  {
    if stacks != [] {
      if g.frames[stacks[0]].state != s {
        var rest := stacks[1..];
        FindStackSpec(g, rest, s);
        assert forall i :: 1 <= i < |stacks| ==> stacks[i] == rest[i - 1];
        var r := FindStack(g, rest, s);
        if r.Some? {
          var i :| 0 <= i < |rest| && rest[i] == r.value && g.frames[rest[i]].state == s
                   && forall j :: 0 <= j < i ==> g.frames[rest[j]].state != s;
          assert stacks[i + 1] == r.value;
        }
      } else {
        assert stacks[0] == FindStack(g, stacks, s).value;
      }
    }
  }

  /// No two frames of the list have the same state.
  predicate DistinctStates(g: Gss, stacks: seq<nat>)
    requires Below(stacks, |g.frames|)
  {
    forall i, j :: 0 <= i < j < |stacks| ==> g.frames[stacks[i]].state != g.frames[stacks[j]].state
  }

  // ---------------------------------------------------------------------
  // Paths

  /// A path of links from a frame down the stack, top link first, and the
  /// frame it ends at.
  datatype Path = Path(links: seq<nat>, end: nat)

  predicate PathIn(g: Gss, p: Path) {
    p.end < |g.frames| && forall k :: 0 <= k < |p.links| ==> p.links[k] < |g.links|
  }

  /// ls is a chain of links from st down to end: each link belongs to the
  /// frame the previous one leads to.
  predicate IsChain(g: Gss, st: nat, ls: seq<nat>, end: nat)
    requires GssOk(g) && st < |g.frames|
    decreases |ls|
  {
    if ls == [] then end == st
    else ls[0] in g.frames[st].links && ls[0] < |g.links| && IsChain(g, g.links[ls[0]].parent, ls[1..], end)
  }

  function PrependAll(l: nat, ps: seq<Path>): (r: seq<Path>)
    ensures |r| == |ps| && forall i :: 0 <= i < |r| ==> r[i] == Path([l] + ps[i].links, ps[i].end)
  {
    seq(|ps|, i requires 0 <= i < |ps| => Path([l] + ps[i].links, ps[i].end))
  }

  /// Frame.findAllPaths: every path of n links from st, taking st's links
  /// in order and, below each, the paths from its parent.
  function AllPaths(g: Gss, st: nat, n: nat): seq<Path>
    requires GssOk(g) && st < |g.frames|
    decreases n, 1
  {
    if n == 0 then [Path([], st)] else PathsVia(g, g.frames[st].links, n)
  }

  function PathsVia(g: Gss, ls: seq<nat>, n: nat): seq<Path>
    requires GssOk(g) && n > 0 && forall k :: 0 <= k < |ls| ==> ls[k] < |g.links|
    decreases n - 1, 2, |ls|
  {
    if ls == [] then []
    else PrependAll(ls[0], AllPaths(g, g.links[ls[0]].parent, n - 1)) + PathsVia(g, ls[1..], n)
  }

  /// p's links after the first form a chain from the first link's parent.
  predicate ChainBelow(g: Gss, p: Path)
    requires GssOk(g)
  {
    |p.links| > 0 && p.links[0] < |g.links| && IsChain(g, g.links[p.links[0]].parent, p.links[1..], p.end)
  }

  /// The paths enumerated are exactly the chains of n links from st.
  lemma {:induction false} AllPathsSpec(g: Gss, st: nat, n: nat, p: Path)
    requires GssOk(g) && st < |g.frames|
    ensures p in AllPaths(g, st, n) <==> |p.links| == n && IsChain(g, st, p.links, p.end)
    decreases n, 1
  {
    if n > 0 {
      PathsViaSpec(g, g.frames[st].links, n, p);
    }
  }

  lemma {:induction false} PathsViaSpec(g: Gss, ls: seq<nat>, n: nat, p: Path)
    requires GssOk(g) && n > 0 && forall k :: 0 <= k < |ls| ==> ls[k] < |g.links|
    ensures p in PathsVia(g, ls, n) <==> |p.links| == n && p.links[0] in ls && ChainBelow(g, p)
    decreases n - 1, 2, |ls|
  {
    if ls != [] {
      var l := ls[0];
      var below := AllPaths(g, g.links[l].parent, n - 1);
      PathsViaSpec(g, ls[1..], n, p);
      if |p.links| == n && p.links[0] == l {
        var q := Path(p.links[1..], p.end);
        AllPathsSpec(g, g.links[l].parent, n - 1, q);
        assert p.links == [l] + q.links;
        if q in below {
          var i :| 0 <= i < |below| && below[i] == q;
          assert PrependAll(l, below)[i] == p;
        }
        if p in PrependAll(l, below) {
          var i :| 0 <= i < |below| && PrependAll(l, below)[i] == p;
          assert below[i] == q;
        }
      } else if p in PrependAll(l, below) {
        var i :| 0 <= i < |below| && PrependAll(l, below)[i] == p;
        AllPathsSpec(g, g.links[l].parent, n - 1, below[i]);
      }
      assert forall x :: x in ls <==> x == l || x in ls[1..];
    }
  }

  /// Every path enumerated lies in the stack.
  lemma {:induction false} AllPathsIn(g: Gss, st: nat, n: nat)
    requires GssOk(g) && st < |g.frames|
    ensures forall p :: p in AllPaths(g, st, n) ==> PathIn(g, p)
  {
    forall p | p in AllPaths(g, st, n)
      ensures PathIn(g, p)
    {
      AllPathsSpec(g, st, n, p);
      ChainIn(g, st, p.links, p.end);
    }
  }

  lemma {:induction false} ChainIn(g: Gss, st: nat, ls: seq<nat>, end: nat)
    requires GssOk(g) && st < |g.frames| && IsChain(g, st, ls, end)
    ensures end < |g.frames| && forall k :: 0 <= k < |ls| ==> ls[k] < |g.links|
    decreases |ls|
  {
    if ls != [] {
      ChainIn(g, g.links[ls[0]].parent, ls[1..], end);
      assert forall k :: 1 <= k < |ls| ==> ls[k] == ls[1..][k - 1];
    }
  }

  /// The paths that pass through link l, in order.
  function PathsThrough(ps: seq<Path>, l: nat): (r: seq<Path>)
    ensures forall p :: p in r <==> p in ps && l in p.links
    decreases |ps|
  {
    if ps == [] then []
    else PathsThrough(ps[..|ps| - 1], l) + (if l in ps[|ps| - 1].links then [ps[|ps| - 1]] else [])
  }

  /// Frame.findLimitedPaths: the paths of n links from st through link l.
  function LimitedPaths(g: Gss, st: nat, n: nat, l: nat): seq<Path>
    requires GssOk(g) && st < |g.frames|
  {
    PathsThrough(AllPaths(g, st, n), l)
  }

  /// The children a path gives a reduction, leftmost first: the labels of
  /// its links from the bottom of the path up.
  function PathKids(g: Gss, p: Path): (kids: seq<ParseNode>)
    requires PathIn(g, p)
    ensures |kids| == |p.links|
  {
    seq(|p.links|, i requires 0 <= i < |p.links| => g.links[p.links[|p.links| - 1 - i]].node)
  }

  /// The number of characters a path spans.
  function PathLength(g: Gss, p: Path): int
    requires PathIn(g, p)
  {
    SumLengths(g, p.links)
  }

  function SumLengths(g: Gss, ls: seq<nat>): int
    requires forall k :: 0 <= k < |ls| ==> ls[k] < |g.links|
    decreases |ls|
  {
    if ls == [] then 0 else g.links[ls[0]].length + SumLengths(g, ls[1..])
  }

  /// The recovery cost of a path: the sum of its links' costs.
  function PathRecoverCount(g: Gss, p: Path): int
    requires PathIn(g, p)
  {
    SumRecoverCounts(g, p.links)
  }

  function SumRecoverCounts(g: Gss, ls: seq<nat>): int
    requires forall k :: 0 <= k < |ls| ==> ls[k] < |g.links|
    decreases |ls|
  {
    if ls == [] then 0 else g.links[ls[0]].recoverCount + SumRecoverCounts(g, ls[1..])
  }

  // ---------------------------------------------------------------------
  // The reducer's decisions

  /// The effect of a reduction on an existing direct link `nl`, for a
  /// derivation t of cost n: a reject production rejects the link first;
  /// then cost 0 on both sides, or a rejected link, packs t as an
  /// ambiguity; a strictly cheaper derivation replaces the parse node and the
  /// cost (and the second component asks for re-actoring over the link);
  /// an equally expensive one replaces only the parse node; a dearer one leaves
  /// the link as it is.
  function ExistingLinkUpdate(nl: Link, t: ParseNode, n: int, isReject: bool): (Link, bool) {
    var k := if isReject then nl.(rejected := true) else nl;
    if (n == 0 && k.recoverCount == 0) || k.rejected then (k.(ambiguities := k.ambiguities + [t]), false)
    else if n < k.recoverCount then (k.(node := t, recoverCount := n), true)
    else if n == k.recoverCount then (k.(node := t), false)
    else (k, false)
  }

  /// The five outcomes of an ambiguity on an existing link.
  lemma ExistingLinkUpdateSpec(nl: Link, t: ParseNode, n: int, isReject: bool)
    ensures var (k, reactor) := ExistingLinkUpdate(nl, t, n, isReject);
            var packed := (n == 0 && nl.recoverCount == 0) || nl.rejected || isReject;
            k.parent == nl.parent && k.length == nl.length
            && k.rejected == (nl.rejected || isReject)
            && (packed ==> k == nl.(rejected := k.rejected, ambiguities := nl.ambiguities + [t]) && !reactor)
            && (!packed && n < nl.recoverCount ==>
                  k == nl.(node := t, recoverCount := n) && reactor)
            && (!packed && n == nl.recoverCount ==> k == nl.(node := t) && !reactor)
            && (!packed && n > nl.recoverCount ==> k == nl && !reactor)
            && (reactor <==> !packed && n < nl.recoverCount)
  {
  }

  /// addNewStack on the stack: a new frame with state s and one link down
  /// to st0 of cost n, rejected exactly for a reject production.
  function NewStackFor(g: Gss, st0: nat, s: int, t: ParseNode, length: int, n: int, isReject: bool): (Gss, nat) {
    var (g1, f) := NewFrame(g, s);
    var (g2, l) := AddLink(g1, f, st0, t, length);
    (SetLink(g2, l, g2.links[l].(recoverCount := n, rejected := isReject)), f)
  }

  /// A new link from the existing frame st1 down to st0 of cost n,
  /// rejected exactly for a reject production.
  function NewLinkFor(g: Gss, st1: nat, st0: nat, t: ParseNode, length: int, n: int, isReject: bool): (Gss, nat)
    requires st1 < |g.frames|
  {
    var (g1, l) := AddLink(g, st1, st0, t, length);
    (SetLink(g1, l, g1.links[l].(recoverCount := n, rejected := isReject)), l)
  }

  /// The new frame is fresh, has the state s and exactly one link, which
  /// leads to st0 with the derivation, its length and cost, rejected
  /// exactly for a reject production; nothing old changes.
  lemma NewStackForSpec(g: Gss, st0: nat, s: int, t: ParseNode, length: int, n: int, isReject: bool, states: nat)
    requires GssOk(g) && StatesBelow(g, states) && st0 < |g.frames| && 0 <= s < states
    ensures var (g2, f) := NewStackFor(g, st0, s, t, length, n, isReject);
            f == |g.frames| && g2.frames == g.frames + [Frame(s, [|g.links|])]
            && g2.links == g.links + [Link(st0, t, length, n, isReject, [])]
            && GssOk(g2) && StatesBelow(g2, states) && Extends(g, g2)
            && !HasLinkTo(g, st0, f)
  {
    var (g1, f) := NewFrame(g, s);
    NewFrameOk(g, s, states);
    AddLinkOk(g1, f, st0, t, length, states);
    var (g2, l) := AddLink(g1, f, st0, t, length);
    assert g1.frames[f].links + [l] == [|g.links|];
    assert g2.frames == g.frames + [Frame(s, [|g.links|])];
  }

  /// The new link is appended to st1's links and leads to st0 with the
  /// derivation, its length and cost, rejected exactly for a reject
  /// production; other frames and all old links are unchanged.
  lemma NewLinkForSpec(g: Gss, st1: nat, st0: nat, t: ParseNode, length: int, n: int, isReject: bool, states: nat)
    requires GssOk(g) && StatesBelow(g, states) && st1 < |g.frames| && st0 < |g.frames|
    ensures var (g2, l) := NewLinkFor(g, st1, st0, t, length, n, isReject);
            l == |g.links| && g2.links == g.links + [Link(st0, t, length, n, isReject, [])]
            && g2.frames == g.frames[st1 := Frame(g.frames[st1].state, g.frames[st1].links + [l])]
            && GssOk(g2) && StatesBelow(g2, states) && Extends(g, g2)
  {
    AddLinkOk(g, st1, st0, t, length, states);
  }

  // ---------------------------------------------------------------------
  // What every change of the stack keeps

  /// From g to g2 every link keeps the frame it leads to and stays rejected
  /// once rejected, and every frame's links only grow at the end.
  predicate Keeps(g: Gss, g2: Gss) {
    |g.frames| <= |g2.frames| && |g.links| <= |g2.links|
    && (forall l :: 0 <= l < |g.links| ==>
          g2.links[l].parent == g.links[l].parent && (g.links[l].rejected ==> g2.links[l].rejected))
    && (forall f :: 0 <= f < |g.frames| ==> g.frames[f].links <= g2.frames[f].links)
  }

  lemma KeepsTransitive(g1: Gss, g2: Gss, g3: Gss)
    requires Keeps(g1, g2) && Keeps(g2, g3)
    ensures Keeps(g1, g3)
  {
    forall f | 0 <= f < |g1.frames|
      ensures g1.frames[f].links <= g3.frames[f].links
    {
      assert g1.frames[f].links <= g2.frames[f].links <= g3.frames[f].links;
    }
  }

  /// An update of a link that keeps its parent and its rejection.
  lemma KeepsSetLink(g: Gss, l: nat, k: Link)
    requires l < |g.links| && k.parent == g.links[l].parent && (g.links[l].rejected ==> k.rejected)
    ensures Keeps(g, SetLink(g, l, k))
  {
  }

  lemma KeepsNewStack(g: Gss, st0: nat, s: int, t: ParseNode, length: int, n: int, isReject: bool, states: nat)
    requires GssOk(g) && StatesBelow(g, states) && st0 < |g.frames| && 0 <= s < states
    ensures Keeps(g, NewStackFor(g, st0, s, t, length, n, isReject).0)
  {
    NewStackForSpec(g, st0, s, t, length, n, isReject, states);
  }

  lemma KeepsNewLink(g: Gss, st1: nat, st0: nat, t: ParseNode, length: int, n: int, isReject: bool, states: nat)
    requires GssOk(g) && StatesBelow(g, states) && st1 < |g.frames| && st0 < |g.frames|
    ensures Keeps(g, NewLinkFor(g, st1, st0, t, length, n, isReject).0)
  {
    NewLinkForSpec(g, st1, st0, t, length, n, isReject, states);
    var g2 := NewLinkFor(g, st1, st0, t, length, n, isReject).0;
    assert forall f :: 0 <= f < |g.frames| && f != st1 ==> g2.frames[f] == g.frames[f];
  }

  // ---------------------------------------------------------------------
  // The frontier is bounded by the number of states

  lemma {:induction false} DistinctBelowBound(g: Gss, stacks: seq<nat>, n: nat)
    requires Below(stacks, |g.frames|) && DistinctStates(g, stacks) && StatesBelow(g, n)
    ensures |stacks| <= n
  {
    var xs := seq(|stacks|, i requires 0 <= i < |stacks| => g.frames[stacks[i]].state);
    DistinctIntsBound(xs, n);
  }

  /// Distinct integers drawn from 0 to n - 1 number at most n.
  lemma {:induction false} DistinctIntsBound(xs: seq<int>, n: nat)
    requires forall i :: 0 <= i < |xs| ==> 0 <= xs[i] < n
    requires forall i, j :: 0 <= i < j < |xs| ==> xs[i] != xs[j]
    ensures |xs| <= n
    decreases |xs|
  {
    if |xs| > 0 {
      var v := xs[|xs| - 1];
      assert 0 <= v < n;
      var init := xs[..|xs| - 1];
      // Rename the value n - 1 to v, which the prefix does not use.
      var ys := seq(|init|, i requires 0 <= i < |init| => if init[i] == n - 1 then v else init[i]);
      forall i | 0 <= i < |ys|
        ensures 0 <= ys[i] < n - 1
      {
        assert init[i] == xs[i] && xs[i] != xs[|xs| - 1];
      }
      forall i, j | 0 <= i < j < |ys|
        ensures ys[i] != ys[j]
      {
        assert init[i] == xs[i] && init[j] == xs[j];
        assert xs[i] != v && xs[j] != v;
      }
      DistinctIntsBound(ys, n - 1);
    }
  }
}
