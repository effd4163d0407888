/// The JSGLR parser (SGLR.java): a generalised LR parser that reads one
/// character at a time, performs every reduction the frontier of its
/// graph-structured stack allows, and then shifts the character onto all
/// stacks that can take it.
module SglrParser {
  import opened SglrInput
  import opened SglrStack
  import opened SglrShifter

  // ---------------------------------------------------------------------
  // The parse table, as the parser reads it

  /// A production: its label, the number of symbols it reduces, and
  /// whether it is a reject or a recovery production.
  datatype Production = Production(prodLabel: int, arity: nat, isReject: bool, isRecover: bool)

  datatype ActionItem =
    | Shift(nextState: int)
    | Reduce(prod: Production)
    | ReduceLookahead(prod: Production, charClasses: seq<set<int>>)
    | Accept

  /// An action: the characters it applies to, its items, and the one
  /// character it expects when it expects exactly one (-1 otherwise).
  datatype Action = Action(ranges: set<int>, items: seq<ActionItem>, singularRange: int)

  /// A state of the table: its actions, its single action when it has
  /// exactly one, and its gotos from production labels to states.
  datatype State = State(actions: seq<Action>, singularAction: Option<Action>, gotos: map<int, int>)

  /// The table: its states, numbered by position, the initial state, and
  /// whether any production is a reject production.
  datatype ParseTable = ParseTable(states: seq<State>, initialState: int, hasRejects: bool)

  /// ParseTable.go: the state reached from state s over a production label.
  function Goto(t: ParseTable, s: int, lbl: int): int
    requires 0 <= s < |t.states| && lbl in t.states[s].gotos
  {
    t.states[s].gotos[lbl]
  }

  /// Every shift of `a` leads to a state of the table.
  ghost predicate ShiftTargetsOk(t: ParseTable, a: Action) {
    forall k :: 0 <= k < |a.items| && a.items[k].Shift? ==> 0 <= a.items[k].nextState < |t.states|
  }

  /// Every state has a goto for the label of production p.
  ghost predicate GotosFor(t: ParseTable, p: Production) {
    forall s :: 0 <= s < |t.states| ==> p.prodLabel in t.states[s].gotos
  }

  /// Every production `a` reduces has its gotos.
  ghost predicate ReducesOk(t: ParseTable, a: Action) {
    forall k :: 0 <= k < |a.items| && !a.items[k].Shift? && !a.items[k].Accept? ==> GotosFor(t, a.items[k].prod)
  }

  /// The lookups the parser makes in a well-formed table stay in it.
  lemma GotoOk(t: ParseTable, s: int, lbl: int)
    requires TableOk(t) && 0 <= s < |t.states| && lbl in t.states[s].gotos
    ensures 0 <= Goto(t, s, lbl) < |t.states|
  {
  }

  lemma ActionOk(t: ParseTable, s: int, i: int)
    requires TableOk(t) && 0 <= s < |t.states| && 0 <= i < |t.states[s].actions|
    ensures ShiftTargetsOk(t, t.states[s].actions[i]) && ReducesOk(t, t.states[s].actions[i])
  {
  }

  lemma SingularOk(t: ParseTable, s: int)
    requires TableOk(t) && 0 <= s < |t.states| && t.states[s].singularAction.Some?
    ensures ShiftTargetsOk(t, t.states[s].singularAction.value)
  {
  }

  /// Every state the table leads to is one of its states, and every
  /// production a state reduces can be gone to from any state.
  ghost predicate TableOk(t: ParseTable) {
    0 <= t.initialState < |t.states|
    && forall s :: 0 <= s < |t.states| ==>
         (forall l :: l in t.states[s].gotos ==> 0 <= t.states[s].gotos[l] < |t.states|)
         && (forall i :: 0 <= i < |t.states[s].actions| ==>
               ShiftTargetsOk(t, t.states[s].actions[i]) && ReducesOk(t, t.states[s].actions[i]))
         && (t.states[s].singularAction.Some? ==> ShiftTargetsOk(t, t.states[s].singularAction.value))
  }

  // ---------------------------------------------------------------------
  // What a parse ends with

  datatype ParseError =
    | TokenExpected(expected: seq<int>, token: int, offset: int, line: int, column: int)
    | BadToken(token: int, offset: int, line: int, column: int)

  /// The parse node of the accepting stack's link to the start frame, a
  /// failure with the errors collected, or an accepting stack without a
  /// link to the start frame.
  datatype ParseResult = Accepted(tree: ParseNode) | Failed(errors: seq<ParseError>) | NoLinkToStart

  /// Java's (char) cast: the low 16 bits.
  function JavaChar(x: int): int {
    x % 0x1_0000
  }

  /// The characters a chain of single-shift states expects, starting at
  /// action a, for at most `fuel` actions.
  function ExpectedFrom(t: ParseTable, a: Action, fuel: nat): seq<int>
    requires TableOk(t) && ShiftTargetsOk(t, a)
    decreases fuel
  {
    if fuel == 0 || a.singularRange == -1 then []
    else [JavaChar(a.singularRange)]
         + (if |a.items| == 1 && a.items[0].Shift? then
              match t.states[a.items[0].nextState].singularAction
              case None => []
              case Some(a2) => ExpectedFrom(t, a2, fuel - 1)
            else [])
  }

  function ExpectedFromOpt(t: ParseTable, o: Option<Action>, fuel: nat): seq<int>
    requires TableOk(t) && (o.Some? ==> ShiftTargetsOk(t, o.value))
  {
    match o
    case None => []
    case Some(a) => ExpectedFrom(t, a, fuel)
  }

  /// The chain is empty exactly when there is no fuel or the first action
  /// expects no single character; otherwise it starts with that character,
  /// and it never holds more characters than there was fuel.
  lemma {:induction false} ExpectedFromSpec(t: ParseTable, a: Action, fuel: nat)
    requires TableOk(t) && ShiftTargetsOk(t, a)
    ensures var e := ExpectedFrom(t, a, fuel);
            |e| <= fuel
            && (e == [] <==> fuel == 0 || a.singularRange == -1)
            && (e != [] ==> e[0] == JavaChar(a.singularRange))
            && forall i :: 0 <= i < |e| ==> 0 <= e[i] < 0x1_0000
    decreases fuel
  {
    if fuel > 0 && a.singularRange != -1 && |a.items| == 1 && a.items[0].Shift? {
      match t.states[a.items[0].nextState].singularAction
      case None =>
      case Some(a2) =>
        ExpectedFromSpec(t, a2, fuel - 1);
        var e := ExpectedFrom(t, a, fuel);
        assert forall i :: 1 <= i < |e| ==> e[i] == ExpectedFrom(t, a2, fuel - 1)[i - 1];
    }
  }

  /// The error SGLR.createBadTokenException reports: when exactly one
  /// stack is active and its state has a single action with a single item,
  /// the characters its chain of single shifts expects, if any; otherwise
  /// the bad token itself. A chain that never ends is cut after one action
  /// more than there are states.
  function BadTokenError(t: ParseTable, g: Gss, active: seq<nat>, token: int, p: TextPosition): ParseError
    requires TableOk(t) && Below(active, |g.frames|) && StatesBelow(g, |t.states|)
  {
    var bad := BadToken(token, p.tokensSeen - 1, p.line, p.column);
    if |active| == 1 then
      match t.states[g.frames[active[0]].state].singularAction
      case Some(a) =>
        if |a.items| == 1 then
          var e := ExpectedFrom(t, a, |t.states| + 1);
          if |e| > 0 then TokenExpected(e, token, p.tokensSeen - 1, p.line, p.column) else bad
        else bad
      case None => bad
    else bad
  }

  /// A TokenExpected error is reported exactly for a lone active stack
  /// whose single action has one item and expects one character, and then
  /// that character comes first; every error is at the previous token.
  lemma BadTokenErrorSpec(t: ParseTable, g: Gss, active: seq<nat>, token: int, p: TextPosition)
    requires TableOk(t) && Below(active, |g.frames|) && StatesBelow(g, |t.states|)
    ensures var e := BadTokenError(t, g, active, token, p);
            e.token == token && e.offset == p.tokensSeen - 1 && e.line == p.line && e.column == p.column
            && (e.TokenExpected? <==>
                  |active| == 1 && t.states[g.frames[active[0]].state].singularAction.Some?
                  && |t.states[g.frames[active[0]].state].singularAction.value.items| == 1
                  && t.states[g.frames[active[0]].state].singularAction.value.singularRange != -1)
            && (e.TokenExpected? ==>
                  e.expected[0] == JavaChar(t.states[g.frames[active[0]].state].singularAction.value.singularRange))
  {
    if |active| == 1 && t.states[g.frames[active[0]].state].singularAction.Some? {
      ExpectedFromSpec(t, t.states[g.frames[active[0]].state].singularAction.value, |t.states| + 1);
    }
  }

  // ---------------------------------------------------------------------
  // The shifts an actor queues

  /// The shifts among `items`, from frame st, in order.
  function ItemShifts(items: seq<ActionItem>, st: nat): seq<ActionState>
    decreases |items|
  {
    if items == [] then []
    else ItemShifts(items[..|items| - 1], st)
         + (if items[|items| - 1].Shift? then [ActionState(st, items[|items| - 1].nextState)] else [])
  }

  /// The shifts of every action of `acts` that applies to `token`, in order.
  function ActionShifts(acts: seq<Action>, token: int, st: nat): seq<ActionState>
    decreases |acts|
  {
    if acts == [] then []
    else ActionShifts(acts[..|acts| - 1], token, st)
         + (if token in acts[|acts| - 1].ranges then ItemShifts(acts[|acts| - 1].items, st) else [])
  }

  lemma {:induction false} ItemShiftsSpec(items: seq<ActionItem>, st: nat, x: ActionState)
    ensures x in ItemShifts(items, st) <==> x.st == st && Shift(x.s) in items
    decreases |items|
  {
    if items != [] {
      var init := items[..|items| - 1];
      ItemShiftsSpec(init, st, x);
      assert forall y :: y in items <==> y in init || y == items[|items| - 1];
    }
  }

  /// The actor queues exactly the shifts from st into the targets of the
  /// shift items of the actions that apply to the token.
  lemma {:induction false} ActionShiftsSpec(acts: seq<Action>, token: int, st: nat, x: ActionState)
    ensures x in ActionShifts(acts, token, st)
            <==> x.st == st && exists i :: 0 <= i < |acts| && token in acts[i].ranges && Shift(x.s) in acts[i].items
    decreases |acts|
  {
    if acts != [] {
      var n := |acts| - 1;
      var init := acts[..n];
      ActionShiftsSpec(init, token, st, x);
      ItemShiftsSpec(acts[n].items, st, x);
      assert forall i :: 0 <= i < n ==> init[i] == acts[i];
      if x.st == st && exists i :: 0 <= i < |acts| && token in acts[i].ranges && Shift(x.s) in acts[i].items {
        var i :| 0 <= i < |acts| && token in acts[i].ranges && Shift(x.s) in acts[i].items;
        if i < n {
          assert init[i] == acts[i];
        }
      }
    }
  }

  /// SGLR.calcRecoverCount: a reduction costs what its path costs, plus one
  /// for a recovery production.
  function CalcRecoverCount(g: Gss, prod: Production, p: Path): (n: int)
    requires PathIn(g, p)
    ensures n == PathRecoverCount(g, p) + 1 <==> prod.isRecover
    ensures n == PathRecoverCount(g, p) <==> !prod.isRecover
  {
    PathRecoverCount(g, p) + if prod.isRecover then 1 else 0
  }

  // ---------------------------------------------------------------------
  // What a reduction may change

  /// The parts of the parser reductions change.
  datatype Reach = Reach(gss: Gss, active: seq<nat>, delayed: seq<nat>, recover: seq<nat>,
                         rejects: int, reductions: int, text: string, cursor: nat)

  /// From a to b only reductions happened: the stack grew, keeping every
  /// link's parent and rejection and every frame's links, the active
  /// stacks and the delayed actor queue grew by the same number of frames,
  /// the recovery stacks did not shrink, the counters did not go down and
  /// the input did not move.
  predicate OnlyReduced(a: Reach, b: Reach) {
    Extends(a.gss, b.gss) && Keeps(a.gss, b.gss)
    && |a.active| <= |b.active| && |b.delayed| - |a.delayed| == |b.active| - |a.active|
    && |a.recover| <= |b.recover|
    && a.rejects <= b.rejects && a.reductions <= b.reductions
    && b.text == a.text && b.cursor == a.cursor
  }

  lemma OnlyReducedTransitive(a: Reach, b: Reach, c: Reach)
    requires OnlyReduced(a, b) && OnlyReduced(b, c)
    ensures OnlyReduced(a, c)
  {
    ExtendsTransitive(a.gss, b.gss, c.gss);
    KeepsTransitive(a.gss, b.gss, c.gss);
  }

  /// A frame's links only ever grow or change in place, so a path that
  /// lies in the stack stays in it.
  lemma PathStaysIn(g: Gss, g2: Gss, paths: seq<Path>)
    requires Extends(g, g2) && forall i :: 0 <= i < |paths| ==> PathIn(g, paths[i])
    ensures forall i :: 0 <= i < |paths| ==> PathIn(g2, paths[i])
  {
  }

  // ---------------------------------------------------------------------
  // The parser's invariant

  /// Every frame the parser holds exists, every state is one of the
  /// table's, and no two active stacks share a state.
  ghost predicate Inv(t: ParseTable, g: Gss, active: seq<nat>, forActor: seq<nat>, delayed: seq<nat>,
                      recover: seq<nat>, shifts: seq<ActionState>, start: nat, accepting: Option<nat>)
  {
    GssOk(g) && StatesBelow(g, |t.states|)
    && Below(active, |g.frames|) && DistinctStates(g, active)
    && Below(forActor, |g.frames|) && Below(delayed, |g.frames|) && Below(recover, |g.frames|)
    && ShiftsOk(shifts, |g.frames|, |t.states|)
    && start < |g.frames| && (accepting.Some? ==> accepting.value < |g.frames|)
  }

  /// The invariant survives any growth of the stack.
  lemma InvExtends(t: ParseTable, g: Gss, g2: Gss, active: seq<nat>, forActor: seq<nat>, delayed: seq<nat>,
                   recover: seq<nat>, shifts: seq<ActionState>, start: nat, accepting: Option<nat>)
    requires Inv(t, g, active, forActor, delayed, recover, shifts, start, accepting)
    requires GssOk(g2) && StatesBelow(g2, |t.states|) && Extends(g, g2)
    ensures Inv(t, g2, active, forActor, delayed, recover, shifts, start, accepting)
  {
  }

  /// The invariant only asks of the actor queues that they name frames of
  /// the stack.
  lemma InvQueues(t: ParseTable, g: Gss, active: seq<nat>, forActor: seq<nat>, delayed: seq<nat>,
                  recover: seq<nat>, shifts: seq<ActionState>, start: nat, accepting: Option<nat>,
                  forActor2: seq<nat>, delayed2: seq<nat>)
    requires Inv(t, g, active, forActor, delayed, recover, shifts, start, accepting)
    requires Below(forActor2, |g.frames|) && Below(delayed2, |g.frames|)
    ensures Inv(t, g, active, forActor2, delayed2, recover, shifts, start, accepting)
  {
  }

  /// A fresh frame in the initial state, alone on the frontier, is a valid
  /// start.
  lemma InvInit(t: ParseTable, g: Gss, recover: seq<nat>)
    requires 0 <= t.initialState < |t.states| && GssOk(g) && StatesBelow(g, |t.states|) && Below(recover, |g.frames|)
    ensures var r := NewFrame(g, t.initialState);
            Inv(t, r.0, [r.1], [], [], recover, [], r.1, None)
  {
    NewFrameOk(g, t.initialState, |t.states|);
  }

  /// A new stack in a state no active stack has keeps the active states
  /// distinct.
  lemma InvNewStack(t: ParseTable, g: Gss, active: seq<nat>, forActor: seq<nat>, delayed: seq<nat>,
                    recover: seq<nat>, shifts: seq<ActionState>, start: nat, accepting: Option<nat>,
                    st0: nat, s: int, node: ParseNode, length: int, n: int, isReject: bool)
    requires Inv(t, g, active, forActor, delayed, recover, shifts, start, accepting)
    requires st0 < |g.frames| && 0 <= s < |t.states| && FindStack(g, active, s).None?
    ensures var (g2, f) := NewStackFor(g, st0, s, node, length, n, isReject);
            Inv(t, g2, [f] + active, forActor, [f] + delayed, recover, shifts, start, accepting)
            && Inv(t, g2, active, forActor, delayed, [f] + recover, shifts, start, accepting)
  {
    FindStackSpec(g, active, s);
    NewStackForSpec(g, st0, s, node, length, n, isReject, |t.states|);
    var (g2, f) := NewStackFor(g, st0, s, node, length, n, isReject);
    var act2 := [f] + active;
    forall i, j | 0 <= i < j < |act2|
      ensures g2.frames[act2[i]].state != g2.frames[act2[j]].state
    {
      assert act2[j] == active[j - 1];
      assert g2.frames[active[j - 1]].state == g.frames[active[j - 1]].state;
      if i > 0 {
        assert act2[i] == active[i - 1];
      }
    }
  }

  /// The shifter keeps the invariant: it only adds to the stack and
  /// leaves distinct new active stacks and no pending shifts.
  lemma InvShifted(t: ParseTable, g: Gss, active: seq<nat>, forActor: seq<nat>, delayed: seq<nat>,
                   recover: seq<nat>, shifts: seq<ActionState>, start: nat, accepting: Option<nat>, node: ParseNode)
    requires Inv(t, g, active, forActor, delayed, recover, shifts, start, accepting)
    ensures var r := ShiftFrom(g, [], shifts, node, t.hasRejects, |t.states|);
            Inv(t, r.0, r.1, forActor, delayed, recover, [], start, accepting) && OnlyAdds(g, r.0)
  {
    ShifterSpec(g, shifts, node, t.hasRejects, |t.states|, ShiftFrom(g, [], shifts, node, t.hasRejects, |t.states|));
  }

  // ---------------------------------------------------------------------
  // The input

  /// The pushback reader over the input string: reading returns the next
  /// character code, or -1 at the end; unreading steps back.
  class PushbackInput {
    var text: string
    var cursor: nat

    constructor(text: string)
      ensures this.text == text && cursor == 0
    {
      this.text := text;
      cursor := 0;
    }

    method Reset(text: string)
      modifies this`text, this`cursor
      ensures this.text == text && cursor == 0
    {
      this.text := text;
      cursor := 0;
    }

    method Read() returns (c: int)
      requires cursor <= |text|
      modifies this`cursor
      ensures old(cursor) < |text| ==> c == text[old(cursor)] as int && cursor == old(cursor) + 1
      ensures old(cursor) == |text| ==> c == -1 && cursor == old(cursor)
    {
      if cursor < |text| {
        c := text[cursor] as int;
        cursor := cursor + 1;
      } else {
        c := -1;
      }
    }

    method Unread()
      requires 0 < cursor <= |text|
      modifies this`cursor
      ensures cursor == old(cursor) - 1
    {
      cursor := cursor - 1;
    }
  }

  // ---------------------------------------------------------------------
  // The parser

  class Sglr {
    const tbl: ParseTable
    const inp: PushbackInput
    /// How deeply re-actoring over a new link may nest.
    const reactorFuel: nat
    const fineGrainedOnRegion: bool

    var gss: Gss
    var activeStacks: seq<nat>
    var forActor: seq<nat>
    var forActorDelayed: seq<nat>
    var forShifter: seq<ActionState>
    var recoverStacks: seq<nat>
    var acceptingStack: Option<nat>
    var startFrame: nat
    var currentToken: int
    var tokensSeen: int
    var lineNumber: int
    var columnNumber: int
    var rejectCount: int
    var reductionCount: int
    var collectedErrors: seq<ParseError>

    ghost predicate Valid()
      reads this`gss, this`activeStacks, this`forActor, this`forActorDelayed, this`recoverStacks, this`forShifter,
            this`startFrame, this`acceptingStack, inp`cursor, inp`text
    {
      Inv(tbl, gss, activeStacks, forActor, forActorDelayed, recoverStacks, forShifter, startFrame, acceptingStack)
      && inp.cursor <= |inp.text|
    }

    function Snap(): Reach
      reads this`gss, this`activeStacks, this`forActorDelayed, this`recoverStacks, this`rejectCount,
            this`reductionCount, inp`text, inp`cursor
    {
      Reach(gss, activeStacks, forActorDelayed, recoverStacks, rejectCount, reductionCount, inp.text, inp.cursor)
    }

    function Position(): TextPosition
      reads this`tokensSeen, this`lineNumber, this`columnNumber
    {
      TextPosition(tokensSeen, lineNumber, columnNumber)
    }

    constructor(tbl: ParseTable, fineGrainedOnRegion: bool, reactorFuel: nat)
      requires TableOk(tbl)
      ensures Valid() && this.tbl == tbl && TableOk(this.tbl) && fresh(inp)
    {
      this.tbl := tbl;
      this.fineGrainedOnRegion := fineGrainedOnRegion;
      this.reactorFuel := reactorFuel;
      inp := new PushbackInput([]);
      gss := Gss([Frame(tbl.initialState, [])], []);
      activeStacks := [0];
      forActor := [];
      forActorDelayed := [];
      forShifter := [];
      recoverStacks := [];
      acceptingStack := None;
      startFrame := 0;
      currentToken := 0;
      tokensSeen := 0;
      lineNumber := 1;
      columnNumber := 0;
      rejectCount := 0;
      reductionCount := 0;
      collectedErrors := [];
    }

    /// SGLR.initParseVariables: empty queues, a single active stack on a
    /// new frame in the initial state, which is also the start frame, the
    /// counters at line 1, column 0, and the reader at the input's start.
    method InitParseVariables(input: string)
      requires GssOk(gss) && StatesBelow(gss, |tbl.states|) && Below(recoverStacks, |gss.frames|)
      requires 0 <= tbl.initialState < |tbl.states| && inp.cursor <= |inp.text|
      modifies this`forActor, this`forActorDelayed, this`forShifter, this`gss, this`activeStacks, this`startFrame,
               this`tokensSeen, this`columnNumber, this`lineNumber, this`acceptingStack, this`collectedErrors,
               inp`text, inp`cursor
      ensures Valid()
      ensures forActor == [] && forActorDelayed == [] && forShifter == []
      ensures gss == NewFrame(old(gss), tbl.initialState).0 && startFrame == |old(gss.frames)|
      ensures activeStacks == [startFrame] && acceptingStack.None? && collectedErrors == []
      ensures Position() == TextPosition(0, 1, 0) && inp.text == input && inp.cursor == 0
    {
      inp.Reset(input);
      InitStacks();
      tokensSeen, columnNumber, lineNumber := 0, 0, 1;
      collectedErrors := [];
    }

    /// The stack part of SGLR.initParseVariables.
    method InitStacks()
      requires GssOk(gss) && StatesBelow(gss, |tbl.states|) && Below(recoverStacks, |gss.frames|)
      requires 0 <= tbl.initialState < |tbl.states| && inp.cursor <= |inp.text|
      modifies this`forActor, this`forActorDelayed, this`forShifter, this`gss, this`activeStacks, this`startFrame,
               this`acceptingStack
      ensures Valid()
      ensures forActor == [] && forActorDelayed == [] && forShifter == []
      ensures gss == NewFrame(old(gss), tbl.initialState).0 && startFrame == |old(gss.frames)|
      ensures activeStacks == [startFrame] && acceptingStack.None?
    {
      var r := NewFrame(gss, tbl.initialState);
      gss, activeStacks, startFrame, acceptingStack := r.0, [r.1], r.1, None;
      forActor, forActorDelayed, forShifter := [], [], [];
      InvInit(tbl, old(gss), recoverStacks);
    }

    /// SGLR.updateLineAndColumnInfo.
    method UpdateLineAndColumnInfo(ch: int)
      modifies this`tokensSeen, this`lineNumber, this`columnNumber
      ensures Position() == NextPosition(old(Position()), ch)
    {
      tokensSeen := tokensSeen + 1;
      if ch == NEWLINE {
        lineNumber := lineNumber + 1;
        columnNumber := 0;
      } else if ch == TAB {
        columnNumber := (JavaDiv(columnNumber, TAB_SIZE) + 1) * TAB_SIZE;
      } else if ch == -1 {
      } else {
        columnNumber := columnNumber + 1;
      }
    }

    /// SGLR.getNextToken: the next character code, or EOF at the end of the
    /// input; the counters move over what was read (-1 at the end).
    method GetNextToken() returns (tok: int)
      requires inp.cursor <= |inp.text|
      modifies this`tokensSeen, this`lineNumber, this`columnNumber, inp`cursor
      ensures old(inp.cursor) < |inp.text| ==>
                tok == inp.text[old(inp.cursor)] as int && inp.cursor == old(inp.cursor) + 1
                && Position() == NextPosition(old(Position()), tok)
      ensures old(inp.cursor) == |inp.text| ==>
                tok == EOF && inp.cursor == old(inp.cursor) && Position() == NextPosition(old(Position()), -1)
    {
      var ch := inp.Read();
      UpdateLineAndColumnInfo(ch);
      if ch == -1 {
        return EOF;
      }
      return ch;
    }

    /// SGLR.doCheckLookahead: whether the characters after the current one
    /// permit a lookahead reduction; every character read is unread again.
    method DoCheckLookahead(charClass: seq<set<int>>, pos: nat) returns (permit: bool)
      requires inp.cursor <= |inp.text|
      modifies inp`cursor
      ensures inp.cursor == old(inp.cursor)
      ensures permit == LookaheadPermits(inp.text[inp.cursor..], charClass, pos)
      decreases |inp.text| - inp.cursor
    {
      var c := inp.Read();
      if c == -1 {
        return true;
      }
      permit := true;
      if pos < |charClass| {
        if c in charClass[pos] {
          permit := false;
        } else {
          permit := DoCheckLookahead(charClass, pos + 1);
          assert inp.text[inp.cursor - 1..][1..] == inp.text[inp.cursor..];
        }
      }
      inp.Unread();
    }

    /// SGLR.findStack: the first of `stacks` in state s.
    method FindStackIn(stacks: seq<nat>, s: int) returns (r: Option<nat>)
      requires Below(stacks, |gss.frames|)
      ensures r == FindStack(gss, stacks, s)
    {
      var i := 0;
      while i < |stacks|
        invariant 0 <= i <= |stacks|
        invariant FindStack(gss, stacks[i..], s) == FindStack(gss, stacks, s)
      {
        if gss.frames[stacks[i]].state == s {
          return Some(stacks[i]);
        }
        assert stacks[i..][1..] == stacks[i + 1..];
        i := i + 1;
      }
      return None;
    }

    /// SGLR.addNewStack: a new frame in state s, linked to st0, put in
    /// front of the active stacks and of the delayed actor queue; a reject
    /// production rejects the link and counts one more reject.
    method AddNewStack(st0: nat, s: int, prod: Production, length: int, numberOfRecoveries: int, t: ParseNode)
      requires Valid() && st0 < |gss.frames| && 0 <= s < |tbl.states|
      requires FindStack(gss, activeStacks, s).None?
      modifies this`gss, this`activeStacks, this`forActorDelayed, this`rejectCount
      ensures Valid()
      ensures var (g2, f) := NewStackFor(old(gss), st0, s, t, length, numberOfRecoveries, prod.isReject);
              gss == g2 && activeStacks == [f] + old(activeStacks) && forActorDelayed == [f] + old(forActorDelayed)
      ensures rejectCount == old(rejectCount) + if prod.isReject then 1 else 0
      ensures Extends(old(gss), gss) && OnlyReduced(old(Snap()), Snap())
    {
      var s0 := Snap();
      NewStackForSpec(gss, st0, s, t, length, numberOfRecoveries, prod.isReject, |tbl.states|);
      InvNewStack(tbl, gss, activeStacks, forActor, forActorDelayed, recoverStacks, forShifter, startFrame,
                  acceptingStack, st0, s, t, length, numberOfRecoveries, prod.isReject);
      var (g2, f) := NewStackFor(gss, st0, s, t, length, numberOfRecoveries, prod.isReject);
      gss := g2;
      activeStacks := [f] + activeStacks;
      forActorDelayed := [f] + forActorDelayed;
      if prod.isReject {
        rejectCount := rejectCount + 1;
      }
    }

    /// SGLR.addNewRecoverStack: only in fine-grained recovery and for a
    /// production that is not a reject production, a new frame in state s
    /// linked to st0, put in front of the recovery stacks.
    method AddNewRecoverStack(st0: nat, s: int, prod: Production, length: int, numberOfRecoveries: int, t: ParseNode)
      requires Valid() && st0 < |gss.frames| && 0 <= s < |tbl.states|
      modifies this`gss, this`recoverStacks
      ensures Valid() && Extends(old(gss), gss) && OnlyReduced(old(Snap()), Snap())
      ensures !(fineGrainedOnRegion && !prod.isReject) ==> gss == old(gss) && recoverStacks == old(recoverStacks)
      ensures fineGrainedOnRegion && !prod.isReject ==>
                var (g2, f) := NewStackFor(old(gss), st0, s, t, length, numberOfRecoveries, false);
                gss == g2 && recoverStacks == [f] + old(recoverStacks)
    {
      var s0 := Snap();
      if !(fineGrainedOnRegion && !prod.isReject) {
        return;
      }
      NewStackForSpec(gss, st0, s, t, length, numberOfRecoveries, false, |tbl.states|);
      InvExtends(tbl, gss, NewStackFor(gss, st0, s, t, length, numberOfRecoveries, false).0, activeStacks,
                 forActor, forActorDelayed, recoverStacks, forShifter, startFrame, acceptingStack);
      var (g2, f) := NewStackFor(gss, st0, s, t, length, numberOfRecoveries, false);
      gss := g2;
      recoverStacks := [f] + recoverStacks;
    }

    /// SGLR.reducer: the reduction of `path` by `prod` into state s from
    /// the frame st0 at the path's end.
    method Reducer(st0: nat, s: int, prod: Production, kids: seq<ParseNode>, path: Path, fuel: nat)
      requires Valid() && TableOk(tbl) && st0 < |gss.frames| && 0 <= s < |tbl.states| && PathIn(gss, path)
      modifies this`gss, this`activeStacks, this`forActorDelayed, this`recoverStacks, this`rejectCount,
               this`reductionCount, inp`cursor
      ensures Valid() && OnlyReduced(old(Snap()), Snap()) && reductionCount > old(reductionCount)
      ensures !prod.isRecover && FindStack(old(gss), old(activeStacks), s).None? ==>
                gss == NewStackFor(old(gss), st0, s, Applied(prod.prodLabel, kids), PathLength(old(gss), path),
                                   CalcRecoverCount(old(gss), prod, path), prod.isReject).0
                && activeStacks == [|old(gss).frames|] + old(activeStacks)
                && rejectCount == old(rejectCount) + (if prod.isReject then 1 else 0)
      ensures FindStack(old(gss), old(activeStacks), s).Some?
              && FindDirectLink(old(gss), FindStack(old(gss), old(activeStacks), s).value, st0).Some? ==>
                var l := FindDirectLink(old(gss), FindStack(old(gss), old(activeStacks), s).value, st0).value;
                var u := ExistingLinkUpdate(old(gss).links[l], Applied(prod.prodLabel, kids),
                                            CalcRecoverCount(old(gss), prod, path), prod.isReject);
                (prod.isRecover ==> gss == old(gss))
                && (!prod.isRecover && !u.1 ==>
                      gss == SetLink(old(gss), l, u.0) && activeStacks == old(activeStacks)
                      && rejectCount == old(rejectCount))
                && (!prod.isRecover && u.1 ==> OnlyReduced(old(Snap()).(gss := SetLink(old(gss), l, u.0)), Snap()))
      ensures FindStack(old(gss), old(activeStacks), s).Some?
              && FindDirectLink(old(gss), FindStack(old(gss), old(activeStacks), s).value, st0).None?
              && !prod.isRecover ==>
                var st1 := FindStack(old(gss), old(activeStacks), s).value;
                var l := |old(gss).links|;
                OnlyReduced(old(Snap()).(gss := NewLinkFor(old(gss), st1, st0, Applied(prod.prodLabel, kids),
                                                           PathLength(old(gss), path),
                                                           CalcRecoverCount(old(gss), prod, path), prod.isReject).0,
                                         rejects := old(rejectCount) + (if prod.isReject then 1 else 0)), Snap())
                && l < |gss.links| && gss.links[l].parent == st0 && l in gss.frames[st1].links
                && (prod.isReject ==> gss.links[l].rejected && rejectCount >= old(rejectCount) + 1)
      decreases fuel, 4
    {
      var s0 := Snap();
      reductionCount := reductionCount + 1;
      var s1 := Snap();
      var length := PathLength(gss, path);
      var numberOfRecoveries := CalcRecoverCount(gss, prod, path);
      var t := Applied(prod.prodLabel, kids);
      var st1 := FindStackIn(activeStacks, s);
      if st1.None? {
        if prod.isRecover {
          AddNewRecoverStack(st0, s, prod, length, numberOfRecoveries, t);
        } else {
          AddNewStack(st0, s, prod, length, numberOfRecoveries, t);
        }
      } else {
        ReduceOntoStack(st1.value, st0, s, prod, t, length, numberOfRecoveries, fuel);
      }
      OnlyReducedTransitive(s0, s1, Snap());
    }

    /// The part of SGLR.reducer where an active stack st1 already has the
    /// goto state: the direct link from st1 to st0 is updated in place, or
    /// a new link from st1 to st0 is added and the active stacks redo their
    /// reductions over it; a recover production adds a recover stack
    /// instead of a new link.
    method ReduceOntoStack(st1: nat, st0: nat, s: int, prod: Production, t: ParseNode, length: int,
                           numberOfRecoveries: int, fuel: nat)
      requires Valid() && TableOk(tbl) && st0 < |gss.frames| && st1 < |gss.frames| && 0 <= s < |tbl.states|
      modifies this`gss, this`activeStacks, this`forActorDelayed, this`recoverStacks, this`rejectCount,
               this`reductionCount, inp`cursor
      ensures Valid() && OnlyReduced(old(Snap()), Snap())
      ensures FindDirectLink(old(gss), st1, st0).Some? ==>
                var l := FindDirectLink(old(gss), st1, st0).value;
                var u := ExistingLinkUpdate(old(gss).links[l], t, numberOfRecoveries, prod.isReject);
                (prod.isRecover ==> gss == old(gss))
                && (!prod.isRecover && !u.1 ==>
                      gss == SetLink(old(gss), l, u.0) && activeStacks == old(activeStacks)
                      && rejectCount == old(rejectCount))
                && (!prod.isRecover && u.1 ==> OnlyReduced(old(Snap()).(gss := SetLink(old(gss), l, u.0)), Snap()))
      ensures FindDirectLink(old(gss), st1, st0).None? && !prod.isRecover ==>
                var l := |old(gss).links|;
                OnlyReduced(old(Snap()).(gss := NewLinkFor(old(gss), st1, st0, t, length, numberOfRecoveries, prod.isReject).0,
                                         rejects := old(rejectCount) + (if prod.isReject then 1 else 0)), Snap())
                && l < |gss.links| && gss.links[l].parent == st0 && l in gss.frames[st1].links
                && (prod.isReject ==> gss.links[l].rejected && rejectCount >= old(rejectCount) + 1)
      decreases fuel, 3
    {
      var nl := FindDirectLink(gss, st1, st0);
      FindDirectLinkSpec(gss, st1, st0);
      if nl.Some? {
        if !prod.isRecover {
          UpdateLink(nl.value, t, numberOfRecoveries, prod.isReject, fuel);
        }
      } else if prod.isRecover {
        AddNewRecoverStack(st0, s, prod, length, numberOfRecoveries, t);
      } else {
        AddLinkOnto(st1, st0, t, length, numberOfRecoveries, prod.isReject, fuel);
      }
    }

    /// An existing link l gets a new derivation: it becomes rejected for a
    /// reject production, and either the derivation is packed as an
    /// ambiguity or it replaces the link's node; a cheaper derivation makes
    /// the active stacks redo their reductions over the link.
    method UpdateLink(l: nat, t: ParseNode, numberOfRecoveries: int, isReject: bool, fuel: nat)
      requires Valid() && TableOk(tbl) && l < |gss.links|
      modifies this`gss, this`activeStacks, this`forActorDelayed, this`recoverStacks, this`rejectCount,
               this`reductionCount, inp`cursor
      ensures Valid() && OnlyReduced(old(Snap()), Snap())
      ensures var u := ExistingLinkUpdate(old(gss).links[l], t, numberOfRecoveries, isReject);
              (!u.1 ==> gss == SetLink(old(gss), l, u.0) && activeStacks == old(activeStacks)
                        && rejectCount == old(rejectCount))
              && (u.1 ==> OnlyReduced(old(Snap()).(gss := SetLink(old(gss), l, u.0)), Snap()))
      decreases fuel, 2
    {
      var s0 := Snap();
      var (k, reactor) := ExistingLinkUpdate(gss.links[l], t, numberOfRecoveries, isReject);
      ExistingLinkUpdateSpec(gss.links[l], t, numberOfRecoveries, isReject);
      SetLinkOk(gss, l, k, |tbl.states|);
      KeepsSetLink(gss, l, k);
      InvExtends(tbl, gss, SetLink(gss, l, k), activeStacks, forActor, forActorDelayed, recoverStacks,
                 forShifter, startFrame, acceptingStack);
      gss := SetLink(gss, l, k);
      var s1 := Snap();
      if reactor {
        ActorOnActiveStacksOverNewLink(l, fuel);
        OnlyReducedTransitive(s0, s1, Snap());
      }
    }

    /// A new link from st1 to st0 with the derivation t, its length and its
    /// recovery cost, rejected (and counted) for a reject production; the
    /// active stacks then redo their reductions over it.
    method AddLinkOnto(st1: nat, st0: nat, t: ParseNode, length: int, numberOfRecoveries: int, isReject: bool,
                       fuel: nat)
      requires Valid() && TableOk(tbl) && st0 < |gss.frames| && st1 < |gss.frames|
      modifies this`gss, this`activeStacks, this`forActorDelayed, this`recoverStacks, this`rejectCount,
               this`reductionCount, inp`cursor
      ensures Valid() && OnlyReduced(old(Snap()), Snap())
      ensures var l := |old(gss).links|;
              OnlyReduced(old(Snap()).(gss := NewLinkFor(old(gss), st1, st0, t, length, numberOfRecoveries, isReject).0,
                                       rejects := old(rejectCount) + (if isReject then 1 else 0)), Snap())
              && l < |gss.links| && gss.links[l].parent == st0 && l in gss.frames[st1].links
              && (isReject ==> gss.links[l].rejected && rejectCount >= old(rejectCount) + 1)
      decreases fuel, 2
    {
      var s0 := Snap();
      NewLinkForSpec(gss, st1, st0, t, length, numberOfRecoveries, isReject, |tbl.states|);
      KeepsNewLink(gss, st1, st0, t, length, numberOfRecoveries, isReject, |tbl.states|);
      var (g2, l) := NewLinkFor(gss, st1, st0, t, length, numberOfRecoveries, isReject);
      InvExtends(tbl, gss, g2, activeStacks, forActor, forActorDelayed, recoverStacks,
                 forShifter, startFrame, acceptingStack);
      gss := g2;
      if isReject {
        rejectCount := rejectCount + 1;
      }
      var s1 := Snap();
      ActorOnActiveStacksOverNewLink(l, fuel);
      OnlyReducedTransitive(s0, s1, Snap());
      assert gss.frames[st1].links[|s1.gss.frames[st1].links| - 1] == l;
    }

    /// SGLR.reduceAllPaths: reduce every path, in order, into the goto
    /// state of its end frame.
    method ReduceAllPaths(prod: Production, paths: seq<Path>, fuel: nat)
      requires Valid() && TableOk(tbl) && GotosFor(tbl, prod) && forall i :: 0 <= i < |paths| ==> PathIn(gss, paths[i])
      modifies this`gss, this`activeStacks, this`forActorDelayed, this`recoverStacks, this`rejectCount,
               this`reductionCount, inp`cursor
      ensures Valid() && OnlyReduced(old(Snap()), Snap())
      ensures reductionCount >= old(reductionCount) + |paths|
      decreases fuel, 5
    {
      var s0 := Snap();
      var i := 0;
      while i < |paths|
        invariant 0 <= i <= |paths|
        invariant Valid() && OnlyReduced(s0, Snap()) && reductionCount >= s0.reductions + i
        invariant forall j :: 0 <= j < |paths| ==> PathIn(gss, paths[j])
      {
        var path := paths[i];
        var kids := PathKids(gss, path);
        var st0 := path.end;
        var next := Goto(tbl, gss.frames[st0].state, prod.prodLabel);
        GotoOk(tbl, gss.frames[st0].state, prod.prodLabel);
        var before := Snap();
        Reducer(st0, next, prod, kids, path, fuel);
        OnlyReducedTransitive(s0, before, Snap());
        PathStaysIn(before.gss, gss, paths);
        i := i + 1;
      }
    }

    /// SGLR.doReductions: unless it is a recovery production outside
    /// fine-grained recovery, reduce every path of the production's arity
    /// from st.
    method DoReductions(st: nat, prod: Production)
      requires Valid() && TableOk(tbl) && GotosFor(tbl, prod) && st < |gss.frames|
      modifies this`gss, this`activeStacks, this`forActorDelayed, this`recoverStacks, this`rejectCount,
               this`reductionCount, inp`cursor
      ensures Valid() && OnlyReduced(old(Snap()), Snap())
      ensures (prod.isRecover && !fineGrainedOnRegion) ==> Snap() == old(Snap())
    {
      if !(!prod.isRecover || fineGrainedOnRegion) {
        return;
      }
      AllPathsIn(gss, st, prod.arity);
      var paths := AllPaths(gss, st, prod.arity);
      assert forall i :: 0 <= i < |paths| ==> PathIn(gss, paths[i]) by {
        assert forall i :: 0 <= i < |paths| ==> paths[i] in paths;
      }
      ReduceAllPaths(prod, paths, reactorFuel);
    }

    /// SGLR.doLimitedReductions: as doReductions, but only along the paths
    /// through link l.
    method DoLimitedReductions(st: nat, prod: Production, l: nat, fuel: nat)
      requires Valid() && TableOk(tbl) && GotosFor(tbl, prod) && st < |gss.frames|
      modifies this`gss, this`activeStacks, this`forActorDelayed, this`recoverStacks, this`rejectCount,
               this`reductionCount, inp`cursor
      ensures Valid() && OnlyReduced(old(Snap()), Snap())
      ensures (prod.isRecover && !fineGrainedOnRegion) ==> Snap() == old(Snap())
      decreases fuel, 6
    {
      if !(!prod.isRecover || fineGrainedOnRegion) {
        return;
      }
      AllPathsIn(gss, st, prod.arity);
      var paths := LimitedPaths(gss, st, prod.arity, l);
      assert forall i :: 0 <= i < |paths| ==> PathIn(gss, paths[i]) by {
        assert forall i :: 0 <= i < |paths| ==> paths[i] in paths;
      }
      ReduceAllPaths(prod, paths, fuel);
    }

    /// The reductions of one applicable action of a frame, along the paths
    /// through the new link nl, as in the item loop of
    /// SGLR.actorOnActiveStacksOverNewLink; shifts and accepts are skipped.
    method RedoReductionsOverNewLink(st: nat, action: Action, nl: nat, fuel: nat)
      requires Valid() && TableOk(tbl) && st < |gss.frames| && ReducesOk(tbl, action)
      modifies this`gss, this`activeStacks, this`forActorDelayed, this`recoverStacks, this`rejectCount,
               this`reductionCount, inp`cursor
      ensures Valid() && OnlyReduced(old(Snap()), Snap())
      decreases fuel, 7
    {
      var s0 := Snap();
      var k := 0;
      while k < |action.items|
        invariant 0 <= k <= |action.items|
        invariant Valid() && OnlyReduced(s0, Snap()) && st < |gss.frames|
      {
        var before := Snap();
        match action.items[k] {
          case Reduce(prod) =>
            DoLimitedReductions(st, prod, nl, fuel);
          case ReduceLookahead(prod, charClass) =>
            var ok := DoCheckLookahead(charClass, 0);
            if ok {
              DoLimitedReductions(st, prod, nl, fuel);
            }
          case _ =>
        }
        OnlyReducedTransitive(s0, before, Snap());
        k := k + 1;
      }
    }

    /// SGLR.actorOnActiveStacksOverNewLink: every active stack that existed
    /// on entry, is not fully rejected and waits in neither actor queue
    /// redoes its reductions for the current token along the paths through
    /// the new link nl. Nesting deeper than `fuel` is not followed.
    method ActorOnActiveStacksOverNewLink(nl: nat, fuel: nat)
      requires Valid() && TableOk(tbl)
      modifies this`gss, this`activeStacks, this`forActorDelayed, this`recoverStacks, this`rejectCount,
               this`reductionCount, inp`cursor
      ensures Valid() && OnlyReduced(old(Snap()), Snap())
      ensures fuel == 0 ==> Snap() == old(Snap())
      decreases fuel, 1
    {
      if fuel == 0 {
        return;
      }
      var s0 := Snap();
      var sz := |activeStacks|;
      var i := 0;
      while i < sz
        invariant 0 <= i <= sz
        invariant Valid() && OnlyReduced(s0, Snap())
      {
        var pos := |activeStacks| - sz + i;
        var st2 := activeStacks[pos];
        if !(AllLinksRejected(gss, st2) || st2 in forActor || st2 in forActorDelayed) {
          var state := gss.frames[st2].state;
          var acts := tbl.states[state].actions;
          var a := 0;
          while a < |acts|
            invariant 0 <= a <= |acts|
            invariant Valid() && OnlyReduced(s0, Snap()) && st2 < |gss.frames|
          {
            var action := acts[a];
            ActionOk(tbl, state, a);
            if currentToken in action.ranges {
              var before := Snap();
              RedoReductionsOverNewLink(st2, action, nl, fuel - 1);
              OnlyReducedTransitive(s0, before, Snap());
            }
            a := a + 1;
          }
        }
        i := i + 1;
      }
    }

    /// SGLR.actor: for every action of st's state that applies to the
    /// current token, and every item of it in order, queue a shift, do the
    /// reductions (after the lookahead check for a lookahead reduction), or
    /// accept when st is not fully rejected.
    method Actor(st: nat)
      requires Valid() && TableOk(tbl) && st < |gss.frames|
      modifies this`gss, this`activeStacks, this`forActorDelayed, this`recoverStacks, this`rejectCount,
               this`reductionCount, inp`cursor, this`forShifter, this`acceptingStack
      ensures Valid() && OnlyReduced(old(Snap()), Snap())
      ensures forShifter == old(forShifter) + ActionShifts(tbl.states[old(gss).frames[st].state].actions, currentToken, st)
      ensures acceptingStack == old(acceptingStack) || acceptingStack == Some(st)
    {
      var s0 := Snap();
      var fs0 := forShifter;
      var acc0 := acceptingStack;
      var state := gss.frames[st].state;
      var acts := tbl.states[state].actions;
      var a := 0;
      while a < |acts|
        invariant 0 <= a <= |acts|
        invariant Valid() && OnlyReduced(s0, Snap()) && st < |gss.frames|
        invariant forShifter == fs0 + ActionShifts(acts[..a], currentToken, st)
        invariant acceptingStack == acc0 || acceptingStack == Some(st)
      {
        ActionOk(tbl, state, a);
        var before := Snap();
        if currentToken in acts[a].ranges {
          ActOnItems(st, acts[a]);
          OnlyReducedTransitive(s0, before, Snap());
        }
        assert acts[..a + 1][..a] == acts[..a];
        a := a + 1;
      }
      assert acts[..|acts|] == acts;
    }

    /// The inner loop of SGLR.actor over the items of one action.
    method ActOnItems(st: nat, action: Action)
      requires Valid() && TableOk(tbl) && st < |gss.frames| && ShiftTargetsOk(tbl, action) && ReducesOk(tbl, action)
      modifies this`gss, this`activeStacks, this`forActorDelayed, this`recoverStacks, this`rejectCount,
               this`reductionCount, inp`cursor, this`forShifter, this`acceptingStack
      ensures Valid() && OnlyReduced(old(Snap()), Snap())
      ensures forShifter == old(forShifter) + ItemShifts(action.items, st)
      ensures acceptingStack == old(acceptingStack) || acceptingStack == Some(st)
    {
      var items := action.items;
      var s0 := Snap();
      var fs0 := forShifter;
      var acc0 := acceptingStack;
      var k := 0;
      while k < |items|
        invariant 0 <= k <= |items|
        invariant Valid() && OnlyReduced(s0, Snap()) && st < |gss.frames|
        invariant forShifter == fs0 + ItemShifts(items[..k], st)
        invariant acceptingStack == acc0 || acceptingStack == Some(st)
      {
        var before := Snap();
        ActOnItem(st, items[k]);
        OnlyReducedTransitive(s0, before, Snap());
        assert items[..k + 1][..k] == items[..k];
        k := k + 1;
      }
      assert items[..|items|] == items;
    }

    /// One item of an action: a shift is queued for the shifter, a
    /// reduction (after its lookahead check) is done at once, and an accept
    /// marks the frame as accepting unless all its links are rejected.
    method ActOnItem(st: nat, item: ActionItem)
      requires Valid() && TableOk(tbl) && st < |gss.frames|
      requires item.Shift? ==> 0 <= item.nextState < |tbl.states|
      requires !item.Shift? && !item.Accept? ==> GotosFor(tbl, item.prod)
      modifies this`gss, this`activeStacks, this`forActorDelayed, this`recoverStacks, this`rejectCount,
               this`reductionCount, inp`cursor, this`forShifter, this`acceptingStack
      ensures Valid() && OnlyReduced(old(Snap()), Snap()) && st < |gss.frames|
      ensures forShifter == old(forShifter) + (if item.Shift? then [ActionState(st, item.nextState)] else [])
      ensures acceptingStack == old(acceptingStack) || acceptingStack == Some(st)
    {
      match item {
        case Shift(nextState) =>
          forShifter := forShifter + [ActionState(st, nextState)];
        case Reduce(prod) =>
          DoReductions(st, prod);
        case ReduceLookahead(prod, charClass) =>
          var ok := DoCheckLookahead(charClass, 0);
          if ok {
            DoReductions(st, prod);
          }
        case Accept =>
          if !AllLinksRejected(gss, st) {
            acceptingStack := Some(st);
          }
      }
    }

    /// SGLR.pickStackNodeFromActivesOrForActor: the next frame from the
    /// work queue of active stacks, or else from the actor queue.
    method PickStackNodeFromActivesOrForActor(actives: seq<nat>) returns (st: nat, rest: seq<nat>)
      requires |actives| > 0 || |forActor| > 0
      modifies this`forActor
      ensures |actives| > 0 ==> st == actives[0] && rest == actives[1..] && forActor == old(forActor)
      ensures |actives| == 0 ==> st == old(forActor)[0] && rest == actives && forActor == old(forActor)[1..]
    {
      if |actives| > 0 {
        st, rest := actives[0], actives[1..];
      } else {
        st, rest := forActor[0], actives;
        forActor := forActor[1..];
      }
    }

    /// SGLR.fillForActorWithDelayedFrames: the delayed frames become the
    /// actor queue and the delayed queue is left empty.
    method FillForActorWithDelayedFrames()
      modifies this`forActor, this`forActorDelayed
      ensures forActor == old(forActorDelayed) && forActorDelayed == []
    {
      forActor := forActorDelayed;
      forActorDelayed := [];
    }

    /// One round of the loop in SGLR.parseCharacter: the next frame is acted
    /// on unless all its links are rejected, and the delayed frames refill
    /// the actor queue once both queues have run dry.
    method ActOnNextFrame(work: seq<nat>) returns (rest: seq<nat>)
      requires Valid() && TableOk(tbl) && Below(work, |gss.frames|) && (|work| > 0 || |forActor| > 0)
      modifies this`gss, this`activeStacks, this`forActorDelayed, this`recoverStacks, this`rejectCount,
               this`reductionCount, inp`cursor, this`forShifter, this`acceptingStack, this`forActor
      ensures Valid() && Below(rest, |gss.frames|)
      ensures Extends(old(gss), gss) && inp.cursor == old(inp.cursor)
      ensures |old(activeStacks)| <= |activeStacks| <= |tbl.states|
      ensures |rest| == 0 && |forActor| == 0 ==> forActorDelayed == []
      ensures |rest| + |forActor| + |forActorDelayed| - |activeStacks|
              < |work| + |old(forActor)| + |old(forActorDelayed)| - |old(activeStacks)|
      ensures var st := if |work| > 0 then work[0] else old(forActor)[0];
              AllLinksRejected(old(gss), st) ==>
                gss == old(gss) && activeStacks == old(activeStacks) && forShifter == old(forShifter)
                && acceptingStack == old(acceptingStack) && rejectCount == old(rejectCount)
                && reductionCount == old(reductionCount)
    {
      ghost var fa := forActor;
      var st;
      st, rest := PickStackNodeFromActivesOrForActor(work);
      InvQueues(tbl, gss, activeStacks, fa, forActorDelayed, recoverStacks, forShifter, startFrame, acceptingStack,
                forActor, forActorDelayed);
      if !AllLinksRejected(gss, st) {
        Actor(st);
      }
      DistinctBelowBound(gss, activeStacks, |tbl.states|);
      if |rest| == 0 && |forActor| == 0 {
        ghost var fa, d := forActor, forActorDelayed;
        FillForActorWithDelayedFrames();
        InvQueues(tbl, gss, activeStacks, fa, d, recoverStacks, forShifter, startFrame, acceptingStack, d, []);
      }
    }

    /// SGLR.parseCharacter: act on every active stack, then on every frame
    /// the reductions added, until both queues are empty; fully rejected
    /// frames are skipped.
    method ParseCharacter()
      requires Valid() && TableOk(tbl)
      modifies this`gss, this`activeStacks, this`forActorDelayed, this`recoverStacks, this`rejectCount,
               this`reductionCount, inp`cursor, this`forShifter, this`acceptingStack, this`forActor
      ensures Valid() && forActor == [] && forActorDelayed == []
      ensures Extends(old(gss), gss) && inp.cursor == old(inp.cursor)
      ensures |old(activeStacks)| <= |activeStacks|
    {
      var s0 := Snap();
      var work := activeStacks;
      forActorDelayed := [];
      forShifter := [];
      DistinctBelowBound(gss, activeStacks, |tbl.states|);
      while |work| > 0 || |forActor| > 0
        invariant Valid() && Below(work, |gss.frames|)
        invariant Extends(s0.gss, gss) && inp.cursor == s0.cursor
        invariant |s0.active| <= |activeStacks| <= |tbl.states|
        invariant |work| == 0 && |forActor| == 0 ==> forActorDelayed == []
        decreases |tbl.states| - |activeStacks| + |work| + |forActor| + |forActorDelayed|
      {
        var g := gss;
        work := ActOnNextFrame(work);
        ExtendsTransitive(s0.gss, g, gss);
      }
    }

    /// SGLR.shifter: the active stacks are replaced by the frames the
    /// pending shifts lead to, each shift linking its target to its source
    /// with the node of the current character.
    method Shifter()
      requires Valid()
      modifies this`gss, this`activeStacks, this`forShifter
      ensures Valid() && forShifter == [] && OnlyAdds(old(gss), gss)
      ensures (gss, activeStacks) == ShiftFrom(old(gss), [], old(forShifter), CharNode(currentToken), tbl.hasRejects, |tbl.states|)
    {
      var g0 := gss;
      var fs0 := forShifter;
      var prod := CharNode(currentToken);
      var n := |tbl.states|;
      InvShifted(tbl, gss, activeStacks, forActor, forActorDelayed, recoverStacks, forShifter, startFrame,
                 acceptingStack, prod);
      activeStacks := [];
      while |forShifter| > 0
        invariant GssOk(gss) && StatesBelow(gss, n) && Below(activeStacks, |gss.frames|)
        invariant ShiftsOk(forShifter, |gss.frames|, n)
        invariant ShiftFrom(gss, activeStacks, forShifter, prod, tbl.hasRejects, n)
                  == ShiftFrom(g0, [], fs0, prod, tbl.hasRejects, n)
        decreases |forShifter|
      {
        var sh := forShifter[0];
        forShifter := forShifter[1..];
        ShiftStepOk(gss, activeStacks, sh, prod, tbl.hasRejects, n);
        ShiftOne(sh, prod);
      }
    }

    /// One shift of the loop in SGLR.shifter: unless its frame is fully
    /// rejected, a link for the shifted node is added from the frontier
    /// frame in the target state, which is made when there is none yet.
    method ShiftOne(sh: ActionState, prod: ParseNode)
      requires GssOk(gss) && Below(activeStacks, |gss.frames|) && sh.st < |gss.frames|
      modifies this`gss, this`activeStacks
      ensures (gss, activeStacks) == ShiftStep(old(gss), old(activeStacks), sh, prod, tbl.hasRejects)
    {
      if !tbl.hasRejects || !AllLinksRejected(gss, sh.st) {
        var st1 := FindStackIn(activeStacks, sh.s);
        if st1.None? {
          var f;
          gss, f := NewFrame(gss, sh.s).0, NewFrame(gss, sh.s).1;
          activeStacks := [f] + activeStacks;
          st1 := Some(f);
        }
        gss := AddLink(gss, st1.value, sh.st, prod, 1).0;
      }
    }

    /// SGLR.doParseStep: all reductions for the current token, then its
    /// shifts.
    method DoParseStep()
      requires Valid() && TableOk(tbl)
      modifies this`gss, this`activeStacks, this`forActorDelayed, this`recoverStacks, this`rejectCount,
               this`reductionCount, inp`cursor, this`forShifter, this`acceptingStack, this`forActor
      ensures Valid() && forShifter == [] && forActor == [] && forActorDelayed == []
      ensures inp.cursor == old(inp.cursor)
    {
      ParseCharacter();
      Shifter();
    }

    /// SGLR.createBadTokenException.
    method CreateBadTokenException() returns (e: ParseError)
      requires Valid() && TableOk(tbl)
      ensures e == BadTokenError(tbl, gss, activeStacks, currentToken, Position())
    {
      var bad := BadToken(currentToken, tokensSeen - 1, lineNumber, columnNumber);
      if |activeStacks| != 1 {
        return bad;
      }
      var action := tbl.states[gss.frames[activeStacks[0]].state].singularAction;
      if action.None? || |action.value.items| != 1 {
        return bad;
      }
      SingularOk(tbl, gss.frames[activeStacks[0]].state);
      var expected: seq<int> := [];
      var cur := action;
      var steps: nat := |tbl.states| + 1;
      while cur.Some? && steps > 0
        invariant cur.Some? ==> ShiftTargetsOk(tbl, cur.value)
        invariant expected + ExpectedFromOpt(tbl, cur, steps) == ExpectedFrom(tbl, action.value, |tbl.states| + 1)
        decreases steps, if cur.Some? then 1 else 0
      {
        var a := cur.value;
        var token := a.singularRange;
        if token == -1 {
          cur := None;
        } else {
          expected := expected + [JavaChar(token)];
          if |a.items| == 1 && a.items[0].Shift? {
            if tbl.states[a.items[0].nextState].singularAction.Some? {
              SingularOk(tbl, a.items[0].nextState);
            }
            cur := tbl.states[a.items[0].nextState].singularAction;
            steps := steps - 1;
          } else {
            cur := None;
          }
        }
      }
      if |expected| > 0 {
        return TokenExpected(expected, currentToken, tokensSeen - 1, lineNumber, columnNumber);
      }
      return bad;
    }

    /// The loop of SGLR.sglrParse: read the next character and process it,
    /// until the end of the input or until no stack is left.
    method ParseCharacters()
      requires Valid() && TableOk(tbl)
      modifies this`gss, this`activeStacks, this`forActorDelayed, this`recoverStacks, this`rejectCount,
               this`reductionCount, inp`cursor, this`forShifter, this`acceptingStack, this`forActor,
               this`currentToken, this`tokensSeen, this`lineNumber, this`columnNumber
      ensures Valid() && (currentToken == EOF || activeStacks == [])
    {
      var going := true;
      while going
        invariant Valid() && inp.text == old(inp.text)
        invariant !going ==> currentToken == EOF || activeStacks == []
        decreases |inp.text| - inp.cursor + if going then 1 else 0
      {
        currentToken := GetNextToken();
        DoParseStep();
        going := currentToken != EOF && |activeStacks| > 0;
      }
    }

    /// SGLR.sglrParse, after SGLR.initParseVariables, without error
    /// recovery: read and process one character at a time until the end
    /// of the input or until no stack is left; then report the bad token
    /// twice (once as collected, once more on the way out), or return the
    /// parse node of the accepting stack's link to the start frame.
    method Parse(input: string) returns (r: ParseResult)
      requires Valid() && TableOk(tbl)
      modifies this`gss, this`activeStacks, this`forActorDelayed, this`recoverStacks, this`rejectCount,
               this`reductionCount, this`forShifter, this`acceptingStack, this`forActor, this`startFrame,
               this`currentToken, this`tokensSeen, this`lineNumber, this`columnNumber, this`collectedErrors, inp
      ensures Valid()
      ensures r.Failed? <==> acceptingStack.None?
      ensures r.Failed? ==>
                var e := BadTokenError(tbl, gss, activeStacks, currentToken, Position());
                r.errors == [e, e] && collectedErrors == [e, e]
      ensures r.Accepted? ==>
                acceptingStack.Some? && FindDirectLink(gss, acceptingStack.value, startFrame).Some?
                && r.tree == gss.links[FindDirectLink(gss, acceptingStack.value, startFrame).value].node
      ensures r.NoLinkToStart? ==> acceptingStack.Some? && !HasLinkTo(gss, acceptingStack.value, startFrame)
      ensures inp.text == input && (currentToken != EOF ==> activeStacks == [])
    {
      InitParseVariables(input);
      ParseCharacters();

      if acceptingStack.None? {
        var e := CreateBadTokenException();
        collectedErrors := collectedErrors + [e];
      }

      if acceptingStack.None? {
        var bad := CreateBadTokenException();
        collectedErrors := collectedErrors + [bad];
        return Failed(collectedErrors);
      }

      var s := FindDirectLink(gss, acceptingStack.value, startFrame);
      FindDirectLinkSpec(gss, acceptingStack.value, startFrame);
      if s.None? {
        return NoLinkToStart;
      }
      return Accepted(gss.links[s.value].node);
    }
  }
}
