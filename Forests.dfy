/// The parse forest that the SGLR driver builds and the disambiguator
/// filters, the parse-table queries the filters consult, the filter
/// configuration and the outcomes of filtering.
module Forests {
  import opened Productions

  /// A parse forest node.
  ///  - Amb: an ambiguity node over its alternatives;
  ///  - Node: an application of the production with the given label number
  ///    to its kids; `reject` is set for a node built by a reject
  ///    production (the forest's reject-node subclass);
  ///  - Leaf: a character node, holding the character as production number.
  datatype Forest =
    | Amb(alts: seq<Forest>)
    | Node(prodLabel: int, kids: seq<Forest>, reject: bool)
    | Leaf(prod: int)

  /// A "greater than" priority edge of a label: the label has priority over
  /// `right` at argument position `arg`, or at every position when `arg` is -1.
  datatype Priority = Priority(right: int, arg: int)

  /// The parse-table queries used by the filters. Labels are identified by
  /// their number; two labels are equal when their numbers are.
  datatype ParseTable = ParseTable(
    /// The label's own injection attribute.
    isInjection: int -> bool,
    /// The table's injection lookup for a production number: true when the
    /// lookup finds a label and that label is an injection.
    isUserDefinedInjection: int -> bool,
    /// The type in the label's attributes (prefer, avoid, reject, ...).
    productionType: int -> ProductionType,
    isLeftAssociative: int -> bool,
    isRightAssociative: int -> bool,
    /// The eagerness order between two labels.
    isMoreEager: (int, int) -> bool,
    /// The priority edges of a label, in table order.
    priorities: int -> seq<Priority>,
    /// Whether the production of a label is a start production of the given
    /// sort (the pattern match over the production term).
    matchesTopSort: (int, string) -> bool,
    hasRejects: bool,
    hasPrefers: bool,
    hasAvoids: bool,
    hasPrefersOrAvoids: bool,
    hasPriorities: bool)

  /// The label number that names the production of a non-ambiguity node.
  function LabelOf(t: Forest): int
    requires !t.Amb?
  {
    if t.Node? then t.prodLabel else t.prod
  }

  predicate IsPreferOrAvoid(k: ProductionType) {
    k == Prefer || k == Avoid
  }

  /// The outcome of one pairwise comparison in an ambiguity tournament.
  datatype Verdict = Draw | LeftWins | RightWins

  /// The unchecked Java exceptions the filters can raise: an index outside
  /// a list or array, a cast of a node to the wrong node class, a call of
  /// an unimplemented operation, a method call on a missing label, an
  /// inverted sub-list range, and the parser's own fatal error for a node
  /// of no known kind.
  datatype RuntimeCause =
    | IndexOutOfBounds
    | ClassCast
    | NotImplemented
    | NullPointer
    | IllegalArgument
    | Fatal

  /// Why filtering stopped.
  ///  - FilterRejected: a filter threw its own filter exception;
  ///  - StartSymbolNotFound: no alternative has the requested start sort;
  ///  - Crash: an unchecked exception inside a filter.
  datatype Failure =
    | FilterRejected
    | StartSymbolNotFound
    | Crash(cause: RuntimeCause)

  datatype Outcome<T> = Ok(value: T) | Fail(failure: Failure)

  /// The result of a computation that either returns a value or throws
  /// one of the unchecked exceptions above. The pairwise rules can only
  /// end this way; the filters turn a thrown exception into a Crash.
  datatype Eval<T> = Returns(value: T) | Throws(cause: RuntimeCause)

  /// The disambiguator's filter switches, plus the parser's
  /// integrated-recovery flag that the reject check consults.
  datatype Config = Config(
    filterAny: bool,
    filterCycles: bool,
    filterDirectPreference: bool,
    filterPreferenceCount: bool,
    filterInjectionCount: bool,
    filterTopSort: bool,
    filterReject: bool,
    filterAssociativity: bool,
    filterPriorities: bool,
    filterStrict: bool,
    useIntegratedRecovery: bool)

  /// True when no node anywhere in t is marked as built by a reject
  /// production.
  predicate NoRejectNodes(t: Forest) {
    match t
    case Amb(alts) => forall i :: 0 <= i < |alts| ==> NoRejectNodes(alts[i])
    case Node(_, kids, reject) => !reject && forall i :: 0 <= i < |kids| ==> NoRejectNodes(kids[i])
    case Leaf(_) => true
  }

  /// True when some node in t is marked as built by a reject production.
  predicate HasRejectNode(t: Forest) {
    match t
    case Amb(alts) => exists i :: 0 <= i < |alts| && HasRejectNode(alts[i])
    case Node(_, kids, reject) => reject || exists i :: 0 <= i < |kids| && HasRejectNode(kids[i])
    case Leaf(_) => false
  }

  /// The two predicates are each other's negation.
  lemma {:induction false} NoRejectNodesIffNone(t: Forest)
    ensures NoRejectNodes(t) <==> !HasRejectNode(t)
  {
    match t
    case Amb(alts) =>
      forall i | 0 <= i < |alts| { NoRejectNodesIffNone(alts[i]); }
    case Node(_, kids, _) =>
      forall i | 0 <= i < |kids| { NoRejectNodesIffNone(kids[i]); }
    case Leaf(_) =>
  }
}
