/// The incremental-parse front end: the textual diff between the old and
/// the new input (the damage region), its sanity check, the early exit for
/// an unchanged input, and the checks on the damaged and repaired tree
/// nodes.
module Incremental {

  /// A token of the old or the partial tree, with its index in the token
  /// stream and its offsets in the input (end inclusive).
  datatype Token = Token(index: int, startOffset: int, endOffset: int)

  datatype Option<T> = None | Some(value: T)

  /// An AST node as the damage analysis sees it: its sort, whether it is a
  /// list, the outermost tokens of its span (already widened to the
  /// surrounding layout; None when the node has no such token), its
  /// children in order, and whether its tokenizer reports an ambiguous
  /// parse.
  datatype AstNode = AstNode(
    sort: string,
    isList: bool,
    leftToken: Option<Token>,
    rightToken: Option<Token>,
    kids: seq<AstNode>,
    ambiguous: bool)

  /// Why an incremental parse gives up (after which a full parse remains
  /// possible), or the index error a diff computation can raise.
  datatype IncrementalError =
    | OldTreeNull
    | InvalidDiff
    | OldTreeAmbiguous
    | UnsafeChange(sort: string)
    | UnsafeTree(sort: string)
    | UpdatedTreeAmbiguous
    | StringIndexOutOfBounds

  datatype Result<T> = Success(value: T) | Failure(error: IncrementalError)

  function Min(a: int, b: int): int { if a <= b then a else b }

  function Max(a: int, b: int): int { if a >= b then a else b }

  // ---------------------------------------------------------------------
  // Ranges

  /// Two closed ranges overlap: each starts no later than the other ends.
  predicate IsRangeOverlap(start1: int, end1: int, start2: int, end2: int) {
    start1 <= end2 && start2 <= end1
  }

  predicate InRange(x: int, start: int, end: int) {
    start <= x <= end
  }

  /// Overlap is symmetric, and on non-empty ranges it means a shared
  /// offset; an empty range (end before start) can still overlap.
  lemma RangeOverlapSpec(start1: int, end1: int, start2: int, end2: int)
    ensures IsRangeOverlap(start1, end1, start2, end2) <==> IsRangeOverlap(start2, end2, start1, end1)
    ensures start1 <= end1 && start2 <= end2 ==>
              (IsRangeOverlap(start1, end1, start2, end2)
               <==> exists x :: InRange(x, start1, end1) && InRange(x, start2, end2))
    ensures IsRangeOverlap(5, 3, 2, 6)
  {
    if start1 <= end1 && start2 <= end2 && IsRangeOverlap(start1, end1, start2, end2) {
      var x := Max(start1, start2);
      assert InRange(x, start1, end1) && InRange(x, start2, end2);
    }
  }

  // ---------------------------------------------------------------------
  // The diff

  /// The first index from i below limit where a and b differ, or limit - 1
  /// when they agree on all of them.
  function FirstDifferenceFrom(a: string, b: string, i: nat, limit: nat): (r: int)
    requires i <= limit <= |a| && limit <= |b|
    ensures (i <= r < limit && a[r] != b[r] && forall k :: i <= k < r ==> a[k] == b[k])
            || (r == limit - 1 && forall k :: i <= k < limit ==> a[k] == b[k])
    decreases limit - i
  {
    if i == limit then limit - 1
    else if a[i] != b[i] then i
    else FirstDifferenceFrom(a, b, i + 1, limit)
  }

  /// The start of the damage, as the source computes it: the first index
  /// below the shorter length where the inputs differ, or one less than
  /// the shorter length when one is a prefix of the other. This is -1 when
  /// either input is empty.
  function DamageStart(input: string, oldInput: string): (r: int)
    ensures var limit := Min(|input|, |oldInput|);
            (0 <= r < limit && input[r] != oldInput[r] && forall k :: 0 <= k < r ==> input[k] == oldInput[k])
            || (r == limit - 1 && forall k :: 0 <= k < limit ==> input[k] == oldInput[k])
  {
    FirstDifferenceFrom(input, oldInput, 0, Min(|input|, |oldInput|))
  }

  method GetDamageStart(input: string, oldInput: string) returns (r: int)
    ensures r == DamageStart(input, oldInput)
  {
    var limit := Min(|input|, |oldInput|);
    for i := 0 to limit
      invariant FirstDifferenceFrom(input, oldInput, i, limit) == DamageStart(input, oldInput)
    {
      if input[i] != oldInput[i] {
        return i;
      }
    }
    return limit - 1;
  }

  /// The start of the damage as evidently intended: the same, except that
  /// an empty input gives 0 instead of -1.
  function DamageStartCorrected(input: string, oldInput: string): (r: int)
    ensures 0 <= r <= Min(|input|, |oldInput|)
    ensures forall k :: 0 <= k < r ==> input[k] == oldInput[k]
  {
    if Min(|input|, |oldInput|) == 0 then 0 else DamageStart(input, oldInput)
  }

  /// The lower bound of the backward scan for the damage end.
  function EndLimit(damageStart: int, damageSizeChange: int): int {
    Max(damageStart, damageStart - damageSizeChange) - 1
  }

  /// The backward scan from old index i: the largest old index above the
  /// limit where the old input differs from the new input shifted by the
  /// size change, or the limit when there is none. Reading outside either
  /// input raises an index error.
  function DamageEndFrom(input: string, oldInput: string, damageStart: int, damageSizeChange: int, i: int)
    : Eval
    decreases i - EndLimit(damageStart, damageSizeChange)
  {
    var limit := EndLimit(damageStart, damageSizeChange);
    if i <= limit then Returned(limit)
    else if !(0 <= i < |oldInput| && 0 <= i + damageSizeChange < |input|) then Raised
    else if oldInput[i] != input[i + damageSizeChange] then Returned(i)
    else DamageEndFrom(input, oldInput, damageStart, damageSizeChange, i - 1)
  }

  /// The outcome of the backward scan: an index, or a string index error.
  datatype Eval = Returned(index: int) | Raised

  function DamageEnd(input: string, oldInput: string, damageStart: int, damageSizeChange: int): Eval {
    DamageEndFrom(input, oldInput, damageStart, damageSizeChange, |oldInput| - 1)
  }

  method GetDamageEnd(input: string, oldInput: string, damageStart: int, damageSizeChange: int)
    returns (r: Eval)
    ensures r == DamageEnd(input, oldInput, damageStart, damageSizeChange)
  {
    var limit := Max(damageStart, damageStart - damageSizeChange) - 1;
    var i := |oldInput| - 1;
    while i > limit
      invariant DamageEndFrom(input, oldInput, damageStart, damageSizeChange, i)
                == DamageEnd(input, oldInput, damageStart, damageSizeChange)
      decreases i - limit
    {
      if !(0 <= i < |oldInput| && 0 <= i + damageSizeChange < |input|) {
        return Raised;
      }
      if oldInput[i] != input[i + damageSizeChange] {
        return Returned(i);
      }
      i := i - 1;
    }
    return Returned(limit);
  }

  /// What the backward scan finds when it starts from a non-negative
  /// damage start no greater than either length and the true size change:
  /// no index error, an end at or above the limit and below the old
  /// length, the old input after the end equal to the new input after the
  /// shifted end, and a real difference at the end unless it is the limit.
  lemma {:induction false} DamageEndFromSpec(input: string, oldInput: string, s: int, i: int)
    requires 0 <= s <= |input| && s <= |oldInput|
    requires EndLimit(s, |input| - |oldInput|) <= i < |oldInput|
    requires forall k :: i < k < |oldInput| ==> oldInput[k] == input[k + |input| - |oldInput|]
    ensures var c := |input| - |oldInput|;
            var r := DamageEndFrom(input, oldInput, s, c, i);
            r.Returned? && EndLimit(s, c) <= r.index < |oldInput|
            && (forall k :: r.index < k < |oldInput| ==> oldInput[k] == input[k + c])
            && (r.index > EndLimit(s, c) ==> oldInput[r.index] != input[r.index + c])
    decreases i - EndLimit(s, |input| - |oldInput|)
  {
    var c := |input| - |oldInput|;
    if i > EndLimit(s, c) && oldInput[i] == input[i + c] {
      DamageEndFromSpec(input, oldInput, s, i - 1);
    }
  }

  /// A diff (start, end, size change) is accepted when the damaged range
  /// is not inverted in either input.
  predicate DiffAccepted(damageStart: int, damageEnd: int, damageSizeChange: int) {
    damageStart <= damageEnd + 1 && damageStart <= damageEnd + damageSizeChange + 1
  }

  function SanityCheckDiff(damageStart: int, damageEnd: int, damageSizeChange: int): (r: Result<()>)
    ensures r.Success? <==> DiffAccepted(damageStart, damageEnd, damageSizeChange)
    ensures r.Failure? ==> r.error == InvalidDiff
  {
    if !DiffAccepted(damageStart, damageEnd, damageSizeChange) then Failure(InvalidDiff) else Success(())
  }

  /// The round trip the diff promises: the old text before the damage, the
  /// new text of the damaged range and the old text after it make up the
  /// new input.
  predicate Reconstructs(oldInput: string, input: string, s: int, e: int, c: int) {
    0 <= s <= e + c + 1 <= |input| && s <= e + 1 <= |oldInput|
    && oldInput[..s] + input[s..e + c + 1] + oldInput[e + 1..] == input
  }

  /// The diff computed with the corrected start, for every pair of inputs:
  /// the backward scan raises no error, the diff is accepted, and the
  /// round trip holds.
  lemma DiffReconstructs(input: string, oldInput: string)
    ensures var s := DamageStartCorrected(input, oldInput);
            var c := |input| - |oldInput|;
            var e := DamageEnd(input, oldInput, s, c);
            e.Returned? && DiffAccepted(s, e.index, c) && Reconstructs(oldInput, input, s, e.index, c)
  {
    var s := DamageStartCorrected(input, oldInput);
    var c := |input| - |oldInput|;
    DamageEndBounds(input, oldInput, s);
    ReconstructsFromMatches(oldInput, input, s, DamageEnd(input, oldInput, s, c).index);
  }

  /// The scan from the end of the old input, for a start within both
  /// inputs: it returns an index between the limit and the old length, and
  /// the inputs agree after it.
  lemma DamageEndBounds(input: string, oldInput: string, s: int)
    requires 0 <= s <= |input| && s <= |oldInput|
    ensures var c := |input| - |oldInput|;
            var e := DamageEnd(input, oldInput, s, c);
            e.Returned? && EndLimit(s, c) <= e.index && e.index + 1 <= |oldInput| && e.index + c + 1 <= |input|
            && forall k :: e.index < k < |oldInput| ==> oldInput[k] == input[k + c]
  {
    var c := |input| - |oldInput|;
    if EndLimit(s, c) < |oldInput| - 1 {
      DamageEndFromSpec(input, oldInput, s, |oldInput| - 1);
    }
  }

  /// A damage region whose outside agrees in both inputs reconstructs the
  /// new input.
  lemma ReconstructsFromMatches(oldInput: string, input: string, s: int, e: int)
    requires var c := |input| - |oldInput|;
             0 <= s <= e + 1 && s <= e + c + 1 && e + 1 <= |oldInput| && e + c + 1 <= |input|
             && (forall k :: 0 <= k < s ==> input[k] == oldInput[k])
             && (forall k :: e < k < |oldInput| ==> oldInput[k] == input[k + c])
    ensures Reconstructs(oldInput, input, s, e, |input| - |oldInput|)
  {
    var c := |input| - |oldInput|;
    var whole := oldInput[..s] + input[s..e + c + 1] + oldInput[e + 1..];
    forall k | 0 <= k < |input|
      ensures whole[k] == input[k]
    {
      if k < s {
        assert whole[k] == oldInput[k];
      } else if k < e + c + 1 {
        assert whole[k] == input[k];
      } else {
        assert whole[k] == oldInput[k - c];
      }
    }
  }

  /// An unchanged size and an empty damaged range mean exactly that the
  /// inputs are equal (the early exit that returns the old tree).
  lemma UnchangedIffEqual(input: string, oldInput: string)
    ensures var s := DamageStartCorrected(input, oldInput);
            var c := |input| - |oldInput|;
            var e := DamageEnd(input, oldInput, s, c);
            e.Returned? && (c == 0 && e.index == s - 1 <==> input == oldInput)
  {
    DiffReconstructs(input, oldInput);
    var s := DamageStartCorrected(input, oldInput);
    var c := |input| - |oldInput|;
    var e := DamageEnd(input, oldInput, s, c).index;
    if input == oldInput {
      assert c == 0;
      var lim := EndLimit(s, 0);
      if lim < |oldInput| - 1 {
        DamageEndFromSpec(input, oldInput, s, |oldInput| - 1);
      }
      assert s == |input| - 1 || (s == 0 && |input| == 0);
    }
  }

  /// As written, an empty old or new input sends the backward scan to
  /// index -1 of one of the inputs.
  lemma DiffAsWrittenFailsOnEmpty(input: string, oldInput: string)
    requires |input| == 0 || |oldInput| == 0
    ensures DamageEnd(input, oldInput, DamageStart(input, oldInput), |input| - |oldInput|) == Raised
  {
  }

  /// A concrete instance: inserting "a" into an empty document.
  lemma DiffAsWrittenInsertIntoEmpty()
    ensures DamageStart("a", "") == -1
    ensures DamageEnd("a", "", -1, 1) == Raised
    ensures DamageEnd("a", "", DamageStartCorrected("a", ""), 1) == Returned(-1)
  {
  }

  /// With non-empty inputs the correction changes nothing.
  lemma CorrectionAgreesOnNonEmpty(input: string, oldInput: string)
    requires |input| > 0 && |oldInput| > 0
    ensures DamageStartCorrected(input, oldInput) == DamageStart(input, oldInput)
  {
  }

  // ---------------------------------------------------------------------
  // Tree checks

  /// The damaged nodes of the old tree are acceptable when the old tree is
  /// not ambiguous and each node has an incremental sort; otherwise the
  /// ambiguity, or the first unsafe node, is reported.
  function SanityCheckOldTree(incrementalSorts: set<string>, oldTree: AstNode, damagedNodes: seq<AstNode>)
    : (r: Result<()>)
    ensures r.Success? <==> !oldTree.ambiguous
                            && forall i :: 0 <= i < |damagedNodes| ==> damagedNodes[i].sort in incrementalSorts
  {
    if oldTree.ambiguous then Failure(OldTreeAmbiguous)
    else match FirstUnsafe(incrementalSorts, damagedNodes, 0)
      case None => Success(())
      case Some(i) => Failure(UnsafeChange(damagedNodes[i].sort))
  }

  /// The index of the first node from i on without an incremental sort.
  function FirstUnsafe(incrementalSorts: set<string>, nodes: seq<AstNode>, i: nat): (r: Option<nat>)
    requires i <= |nodes|
    ensures r.None? <==> forall k :: i <= k < |nodes| ==> nodes[k].sort in incrementalSorts
    ensures r.Some? ==> i <= r.value < |nodes| && nodes[r.value].sort !in incrementalSorts
                        && forall k :: i <= k < r.value ==> nodes[k].sort in incrementalSorts
    decreases |nodes| - i
  {
    if i == |nodes| then None
    else if nodes[i].sort !in incrementalSorts then Some(i)
    else FirstUnsafe(incrementalSorts, nodes, i + 1)
  }

  method SanityCheckOldTreeLoop(incrementalSorts: set<string>, oldTree: AstNode, damagedNodes: seq<AstNode>)
    returns (r: Result<()>)
    ensures r == SanityCheckOldTree(incrementalSorts, oldTree, damagedNodes)
  {
    if oldTree.ambiguous {
      return Failure(OldTreeAmbiguous);
    }
    for i := 0 to |damagedNodes|
      invariant FirstUnsafe(incrementalSorts, damagedNodes, i) == FirstUnsafe(incrementalSorts, damagedNodes, 0)
    {
      var node := damagedNodes[i];
      if node.sort !in incrementalSorts {
        return Failure(UnsafeChange(node.sort));
      }
    }
    return Success(());
  }

  /// The repaired nodes of the partial tree, from i on: each must have an
  /// incremental sort and be unambiguous; the first node that fails is
  /// reported, the sort check first.
  function SanityCheckRepairedFrom(incrementalSorts: set<string>, nodes: seq<AstNode>, i: nat): (r: Result<()>)
    requires i <= |nodes|
    ensures r.Success? <==> forall k :: i <= k < |nodes| ==> nodes[k].sort in incrementalSorts && !nodes[k].ambiguous
    decreases |nodes| - i
  {
    if i == |nodes| then Success(())
    else if nodes[i].sort !in incrementalSorts then Failure(UnsafeTree(nodes[i].sort))
    else if nodes[i].ambiguous then Failure(UpdatedTreeAmbiguous)
    else SanityCheckRepairedFrom(incrementalSorts, nodes, i + 1)
  }

  function SanityCheckRepairedTree(incrementalSorts: set<string>, nodes: seq<AstNode>): Result<()> {
    SanityCheckRepairedFrom(incrementalSorts, nodes, 0)
  }

  method SanityCheckRepairedTreeLoop(incrementalSorts: set<string>, nodes: seq<AstNode>) returns (r: Result<()>)
    ensures r == SanityCheckRepairedTree(incrementalSorts, nodes)
  {
    for i := 0 to |nodes|
      invariant SanityCheckRepairedFrom(incrementalSorts, nodes, i) == SanityCheckRepairedTree(incrementalSorts, nodes)
    {
      var node := nodes[i];
      if node.sort !in incrementalSorts {
        return Failure(UnsafeTree(node.sort));
      } else if node.ambiguous {
        return Failure(UpdatedTreeAmbiguous);
      }
    }
    return Success(());
  }

  // ---------------------------------------------------------------------
  // The start of an incremental parse

  /// How the first phase of an incremental parse ends: the old tree is
  /// returned as it is, or the damage region to re-parse is known.
  datatype Start = Unchanged | Damaged(damageStart: int, damageEnd: int, damageSizeChange: int)

  /// The first phase from a given damage start: compute the damage end
  /// against the old tree's input, check the diff, and stop early when
  /// nothing changed.
  function StartFrom(newInput: string, oldText: string, s: int): Result<Start> {
    var c := |newInput| - |oldText|;
    match DamageEnd(newInput, oldText, s, c)
    case Raised => Failure(StringIndexOutOfBounds)
    case Returned(e) =>
      if !DiffAccepted(s, e, c) then Failure(InvalidDiff)
      else if c == 0 && e == s - 1 then Success(Unchanged)
      else Success(Damaged(s, e, c))
  }

  /// The first phase as the code performs it: no old tree is a failure;
  /// otherwise the diff starts at DamageStart, which is -1 when either
  /// input is empty.
  function IncrementalStart(oldInput: Option<string>, newInput: string): Result<Start> {
    if oldInput.None? then Failure(OldTreeNull)
    else StartFrom(newInput, oldInput.value, DamageStart(newInput, oldInput.value))
  }

  /// The first phase with the corrected damage start.
  function IncrementalStartCorrected(oldInput: Option<string>, newInput: string): Result<Start> {
    if oldInput.None? then Failure(OldTreeNull)
    else StartFrom(newInput, oldInput.value, DamageStartCorrected(newInput, oldInput.value))
  }

  /// As written, the first phase fails exactly when the old tree is missing
  /// or either input is empty (then with the index error); with both
  /// inputs present it stops early exactly when they are equal, and a
  /// damage region it yields reconstructs the new input.
  lemma IncrementalStartSpec(oldInput: Option<string>, newInput: string)
    ensures IncrementalStart(oldInput, newInput).Failure?
            <==> oldInput.None? || |newInput| == 0 || |oldInput.value| == 0
    ensures oldInput.Some? && (|newInput| == 0 || |oldInput.value| == 0) ==>
              IncrementalStart(oldInput, newInput) == Failure(StringIndexOutOfBounds)
    ensures oldInput.Some? && |newInput| > 0 && |oldInput.value| > 0 ==>
              (IncrementalStart(oldInput, newInput) == Success(Unchanged) <==> newInput == oldInput.value)
    ensures IncrementalStart(oldInput, newInput).Success? && IncrementalStart(oldInput, newInput).value.Damaged? ==>
              var d := IncrementalStart(oldInput, newInput).value;
              Reconstructs(oldInput.value, newInput, d.damageStart, d.damageEnd, d.damageSizeChange)
  {
    if oldInput.Some? {
      if |newInput| == 0 || |oldInput.value| == 0 {
        DiffAsWrittenFailsOnEmpty(newInput, oldInput.value);
      } else {
        CorrectionAgreesOnNonEmpty(newInput, oldInput.value);
        IncrementalStartCorrectedSpec(oldInput, newInput);
      }
    }
  }

  /// With the corrected start the first phase never fails on a present old
  /// tree, stops early exactly when the inputs are equal, and otherwise
  /// yields a damage region that reconstructs the new input.
  lemma IncrementalStartCorrectedSpec(oldInput: Option<string>, newInput: string)
    ensures IncrementalStartCorrected(oldInput, newInput).Failure? <==> oldInput.None?
    ensures oldInput.Some? ==>
              (IncrementalStartCorrected(oldInput, newInput) == Success(Unchanged) <==> newInput == oldInput.value)
    ensures IncrementalStartCorrected(oldInput, newInput).Success?
            && IncrementalStartCorrected(oldInput, newInput).value.Damaged? ==>
              var d := IncrementalStartCorrected(oldInput, newInput).value;
              Reconstructs(oldInput.value, newInput, d.damageStart, d.damageEnd, d.damageSizeChange)
  {
    if oldInput.Some? {
      DiffReconstructs(newInput, oldInput.value);
      UnchangedIffEqual(newInput, oldInput.value);
    }
  }

  /// The inputs on which the code and the correction part ways: the code
  /// fails where the corrected first phase goes on.
  lemma IncrementalStartAsWrittenInsertIntoEmpty()
    ensures IncrementalStart(Some(""), "a") == Failure(StringIndexOutOfBounds)
    ensures IncrementalStartCorrected(Some(""), "a") == Success(Damaged(0, -1, 1))
  {
    DiffAsWrittenInsertIntoEmpty();
  }

  /// The incremental parser: the sorts that may be re-parsed on their own,
  /// and the nodes rebuilt by the last incremental parse.
  class IncrementalParser {
    const incrementalSorts: set<string>
    var lastReconstructedNodes: seq<AstNode>

    constructor (incrementalSorts: set<string>)
      ensures this.incrementalSorts == incrementalSorts && lastReconstructedNodes == []
    {
      this.incrementalSorts := incrementalSorts;
      lastReconstructedNodes := [];
    }

    /// The first phase of parseIncremental as the code performs it, an
    /// empty input included; the rebuilt-node list is reset once the old
    /// tree is known to exist.
    method ParseIncrementalStart(oldInput: Option<string>, newInput: string) returns (r: Result<Start>)
      modifies this
      ensures r == IncrementalStart(oldInput, newInput)
      ensures lastReconstructedNodes == (if oldInput.None? then old(lastReconstructedNodes) else [])
    {
      if oldInput.None? {
        return Failure(OldTreeNull);
      }
      lastReconstructedNodes := [];
      var oldText := oldInput.value;
      var damageStart := GetDamageStart(newInput, oldText);
      var damageSizeChange := |newInput| - |oldText|;
      var damageEnd := GetDamageEnd(newInput, oldText, damageStart, damageSizeChange);
      if damageEnd.Raised? {
        return Failure(StringIndexOutOfBounds);
      }
      var check := SanityCheckDiff(damageStart, damageEnd.index, damageSizeChange);
      if check.Failure? {
        return Failure(check.error);
      }
      if damageSizeChange == 0 && damageEnd.index == damageStart - 1 {
        return Success(Unchanged);
      }
      return Success(Damaged(damageStart, damageEnd.index, damageSizeChange));
    }
  }
}
