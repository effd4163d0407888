/// The damage-region analysis of an incremental parse: which tree nodes,
/// of the old tree or of the partial tree re-parsed from the damaged text,
/// are touched by the damage.
module DamageRegion {
  import opened Incremental

  /// The analyzer's fixed inputs: the sorts that may be re-parsed on their
  /// own and the damage region of the old input with the size change.
  datatype Analyzer = Analyzer(
    incrementalSorts: set<string>,
    damageStart: int,
    damageEnd: int,
    damageSizeChange: int)

  /// Whether the offsets [startOffset, endOffset] meet the damage: on the
  /// old tree the damage region itself; on the partial tree the region
  /// moved left by the characters skipped before it, its end moved by the
  /// size change.
  predicate IsDamagedRange(a: Analyzer, startOffset: int, endOffset: int, isOriginalTree: bool, skippedChars: int) {
    if isOriginalTree then IsRangeOverlap(a.damageStart, a.damageEnd, startOffset, endOffset)
    else IsRangeOverlap(a.damageStart - skippedChars, a.damageEnd - skippedChars + a.damageSizeChange,
                        startOffset, endOffset)
  }

  /// A range of the partial tree is damaged exactly when the old-tree
  /// range it was shifted from is: forward by the skipped characters, its
  /// start back by the size change.
  lemma PartialRangeIsShiftedOriginal(a: Analyzer, s: int, e: int, skippedChars: int)
    ensures IsDamagedRange(a, s, e, false, skippedChars)
            <==> IsDamagedRange(a, s + skippedChars - a.damageSizeChange, e + skippedChars, true, 0)
  {
  }

  /// A node has both outermost tokens.
  predicate HasTokens(n: AstNode) {
    n.leftToken.Some? && n.rightToken.Some?
  }

  /// The scan over the children of a damaged node, from `current` (the
  /// token the last child with tokens ended at, initially the node's left
  /// token). A child with tokens is damaging when it starts after current
  /// and the text from current's start to just before the child is
  /// damaged; otherwise current moves to the child's right token. Children
  /// without tokens are passed over. After the last child the tail from
  /// just after current to the node's last token decides.
  function ScanKids(a: Analyzer, kids: seq<AstNode>, current: Token, last: Token, isOriginalTree: bool,
                    skippedChars: int): bool
    decreases |kids|
  {
    if kids == [] then IsDamagedRange(a, current.endOffset + 1, last.endOffset, isOriginalTree, skippedChars)
    else
      var child := kids[0];
      if HasTokens(child) then
        if child.leftToken.value.index > current.index
           && IsDamagedRange(a, current.startOffset, child.leftToken.value.startOffset - 1, isOriginalTree, skippedChars)
        then true
        else ScanKids(a, kids[1..], child.rightToken.value, last, isOriginalTree, skippedChars)
      else ScanKids(a, kids[1..], current, last, isOriginalTree, skippedChars)
  }

  /// Whether the damage touches a node: never when a boundary token is
  /// missing or its whole span is undamaged; always when its span is
  /// damaged and its sort is incremental; otherwise when a gap between its
  /// children, or the tail after them, is damaged.
  predicate IsDamageTreeNode(a: Analyzer, tree: AstNode, isOriginalTree: bool, skippedChars: int) {
    if !HasTokens(tree) then false
    else
      var current := tree.leftToken.value;
      var last := tree.rightToken.value;
      if !IsDamagedRange(a, current.startOffset, last.endOffset, isOriginalTree, skippedChars) then false
      else if tree.sort in a.incrementalSorts then true
      else ScanKids(a, tree.kids, current, last, isOriginalTree, skippedChars)
  }

  /// The node test as the loop over the children that performs it.
  method IsDamageTreeNodeLoop(a: Analyzer, tree: AstNode, isOriginalTree: bool, skippedChars: int) returns (b: bool)
    ensures b == IsDamageTreeNode(a, tree, isOriginalTree, skippedChars)
  {
    if !HasTokens(tree) {
      return false;
    }
    var current := tree.leftToken.value;
    var last := tree.rightToken.value;
    if !IsDamagedRange(a, current.startOffset, last.endOffset, isOriginalTree, skippedChars) {
      return false;
    }
    if tree.sort in a.incrementalSorts {
      return true;
    }
    var kids := tree.kids;
    for i := 0 to |kids|
      invariant ScanKids(a, kids[i..], current, last, isOriginalTree, skippedChars)
                == IsDamageTreeNode(a, tree, isOriginalTree, skippedChars)
    {
      var child := kids[i];
      assert kids[i..][1..] == kids[i + 1..];
      if HasTokens(child) {
        var childLeft := child.leftToken.value;
        var childRight := child.rightToken.value;
        if childLeft.index > current.index
           && IsDamagedRange(a, current.startOffset, childLeft.startOffset - 1, isOriginalTree, skippedChars) {
          return true;
        }
        current := childRight;
      }
    }
    return IsDamagedRange(a, current.endOffset + 1, last.endOffset, isOriginalTree, skippedChars);
  }

  // An independent reading of the children scan: over the children that
  // have tokens, the token before child j is the node's left token for the
  // first one and the previous such child's right token after that.

  /// The children with both tokens, in order.
  function Anchored(kids: seq<AstNode>): (r: seq<AstNode>)
    ensures forall i :: 0 <= i < |r| ==> HasTokens(r[i])
    decreases |kids|
  {
    if kids == [] then []
    else if HasTokens(kids[0]) then [kids[0]] + Anchored(kids[1..])
    else Anchored(kids[1..])
  }

  /// The token before anchored child j (or after the last one, for j = |anchors|).
  function Before(first: Token, anchors: seq<AstNode>, j: int): Token
    requires 0 <= j <= |anchors| && forall i :: 0 <= i < |anchors| ==> HasTokens(anchors[i])
  {
    if j == 0 then first
    else
      assert HasTokens(anchors[j - 1]);
      anchors[j - 1].rightToken.value
  }

  /// The gap before anchored child j is damaged.
  predicate GapDamaged(a: Analyzer, first: Token, anchors: seq<AstNode>, j: int, isOriginalTree: bool, skippedChars: int)
    requires 0 <= j < |anchors| && forall i :: 0 <= i < |anchors| ==> HasTokens(anchors[i])
  {
    var prev := Before(first, anchors, j);
    anchors[j].leftToken.value.index > prev.index
    && IsDamagedRange(a, prev.startOffset, anchors[j].leftToken.value.startOffset - 1, isOriginalTree, skippedChars)
  }

  /// Over the anchored children [child] + rest, some gap is damaged
  /// exactly when the first one is or some gap of rest is, counted from
  /// child's right token; the token after the last child is the same.
  lemma GapsCons(a: Analyzer, child: AstNode, rest: seq<AstNode>, current: Token, isOriginalTree: bool,
                 skippedChars: int)
    requires HasTokens(child) && forall i :: 0 <= i < |rest| ==> HasTokens(rest[i])
    ensures var anchors := [child] + rest;
            var next := child.rightToken.value;
            && Before(next, rest, |rest|) == Before(current, anchors, |anchors|)
            && ((exists j :: 0 <= j < |anchors| && GapDamaged(a, current, anchors, j, isOriginalTree, skippedChars))
                <==> GapDamaged(a, current, anchors, 0, isOriginalTree, skippedChars)
                     || (exists j :: 0 <= j < |rest| && GapDamaged(a, next, rest, j, isOriginalTree, skippedChars)))
  {
    var anchors := [child] + rest;
    var next := child.rightToken.value;
    forall j | 0 <= j < |rest|
      ensures GapDamaged(a, next, rest, j, isOriginalTree, skippedChars)
              == GapDamaged(a, current, anchors, j + 1, isOriginalTree, skippedChars)
    {
      assert Before(next, rest, j) == Before(current, anchors, j + 1);
      assert rest[j] == anchors[j + 1];
    }
    if exists j :: 0 <= j < |anchors| && GapDamaged(a, current, anchors, j, isOriginalTree, skippedChars) {
      var j :| 0 <= j < |anchors| && GapDamaged(a, current, anchors, j, isOriginalTree, skippedChars);
      if j > 0 {
        assert GapDamaged(a, next, rest, j - 1, isOriginalTree, skippedChars);
      }
    }
  }

  /// The scan finds damage exactly when the gap before some child with
  /// tokens is damaged or the tail after the last such child is.
  lemma {:induction false} ScanKidsSpec(a: Analyzer, kids: seq<AstNode>, current: Token, last: Token,
                                        isOriginalTree: bool, skippedChars: int)
    ensures var anchors := Anchored(kids);
            ScanKids(a, kids, current, last, isOriginalTree, skippedChars)
            <==> (exists j :: 0 <= j < |anchors| && GapDamaged(a, current, anchors, j, isOriginalTree, skippedChars))
                 || IsDamagedRange(a, Before(current, anchors, |anchors|).endOffset + 1, last.endOffset,
                                   isOriginalTree, skippedChars)
    decreases |kids|
  {
    if kids != [] {
      var child := kids[0];
      var rest := Anchored(kids[1..]);
      if HasTokens(child) {
        var next := child.rightToken.value;
        ScanKidsSpec(a, kids[1..], next, last, isOriginalTree, skippedChars);
        assert Anchored(kids) == [child] + rest;
        GapsCons(a, child, rest, current, isOriginalTree, skippedChars);
      } else {
        ScanKidsSpec(a, kids[1..], current, last, isOriginalTree, skippedChars);
      }
    }
  }

  // ---------------------------------------------------------------------
  // Collecting the damaged nodes

  /// The damaged nodes of a tree in pre-order: a damaged node that is not
  /// a list is taken whole, without looking inside; otherwise its children
  /// are searched left to right.
  function DamageRegionNodes(a: Analyzer, tree: AstNode, isOriginalTree: bool, skippedChars: int): seq<AstNode>
    decreases tree, 1
  {
    if !tree.isList && IsDamageTreeNode(a, tree, isOriginalTree, skippedChars) then [tree]
    else DamageRegionNodesList(a, tree.kids, isOriginalTree, skippedChars)
  }

  function DamageRegionNodesList(a: Analyzer, kids: seq<AstNode>, isOriginalTree: bool, skippedChars: int)
    : seq<AstNode>
    decreases kids, 0
  {
    if kids == [] then []
    else DamageRegionNodesList(a, kids[..|kids| - 1], isOriginalTree, skippedChars)
         + DamageRegionNodes(a, kids[|kids| - 1], isOriginalTree, skippedChars)
  }

  /// The recursive collection as the code performs it, appending to the
  /// given results.
  method GetDamageRegionTreeNodes(a: Analyzer, tree: AstNode, results: seq<AstNode>, isOriginalTree: bool,
                                  skippedChars: int)
    returns (out: seq<AstNode>)
    ensures out == results + DamageRegionNodes(a, tree, isOriginalTree, skippedChars)
    decreases tree
  {
    var damaged := false;
    if !tree.isList {
      damaged := IsDamageTreeNodeLoop(a, tree, isOriginalTree, skippedChars);
    }
    if damaged {
      return results + [tree];
    }
    out := results;
    var kids := tree.kids;
    for i := 0 to |kids|
      invariant out == results + DamageRegionNodesList(a, kids[..i], isOriginalTree, skippedChars)
    {
      assert kids[..i + 1][..i] == kids[..i];
      out := GetDamageRegionTreeNodes(a, kids[i], out, isOriginalTree, skippedChars);
    }
    assert kids[..|kids|] == kids;
  }

  function GetDamageNodes(a: Analyzer, tree: AstNode): seq<AstNode> {
    DamageRegionNodes(a, tree, true, 0)
  }

  function GetDamageNodesForPartialTree(a: Analyzer, tree: AstNode, skippedChars: int): seq<AstNode> {
    DamageRegionNodes(a, tree, false, skippedChars)
  }

  /// x can be reached from tree without entering a node that would have
  /// been collected: x is tree, or tree is a list or undamaged and x can be
  /// reached from one of its children.
  predicate Exposed(a: Analyzer, x: AstNode, tree: AstNode, isOriginalTree: bool, skippedChars: int)
    decreases tree
  {
    x == tree
    || ((tree.isList || !IsDamageTreeNode(a, tree, isOriginalTree, skippedChars))
        && exists i :: 0 <= i < |tree.kids| && Exposed(a, x, tree.kids[i], isOriginalTree, skippedChars))
  }

  /// The collected nodes are exactly the damaged non-list nodes reachable
  /// without passing through another collected node.
  lemma {:induction false} DamageRegionNodesSpec(a: Analyzer, tree: AstNode, isOriginalTree: bool, skippedChars: int,
                                                 x: AstNode)
    ensures x in DamageRegionNodes(a, tree, isOriginalTree, skippedChars)
            <==> !x.isList && IsDamageTreeNode(a, x, isOriginalTree, skippedChars)
                 && Exposed(a, x, tree, isOriginalTree, skippedChars)
    decreases tree, 1
  {
    if !tree.isList && IsDamageTreeNode(a, tree, isOriginalTree, skippedChars) {
      if x != tree {
        assert !Exposed(a, x, tree, isOriginalTree, skippedChars);
      }
    } else {
      DamageRegionNodesListSpec(a, tree.kids, isOriginalTree, skippedChars, x);
      if x == tree {
        forall i | 0 <= i < |tree.kids|
          ensures !Exposed(a, x, tree.kids[i], isOriginalTree, skippedChars)
        {
          ExposedIsSmaller(a, x, tree.kids[i], isOriginalTree, skippedChars);
        }
      }
    }
  }

  lemma {:induction false} DamageRegionNodesListSpec(a: Analyzer, kids: seq<AstNode>, isOriginalTree: bool,
                                                     skippedChars: int, x: AstNode)
    ensures x in DamageRegionNodesList(a, kids, isOriginalTree, skippedChars)
            <==> !x.isList && IsDamageTreeNode(a, x, isOriginalTree, skippedChars)
                 && exists i :: 0 <= i < |kids| && Exposed(a, x, kids[i], isOriginalTree, skippedChars)
    decreases kids, 0
  {
    if kids != [] {
      var init := kids[..|kids| - 1];
      DamageRegionNodesListSpec(a, init, isOriginalTree, skippedChars, x);
      DamageRegionNodesSpec(a, kids[|kids| - 1], isOriginalTree, skippedChars, x);
      if exists i :: 0 <= i < |kids| && Exposed(a, x, kids[i], isOriginalTree, skippedChars) {
        var i :| 0 <= i < |kids| && Exposed(a, x, kids[i], isOriginalTree, skippedChars);
        if i < |init| {
          assert init[i] == kids[i];
        }
      }
      if exists i :: 0 <= i < |init| && Exposed(a, x, init[i], isOriginalTree, skippedChars) {
        var i :| 0 <= i < |init| && Exposed(a, x, init[i], isOriginalTree, skippedChars);
        assert kids[i] == init[i];
      }
    }
  }

  /// A node reachable from t is t or strictly smaller, so t is never
  /// reachable from one of its own children.
  lemma {:induction false} ExposedIsSmaller(a: Analyzer, x: AstNode, t: AstNode, isOriginalTree: bool, skippedChars: int)
    ensures Exposed(a, x, t, isOriginalTree, skippedChars) ==> x == t || x < t
    decreases t
  {
    if x != t && Exposed(a, x, t, isOriginalTree, skippedChars) {
      var i :| 0 <= i < |t.kids| && Exposed(a, x, t.kids[i], isOriginalTree, skippedChars);
      ExposedIsSmaller(a, x, t.kids[i], isOriginalTree, skippedChars);
    }
  }

  /// With no characters skipped and no size change, the partial-tree
  /// collection is the old-tree collection.
  lemma {:induction false} PartialAgreesWithOriginal(a: Analyzer, tree: AstNode)
    requires a.damageSizeChange == 0
    ensures GetDamageNodesForPartialTree(a, tree, 0) == GetDamageNodes(a, tree)
    decreases tree, 1
  {
    DamagedTreeNodeAgrees(a, tree);
    if tree.isList || !IsDamageTreeNode(a, tree, true, 0) {
      PartialAgreesWithOriginalList(a, tree.kids);
    }
  }

  lemma {:induction false} PartialAgreesWithOriginalList(a: Analyzer, kids: seq<AstNode>)
    requires a.damageSizeChange == 0
    ensures DamageRegionNodesList(a, kids, false, 0) == DamageRegionNodesList(a, kids, true, 0)
    decreases kids, 0
  {
    if kids != [] {
      PartialAgreesWithOriginalList(a, kids[..|kids| - 1]);
      PartialAgreesWithOriginal(a, kids[|kids| - 1]);
    }
  }

  lemma DamagedTreeNodeAgrees(a: Analyzer, tree: AstNode)
    requires a.damageSizeChange == 0
    ensures IsDamageTreeNode(a, tree, false, 0) == IsDamageTreeNode(a, tree, true, 0)
  {
    if HasTokens(tree) {
      ScanKidsAgrees(a, tree.kids, tree.leftToken.value, tree.rightToken.value);
    }
  }

  lemma {:induction false} ScanKidsAgrees(a: Analyzer, kids: seq<AstNode>, current: Token, last: Token)
    requires a.damageSizeChange == 0
    ensures ScanKids(a, kids, current, last, false, 0) == ScanKids(a, kids, current, last, true, 0)
    decreases |kids|
  {
    if kids != [] {
      var child := kids[0];
      ScanKidsAgrees(a, kids[1..], if HasTokens(child) then child.rightToken.value else current, last);
    }
  }
}
