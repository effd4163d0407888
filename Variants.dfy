/// The JSGLR2 parser variants: the four configuration axes, which
/// combinations are valid, their names and the enumeration of all valid ones.
module Variants {

  datatype ParseForestRepresentation = Null | Basic | Hybrid
  datatype ParseForestConstruction = Full | Optimized
  datatype StackRepresentation = Basic | Hybrid | BasicElkhound | HybridElkhound
  datatype Reducing = Basic | Elkhound

  /// The values each axis is enumerated over, in declaration order.
  /// The Null forest representation is not among them.
  const ForestRepresentations: seq<ParseForestRepresentation> :=
    [ParseForestRepresentation.Basic, ParseForestRepresentation.Hybrid]
  const ForestConstructions: seq<ParseForestConstruction> :=
    [ParseForestConstruction.Full, ParseForestConstruction.Optimized]
  const StackRepresentations: seq<StackRepresentation> :=
    [StackRepresentation.Basic, StackRepresentation.Hybrid,
     StackRepresentation.BasicElkhound, StackRepresentation.HybridElkhound]
  const Reducings: seq<Reducing> := [Reducing.Basic, Reducing.Elkhound]

  datatype Variant = Variant(
    parseForestRepresentation: ParseForestRepresentation,
    parseForestConstruction: ParseForestConstruction,
    stackRepresentation: StackRepresentation,
    reducing: Reducing)
  {
    /// Elkhound reducing needs an Elkhound stack.
    predicate IsValid() {
      reducing != Reducing.Elkhound
      || stackRepresentation == StackRepresentation.BasicElkhound
      || stackRepresentation == StackRepresentation.HybridElkhound
    }

    /// The labelled name of the variant.
    function Name(): string {
      "ParseForestRepresentation:" + ForestRepresentationName(parseForestRepresentation)
      + "/ParseForestConstruction:" + ForestConstructionName(parseForestConstruction)
      + "/StackRepresentation:" + StackRepresentationName(stackRepresentation)
      + "/Reducing:" + ReducingName(reducing)
    }
  }

  function ForestRepresentationName(r: ParseForestRepresentation): string {
    match r
    case Null => "Null"
    case Basic => "Basic"
    case Hybrid => "Hybrid"
  }

  function ForestConstructionName(c: ParseForestConstruction): string {
    match c
    case Full => "Full"
    case Optimized => "Optimized"
  }

  function StackRepresentationName(s: StackRepresentation): string {
    match s
    case Basic => "Basic"
    case Hybrid => "Hybrid"
    case BasicElkhound => "BasicElkhound"
    case HybridElkhound => "HybridElkhound"
  }

  function ReducingName(r: Reducing): string {
    match r
    case Basic => "Basic"
    case Elkhound => "Elkhound"
  }

  /// A variant is invalid exactly when it reduces the Elkhound way on a
  /// stack that is not an Elkhound stack.
  lemma InvalidIffElkhoundOnPlainStack(v: Variant)
    ensures !v.IsValid() <==>
      v.reducing == Reducing.Elkhound
      && (v.stackRepresentation == StackRepresentation.Basic
          || v.stackRepresentation == StackRepresentation.Hybrid)
  {
  }

  /// The valid variants with the given forest representation, construction
  /// and stack, one per reducing strategy in rs that is valid with them.
  function WithReducings(f: ParseForestRepresentation, c: ParseForestConstruction,
                         s: StackRepresentation, rs: seq<Reducing>): seq<Variant>
  {
    if rs == [] then []
    else
      var v := Variant(f, c, s, rs[|rs| - 1]);
      WithReducings(f, c, s, rs[..|rs| - 1]) + (if v.IsValid() then [v] else [])
  }

  function WithStacks(f: ParseForestRepresentation, c: ParseForestConstruction,
                      ss: seq<StackRepresentation>): seq<Variant>
  {
    if ss == [] then []
    else WithStacks(f, c, ss[..|ss| - 1]) + WithReducings(f, c, ss[|ss| - 1], Reducings)
  }

  function WithConstructions(f: ParseForestRepresentation, cs: seq<ParseForestConstruction>): seq<Variant>
  {
    if cs == [] then []
    else WithConstructions(f, cs[..|cs| - 1]) + WithStacks(f, cs[|cs| - 1], StackRepresentations)
  }

  /// The valid variants of the nested enumeration (forest representation
  /// outermost, reducing innermost) over the representations in fs.
  function WithRepresentations(fs: seq<ParseForestRepresentation>): seq<Variant>
  {
    if fs == [] then []
    else WithRepresentations(fs[..|fs| - 1]) + WithConstructions(fs[|fs| - 1], ForestConstructions)
  }

  /// The list AllVariants returns.
  function ValidVariants(): seq<Variant> { WithRepresentations(ForestRepresentations) }

  lemma WithStacksSnoc(f: ParseForestRepresentation, c: ParseForestConstruction, ss: seq<StackRepresentation>, s: int)
    requires 0 <= s < |ss|
    ensures WithStacks(f, c, ss[..s + 1]) == WithStacks(f, c, ss[..s]) + WithReducings(f, c, ss[s], Reducings)
  {
    assert ss[..s + 1][..s] == ss[..s];
  }

  lemma WithConstructionsSnoc(f: ParseForestRepresentation, cs: seq<ParseForestConstruction>, j: int)
    requires 0 <= j < |cs|
    ensures WithConstructions(f, cs[..j + 1]) == WithConstructions(f, cs[..j]) + WithStacks(f, cs[j], StackRepresentations)
  {
    assert cs[..j + 1][..j] == cs[..j];
  }

  /// Builds the list of valid variants by four nested loops over the axes
  /// (the three inner loops are split off as AddConstructions, AddStacks
  /// and AddReducings).
  method AllVariants() returns (variants: seq<Variant>)
    ensures variants == ValidVariants()
  {
    variants := [];
    for i := 0 to |ForestRepresentations|
      invariant variants == WithRepresentations(ForestRepresentations[..i])
    {
      variants := AddConstructions(variants, ForestRepresentations[i]);
      assert ForestRepresentations[..i + 1][..i] == ForestRepresentations[..i];
      AppendAssoc([], WithRepresentations(ForestRepresentations[..i]),
                  WithConstructions(ForestRepresentations[i], ForestConstructions));
    }
    assert ForestRepresentations[..|ForestRepresentations|] == ForestRepresentations;
  }

  /// The loop over the forest constructions inside AllVariants.
  method AddConstructions(prefix: seq<Variant>, f: ParseForestRepresentation)
    returns (variants: seq<Variant>)
    ensures variants == prefix + WithConstructions(f, ForestConstructions)
  {
    variants := prefix;
    for j := 0 to |ForestConstructions|
      invariant variants == prefix + WithConstructions(f, ForestConstructions[..j])
    {
      variants := AddStacks(variants, f, ForestConstructions[j]);
      WithConstructionsSnoc(f, ForestConstructions, j);
      AppendAssoc(prefix, WithConstructions(f, ForestConstructions[..j]),
                  WithStacks(f, ForestConstructions[j], StackRepresentations));
    }
    assert ForestConstructions[..|ForestConstructions|] == ForestConstructions;
  }

  /// The loop over the stack representations inside AllVariants.
  method AddStacks(prefix: seq<Variant>, f: ParseForestRepresentation, c: ParseForestConstruction)
    returns (variants: seq<Variant>)
    ensures variants == prefix + WithStacks(f, c, StackRepresentations)
  {
    variants := prefix;
    for s := 0 to |StackRepresentations|
      invariant variants == prefix + WithStacks(f, c, StackRepresentations[..s])
    {
      variants := AddReducings(variants, f, c, StackRepresentations[s]);
      WithStacksSnoc(f, c, StackRepresentations, s);
      AppendAssoc(prefix, WithStacks(f, c, StackRepresentations[..s]),
                  WithReducings(f, c, StackRepresentations[s], Reducings));
    }
    assert StackRepresentations[..|StackRepresentations|] == StackRepresentations;
  }

  /// The innermost loop of AllVariants: appends each valid reducing.
  method AddReducings(prefix: seq<Variant>, f: ParseForestRepresentation, c: ParseForestConstruction,
                      st: StackRepresentation)
    returns (variants: seq<Variant>)
    ensures variants == prefix + WithReducings(f, c, st, Reducings)
  {
    variants := prefix;
    for r := 0 to |Reducings|
      invariant variants == prefix + WithReducings(f, c, st, Reducings[..r])
    {
      var variant := Variant(f, c, st, Reducings[r]);
      assert Reducings[..r + 1][..r] == Reducings[..r];
      if variant.IsValid() {
        AppendAssoc(prefix, WithReducings(f, c, st, Reducings[..r]), [variant]);
        variants := variants + [variant];
      }
    }
    assert Reducings[..|Reducings|] == Reducings;
  }

  /// For one forest representation and construction, the stacks give
  /// 1 + 1 + 2 + 2 valid variants.
  lemma WithStacksCount(f: ParseForestRepresentation, c: ParseForestConstruction)
    ensures |WithStacks(f, c, StackRepresentations)| == 6
  {
    forall s: StackRepresentation
      ensures |WithReducings(f, c, s, Reducings)| ==
              if s == StackRepresentation.BasicElkhound || s == StackRepresentation.HybridElkhound then 2 else 1
    {
      assert Reducings[..1] == [Reducing.Basic];
      assert Reducings[..1][..0] == [];
      assert WithReducings(f, c, s, Reducings[..1][..0]) == [];
    }
    var ss := StackRepresentations;
    assert ss[..3] == [StackRepresentation.Basic, StackRepresentation.Hybrid, StackRepresentation.BasicElkhound];
    assert ss[..3][..2] == [StackRepresentation.Basic, StackRepresentation.Hybrid];
    assert ss[..3][..2][..1] == [StackRepresentation.Basic];
    assert ss[..3][..2][..1][..0] == [];
    assert |WithStacks(f, c, ss[..3][..2][..1])| == 1;
    assert |WithStacks(f, c, ss[..3][..2])| == 2;
    assert |WithStacks(f, c, ss[..3])| == 4;
  }

  /// All valid variants: 24 of them (2 x 2 x 4 x 2 minus the 8 that pair
  /// Elkhound reducing with a plain stack).
  lemma AllVariantsCount()
    ensures |ValidVariants()| == 24
  {
    var fs := ForestRepresentations;
    var cs := ForestConstructions;
    assert cs[..1] == [ParseForestConstruction.Full];
    assert cs[..1][..0] == [];
    forall f ensures |WithConstructions(f, cs)| == 12 {
      WithStacksCount(f, ParseForestConstruction.Full);
      WithStacksCount(f, ParseForestConstruction.Optimized);
      assert WithConstructions(f, cs[..1][..0]) == [];
      assert |WithConstructions(f, cs[..1])| == 6;
    }
    assert fs[..1] == [ParseForestRepresentation.Basic];
    assert fs[..1][..0] == [];
    assert WithRepresentations(fs[..1][..0]) == [];
    assert |WithRepresentations(fs[..1])| == 12;
  }

  /// Every listed variant is valid and none uses the Null forest representation.
  lemma AllVariantsValid(v: Variant)
    requires v in ValidVariants()
    ensures v.IsValid() && v.parseForestRepresentation != ParseForestRepresentation.Null
  {
    WithRepresentationsMembers(ForestRepresentations, v);
  }

  lemma {:induction false} WithRepresentationsMembers(fs: seq<ParseForestRepresentation>, v: Variant)
    requires v in WithRepresentations(fs)
    ensures v.IsValid() && v.parseForestRepresentation in fs
  {
    if fs != [] {
      var init := fs[..|fs| - 1];
      if v in WithRepresentations(init) {
        WithRepresentationsMembers(init, v);
      } else {
        WithConstructionsMembers(fs[|fs| - 1], ForestConstructions, v);
      }
    }
  }

  lemma {:induction false} WithConstructionsMembers(f: ParseForestRepresentation, cs: seq<ParseForestConstruction>, v: Variant)
    requires v in WithConstructions(f, cs)
    ensures v.IsValid() && v.parseForestRepresentation == f
  {
    if cs != [] {
      if v in WithConstructions(f, cs[..|cs| - 1]) {
        WithConstructionsMembers(f, cs[..|cs| - 1], v);
      } else {
        WithStacksMembers(f, cs[|cs| - 1], StackRepresentations, v);
      }
    }
  }

  lemma {:induction false} WithStacksMembers(f: ParseForestRepresentation, c: ParseForestConstruction,
                                             ss: seq<StackRepresentation>, v: Variant)
    requires v in WithStacks(f, c, ss)
    ensures v.IsValid() && v.parseForestRepresentation == f
  {
    if ss != [] {
      if v in WithStacks(f, c, ss[..|ss| - 1]) {
        WithStacksMembers(f, c, ss[..|ss| - 1], v);
      } else {
        WithReducingsMembers(f, c, ss[|ss| - 1], Reducings, v);
      }
    }
  }

  lemma {:induction false} WithReducingsMembers(f: ParseForestRepresentation, c: ParseForestConstruction,
                                                s: StackRepresentation, rs: seq<Reducing>, v: Variant)
    requires v in WithReducings(f, c, s, rs)
    ensures v.IsValid() && v.parseForestRepresentation == f
  {
    if rs != [] && v in WithReducings(f, c, s, rs[..|rs| - 1]) {
      WithReducingsMembers(f, c, s, rs[..|rs| - 1], v);
    }
  }

  /// The outcome of asking for the parser of a variant.
  datatype ParserResult = Parser(variant: Variant) | IllegalState(message: string)

  /// The validity guard in front of parser construction; the construction
  /// itself picks the managers named by the variant.
  function GetParser(v: Variant): (r: ParserResult)
    ensures r.IllegalState? <==> !v.IsValid()
    ensures r.Parser? ==> r.variant == v
  {
    if !v.IsValid() then IllegalState("Invalid parser variant (Elkhound reducing requires Elkhound stack)")
    else Parser(v)
  }

  /// One parser per valid variant, in the order of AllVariants; also
  /// stands for the list of JSGLR2 front ends, which pairs each of these
  /// parsers with the imploder of its forest representation.
  method AllParsers() returns (parsers: seq<ParserResult>)
    ensures |parsers| == |ValidVariants()| == 24
    ensures forall i :: 0 <= i < |parsers| ==> parsers[i] == Parser(ValidVariants()[i])
  {
    var variants := AllVariants();
    AllVariantsCount();
    parsers := [];
    for i := 0 to |variants|
      invariant |parsers| == i
      invariant forall k :: 0 <= k < i ==> parsers[k] == Parser(variants[k])
    {
      AllVariantsValid(variants[i]);
      var parser := GetParser(variants[i]);
      parsers := parsers + [parser];
    }
  }

  /// A common prefix cancels.
  lemma Cancel(a: string, x: string, y: string)
    requires a + x == a + y
    ensures x == y
  {
    assert x == (a + x)[|a|..];
    assert y == (a + y)[|a|..];
  }

  /// The first character tells the forest representation names apart.
  lemma ForestPart(r1: ParseForestRepresentation, r2: ParseForestRepresentation, x: string, y: string)
    requires ForestRepresentationName(r1) + x == ForestRepresentationName(r2) + y
    ensures r1 == r2 && x == y
  {
    var a, b := ForestRepresentationName(r1), ForestRepresentationName(r2);
    assert (a + x)[0] == a[0] && (b + y)[0] == b[0];
    Cancel(a, x, y);
  }

  /// The first character tells the forest construction names apart.
  lemma ConstructionPart(c1: ParseForestConstruction, c2: ParseForestConstruction, x: string, y: string)
    requires ForestConstructionName(c1) + x == ForestConstructionName(c2) + y
    ensures c1 == c2 && x == y
  {
    var a, b := ForestConstructionName(c1), ForestConstructionName(c2);
    assert (a + x)[0] == a[0] && (b + y)[0] == b[0];
    Cancel(a, x, y);
  }

  /// The first character and the one after "Basic" or "Hybrid" tell the
  /// stack representation names apart, given the separator that follows.
  lemma StackPart(s1: StackRepresentation, s2: StackRepresentation, x: string, y: string)
    requires |x| >= 2 && |y| >= 2 && x[0] == '/' && y[0] == '/'
    requires StackRepresentationName(s1) + x == StackRepresentationName(s2) + y
    ensures s1 == s2 && x == y
  {
    var a, b := StackRepresentationName(s1), StackRepresentationName(s2);
    assert (a + x)[0] == a[0] && (b + y)[0] == b[0];
    assert (a + x)[5] == (if |a| > 5 then a[5] else x[5 - |a|]);
    assert (b + y)[5] == (if |b| > 5 then b[5] else y[5 - |b|]);
    assert (a + x)[6] == (if |a| > 6 then a[6] else x[6 - |a|]);
    assert (b + y)[6] == (if |b| > 6 then b[6] else y[6 - |b|]);
    Cancel(a, x, y);
  }

  lemma AppendAssoc<T>(a: seq<T>, b: seq<T>, c: seq<T>)
    ensures a + b + c == a + (b + c)
  {
  }

  lemma Assoc4(p1: string, a: string, p2: string, b: string, p3: string, c: string, p4: string, d: string)
    ensures p1 + a + p2 + b + p3 + c + p4 + d == p1 + (a + (p2 + (b + (p3 + (c + (p4 + d))))))
  {}

  /// The name read from the left: each label followed by the rest.
  lemma NameNested(v: Variant)
    ensures v.Name() == "ParseForestRepresentation:" + (ForestRepresentationName(v.parseForestRepresentation)
      + ("/ParseForestConstruction:" + (ForestConstructionName(v.parseForestConstruction)
      + ("/StackRepresentation:" + (StackRepresentationName(v.stackRepresentation)
      + ("/Reducing:" + ReducingName(v.reducing)))))))
  {
    Assoc4("ParseForestRepresentation:", ForestRepresentationName(v.parseForestRepresentation),
      "/ParseForestConstruction:", ForestConstructionName(v.parseForestConstruction),
      "/StackRepresentation:", StackRepresentationName(v.stackRepresentation),
      "/Reducing:", ReducingName(v.reducing));
  }

  /// The name identifies the variant: distinct variants have distinct names.
  lemma NameInjective(v: Variant, w: Variant)
    requires v.Name() == w.Name()
    ensures v == w
  {
    var p1, p2, p3, p4 := "ParseForestRepresentation:", "/ParseForestConstruction:", "/StackRepresentation:", "/Reducing:";
    var a1, b1, c1, d1 := ForestRepresentationName(v.parseForestRepresentation), ForestConstructionName(v.parseForestConstruction),
                          StackRepresentationName(v.stackRepresentation), ReducingName(v.reducing);
    var a2, b2, c2, d2 := ForestRepresentationName(w.parseForestRepresentation), ForestConstructionName(w.parseForestConstruction),
                          StackRepresentationName(w.stackRepresentation), ReducingName(w.reducing);
    NameNested(v);
    NameNested(w);
    Cancel(p1, a1 + (p2 + (b1 + (p3 + (c1 + (p4 + d1))))), a2 + (p2 + (b2 + (p3 + (c2 + (p4 + d2))))));
    ForestPart(v.parseForestRepresentation, w.parseForestRepresentation, p2 + (b1 + (p3 + (c1 + (p4 + d1)))), p2 + (b2 + (p3 + (c2 + (p4 + d2)))));
    Cancel(p2, b1 + (p3 + (c1 + (p4 + d1))), b2 + (p3 + (c2 + (p4 + d2))));
    ConstructionPart(v.parseForestConstruction, w.parseForestConstruction, p3 + (c1 + (p4 + d1)), p3 + (c2 + (p4 + d2)));
    Cancel(p3, c1 + (p4 + d1), c2 + (p4 + d2));
    StackPart(v.stackRepresentation, w.stackRepresentation, p4 + d1, p4 + d2);
    Cancel(p4, d1, d2);
  }
}
