/// Productions of the JSGLR2 parse table: the production-type code table
/// and the immutable production record with its getters.
module Productions {

  /// The production types a parse table can attach to a production.
  datatype ProductionType =
    | NoType
    | Reject
    | Prefer
    | Bracket
    | Avoid
    | LeftAssociative
    | RightAssociative

  /// Decodes the integer code stored in a serialized parse table.
  /// Codes 1 to 6 name a type; every other integer means "no type".
  function TypeFromInt(code: int): (t: ProductionType)
    ensures t != NoType <==> 1 <= code <= 6
  {
    match code
    case 1 => Reject
    case 2 => Prefer
    case 3 => Bracket
    case 4 => Avoid
    case 5 => LeftAssociative
    case 6 => RightAssociative
    case _ => NoType
  }

  /// The code under which a parse table stores a production type: the
  /// inverse of TypeFromInt on the types other than NoType.
  function TypeToInt(t: ProductionType): (code: int)
    ensures t != NoType ==> 1 <= code <= 6
    ensures t == NoType ==> code == 0
  {
    match t
    case NoType => 0
    case Reject => 1
    case Prefer => 2
    case Bracket => 3
    case Avoid => 4
    case LeftAssociative => 5
    case RightAssociative => 6
  }

  /// Decoding the code of a type gives that type back (NoType included,
  /// since its code 0 lies outside 1 to 6).
  lemma TypeFromIntInvertsTypeToInt(t: ProductionType)
    ensures TypeFromInt(TypeToInt(t)) == t
  {
  }

  /// Each code in 1 to 6 decodes to a distinct type, and encoding the
  /// decoded type gives the code back.
  lemma TypeFromIntInjective(i: int, j: int)
    requires 1 <= i <= 6 && 1 <= j <= 6
    ensures TypeToInt(TypeFromInt(i)) == i
    ensures TypeFromInt(i) == TypeFromInt(j) ==> i == j
  {
  }

  /// The attributes of a production that JSGLR2 consults.
  datatype ProductionAttributes = ProductionAttributes(
    kind: ProductionType,
    constructorName: string,
    completionOrRecovery: bool)

  /// An immutable production of the parse table; the datatype's
  /// destructors are the getters of the same names.
  datatype Production = Production(
    productionNumber: int,
    sort: string,
    startSymbolSort: string,
    descriptor: string,
    isContextFree: bool,
    isLayout: bool,
    isLiteral: bool,
    isLexical: bool,
    isLexicalRhs: bool,
    isSkippableInParseForest: bool,
    isList: bool,
    isOptional: bool,
    isStringLiteral: bool,
    isNumberLiteral: bool,
    isOperator: bool,
    attributes: ProductionAttributes)
  {
    /// The production's type, as recorded in its attributes.
    function ProductionKind(): ProductionType { attributes.kind }

    /// The constructor name, as recorded in its attributes.
    function Constructor(): string { attributes.constructorName }

    /// A production prints as its descriptor.
    function ToString(): string { descriptor }

    function IsCompletionOrRecovery(): bool { attributes.completionOrRecovery }
  }

  /// Every getter returns exactly what the constructor was given.
  lemma GettersReturnConstructorArguments(
    n: int, sort: string, startSort: string, descriptor: string, flags: seq<bool>,
    attrs: ProductionAttributes)
    requires |flags| == 11
    ensures var p := Production(n, sort, startSort, descriptor, flags[0], flags[1], flags[2],
                                flags[3], flags[4], flags[5], flags[6], flags[7], flags[8],
                                flags[9], flags[10], attrs);
            p.productionNumber == n && p.sort == sort && p.startSymbolSort == startSort
            && p.ToString() == descriptor && p.descriptor == descriptor
            && p.ProductionKind() == attrs.kind && p.Constructor() == attrs.constructorName
            && p.IsCompletionOrRecovery() == attrs.completionOrRecovery
            && p.isSkippableInParseForest == flags[5]
  {
  }
}
