/**
 * harp-operation-analyze.c: the translation of a parsed operation program
 * (an abstract syntax tree) into an ordered list of operations.
 *
 * The tree comes from the parser, which guarantees the shape of every node
 * (the source asserts it); the predicates Wf* below state that shape. The
 * operation constructors (harp_*_new), harp_parse_dimension_type and the
 * cast of a double to uint32_t are outside this model and enter as the
 * fields of an Env value.
 */
module OperationAnalyze {
  import opened Wrappers
  import opened HarpTypes

  // ---------------------------------------------------------------------
  // The syntax tree
  // ---------------------------------------------------------------------

  /** ast_node_type. */
  datatype NodeType =
    | FunctionCall | ArgumentList | QualifiedName | DimensionList | Quantity | UnitNode
    | List | Name | StringLiteral | NumberLiteral
    | Eq | Ne | Lt | Le | Gt | Ge | In | NotIn | BitMaskAny | BitMaskNone

  /** The payload of a leaf: the text of a name, string or unit, or a number. */
  datatype Payload = NoPayload | Text(text: string) | Number(number: FloatValue)

  /** An AST node with its byte offset in the source text; Absent is a NULL child. */
  datatype Node = Absent | Ast(kind: NodeType, payload: Payload, position: int, children: seq<Node>)

  predicate IsText(n: Node, k: NodeType)
  {
    n.Ast? && n.kind == k && n.payload.Text?
  }

  predicate IsNumber(n: Node)
  {
    n.Ast? && n.kind == NumberLiteral && n.payload.Number?
  }

  /** An optional unit: NULL or a unit node. */
  predicate UnitOpt(n: Node)
  {
    n.Absent? || IsText(n, UnitNode)
  }

  predicate WfDimensionList(n: Node)
  {
    n.Ast? && n.kind == DimensionList && forall k :: 0 <= k < |n.children| ==> IsText(n.children[k], Name)
  }

  /** A qualified name: a name, an optional dimension list and an optional unit. */
  predicate WfQualifiedName(n: Node)
  {
    n.Ast? && n.kind == QualifiedName && |n.children| == 3 && IsText(n.children[0], Name) &&
    (n.children[1].Absent? || WfDimensionList(n.children[1])) && UnitOpt(n.children[2])
  }

  /** A quantity: a number and an optional unit. */
  predicate WfQuantity(n: Node)
  {
    n.Ast? && n.kind == Quantity && |n.children| == 2 && IsNumber(n.children[0]) && UnitOpt(n.children[1])
  }

  /** A function argument: a string, a qualified name, a quantity or a number. */
  predicate WfArgument(n: Node)
  {
    IsText(n, StringLiteral) || WfQualifiedName(n) || WfQuantity(n) || IsNumber(n)
  }

  predicate WfFunctionCall(n: Node)
  {
    n.Ast? && n.kind == FunctionCall && |n.children| == 2 && IsText(n.children[0], Name) &&
    n.children[1].Ast? && n.children[1].kind == ArgumentList &&
    forall k :: 0 <= k < |n.children[1].children| ==> WfArgument(n.children[1].children[k])
  }

  predicate IsComparisonKind(k: NodeType)
  {
    k == Eq || k == Ne || k == Lt || k == Le || k == Gt || k == Ge
  }

  /** A comparison: a variable name and a string, a number or a quantity. */
  predicate WfComparison(n: Node)
  {
    n.Ast? && IsComparisonKind(n.kind) && |n.children| == 2 && IsText(n.children[0], Name) &&
    (IsText(n.children[1], StringLiteral) || IsNumber(n.children[1]) || WfQuantity(n.children[1]))
  }

  /** A membership test: a variable name, a non-empty list of strings and numbers, an optional unit. */
  predicate WfMembership(n: Node)
  {
    n.Ast? && (n.kind == In || n.kind == NotIn) && |n.children| == 3 && IsText(n.children[0], Name) &&
    n.children[1].Ast? && n.children[1].kind == List && |n.children[1].children| > 0 &&
    (forall k :: 0 <= k < |n.children[1].children| ==>
       IsText(n.children[1].children[k], StringLiteral) || IsNumber(n.children[1].children[k])) &&
    UnitOpt(n.children[2])
  }

  /** A bit-mask test: a variable name and a number. */
  predicate WfBitMask(n: Node)
  {
    n.Ast? && (n.kind == BitMaskAny || n.kind == BitMaskNone) && |n.children| == 2 &&
    IsText(n.children[0], Name) && IsNumber(n.children[1])
  }

  /** A top-level expression of a program. */
  predicate WfExpression(n: Node)
  {
    WfFunctionCall(n) || WfComparison(n) || WfMembership(n) || WfBitMask(n)
  }

  /** The text payload of a name, string or unit node. */
  function TextOf(n: Node): string
  {
    if n.Ast? && n.payload.Text? then n.payload.text else ""
  }

  /** The byte offset of a node. */
  function PositionOf(n: Node): int
  {
    if n.Ast? then n.position else 0
  }

  /** The number payload of a number node. */
  function NumberOf(n: Node): FloatValue
  {
    if n.Ast? && n.payload.Number? then n.payload.number else Zero
  }

  /** get_unit: the text of an optional unit node. */
  function UnitOf(n: Node): (u: Option<string>)
    requires UnitOpt(n)
    ensures u.None? <==> n.Absent?
    ensures u.Some? ==> u.value == n.payload.text
  {
    if n.Absent? then None else Some(n.payload.text)
  }

  // ---------------------------------------------------------------------
  // Operations, errors and the collaborators outside the model
  // ---------------------------------------------------------------------

  datatype CollocationSide = LeftSide | RightSide

  /** harp_comparison_operator_type. */
  datatype ComparisonOp = OpEq | OpNe | OpLt | OpLe | OpGt | OpGe

  /** The operations the translation produces, with the arguments their constructors receive. */
  datatype Operation =
    | CollocationFilter(filename: string, side: CollocationSide)
    | ValidRangeFilter(variable: string)
    | LongitudeRangeFilter(minimum: FloatValue, minimumUnit: Option<string>,
                           maximum: FloatValue, maximumUnit: Option<string>)
    | PointDistanceFilter(longitude: FloatValue, longitudeUnit: Option<string>,
                          latitude: FloatValue, latitudeUnit: Option<string>,
                          distance: FloatValue, distanceUnit: Option<string>)
    | AreaMaskCoversPointFilter(filename: string)
    | AreaMaskCoversAreaFilter(filename: string)
    | AreaMaskIntersectsAreaFilter(filename: string, percentage: FloatValue)
    | VariableDerivation(variable: string, dimensions: seq<DimType>, unit: Option<string>)
    | VariableInclusion(names: seq<string>)
    | VariableExclusion(names: seq<string>)
    | Regrid(filename: string)
    | RegridCollocated(collocationResult: string, datasetDir: string, targetDataset: char, verticalAxis: string)
    | Flatten(dimension: DimType)
    | StringComparisonFilter(variable: string, op: ComparisonOp, text: string)
    | ComparisonFilter(variable: string, op: ComparisonOp, value: FloatValue, unit: Option<string>)
    | BitMaskFilter(variable: string, any: bool, mask: int)
    | StringMembershipFilter(variable: string, isIn: bool, texts: seq<string>)
    | MembershipFilter(variable: string, isIn: bool, values: seq<FloatValue>, unit: Option<string>)

  /** Why the translation stopped. */
  datatype Reason =
    | UndefinedFunction | ArgumentCount | ArgumentType | UnexpectedDimensionList | UnexpectedUnit
    | ExpectedDimensionList | TooManyDimensions | UnknownDimensionType | NoArguments
    | StringOperator | MixedList | TargetDataset

  /**
   * An error: one reported at the byte offset of a node, the refusal of an
   * operation constructor, or a dimension name harp_parse_dimension_type
   * refused (which reports its own error).
   */
  datatype Error = At(reason: Reason, position: int) | Rejected(operation: Operation) | DimensionNotParsed(name: string)

  /**
   * The collaborators: harp_parse_dimension_type, the checks of the
   * operation constructors (an operation they refuse fails the translation),
   * and the cast of a double to uint32_t in the bit-mask test.
   */
  datatype Env = Env(parseDimension: string -> Option<DimType>, accepts: Operation -> bool, toMask: FloatValue -> int)

  /** Handing an operation to its constructor. */
  function Construct(op: Operation, env: Env): (r: Result<Operation, Error>)
    ensures r.Success? <==> env.accepts(op)
    ensures r.Success? ==> r.value == op
  {
    if env.accepts(op) then Success(op) else Failure(Rejected(op))
  }

  // ---------------------------------------------------------------------
  // The builtin function table
  // ---------------------------------------------------------------------

  /** The create_* function a table entry dispatches to. */
  datatype Creator =
    | CollocateLeft | CollocateRight | ValidRange | LongitudeRange | PointDistance
    | CoversPoint | CoversArea | IntersectsArea | Derive | Keep | Exclude
    | RegridFn | RegridCollocatedFn | FlattenFn

  /** function_prototype: a variadic function has numArguments -1 and no argument types. */
  datatype Prototype = Prototype(name: string, numArguments: int, argumentTypes: seq<NodeType>, create: Creator)

  /** builtin_function, in the order of the source. */
  const Builtins: seq<Prototype> := [
    Prototype("collocate-left", 1, [StringLiteral], CollocateLeft),
    Prototype("collocate-right", 1, [StringLiteral], CollocateRight),
    Prototype("valid", 1, [QualifiedName], ValidRange),
    Prototype("longitude-range", 2, [Quantity, Quantity], LongitudeRange),
    Prototype("point-distance", 3, [Quantity, Quantity, Quantity], PointDistance),
    Prototype("area-mask-covers-point", 1, [StringLiteral], CoversPoint),
    Prototype("area-mask-covers-area", 1, [StringLiteral], CoversArea),
    Prototype("area-mask-intersects-area", 2, [StringLiteral, Quantity], IntersectsArea),
    Prototype("derive", 1, [QualifiedName], Derive),
    Prototype("keep", -1, [], Keep),
    Prototype("exclude", -1, [], Exclude),
    Prototype("regrid", 1, [StringLiteral], RegridFn),
    Prototype("regrid_collocated", 4, [StringLiteral, StringLiteral, QualifiedName, QualifiedName],
              RegridCollocatedFn),
    Prototype("flatten", 1, [QualifiedName], FlattenFn)
  ]

  /** The first entry from index i on whose name is name. */
  function FindFrom(name: string, i: int): (r: Option<Prototype>)
    requires 0 <= i <= |Builtins|
    ensures r.Some? ==> exists k :: i <= k < |Builtins| && Builtins[k] == r.value && r.value.name == name
    ensures r.None? <==> forall k :: i <= k < |Builtins| ==> Builtins[k].name != name
    decreases |Builtins| - i
  {
    if i == |Builtins| then None
    else if Builtins[i].name == name then Some(Builtins[i])
    else FindFrom(name, i + 1)
  }

  /** get_function_prototype_by_name: the entry whose name is name, if any. */
  function FindPrototype(name: string): (r: Option<Prototype>)
    ensures r.Some? ==> r.value in Builtins && r.value.name == name
    ensures r.None? <==> forall k :: 0 <= k < |Builtins| ==> Builtins[k].name != name
  {
    FindFrom(name, 0)
  }

  /**
   * The table has 14 entries with distinct names: no two names agree in both
   * length and first letter.
   */
  lemma BuiltinsWellFormed()
    ensures |Builtins| == 14
    ensures forall i, j :: 0 <= i < j < |Builtins| ==> Builtins[i].name != Builtins[j].name
  {
    forall i, j | 0 <= i < j < |Builtins|
      ensures Builtins[i].name != Builtins[j].name
    {
      var a, b := Builtins[i].name, Builtins[j].name;
      assert |a| != |b| || a[0] != b[0];
    }
  }

  /** A fixed arity is the number of argument types; a variadic entry has arity -1 and none. */
  lemma BuiltinArities()
    ensures forall k :: 0 <= k < |Builtins| ==>
      (Builtins[k].numArguments >= 0 && Builtins[k].numArguments == |Builtins[k].argumentTypes|) ||
      (Builtins[k].numArguments == -1 && Builtins[k].argumentTypes == [])
  {
  }

  /** Looking up the name of an entry finds that entry. */
  lemma LookupFindsEntry(k: int)
    requires 0 <= k < |Builtins|
    ensures FindPrototype(Builtins[k].name) == Some(Builtins[k])
  {
    BuiltinsWellFormed();
  }

  // ---------------------------------------------------------------------
  // Checks on single nodes
  // ---------------------------------------------------------------------

  /** The children of a list node all have the kind of the list's first child, from index i on. */
  function SameKindFrom(c: seq<Node>, i: int): (r: bool)
    requires 0 < |c| && 0 <= i <= |c| && forall k :: 0 <= k < |c| ==> c[k].Ast?
    ensures r <==> forall k :: i <= k < |c| ==> c[k].kind == c[0].kind
    decreases |c| - i
  {
    if i == |c| then true
    else if c[i].kind != c[0].kind then false
    else SameKindFrom(c, i + 1)
  }

  /**
   * is_homogeneous_list: whether n is a list whose elements are all of one
   * kind. An empty list is homogeneous; a node that is no list is not.
   */
  function IsHomogeneousList(n: Node): (r: bool)
    requires n.Ast? && forall k :: 0 <= k < |n.children| ==> n.children[k].Ast?
    ensures r <==> n.kind == List && forall i, j :: 0 <= i < |n.children| && 0 <= j < |n.children| ==>
                     n.children[i].kind == n.children[j].kind
  {
    if n.kind != List then false
    else if |n.children| == 0 then true
    else SameKindFrom(n.children, 1)
  }

  /** verify_qualified_name_has_no_qualifiers: the dimension list is reported before the unit. */
  function NoQualifiers(n: Node): (r: Result<(), Error>)
    requires WfQualifiedName(n)
    ensures r.Success? <==> n.children[1].Absent? && n.children[2].Absent?
    ensures n.children[1].Ast? ==> r == Failure(At(UnexpectedDimensionList, n.children[1].position))
    ensures n.children[1].Absent? && n.children[2].Ast? ==> r == Failure(At(UnexpectedUnit, n.children[2].position))
  {
    if n.children[1].Ast? then Failure(At(UnexpectedDimensionList, n.children[1].position))
    else if n.children[2].Ast? then Failure(At(UnexpectedUnit, n.children[2].position))
    else Success(())
  }

  /** verify_quantity_has_no_unit. */
  function NoUnit(n: Node): (r: Result<(), Error>)
    requires WfQuantity(n)
    ensures r.Success? <==> n.children[1].Absent?
    ensures r.Failure? ==> r.error == At(UnexpectedUnit, n.children[1].position)
  {
    if n.children[1].Ast? then Failure(At(UnexpectedUnit, n.children[1].position)) else Success(())
  }

  /** The dimension types of names c[i..], or the first name harp_parse_dimension_type refuses. */
  function ParseDimensions(c: seq<Node>, i: int, env: Env): (r: Result<seq<DimType>, Error>)
    requires 0 <= i <= |c| && forall k :: 0 <= k < |c| ==> IsText(c[k], Name)
    ensures r.Success? <==> forall k :: i <= k < |c| ==> env.parseDimension(TextOf(c[k])).Some?
    ensures r.Success? ==> (|r.value| == |c| - i &&
      forall k :: i <= k < |c| ==> env.parseDimension(TextOf(c[k])) == Some(r.value[k - i]))
    ensures r.Failure? ==>
      exists k :: i <= k < |c| && env.parseDimension(TextOf(c[k])).None? &&
        r.error == At(UnknownDimensionType, PositionOf(c[k])) &&
        forall m :: i <= m < k ==> env.parseDimension(TextOf(c[m])).Some?
    decreases |c| - i
  {
    if i == |c| then Success([])
    else match env.parseDimension(TextOf(c[i]))
      case None => Failure(At(UnknownDimensionType, PositionOf(c[i])))
      case Some(t) =>
        match ParseDimensions(c, i + 1, env)
        case Failure(e) => Failure(e)
        case Success(ts) => Success([t] + ts)
  }

  /**
   * get_dimension_list: at most MaxNumDims names, each a dimension type. Too
   * many names is reported at the first name beyond the limit.
   */
  function DimensionListOf(n: Node, env: Env): (r: Result<seq<DimType>, Error>)
    requires WfDimensionList(n)
    ensures |n.children| > MaxNumDims ==> r == Failure(At(TooManyDimensions, n.children[MaxNumDims].position))
    ensures r.Success? ==> (|r.value| == |n.children| <= MaxNumDims &&
      forall k :: 0 <= k < |n.children| ==> env.parseDimension(TextOf(n.children[k])) == Some(r.value[k]))
    ensures r.Success? <==> (|n.children| <= MaxNumDims &&
      forall k :: 0 <= k < |n.children| ==> env.parseDimension(TextOf(n.children[k])).Some?)
  {
    if |n.children| > MaxNumDims then Failure(At(TooManyDimensions, n.children[MaxNumDims].position))
    else ParseDimensions(n.children, 0, env)
  }

  // ---------------------------------------------------------------------
  // The create_* functions of the table
  // ---------------------------------------------------------------------

  /** An argument list whose arguments are well formed. */
  predicate WfArguments(args: Node)
  {
    args.Ast? && args.kind == ArgumentList && forall k :: 0 <= k < |args.children| ==> WfArgument(args.children[k])
  }

  /** A well-formed argument list whose arguments have the given kinds, as a prototype's check leaves it. */
  predicate ArgsMatch(args: Node, kinds: seq<NodeType>)
  {
    WfArguments(args) && |args.children| == |kinds| &&
    forall k :: 0 <= k < |kinds| ==> args.children[k].kind == kinds[k]
  }

  /** The text of the name of a qualified name. */
  function NameOf(qn: Node): string
  {
    if qn.Ast? && 0 < |qn.children| then TextOf(qn.children[0]) else ""
  }

  function CollocationOf(args: Node, side: CollocationSide, env: Env): Result<Operation, Error>
    requires ArgsMatch(args, [StringLiteral])
  {
    Construct(CollocationFilter(TextOf(args.children[0]), side), env)
  }

  /** create_valid_range_filter: the variable is a plain name. */
  function ValidRangeOf(args: Node, env: Env): (r: Result<Operation, Error>)
    requires ArgsMatch(args, [QualifiedName])
    ensures !Selectable(args.children[0]) ==> r == Failure(SelectError(args.children[0]))
    ensures r.Success? ==>
      Selectable(args.children[0]) && env.accepts(r.value) && r.value == ValidRangeFilter(NameOf(args.children[0]))
  {
    var qn := args.children[0];
    match NoQualifiers(qn)
    case Failure(e) => Failure(e)
    case Success(_) => Construct(ValidRangeFilter(NameOf(qn)), env)
  }

  function LongitudeRangeOf(args: Node, env: Env): Result<Operation, Error>
    requires ArgsMatch(args, [Quantity, Quantity])
  {
    var lo := args.children[0];
    var hi := args.children[1];
    Construct(LongitudeRangeFilter(NumberOf(lo.children[0]), UnitOf(lo.children[1]),
                                   NumberOf(hi.children[0]), UnitOf(hi.children[1])), env)
  }

  function PointDistanceOf(args: Node, env: Env): Result<Operation, Error>
    requires ArgsMatch(args, [Quantity, Quantity, Quantity])
  {
    var lon := args.children[0];
    var lat := args.children[1];
    var dist := args.children[2];
    Construct(PointDistanceFilter(NumberOf(lon.children[0]), UnitOf(lon.children[1]),
                                  NumberOf(lat.children[0]), UnitOf(lat.children[1]),
                                  NumberOf(dist.children[0]), UnitOf(dist.children[1])), env)
  }

  /**
   * create_area_mask_intersects_area_filter: the percentage is a plain
   * number; a unit on it is refused at the unit's offset.
   */
  function IntersectsAreaOf(args: Node, env: Env): (r: Result<Operation, Error>)
    requires ArgsMatch(args, [StringLiteral, Quantity])
    ensures args.children[1].children[1].Ast? ==>
      r == Failure(At(UnexpectedUnit, args.children[1].children[1].position))
    ensures r.Success? ==>
      args.children[1].children[1].Absent? && env.accepts(r.value) &&
      r.value == AreaMaskIntersectsAreaFilter(TextOf(args.children[0]), NumberOf(args.children[1].children[0]))
  {
    var quantity := args.children[1];
    match NoUnit(quantity)
    case Failure(e) => Failure(e)
    case Success(_) =>
      Construct(AreaMaskIntersectsAreaFilter(TextOf(args.children[0]), NumberOf(quantity.children[0])), env)
  }

  /**
   * create_variable_derivation: the qualified name must carry a dimension
   * list (at most MaxNumDims known dimension names); its unit, if any, is
   * the target unit.
   */
  function DerivationOf(args: Node, env: Env): (r: Result<Operation, Error>)
    requires ArgsMatch(args, [QualifiedName])
    ensures args.children[0].children[1].Absent? ==>
      r == Failure(At(ExpectedDimensionList, args.children[0].position))
    ensures args.children[0].children[1].Ast? && |args.children[0].children[1].children| > MaxNumDims ==>
      r == Failure(At(TooManyDimensions, args.children[0].children[1].children[MaxNumDims].position))
    ensures r.Success? ==>
      var qn := args.children[0];
      var names := qn.children[1].children;
      qn.children[1].Ast? && |names| <= MaxNumDims && env.accepts(r.value) &&
      r.value.VariableDerivation? && r.value.variable == NameOf(qn) && r.value.unit == UnitOf(qn.children[2]) &&
      |r.value.dimensions| == |names| &&
      forall k :: 0 <= k < |names| ==> env.parseDimension(TextOf(names[k])) == Some(r.value.dimensions[k])
  {
    var qn := args.children[0];
    if qn.children[1].Absent? then Failure(At(ExpectedDimensionList, qn.position))
    else match DimensionListOf(qn.children[1], env)
      case Failure(e) => Failure(e)
      case Success(dims) => Construct(VariableDerivation(NameOf(qn), dims, UnitOf(qn.children[2])), env)
  }

  /** An argument keep and exclude take: a qualified name without dimension list and unit. */
  predicate Selectable(a: Node)
  {
    WfQualifiedName(a) && a.children[1].Absent? && a.children[2].Absent?
  }

  /** The error keep and exclude report for an argument that is not Selectable. */
  function SelectError(a: Node): Error
    requires WfArgument(a)
  {
    if a.kind != QualifiedName then At(ArgumentType, a.position)
    else if a.children[1].Ast? then At(UnexpectedDimensionList, a.children[1].position)
    else At(UnexpectedUnit, PositionOf(a.children[2]))
  }

  /** The argument check of keep and exclude from argument i on: the first argument that fails it. */
  function CheckSelection(c: seq<Node>, i: int): (r: Result<(), Error>)
    requires 0 <= i <= |c| && forall k :: 0 <= k < |c| ==> WfArgument(c[k])
    ensures r.Success? <==> forall k :: i <= k < |c| ==> Selectable(c[k])
    ensures r.Failure? ==>
      exists k :: i <= k < |c| && !Selectable(c[k]) && r.error == SelectError(c[k]) &&
        forall m :: i <= m < k ==> Selectable(c[m])
    decreases |c| - i
  {
    if i == |c| then Success(())
    else
      assert WfArgument(c[i]);
      if c[i].kind != QualifiedName then Failure(At(ArgumentType, c[i].position))
      else match NoQualifiers(c[i])
        case Failure(e) => Failure(e)
        case Success(_) => CheckSelection(c, i + 1)
  }

  /** The names of the arguments, in argument order. */
  function Names(c: seq<Node>): (names: seq<string>)
    requires forall k :: 0 <= k < |c| ==> Selectable(c[k])
    ensures |names| == |c| && forall k :: 0 <= k < |c| ==> names[k] == NameOf(c[k])
  {
    seq(|c|, k requires 0 <= k < |c| => NameOf(c[k]))
  }

  /**
   * create_variable_inclusion and create_variable_exclusion: one or more
   * arguments, each a qualified name without qualifiers; the names keep the
   * order of the arguments.
   */
  function SelectionOf(args: Node, exclude: bool, env: Env): Result<Operation, Error>
    requires WfArguments(args)
  {
    var c := args.children;
    if |c| == 0 then Failure(At(NoArguments, args.position))
    else match CheckSelection(c, 0)
      case Failure(e) => Failure(e)
      case Success(_) => Construct(if exclude then VariableExclusion(Names(c)) else VariableInclusion(Names(c)), env)
  }

  /**
   * keep and exclude succeed exactly for a non-empty list of unqualified
   * names that the constructor accepts, and then list the names in order;
   * otherwise the error is the one for the first argument that fails.
   */
  lemma SelectionSpec(args: Node, exclude: bool, env: Env)
    requires WfArguments(args)
    ensures var c := args.children;
      var r := SelectionOf(args, exclude, env);
      (|c| == 0 ==> r == Failure(At(NoArguments, args.position))) &&
      (r.Success? <==> 0 < |c| && (forall k :: 0 <= k < |c| ==> Selectable(c[k])) &&
                       env.accepts(if exclude then VariableExclusion(Names(c)) else VariableInclusion(Names(c)))) &&
      (r.Success? ==> r.value.names == Names(c) && (r.value.VariableExclusion? <==> exclude)) &&
      (r.Failure? && 0 < |c| && (exists k :: 0 <= k < |c| && !Selectable(c[k])) ==>
         exists k :: 0 <= k < |c| && !Selectable(c[k]) && r.error == SelectError(c[k]) &&
           forall m :: 0 <= m < k ==> Selectable(c[m]))
  {
    var c := args.children;
    if 0 < |c| {
      var check := CheckSelection(c, 0);
    }
  }

  function RegridOf(args: Node, env: Env): Result<Operation, Error>
    requires ArgsMatch(args, [StringLiteral])
  {
    Construct(Regrid(TextOf(args.children[0])), env)
  }

  /** The first character of a target dataset name of at most one character ('\0' for ""). */
  function FirstChar(t: string): char
  {
    if |t| == 0 then '\0' else t[0]
  }

  /**
   * create_regrid_collocated as the source writes it: the results of the
   * two qualifier checks are discarded, so a target dataset or vertical axis
   * with a dimension list or unit goes through. A target dataset name longer
   * than one character is refused.
   */
  function RegridCollocatedAsWritten(args: Node, env: Env): (r: Result<Operation, Error>)
    requires ArgsMatch(args, [StringLiteral, StringLiteral, QualifiedName, QualifiedName])
    ensures |NameOf(args.children[2])| > 1 ==>
      r == Failure(At(TargetDataset, args.children[2].children[0].position))
  {
    var target := NameOf(args.children[2]);
    if |target| > 1 then Failure(At(TargetDataset, args.children[2].children[0].position))
    else Construct(RegridCollocated(TextOf(args.children[0]), TextOf(args.children[1]), FirstChar(target),
                                    NameOf(args.children[3])), env)
  }

  /**
   * create_regrid_collocated with the qualifier checks honoured, as every
   * other qualified-name argument is treated: the target dataset and the
   * vertical axis are plain names.
   */
  function RegridCollocatedOf(args: Node, env: Env): (r: Result<Operation, Error>)
    requires ArgsMatch(args, [StringLiteral, StringLiteral, QualifiedName, QualifiedName])
    ensures r.Success? ==>
      Selectable(args.children[2]) && Selectable(args.children[3]) &&
      |NameOf(args.children[2])| <= 1 && env.accepts(r.value) &&
      r.value == RegridCollocated(TextOf(args.children[0]), TextOf(args.children[1]),
                                  FirstChar(NameOf(args.children[2])), NameOf(args.children[3]))
    ensures !Selectable(args.children[2]) ==> r == Failure(SelectError(args.children[2]))
  {
    match NoQualifiers(args.children[2])
    case Failure(e) => Failure(e)
    case Success(_) =>
      match NoQualifiers(args.children[3])
      case Failure(e) => Failure(e)
      case Success(_) => RegridCollocatedAsWritten(args, env)
  }

  /** The target dataset a{time}: the name a with the dimension list {time}. */
  function QualifiedTarget(): (n: Node)
    ensures WfQualifiedName(n) && NameOf(n) == "a" && n.children[1].Ast? && n.children[1].position == 31
  {
    Ast(QualifiedName, NoPayload, 30, [Ast(Name, Text("a"), 30, []),
                                      Ast(DimensionList, NoPayload, 31, [Ast(Name, Text("time"), 32, [])]),
                                      Absent])
  }

  /** The arguments of regrid_collocated("result.csv", "data", a{time}, altitude). */
  function QualifiedTargetArgs(): Node
  {
    var axis := Ast(QualifiedName, NoPayload, 38, [Ast(Name, Text("altitude"), 38, []), Absent, Absent]);
    var c := [Ast(StringLiteral, Text("result.csv"), 18, []), Ast(StringLiteral, Text("data"), 25, []),
              QualifiedTarget(), axis];
    Ast(ArgumentList, NoPayload, 17, c)
  }

  /**
   * regrid_collocated("result.csv", "data", a{time}, altitude) is accepted
   * as written, although the target dataset carries a dimension list;
   * honouring the checks refuses it at the dimension list.
   */
  lemma QualifiedTargetAccepted(env: Env)
    requires env.accepts(RegridCollocated("result.csv", "data", 'a', "altitude"))
    ensures RegridCollocatedAsWritten(QualifiedTargetArgs(), env) ==
      Success(RegridCollocated("result.csv", "data", 'a', "altitude"))
    ensures RegridCollocatedOf(QualifiedTargetArgs(), env) == Failure(At(UnexpectedDimensionList, 31))
  {
    var args := QualifiedTargetArgs();
    assert FirstChar(NameOf(args.children[2])) == 'a';
  }

  /**
   * create_flatten: the dimension is a plain name that
   * harp_parse_dimension_type accepts.
   */
  function FlattenOf(args: Node, env: Env): (r: Result<Operation, Error>)
    requires ArgsMatch(args, [QualifiedName])
    ensures !Selectable(args.children[0]) ==> r == Failure(SelectError(args.children[0]))
    ensures Selectable(args.children[0]) && env.parseDimension(NameOf(args.children[0])).None? ==>
      r == Failure(DimensionNotParsed(NameOf(args.children[0])))
    ensures r.Success? ==>
      Selectable(args.children[0]) && env.accepts(r.value) && r.value.Flatten? &&
      env.parseDimension(NameOf(args.children[0])) == Some(r.value.dimension)
  {
    var qn := args.children[0];
    match NoQualifiers(qn)
    case Failure(e) => Failure(e)
    case Success(_) =>
      match env.parseDimension(NameOf(qn))
      case None => Failure(DimensionNotParsed(NameOf(qn)))
      case Some(t) => Construct(Flatten(t), env)
  }

  // ---------------------------------------------------------------------
  // Calls of builtin functions
  // ---------------------------------------------------------------------

  /** The first argument from index i on whose kind is not the one the prototype prescribes. */
  function FirstMismatch(c: seq<Node>, kinds: seq<NodeType>, i: int): (r: Option<int>)
    requires |c| == |kinds| && 0 <= i <= |c| && forall k :: 0 <= k < |c| ==> c[k].Ast?
    ensures r.None? <==> forall k :: i <= k < |c| ==> c[k].kind == kinds[k]
    ensures r.Some? ==>
      i <= r.value < |c| && c[r.value].kind != kinds[r.value] &&
      forall m :: i <= m < r.value ==> c[m].kind == kinds[m]
    decreases |c| - i
  {
    if i == |c| then None
    else if c[i].kind != kinds[i] then Some(i)
    else FirstMismatch(c, kinds, i + 1)
  }

  /**
   * A prototype whose arity and argument kinds are those its create_*
   * function reads: keep and exclude are variadic, every other entry has
   * as many argument kinds as arguments.
   */
  predicate Coherent(p: Prototype)
  {
    (p.numArguments < 0 <==> p.create == Keep || p.create == Exclude) &&
    (p.numArguments >= 0 ==> p.numArguments == |p.argumentTypes|) &&
    ((p.create == CollocateLeft || p.create == CollocateRight || p.create == CoversPoint ||
      p.create == CoversArea || p.create == RegridFn) ==> p.argumentTypes == [StringLiteral]) &&
    ((p.create == ValidRange || p.create == Derive || p.create == FlattenFn) ==> p.argumentTypes == [QualifiedName]) &&
    (p.create == LongitudeRange ==> p.argumentTypes == [Quantity, Quantity]) &&
    (p.create == PointDistance ==> p.argumentTypes == [Quantity, Quantity, Quantity]) &&
    (p.create == IntersectsArea ==> p.argumentTypes == [StringLiteral, Quantity]) &&
    (p.create == RegridCollocatedFn ==> p.argumentTypes == [StringLiteral, StringLiteral, QualifiedName, QualifiedName])
  }

  /** Every entry of the table is coherent. */
  lemma EntryKinds(p: Prototype)
    requires p in Builtins
    ensures Coherent(p)
  {
    var i :| 0 <= i < |Builtins| && Builtins[i] == p;
    if i < 7 {
      assert i == 0 || i == 1 || i == 2 || i == 3 || i == 4 || i == 5 || i == 6;
    } else {
      assert i == 7 || i == 8 || i == 9 || i == 10 || i == 11 || i == 12 || i == 13;
    }
  }

  /** Calling the create_* function of a table entry on arguments that passed the entry's check. */
  function CreateWith(p: Prototype, args: Node, env: Env): Result<Operation, Error>
    requires Coherent(p) && WfArguments(args)
    requires p.numArguments >= 0 ==> ArgsMatch(args, p.argumentTypes)
  {
    match p.create
    case CollocateLeft => CollocationOf(args, LeftSide, env)
    case CollocateRight => CollocationOf(args, RightSide, env)
    case ValidRange => ValidRangeOf(args, env)
    case LongitudeRange => LongitudeRangeOf(args, env)
    case PointDistance => PointDistanceOf(args, env)
    case CoversPoint => Construct(AreaMaskCoversPointFilter(TextOf(args.children[0])), env)
    case CoversArea => Construct(AreaMaskCoversAreaFilter(TextOf(args.children[0])), env)
    case IntersectsArea => IntersectsAreaOf(args, env)
    case Derive => DerivationOf(args, env)
    case Keep => SelectionOf(args, false, env)
    case Exclude => SelectionOf(args, true, env)
    case RegridFn => RegridOf(args, env)
    case RegridCollocatedFn => RegridCollocatedOf(args, env)
    case FlattenFn => FlattenOf(args, env)
  }

  /**
   * The argument check of a table entry: for a fixed arity, a wrong number
   * of arguments is reported at the argument list and otherwise the first
   * argument of the wrong kind at that argument; variadic entries check
   * nothing here.
   */
  function ArgumentCheck(p: Prototype, args: Node): (e: Option<Error>)
    requires p.numArguments >= 0 ==> p.numArguments == |p.argumentTypes|
    requires WfArguments(args)
    ensures e.None? <==> p.numArguments < 0 || ArgsMatch(args, p.argumentTypes)
    ensures 0 <= p.numArguments && |args.children| != p.numArguments ==>
      e == Some(At(ArgumentCount, args.position))
  {
    if p.numArguments < 0 then None
    else if |args.children| != p.numArguments then Some(At(ArgumentCount, args.position))
    else
      match FirstMismatch(args.children, p.argumentTypes, 0)
      case Some(k) => Some(At(ArgumentType, args.children[k].position))
      case None => None
  }

  /** With the right number of arguments, the first argument of the wrong kind is the one reported. */
  lemma ArgumentCheckReportsFirst(p: Prototype, args: Node, k: int)
    requires p.numArguments >= 0 ==> p.numArguments == |p.argumentTypes|
    requires WfArguments(args) && 0 <= p.numArguments && |args.children| == p.numArguments
    requires 0 <= k < |args.children| && args.children[k].kind != p.argumentTypes[k]
    requires forall m :: 0 <= m < k ==> args.children[m].kind == p.argumentTypes[m]
    ensures ArgumentCheck(p, args) == Some(At(ArgumentType, args.children[k].position))
  {
    assert FirstMismatch(args.children, p.argumentTypes, 0) == Some(k);
  }

  /** A call through a table entry: its argument check, then its create_* function. */
  function ApplyPrototype(p: Prototype, args: Node, env: Env): Result<Operation, Error>
    requires Coherent(p) && WfArguments(args)
  {
    match ArgumentCheck(p, args)
    case Some(e) => Failure(e)
    case None => CreateWith(p, args, env)
  }

  /**
   * operation_from_function_call: an unknown function name is reported at
   * the name; otherwise the entry of that name checks and creates.
   */
  function CallOf(node: Node, env: Env): (r: Result<Operation, Error>)
    requires WfFunctionCall(node)
    ensures FindPrototype(TextOf(node.children[0])).None? ==>
      r == Failure(At(UndefinedFunction, node.children[0].position))
    ensures FindPrototype(TextOf(node.children[0])).Some? ==>
      var p, args := FindPrototype(TextOf(node.children[0])).value, node.children[1];
      Coherent(p) &&
      (r.Success? ==> p.numArguments < 0 || ArgsMatch(args, p.argumentTypes)) &&
      (0 <= p.numArguments && |args.children| != p.numArguments ==> r == Failure(At(ArgumentCount, args.position)))
  {
    assert WfArguments(node.children[1]);
    match FindPrototype(TextOf(node.children[0]))
    case None => Failure(At(UndefinedFunction, node.children[0].position))
    case Some(p) =>
      EntryKinds(p);
      ApplyPrototype(p, node.children[1], env)
  }

  // ---------------------------------------------------------------------
  // Comparisons, bit-mask tests and membership tests
  // ---------------------------------------------------------------------

  /** get_operator_type. */
  function OperatorOf(k: NodeType): ComparisonOp
    requires IsComparisonKind(k)
  {
    match k
    case Eq => OpEq
    case Ne => OpNe
    case Lt => OpLt
    case Le => OpLe
    case Gt => OpGt
    case Ge => OpGe
  }

  /**
   * create_comparison: a string operand admits only == and !=; a number is
   * compared without unit and a quantity with its optional unit.
   */
  function ComparisonOf(n: Node, env: Env): (r: Result<Operation, Error>)
    requires WfComparison(n)
    ensures IsText(n.children[1], StringLiteral) && n.kind != Eq && n.kind != Ne ==>
      r == Failure(At(StringOperator, n.position))
    ensures r.Success? ==>
      (r.value.StringComparisonFilter? || r.value.ComparisonFilter?) &&
      env.accepts(r.value) && r.value.variable == TextOf(n.children[0]) && r.value.op == OperatorOf(n.kind) &&
      (r.value.StringComparisonFilter? <==> IsText(n.children[1], StringLiteral))
    ensures r.Success? && r.value.StringComparisonFilter? ==>
      (n.kind == Eq || n.kind == Ne) && r.value.text == TextOf(n.children[1])
    ensures r.Success? && IsNumber(n.children[1]) ==>
      r.value.ComparisonFilter? && r.value.value == NumberOf(n.children[1]) && r.value.unit.None?
    ensures r.Success? && WfQuantity(n.children[1]) ==>
      r.value.ComparisonFilter? && r.value.value == NumberOf(n.children[1].children[0]) &&
      r.value.unit == UnitOf(n.children[1].children[1])
  {
    var name := TextOf(n.children[0]);
    var operand := n.children[1];
    if operand.kind == StringLiteral then
      if n.kind != Eq && n.kind != Ne then Failure(At(StringOperator, n.position))
      else Construct(StringComparisonFilter(name, OperatorOf(n.kind), TextOf(operand)), env)
    else if operand.kind == NumberLiteral then
      Construct(ComparisonFilter(name, OperatorOf(n.kind), NumberOf(operand), None), env)
    else
      Construct(ComparisonFilter(name, OperatorOf(n.kind), NumberOf(operand.children[0]),
                                 UnitOf(operand.children[1])), env)
  }

  /** create_bit_mask_test: the mask is the number cast to uint32_t. */
  function BitMaskOf(n: Node, env: Env): Result<Operation, Error>
    requires WfBitMask(n)
  {
    Construct(BitMaskFilter(TextOf(n.children[0]), n.kind == BitMaskAny, env.toMask(NumberOf(n.children[1]))), env)
  }

  /** The texts of string nodes, in order. */
  function Texts(c: seq<Node>): (texts: seq<string>)
    ensures |texts| == |c| && forall k :: 0 <= k < |c| ==> texts[k] == TextOf(c[k])
  {
    seq(|c|, k requires 0 <= k < |c| => TextOf(c[k]))
  }

  /** The numbers of number nodes, in order. */
  function Numbers(c: seq<Node>): (values: seq<FloatValue>)
    ensures |values| == |c| && forall k :: 0 <= k < |c| ==> values[k] == NumberOf(c[k])
  {
    seq(|c|, k requires 0 <= k < |c| => NumberOf(c[k]))
  }

  /**
   * create_membership_test: a list of strings admits no unit (checked
   * first), the list must be of one kind, and the values keep their order.
   */
  function MembershipOf(n: Node, env: Env): (r: Result<Operation, Error>)
    requires WfMembership(n)
    ensures var c := n.children[1].children;
      IsText(c[0], StringLiteral) && n.children[2].Ast? ==> r == Failure(At(UnexpectedUnit, n.children[2].position))
    ensures var c := n.children[1].children;
      (IsNumber(c[0]) || n.children[2].Absent?) && (exists k :: 0 <= k < |c| && c[k].kind != c[0].kind) ==>
        r == Failure(At(MixedList, n.children[1].position))
    ensures var c := n.children[1].children;
      r.Success? ==>
        (r.value.StringMembershipFilter? || r.value.MembershipFilter?) &&
        env.accepts(r.value) && r.value.variable == TextOf(n.children[0]) && r.value.isIn == (n.kind == In) &&
        (forall k :: 0 <= k < |c| ==> c[k].kind == c[0].kind) &&
        (r.value.StringMembershipFilter? <==> IsText(c[0], StringLiteral))
    ensures var c := n.children[1].children;
      r.Success? && r.value.StringMembershipFilter? ==>
        n.children[2].Absent? && |r.value.texts| == |c| &&
        forall k :: 0 <= k < |c| ==> IsText(c[k], StringLiteral) && r.value.texts[k] == TextOf(c[k])
    ensures var c := n.children[1].children;
      r.Success? && r.value.MembershipFilter? ==>
        r.value.unit == UnitOf(n.children[2]) && |r.value.values| == |c| &&
        forall k :: 0 <= k < |c| ==> IsNumber(c[k]) && r.value.values[k] == NumberOf(c[k])
  {
    var list := n.children[1];
    var c := list.children;
    var unit := n.children[2];
    assert IsText(c[0], StringLiteral) || IsNumber(c[0]);
    if c[0].kind == StringLiteral && unit.Ast? then Failure(At(UnexpectedUnit, unit.position))
    else if !IsHomogeneousList(list) then Failure(At(MixedList, list.position))
    else if c[0].kind == StringLiteral then
      Construct(StringMembershipFilter(TextOf(n.children[0]), n.kind == In, Texts(c)), env)
    else
      Construct(MembershipFilter(TextOf(n.children[0]), n.kind == In, Numbers(c), UnitOf(unit)), env)
  }

  // ---------------------------------------------------------------------
  // Programs
  // ---------------------------------------------------------------------

  /** The operation of one top-level expression, chosen by the kind of its node as create_program does. */
  function OperationOf(n: Node, env: Env): Result<Operation, Error>
    requires WfExpression(n)
  {
    if n.kind == FunctionCall then CallOf(n, env)
    else if n.kind == In || n.kind == NotIn then MembershipOf(n, env)
    else if n.kind == BitMaskAny || n.kind == BitMaskNone then BitMaskOf(n, env)
    else ComparisonOf(n, env)
  }

  /** The outcome of each expression, in order. */
  function Outcomes(c: seq<Node>, env: Env): (rs: seq<Result<Operation, Error>>)
    requires forall k :: 0 <= k < |c| ==> WfExpression(c[k])
    ensures |rs| == |c| && forall k :: 0 <= k < |c| ==> rs[k] == OperationOf(c[k], env)
  {
    seq(|c|, k requires 0 <= k < |c| => OperationOf(c[k], env))
  }

  /**
   * Collecting outcomes into a program: all operations in order, or the
   * error of the first outcome that failed.
   */
  function Collect(rs: seq<Result<Operation, Error>>): (r: Result<seq<Operation>, Error>)
    ensures r.Success? <==> forall k :: 0 <= k < |rs| ==> rs[k].Success?
    ensures r.Success? ==> |r.value| == |rs| && forall k :: 0 <= k < |rs| ==> r.value[k] == rs[k].value
    ensures r.Failure? ==>
      exists k :: 0 <= k < |rs| && rs[k].Failure? && r.error == rs[k].error &&
        forall m :: 0 <= m < k ==> rs[m].Success?
  {
    if |rs| == 0 then Success([])
    else
      match Collect(rs[..|rs| - 1])
      case Failure(e) => Failure(e)
      case Success(ops) =>
        match rs[|rs| - 1]
        case Failure(e) => Failure(e)
        case Success(op) => Success(ops + [op])
  }

  /** Collecting one more outcome: a failure stops the program, a success appends its operation. */
  lemma CollectStep(rs: seq<Result<Operation, Error>>, i: int, ops: seq<Operation>)
    requires 0 <= i < |rs| && Collect(rs[..i]) == Success(ops)
    ensures rs[i].Failure? ==> Collect(rs[..i + 1]) == Failure(rs[i].error)
    ensures rs[i].Success? ==> Collect(rs[..i + 1]) == Success(ops + [rs[i].value])
  {
    assert rs[..i + 1][..i] == rs[..i];
  }

  /** Once a prefix of the outcomes fails, the outcomes after it change nothing. */
  lemma {:induction false} CollectPrefixFailure(rs: seq<Result<Operation, Error>>, i: int)
    requires 0 <= i <= |rs| && Collect(rs[..i]).Failure?
    ensures Collect(rs) == Collect(rs[..i])
    decreases |rs|
  {
    if i < |rs| {
      var front := rs[..|rs| - 1];
      assert front[..i] == rs[..i];
      CollectPrefixFailure(front, i);
    } else {
      assert rs[..i] == rs;
    }
  }

  /**
   * create_program: the program of the top-level expressions of a parsed
   * program, one operation per expression in source order, or the error of
   * the first expression that fails.
   */
  function ProgramOf(c: seq<Node>, env: Env): (r: Result<seq<Operation>, Error>)
    requires forall k :: 0 <= k < |c| ==> WfExpression(c[k])
    ensures r.Success? <==> forall k :: 0 <= k < |c| ==> OperationOf(c[k], env).Success?
    ensures r.Success? ==> |r.value| == |c| && forall k :: 0 <= k < |c| ==> r.value[k] == OperationOf(c[k], env).value
    ensures r.Failure? ==>
      exists k :: 0 <= k < |c| && OperationOf(c[k], env).Failure? && r.error == OperationOf(c[k], env).error &&
        forall m :: 0 <= m < k ==> OperationOf(c[m], env).Success?
  {
    Collect(Outcomes(c, env))
  }

  // ---------------------------------------------------------------------
  // The loops of the source, proved against the functions above
  // ---------------------------------------------------------------------

  /** get_function_prototype_by_name: a scan of the table in order. */
  method LookupPrototype(name: string) returns (r: Option<Prototype>)
    ensures r == FindPrototype(name)
  {
    for i := 0 to |Builtins|
      invariant FindFrom(name, i) == FindFrom(name, 0)
    {
      if Builtins[i].name == name {
        return Some(Builtins[i]);
      }
    }
    return None;
  }

  /** is_homogeneous_list: compares every element's kind with the first one's. */
  method HomogeneousList(n: Node) returns (r: bool)
    requires n.Ast? && forall k :: 0 <= k < |n.children| ==> n.children[k].Ast?
    ensures r == IsHomogeneousList(n)
  {
    if n.kind != List {
      return false;
    }
    if |n.children| == 0 {
      return true;
    }
    var nodeType := n.children[0].kind;
    for i := 1 to |n.children|
      invariant forall k :: 0 <= k < i ==> n.children[k].kind == nodeType
    {
      if n.children[i].kind != nodeType {
        return false;
      }
    }
    return true;
  }

  /** get_dimension_list: fills a buffer of MaxNumDims dimension types. */
  method GetDimensionList(n: Node, env: Env) returns (r: Result<seq<DimType>, Error>)
    requires WfDimensionList(n)
    ensures r == DimensionListOf(n, env)
  {
    var c := n.children;
    if |c| > MaxNumDims {
      return Failure(At(TooManyDimensions, c[MaxNumDims].position));
    }
    var dimensionType := new DimType[MaxNumDims];
    for i := 0 to |c|
      invariant forall k :: 0 <= k < i ==> env.parseDimension(TextOf(c[k])) == Some(dimensionType[k])
    {
      match env.parseDimension(TextOf(c[i]))
      case None =>
        return Failure(At(UnknownDimensionType, c[i].position));
      case Some(t) =>
        dimensionType[i] := t;
    }
    var dims := dimensionType[..|c|];
    var spec := ParseDimensions(c, 0, env);
    assert spec.Success?;
    assert forall k :: 0 <= k < |c| ==> Some(spec.value[k]) == Some(dims[k]);
    assert spec.value == dims;
    r := Success(dims);
  }

  /** create_variable_derivation, reading the dimension list with GetDimensionList. */
  method CreateVariableDerivation(args: Node, env: Env) returns (r: Result<Operation, Error>)
    requires ArgsMatch(args, [QualifiedName])
    ensures r == DerivationOf(args, env)
  {
    var qualifiedName := args.children[0];
    assert WfArgument(qualifiedName);
    if qualifiedName.children[1].Absent? {
      return Failure(At(ExpectedDimensionList, qualifiedName.position));
    }
    var dims := GetDimensionList(qualifiedName.children[1], env);
    if dims.Failure? {
      return Failure(dims.error);
    }
    r := Construct(VariableDerivation(NameOf(qualifiedName), dims.value, UnitOf(qualifiedName.children[2])), env);
  }

  /**
   * create_variable_inclusion and create_variable_exclusion: a first loop
   * checks every argument, a second one copies the names into a list.
   */
  method CreateVariableSelection(args: Node, exclude: bool, env: Env) returns (r: Result<Operation, Error>)
    requires WfArguments(args)
    ensures r == SelectionOf(args, exclude, env)
  {
    var c := args.children;
    if |c| == 0 {
      return Failure(At(NoArguments, args.position));
    }
    for i := 0 to |c|
      invariant CheckSelection(c, i) == CheckSelection(c, 0)
    {
      var argument := c[i];
      assert WfArgument(argument);
      if argument.kind != QualifiedName {
        return Failure(At(ArgumentType, argument.position));
      }
      var check := NoQualifiers(argument);
      if check.Failure? {
        return Failure(check.error);
      }
    }
    var nameList := CopyNames(c);
    if exclude {
      r := Construct(VariableExclusion(nameList), env);
    } else {
      r := Construct(VariableInclusion(nameList), env);
    }
  }

  /** The second loop of create_variable_inclusion: the names of checked arguments, in order. */
  method CopyNames(c: seq<Node>) returns (names: seq<string>)
    requires forall k :: 0 <= k < |c| ==> Selectable(c[k])
    ensures names == Names(c)
  {
    var nameList := new string[|c|];
    for i := 0 to |c|
      invariant forall k :: 0 <= k < i ==> nameList[k] == NameOf(c[k])
    {
      nameList[i] := TextOf(c[i].children[0]);
    }
    names := nameList[..];
  }

  /** create_membership_test: the values are copied into a list of strings or of numbers. */
  method CreateMembershipTest(n: Node, env: Env) returns (r: Result<Operation, Error>)
    requires WfMembership(n)
    ensures r == MembershipOf(n, env)
  {
    var isIn := n.kind == In;
    var name := TextOf(n.children[0]);
    var list := n.children[1];
    var unit := n.children[2];
    var c := list.children;
    assert IsText(c[0], StringLiteral) || IsNumber(c[0]);
    if c[0].kind == StringLiteral && unit.Ast? {
      return Failure(At(UnexpectedUnit, unit.position));
    }
    var homogeneous := HomogeneousList(list);
    if !homogeneous {
      return Failure(At(MixedList, list.position));
    }
    if c[0].kind == StringLiteral {
      var stringList := CopyTexts(c);
      r := Construct(StringMembershipFilter(name, isIn, stringList), env);
    } else {
      var doubleList := CopyNumbers(c);
      r := Construct(MembershipFilter(name, isIn, doubleList, UnitOf(unit)), env);
    }
  }

  /** The copy loop of create_membership_test for a list of strings. */
  method CopyTexts(c: seq<Node>) returns (texts: seq<string>)
    ensures texts == Texts(c)
  {
    var stringList := new string[|c|];
    for i := 0 to |c|
      invariant forall k :: 0 <= k < i ==> stringList[k] == TextOf(c[k])
    {
      stringList[i] := TextOf(c[i]);
    }
    texts := stringList[..];
  }

  /** The copy loop of create_membership_test for a list of numbers. */
  method CopyNumbers(c: seq<Node>) returns (values: seq<FloatValue>)
    ensures values == Numbers(c)
  {
    var doubleList := new FloatValue[|c|];
    for i := 0 to |c|
      invariant forall k :: 0 <= k < i ==> doubleList[k] == NumberOf(c[k])
    {
      doubleList[i] := NumberOf(c[i]);
    }
    values := doubleList[..];
  }

  /** The call through a table entry's create_* pointer. */
  method CreateFrom(p: Prototype, args: Node, env: Env) returns (r: Result<Operation, Error>)
    requires Coherent(p) && WfArguments(args)
    requires p.numArguments >= 0 ==> ArgsMatch(args, p.argumentTypes)
    ensures r == CreateWith(p, args, env)
  {
    match p.create
    case Keep =>
      r := CreateVariableSelection(args, false, env);
    case Exclude =>
      r := CreateVariableSelection(args, true, env);
    case Derive =>
      r := CreateVariableDerivation(args, env);
    case _ =>
      r := CreateWith(p, args, env);
  }

  /** The arity check and the argument kind loop of operation_from_function_call. */
  method CheckArguments(p: Prototype, argumentList: Node) returns (e: Option<Error>)
    requires p.numArguments >= 0 ==> p.numArguments == |p.argumentTypes|
    requires WfArguments(argumentList)
    ensures e == ArgumentCheck(p, argumentList)
  {
    if p.numArguments >= 0 {
      if |argumentList.children| != p.numArguments {
        return Some(At(ArgumentCount, argumentList.position));
      }
      for i := 0 to p.numArguments
        invariant forall k :: 0 <= k < i ==> argumentList.children[k].kind == p.argumentTypes[k]
      {
        var argument := argumentList.children[i];
        assert WfArgument(argument);
        if argument.kind != p.argumentTypes[i] {
          ArgumentCheckReportsFirst(p, argumentList, i);
          return Some(At(ArgumentType, argument.position));
        }
      }
    }
    return None;
  }

  /** operation_from_function_call: the lookup, the argument check and the create_* function. */
  method OperationFromFunctionCall(node: Node, env: Env) returns (r: Result<Operation, Error>)
    requires WfFunctionCall(node)
    ensures r == CallOf(node, env)
  {
    var functionName := node.children[0];
    var argumentList := node.children[1];
    assert WfArguments(argumentList);
    var prototype := LookupPrototype(TextOf(functionName));
    if prototype.None? {
      return Failure(At(UndefinedFunction, functionName.position));
    }
    var p := prototype.value;
    EntryKinds(p);
    var check := CheckArguments(p, argumentList);
    if check.Some? {
      return Failure(check.value);
    }
    r := CreateFrom(p, argumentList, env);
  }

  /** The body of create_program's loop: the create function for the kind of the expression. */
  method CreateOperation(node: Node, env: Env) returns (r: Result<Operation, Error>)
    requires WfExpression(node)
    ensures r == OperationOf(node, env)
  {
    if node.kind == FunctionCall {
      r := OperationFromFunctionCall(node, env);
    } else if node.kind == In || node.kind == NotIn {
      r := CreateMembershipTest(node, env);
    } else if node.kind == BitMaskAny || node.kind == BitMaskNone {
      r := BitMaskOf(node, env);
    } else {
      r := ComparisonOf(node, env);
    }
  }

  /** create_program: each expression in turn; the first failure ends the translation. */
  method CreateProgram(program: seq<Node>, env: Env) returns (r: Result<seq<Operation>, Error>)
    requires forall k :: 0 <= k < |program| ==> WfExpression(program[k])
    ensures r == ProgramOf(program, env)
  {
    ghost var outcomes := Outcomes(program, env);
    var operations: seq<Operation> := [];
    for i := 0 to |program|
      invariant Collect(outcomes[..i]) == Success(operations)
    {
      var node := program[i];
      var operation := CreateOperation(node, env);
      assert operation == outcomes[i];
      CollectStep(outcomes, i, operations);
      if operation.Failure? {
        CollectPrefixFailure(outcomes, i + 1);
        return Failure(operation.error);
      }
      operations := operations + [operation.value];
    }
    assert outcomes[..|program|] == outcomes;
    return Success(operations);
  }
}
