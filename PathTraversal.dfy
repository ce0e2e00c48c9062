/** The path selection operator "." of FHIRPath (the 2018 September release, section "Path
    selection"): moves from an expression to one of its child elements, exploding repeating
    children into one row per element while keeping every existing column. */
module PathTraversal {
  import opened Options
  import opened Preconditions
  import opened Columnar
  import opened Strings

  /** The maximum cardinality of an element definition: a number, or "*". */
  datatype Cardinality = Bounded(max: nat) | Unbounded

  /** What the element catalog knows about a child element. */
  datatype ElementDefinition = ElementDefinition(typeName: string, maxCardinality: Cardinality)

  /** The element catalog: (parent type, child name) to the child's definition, if any. */
  type Catalog = (string, string) -> Option<ElementDefinition>

  /** What kind of path an expression is. A resource path reads its children from top-level
      columns of its dataset (the element column for a name); an element path from fields of its
      value column. */
  datatype Origin =
    | LiteralOrigin
    | ResourceOrigin(resourceType: string, elementColumn: string -> Column)
    | ElementOrigin(definition: ElementDefinition)

  /** An evaluated expression: its canonical string, its dataset and columns, and whether it is
      known to hold at most one value per resource. */
  datatype FhirPath = FhirPath(
    expression: string,
    dataset: Dataset,
    idColumn: Column,
    eidColumn: Option<Column>,
    valueColumn: Column,
    singular: bool,
    foreignResource: Option<string>,
    thisColumn: Option<Column>,
    origin: Origin)

  datatype ParserContext = ParserContext(inputContext: FhirPath)

  datatype PathTraversalInput = PathTraversalInput(context: ParserContext, left: FhirPath, right: string)

  const LiteralMessage: string := "Path traversal operator cannot be invoked on a literal value: "
  const NoSuchChildMessage: string := "No such child: "

  /** The type whose children a path has (literals have none). */
  function TypeName(p: FhirPath): string
  {
    match p.origin
    case LiteralOrigin => ""
    case ResourceOrigin(t, _) => t
    case ElementOrigin(d) => d.typeName
  }

  /** getChildElement: the definition of the named child, looked up in the catalog. */
  function ChildElement(left: FhirPath, name: string, catalog: Catalog): Option<ElementDefinition>
  {
    catalog(TypeName(left), name)
  }

  /** The canonical string of the result: the child name alone when the left expression is the
      input context itself (so "gender" rather than "Patient.gender"), else left.child. */
  function ResultExpression(input: PathTraversalInput): string
  {
    if input.left.expression == input.context.inputContext.expression then input.right
    else input.left.expression + "." + input.right
  }

  /** The column holding the child: for a resource path the element column, forced to null
      wherever the resource's value column is null; otherwise the named field of the value. */
  function Field(left: FhirPath, right: string): Column
  {
    match left.origin
    case ResourceOrigin(_, elementColumn) => NullWhenNull(left.valueColumn, elementColumn(right))
    case _ => GetField(left.valueColumn, right)
  }

  /** invoke. Both guards are checkUserInput calls, so both failures are InvalidUserInput errors. */
  function Invoke(input: PathTraversalInput, catalog: Catalog): (r: Result<FhirPath>)
    requires WellFormed(input.left.dataset)
    ensures r.Err? <==>
      input.left.origin.LiteralOrigin? || ChildElement(input.left, input.right, catalog).None?
    ensures input.left.origin.LiteralOrigin? ==>
      r == Err(InvalidUserInput(LiteralMessage + input.left.expression))
    ensures !input.left.origin.LiteralOrigin? && ChildElement(input.left, input.right, catalog).None? ==>
      r == Err(InvalidUserInput(NoSuchChildMessage + ResultExpression(input)))
    ensures r.Ok? ==> var child := ChildElement(input.left, input.right, catalog).value;
      && r.value.expression == ResultExpression(input)
      && r.value.origin == ElementOrigin(child)
      && (r.value.singular <==> input.left.singular && child.maxCardinality == Bounded(1))
      && r.value.idColumn == input.left.idColumn
      && r.value.foreignResource == input.left.foreignResource
      && r.value.thisColumn == input.left.thisColumn
      && (r.value.singular ==> r.value.eidColumn.None?)
  {
    var left := input.left;
    var right := input.right;
    var notLiteral := CheckUserInput(!left.origin.LiteralOrigin?, LiteralMessage + left.expression);
    if notLiteral.Fail? then Err(notLiteral.error)
    else
      var expression := ResultExpression(input);
      var optionalChild := ChildElement(left, right, catalog);
      var present := CheckUserInput(optionalChild.Some?, NoSuchChildMessage + expression);
      if present.Fail? then Err(present.error)
      else
        var childDefinition := optionalChild.value;
        var field := Field(left, right);
        var maxCardinalityOfOne := childDefinition.maxCardinality == Bounded(1);
        var resultSingular := left.singular && maxCardinalityOfOne;
        var width := left.dataset.width;
        var valueColumn := if maxCardinalityOfOne then field else ColumnAt(width + 1);
        var eidColumnCandidate :=
          if maxCardinalityOfOne then left.eidColumn else Some(ExpandedEid(left.eidColumn, ColumnAt(width)));
        var resultDataset :=
          if maxCardinalityOfOne then left.dataset else SelectWithPosExplode(left.dataset, field);
        var eidColumn := if resultSingular then None else eidColumnCandidate;
        Ok(FhirPath(expression, resultDataset, left.idColumn, eidColumn, valueColumn,
          resultSingular, left.foreignResource, left.thisColumn, ElementOrigin(childDefinition)))
  }

  /** The invariant every path keeps: rows of the dataset's width, columns reading only cells
      of that width, and an element id present exactly when the path is not singular. */
  ghost predicate Valid(p: FhirPath)
  {
    var w := p.dataset.width;
    && WellFormed(p.dataset)
    && Within(p.idColumn, w)
    && Within(p.valueColumn, w)
    && (p.eidColumn.Some? ==> Within(p.eidColumn.value, w))
    && (p.thisColumn.Some? ==> Within(p.thisColumn.value, w))
    && (p.eidColumn.None? <==> p.singular)
    && (p.origin.ResourceOrigin? ==> forall n :: Within(p.origin.elementColumn(n), w))
  }

  /** Traversal keeps the path invariant. */
  lemma InvokePreservesValid(input: PathTraversalInput, catalog: Catalog)
    requires Valid(input.left)
    ensures Invoke(input, catalog).Ok? ==> Valid(Invoke(input, catalog).value)
  {
    var left := input.left;
    var w := left.dataset.width;
    if Invoke(input, catalog).Ok? {
      var child := ChildElement(left, input.right, catalog).value;
      if child.maxCardinality != Bounded(1) {
        WithinWider(left.idColumn, w, w + 2);
        if left.eidColumn.Some? { WithinWider(left.eidColumn.value, w, w + 2); }
        if left.thisColumn.Some? { WithinWider(left.thisColumn.value, w, w + 2); }
      }
    }
  }

  /** Maximum cardinality one: the dataset is left as it is, the value is the child field, and
      the element id is the left one (dropped when the result is singular). */
  lemma CardinalityOneKeepsDataset(input: PathTraversalInput, catalog: Catalog)
    requires WellFormed(input.left.dataset)
    requires Invoke(input, catalog).Ok?
    requires ChildElement(input.left, input.right, catalog).value.maxCardinality == Bounded(1)
    ensures var p := Invoke(input, catalog).value;
      && p.dataset == input.left.dataset
      && p.valueColumn == Field(input.left, input.right)
      && p.singular == input.left.singular
      && p.eidColumn == (if input.left.singular then None else input.left.eidColumn)
  {
  }

  /** Any other maximum cardinality: the result is never singular, its dataset is the left one
      with the child exploded, its value is the exploded value column and its element id is the
      left element id extended by the exploded index column. */
  lemma RepeatingChildExplodes(input: PathTraversalInput, catalog: Catalog)
    requires WellFormed(input.left.dataset)
    requires Invoke(input, catalog).Ok?
    requires ChildElement(input.left, input.right, catalog).value.maxCardinality != Bounded(1)
    ensures var p := Invoke(input, catalog).value;
      var w := input.left.dataset.width;
      && !p.singular
      && p.dataset == SelectWithPosExplode(input.left.dataset, Field(input.left, input.right))
      && |p.dataset.rows| >= |input.left.dataset.rows|
      && p.valueColumn == ColumnAt(w + 1)
      && p.eidColumn == Some(ExpandedEid(input.left.eidColumn, ColumnAt(w)))
  {
  }

  /** Row by row, for a repeating child: the k-th row that left row i explodes into sits in the
      result dataset and keeps the left row's cells, so the id and $this columns keep their
      values. */
  lemma RepeatingChildKeepsLeftColumns(input: PathTraversalInput, catalog: Catalog, i: nat, k: nat)
    requires Valid(input.left)
    requires Invoke(input, catalog).Ok?
    requires ChildElement(input.left, input.right, catalog).value.maxCardinality != Bounded(1)
    requires i < |input.left.dataset.rows|
    requires k < |ExplodeRow(input.left.dataset.rows[i], Field(input.left, input.right))|
    ensures var left := input.left;
      var p := Invoke(input, catalog).value;
      var row := left.dataset.rows[i];
      var o := ExplodeRow(row, Field(left, input.right))[k];
      && o in p.dataset.rows
      && o[..|row|] == row
      && Eval(p.idColumn, o) == Eval(left.idColumn, row)
      && (left.thisColumn.Some? ==> Eval(p.thisColumn.value, o) == Eval(left.thisColumn.value, row))
  {
    var left := input.left;
    var field := Field(left, input.right);
    RepeatingChildExplodes(input, catalog);
    ExplodedRowKeepsColumns(left.dataset.rows, field, i, k, left.idColumn);
    if left.thisColumn.Some? {
      ExplodedRowKeepsColumns(left.dataset.rows, field, i, k, left.thisColumn.value);
    }
  }

  /** Row by row, for a repeating child: the k-th row that left row i explodes into holds the
      k-th element of the child array, with element id (left element id ++ [k]); a null or
      empty child array gives exactly one row, with a null value and element id
      (left element id ++ [null]). */
  lemma RepeatingChildValueAndEid(input: PathTraversalInput, catalog: Catalog, i: nat, k: nat)
    requires Valid(input.left)
    requires Invoke(input, catalog).Ok?
    requires ChildElement(input.left, input.right, catalog).value.maxCardinality != Bounded(1)
    requires i < |input.left.dataset.rows|
    requires k < |ExplodeRow(input.left.dataset.rows[i], Field(input.left, input.right))|
    ensures var left := input.left;
      var p := Invoke(input, catalog).value;
      var row := left.dataset.rows[i];
      var child := Eval(Field(left, input.right), row);
      var o := ExplodeRow(row, Field(left, input.right))[k];
      && ((child == Null || child == ArrayValue([])) ==>
            |ExplodeRow(row, Field(left, input.right))| == 1
            && Eval(p.valueColumn, o) == Null
            && Eval(p.eidColumn.value, o) == ArrayValue(EidItems(left.eidColumn, row) + [Null]))
      && (child.ArrayValue? && |child.items| > 0 ==>
            Eval(p.valueColumn, o) == child.items[k]
            && Eval(p.eidColumn.value, o) == ArrayValue(EidItems(left.eidColumn, row) + [IntValue(k)]))
  {
    var left := input.left;
    var row := left.dataset.rows[i];
    RepeatingChildExplodes(input, catalog);
    ExplodeRowKeepsCells(row, Field(left, input.right));
    assert ExplodeRow(row, Field(left, input.right))[k] in ExplodeRow(row, Field(left, input.right));
    ExplodedCells(row, Field(left, input.right), k, left.eidColumn);
  }

  /** Resource root: wherever the resource's value column is null, the child read from that
      row is null, so the result's value is null in every row descending from it. */
  lemma ResourceNullPropagates(input: PathTraversalInput, catalog: Catalog, i: nat)
    requires Valid(input.left) && input.left.origin.ResourceOrigin?
    requires Invoke(input, catalog).Ok?
    requires i < |input.left.dataset.rows|
    requires Eval(input.left.valueColumn, input.left.dataset.rows[i]) == Null
    ensures var left := input.left;
      var p := Invoke(input, catalog).value;
      var row := left.dataset.rows[i];
      && Eval(Field(left, input.right), row) == Null
      && (ChildElement(left, input.right, catalog).value.maxCardinality == Bounded(1) ==>
            Eval(p.valueColumn, row) == Null)
      && (ChildElement(left, input.right, catalog).value.maxCardinality != Bounded(1) ==>
            ExplodeRow(row, Field(left, input.right)) == [row + [Null, Null]]
            && Eval(p.valueColumn, row + [Null, Null]) == Null)
  {
    ExplodeRowCases(input.left.dataset.rows[i], Field(input.left, input.right));
  }

  /** Repeated application, one call per path segment. */
  function TraverseChain(context: ParserContext, left: FhirPath, names: seq<string>, catalog: Catalog): Result<FhirPath>
    requires Valid(left)
    decreases |names|
  {
    if |names| == 0 then Ok(left)
    else
      var input := PathTraversalInput(context, left, names[0]);
      InvokePreservesValid(input, catalog);
      match Invoke(input, catalog)
      case Err(e) => Err(e)
      case Ok(next) => TraverseChain(context, next, names[1..], catalog)
  }

  /** Every segment of the chain, looked up from the given type, has maximum cardinality one. */
  predicate AllCardinalityOne(catalog: Catalog, typeName: string, names: seq<string>)
    decreases |names|
  {
    |names| == 0 ||
      (var d := catalog(typeName, names[0]);
       d.Some? && d.value.maxCardinality == Bounded(1) && AllCardinalityOne(catalog, d.value.typeName, names[1..]))
  }

  /** After a traversal chain the result is singular exactly when the start was singular and
      no segment could repeat; in particular, once a path is not singular, no further
      traversal makes it singular again. */
  lemma {:induction false} ChainSingular(context: ParserContext, left: FhirPath, names: seq<string>, catalog: Catalog)
    requires Valid(left)
    requires TraverseChain(context, left, names, catalog).Ok?
    ensures TraverseChain(context, left, names, catalog).value.singular
        <==> left.singular && AllCardinalityOne(catalog, TypeName(left), names)
    decreases |names|
  {
    if |names| > 0 {
      var input := PathTraversalInput(context, left, names[0]);
      InvokePreservesValid(input, catalog);
      var next := Invoke(input, catalog).value;
      ChainSingular(context, next, names[1..], catalog);
    }
  }

  /** A chain continuing a path whose expression is already the joined names `done`: each step
      appends ".name", so the result is all names joined by dots, provided no intermediate
      expression coincides with the input context's. */
  lemma {:induction false} ChainExpressionExtends(context: ParserContext, left: FhirPath, done: seq<string>,
                                                  names: seq<string>, catalog: Catalog)
    requires Valid(left)
    requires |done| > 0 && left.expression == UntokenizePath(done)
    requires forall k | 0 <= k < |names| :: UntokenizePath(done + names[..k]) != context.inputContext.expression
    requires TraverseChain(context, left, names, catalog).Ok?
    ensures TraverseChain(context, left, names, catalog).value.expression == UntokenizePath(done + names)
    decreases |names|
  {
    if |names| == 0 {
      assert done + names == done;
    } else {
      var input := PathTraversalInput(context, left, names[0]);
      InvokePreservesValid(input, catalog);
      var next := Invoke(input, catalog).value;
      assert done + names[..0] == done;
      JoinSnoc(".", done, names[0]);
      var done' := done + [names[0]];
      assert next.expression == UntokenizePath(done');
      forall k | 0 <= k < |names[1..]|
        ensures UntokenizePath(done' + names[1..][..k]) != context.inputContext.expression
      {
        assert done' + names[1..][..k] == done + names[..k + 1];
      }
      ChainExpressionExtends(context, next, done', names[1..], catalog);
      assert done' + names[1..] == done + names;
    }
  }

  /** A chain of traversals from the input context itself has as its expression the names
      joined by dots ("name.given" from `Patient`), so the context's own expression never
      appears in it, provided no proper prefix of the joined names is that expression. Together
      with `ChainSingular` this describes a whole dotted path. */
  lemma ChainExpressionFromContext(context: ParserContext, left: FhirPath, names: seq<string>, catalog: Catalog)
    requires Valid(left)
    requires left.expression == context.inputContext.expression
    requires |names| > 0
    requires forall k | 1 <= k < |names| :: UntokenizePath(names[..k]) != context.inputContext.expression
    requires TraverseChain(context, left, names, catalog).Ok?
    ensures TraverseChain(context, left, names, catalog).value.expression == UntokenizePath(names)
  {
    var input := PathTraversalInput(context, left, names[0]);
    InvokePreservesValid(input, catalog);
    var next := Invoke(input, catalog).value;
    assert next.expression == UntokenizePath([names[0]]);
    forall k | 0 <= k < |names[1..]|
      ensures UntokenizePath([names[0]] + names[1..][..k]) != context.inputContext.expression
    {
      assert [names[0]] + names[1..][..k] == names[..k + 1];
    }
    ChainExpressionExtends(context, next, [names[0]], names[1..], catalog);
    assert [names[0]] + names[1..] == names;
  }
}
