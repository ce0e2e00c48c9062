/** A worked traversal: Patient.name.given over one patient with two names of two given names each. */
module TraversalExamples {
  import opened Options
  import opened Preconditions
  import opened Columnar
  import opened PathTraversal

  /** The patient's `name` array: two HumanName structs with two `given` strings each. */
  function Names(): Value
  {
    ArrayValue([
      StructValue(map["given" := ArrayValue([StringValue("a"), StringValue("b")])]),
      StructValue(map["given" := ArrayValue([StringValue("c"), StringValue("d")])])])
  }
  /** The one input row: the resource id and the resource's `name` element. */
  function PatientRow(): Row { [StringValue("p1"), Names()] }
  /** The resource root `Patient`, which is also the input context. */
  function PatientPath(): FhirPath
  {
    FhirPath("Patient", Dataset(2, [PatientRow()]), ColumnAt(0), None,
        ColumnAt(0), true, None, None, ResourceOrigin("Patient", (n: string) => ColumnAt(1)))
  }
  /** `Patient.name` is a repeating HumanName and `HumanName.given` a repeating string. */
  function PatientCatalog(): Catalog
  {
    (t: string, n: string) =>
        if t == "Patient" && n == "name" then Some(ElementDefinition("HumanName", Unbounded))
        else if t == "HumanName" && n == "given" then Some(ElementDefinition("string", Unbounded))
        else None
  }
  /** The rows after `name`: one per name, with its index and the name struct appended. */
  function NameRows(): seq<Row>
  {
    [PatientRow() + [IntValue(0), Names().items[0]], PatientRow() + [IntValue(1), Names().items[1]]]
  }
  /** The path `name`, whose element id is the single index of the name. */
  function NamePath(): FhirPath
  {
    FhirPath("name", Dataset(4, NameRows()), ColumnAt(0), Some(ExpandedEid(None, ColumnAt(2))),
      ColumnAt(3), false, None, None, ElementOrigin(ElementDefinition("HumanName", Unbounded)))
  }
  /** The rows after `given`: one per given name, with its index and the string appended. */
  function GivenRows(): seq<Row>
  {
    [NameRows()[0] + [IntValue(0), StringValue("a")], NameRows()[0] + [IntValue(1), StringValue("b")],
     NameRows()[1] + [IntValue(0), StringValue("c")], NameRows()[1] + [IntValue(1), StringValue("d")]]
  }
  /** The path `name.given`, whose element id is (name index, given index). */
  function GivenPath(): FhirPath
  {
    FhirPath("name.given", Dataset(6, GivenRows()), ColumnAt(0),
      Some(ExpandedEid(Some(ExpandedEid(None, ColumnAt(2))), ColumnAt(4))),
      ColumnAt(5), false, None, None, ElementOrigin(ElementDefinition("string", Unbounded)))
  }

  /** Traversing `name` from the patient. */
  lemma NameStep()
    ensures Valid(PatientPath())
    ensures Invoke(PathTraversalInput(ParserContext(PatientPath()), PatientPath(), "name"), PatientCatalog()) == Ok(NamePath())
  {
    var row := PatientRow();
    var field := Field(PatientPath(), "name");
    assert Eval(field, row) == Names();
    ExplodeRowCases(row, field);
    assert ExplodeRow(row, field) == NameRows();
    assert ExplodeRows([row], field) == NameRows();
  }

  /** The first name explodes into its two given names. */
  lemma GivenFirstName()
    ensures ExplodeRow(NameRows()[0], Field(NamePath(), "given")) == GivenRows()[..2]
  {
    var field := Field(NamePath(), "given");
    assert Eval(field, NameRows()[0]) == ArrayValue([StringValue("a"), StringValue("b")]);
    ExplodeRowCases(NameRows()[0], field);
  }

  /** The second name explodes into its two given names. */
  lemma GivenSecondName()
    ensures ExplodeRow(NameRows()[1], Field(NamePath(), "given")) == GivenRows()[2..]
  {
    var field := Field(NamePath(), "given");
    assert Eval(field, NameRows()[1]) == ArrayValue([StringValue("c"), StringValue("d")]);
    ExplodeRowCases(NameRows()[1], field);
  }

  /** The four rows after `given`, in order. */
  lemma GivenRowsExploded()
    ensures ExplodeRows(NameRows(), Field(NamePath(), "given")) == GivenRows()
  {
    GivenFirstName();
    GivenSecondName();
    assert NameRows()[1..] == [NameRows()[1]];
    assert GivenRows() == GivenRows()[..2] + GivenRows()[2..];
  }

  /** Traversing `given` from `name`. */
  lemma GivenStep()
    ensures Invoke(PathTraversalInput(ParserContext(PatientPath()), NamePath(), "given"), PatientCatalog()) == Ok(GivenPath())
  {
    GivenRowsExploded();
    var input := PathTraversalInput(ParserContext(PatientPath()), NamePath(), "given");
    assert ResultExpression(input) == "name.given";
    assert SelectWithPosExplode(NamePath().dataset, Field(NamePath(), "given")) == Dataset(6, GivenRows());
  }

  /** The chain of both traversals. */
  lemma PatientNameGiven()
    ensures Valid(PatientPath())
    ensures TraverseChain(ParserContext(PatientPath()), PatientPath(), ["name", "given"], PatientCatalog()) == Ok(GivenPath())
  {
    NameStep();
    GivenStep();
    var context := ParserContext(PatientPath());
    InvokePreservesValid(PathTraversalInput(context, PatientPath(), "name"), PatientCatalog());
    InvokePreservesValid(PathTraversalInput(context, NamePath(), "given"), PatientCatalog());
    assert ["name", "given"][1..] == ["given"];
    assert ["given"][1..] == [];
  }

  /** Four rows, not singular, with element ids [0,0], [0,1], [1,0], [1,1]. */
  lemma PatientNameGivenEids()
    ensures var p := GivenPath();
      && |p.dataset.rows| == 4 && !p.singular
      && Eval(p.eidColumn.value, p.dataset.rows[0]) == ArrayValue([IntValue(0), IntValue(0)])
      && Eval(p.eidColumn.value, p.dataset.rows[1]) == ArrayValue([IntValue(0), IntValue(1)])
      && Eval(p.eidColumn.value, p.dataset.rows[2]) == ArrayValue([IntValue(1), IntValue(0)])
      && Eval(p.eidColumn.value, p.dataset.rows[3]) == ArrayValue([IntValue(1), IntValue(1)])
  {
  }
}
