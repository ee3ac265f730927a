/** PiiMasker: a result is masked as a whole or refused as a whole. */
module ResultMasking {
  import opened Text
  import opened Execution
  import opened Classifier
  import opened Maskers

  datatype MaskingFailure = UnattributedColumn | StructuralMismatch | InvalidClassification

  datatype MaskingOutcome = Masked(result: ExecutionResult) | Refused(reason: MaskingFailure)

  predicate Rectangular(rows: Rows, width: nat) {
    forall i :: 0 <= i < |rows| ==> |rows[i]| == width
  }

  predicate CategoryMatchesClass(c: ColumnClassification) {
    c.dataClass == Pii <==> c.category.Some?
  }

  predicate AnyUnattributed(columns: seq<ColumnClassification>) {
    exists i :: 0 <= i < |columns| && columns[i].dataClass == Unattributed
  }

  predicate Consistent(cls: ClassificationResult) {
    && (forall i :: 0 <= i < |cls.columns| ==> CategoryMatchesClass(cls.columns[i]))
    && (cls.fullyAttributed <==> !AnyUnattributed(cls.columns))
  }

  /** NULL stays NULL, "" stays "", every other value of a PII column is masked once. */
  function MaskCell(c: ColumnClassification, cell: Cell): Cell {
    if c.dataClass == Pii && c.category.Some? && cell.Some? && cell.value != ""
    then Some(MaskValue(c.category.value, cell.value))
    else cell
  }

  function MaskRows(columns: seq<ColumnClassification>, rows: Rows): (r: Rows)
    requires Rectangular(rows, |columns|)
    ensures |r| == |rows| && Rectangular(r, |columns|)
  {
    seq(|rows|, i requires 0 <= i < |rows| =>
      seq(|columns|, j requires 0 <= j < |columns| => MaskCell(columns[j], rows[i][j])))
  }

  function Outcome(result: ExecutionResult, cls: ClassificationResult): MaskingOutcome {
    if |cls.columns| != |result.columns| || !Rectangular(result.rows, |result.columns|) then Refused(StructuralMismatch)
    else if !Consistent(cls) then Refused(InvalidClassification)
    else if AnyUnattributed(cls.columns) then Refused(UnattributedColumn)
    else Masked(result.(rows := MaskRows(cls.columns, result.rows)))
  }

  /** Phase one: nothing is touched until the whole input is known to be well-formed. */
  method Preflight(result: ExecutionResult, cls: ClassificationResult) returns (failure: Option<MaskingFailure>)
    ensures failure == (if Outcome(result, cls).Refused? then Some(Outcome(result, cls).reason) else None)
  {
    var width := |result.columns|;
    if |cls.columns| != width {
      return Some(StructuralMismatch);
    }
    for i := 0 to |result.rows|
      invariant forall k :: 0 <= k < i ==> |result.rows[k]| == width
    {
      if |result.rows[i]| != width {
        return Some(StructuralMismatch);
      }
    }
    var anyUnattributed := false;
    for i := 0 to |cls.columns|
      invariant forall k :: 0 <= k < i ==> CategoryMatchesClass(cls.columns[k])
      invariant anyUnattributed <==> exists k :: 0 <= k < i && cls.columns[k].dataClass == Unattributed
    {
      var isPii := cls.columns[i].dataClass == Pii;
      if isPii != cls.columns[i].category.Some? {
        assert !CategoryMatchesClass(cls.columns[i]);
        return Some(InvalidClassification);
      }
      anyUnattributed := anyUnattributed || cls.columns[i].dataClass == Unattributed;
    }
    assert anyUnattributed == AnyUnattributed(cls.columns);
    if cls.fullyAttributed != !anyUnattributed {
      return Some(InvalidClassification);
    }
    if anyUnattributed {
      return Some(UnattributedColumn);
    }
    failure := None;
  }

  /** One PII column, top to bottom. */
  method MaskColumn(rows: Rows, col: nat, width: nat, c: ColumnClassification) returns (r: Rows)
    requires Rectangular(rows, width) && col < width
    requires c.dataClass == Pii && c.category.Some?
    ensures |r| == |rows| && Rectangular(r, width)
    ensures forall i :: 0 <= i < |rows| ==> r[i] == rows[i][col := MaskCell(c, rows[i][col])]
  {
    r := rows;
    for i := 0 to |rows|
      invariant |r| == |rows| && Rectangular(r, width)
      invariant forall k :: 0 <= k < i ==> r[k] == rows[k][col := MaskCell(c, rows[k][col])]
      invariant forall k :: i <= k < |rows| ==> r[k] == rows[k]
    {
      var cell := r[i][col];
      if cell.None? || cell.value == "" {
        assert rows[i][col := cell] == rows[i];
        continue;
      }
      var masked := MaskBytes(c.category.value, cell.value);
      r := r[i := r[i][col := Some(masked)]];
    }
  }

  /** The column-major passes amount to one application of the rule to every cell. */
  method Mask(result: ExecutionResult, cls: ClassificationResult) returns (outcome: MaskingOutcome)
    ensures outcome == Outcome(result, cls)
  {
    var failure := Preflight(result, cls);
    if failure.Some? {
      return Refused(failure.value);
    }
    var width := |result.columns|;
    var rows := result.rows;
    for col := 0 to width
      invariant |rows| == |result.rows| && Rectangular(rows, width)
      invariant forall i, j :: 0 <= i < |rows| && 0 <= j < col ==>
        rows[i][j] == MaskCell(cls.columns[j], result.rows[i][j])
      invariant forall i, j :: 0 <= i < |rows| && col <= j < width ==> rows[i][j] == result.rows[i][j]
    {
      if cls.columns[col].dataClass == Pii {
        assert CategoryMatchesClass(cls.columns[col]);
        rows := MaskColumn(rows, col, width, cls.columns[col]);
      }
    }
    forall i | 0 <= i < |rows| ensures rows[i] == MaskRows(cls.columns, result.rows)[i] {}
    outcome := Masked(result.(rows := rows));
  }

  /** Each refusal, exactly: the shape first, then the consistency of the classification, then its completeness. */
  lemma RefusedFor(result: ExecutionResult, cls: ClassificationResult)
    ensures var o := Outcome(result, cls);
      var misshapen := |cls.columns| != |result.columns| ||
        exists i :: 0 <= i < |result.rows| && |result.rows[i]| != |result.columns|;
      var unattributed := exists i :: 0 <= i < |cls.columns| && cls.columns[i].dataClass == Unattributed;
      var invalid := cls.fullyAttributed == unattributed ||
        exists i :: 0 <= i < |cls.columns| && (cls.columns[i].dataClass == Pii) != cls.columns[i].category.Some?;
      && (o == Refused(StructuralMismatch) <==> misshapen)
      && (o == Refused(InvalidClassification) <==> !misshapen && invalid)
      && (o == Refused(UnattributedColumn) <==> !misshapen && !invalid && unattributed)
  {
  }

  /**
    Masking succeeds exactly when shapes line up, every column is accounted for and the
    classification is consistent; then only cells of PII columns differ from the input.
   */
  lemma MaskedExactly(result: ExecutionResult, cls: ClassificationResult)
    ensures Outcome(result, cls).Masked? <==>
      && |cls.columns| == |result.columns|
      && Rectangular(result.rows, |result.columns|)
      && cls.fullyAttributed
      && (forall i :: 0 <= i < |cls.columns| ==>
            cls.columns[i].dataClass != Unattributed && CategoryMatchesClass(cls.columns[i]))
    ensures Outcome(result, cls).Masked? ==>
      var masked := Outcome(result, cls).result;
      && masked == result.(rows := masked.rows)
      && |masked.rows| == |result.rows|
      && (forall i, j :: 0 <= i < |result.rows| && 0 <= j < |result.columns| ==>
            |masked.rows[i]| == |result.columns| &&
            masked.rows[i][j] == (match cls.columns[j].category
                                  case Some(category) =>
                                    var cell := result.rows[i][j];
                                    if cell.None? || cell.value == "" then cell
                                    else Some(MaskValue(category, cell.value))
                                  case None => result.rows[i][j]))
  {
    if Outcome(result, cls).Masked? {
      assert forall j :: 0 <= j < |cls.columns| ==> CategoryMatchesClass(cls.columns[j]);
    }
  }
}
