/**
  Construction of a `Dataset` from an in-memory table: the column names are
  split by prefix into protected attributes and targets, and the dataset is
  refused when either group is empty or a protected column holds a value that
  is not an integer category code.
 */
module Schema {
  import opened Wrappers
  import opened Frames

  const PROTECTED_PREFIX: string := "protected"
  const TARGET_PREFIX: string := "target"

  /** The `ValueError`s of the dataset, plus the errors pandas and Python raise beneath it. */
  datatype Error =
    | NoProtectedColumn        // no column name starts with "protected"
    | NoTargetColumn           // no column name starts with "target"
    | NonIntegerProtection     // a protected column holds a value that is not an integer
    | UnknownTargetColumn      // the query names a column that is not a target column
    | UnknownProtectedColumn   // the query names a column that is not a protected column
    | MissingColumn(name: string)  // pandas' KeyError for a column the table does not have
    | ZeroDivision             // Python's ZeroDivisionError

  /** The message each `ValueError` carries. */
  function Message(e: Error): string
  {
    match e
    case NoProtectedColumn => "The dataset should contain at least one column that describes a protection status"
    case NoTargetColumn => "The dataset should contain at least one column that describes a target variable"
    case NonIntegerProtection => "Protection status should be indicated by integers only"
    case UnknownTargetColumn => "given target column doesn't exist"
    case UnknownProtectedColumn => "given protected column doesn't exist"
    case MissingColumn(name) => name
    case ZeroDivision => "division by zero"
  }

  /** `[col for col in names if col.startswith(prefix)]` */
  function ColumnsWithPrefix(names: seq<string>, prefix: string): (r: seq<string>)
    ensures forall x :: x in r <==> x in names && prefix <= x
    ensures |r| <= |names|
  {
    if names == [] then []
    else
      var last := names[|names| - 1];
      assert names == names[..|names| - 1] + [last];
      ColumnsWithPrefix(names[..|names| - 1], prefix) + (if prefix <= last then [last] else [])
  }

  /** `a` is `b` with some elements deleted: the order of `b` is kept. */
  ghost predicate SubsequenceOf(a: seq<string>, b: seq<string>)
    decreases |b|
  {
    if a == [] then true
    else if b == [] then false
    else if a[|a| - 1] == b[|b| - 1] then SubsequenceOf(a[..|a| - 1], b[..|b| - 1])
    else SubsequenceOf(a, b[..|b| - 1])
  }

  /** The classified columns appear in table column order. */
  lemma {:induction false} ColumnsWithPrefixKeepsOrder(names: seq<string>, prefix: string)
    ensures SubsequenceOf(ColumnsWithPrefix(names, prefix), names)
  {
    if names != [] {
      var init := names[..|names| - 1];
      ColumnsWithPrefixKeepsOrder(init, prefix);
      var r := ColumnsWithPrefix(names, prefix);
      if !(prefix <= names[|names| - 1]) {
        assert r == ColumnsWithPrefix(init, prefix);
        if r != [] {
          assert r[|r| - 1] in r;
          assert r[|r| - 1] != names[|names| - 1];
        }
      }
    }
  }

  /** No name starts with both prefixes, so the two classes never share a column. */
  lemma ClassesAreDisjoint(names: seq<string>)
    ensures forall x :: x in ColumnsWithPrefix(names, PROTECTED_PREFIX) ==> x !in ColumnsWithPrefix(names, TARGET_PREFIX)
  {
    forall x | x in ColumnsWithPrefix(names, PROTECTED_PREFIX)
      ensures x !in ColumnsWithPrefix(names, TARGET_PREFIX)
    {
      assert x[0] == PROTECTED_PREFIX[0] != TARGET_PREFIX[0];
    }
  }

  /** Every cell of every listed column is an integer code. */
  predicate ProtectionEncoded(t: Table, cols: seq<string>)
    requires t.WellFormed()
  {
    forall c :: c in cols && c in t.names ==> AllIntCodes(Column(t, c))
  }

  /** Checking the distinct values of a column gives the verdict of checking every cell. */
  lemma DistinctKeepsVerdict(col: seq<Cell>)
    ensures AllIntCodes(Distinct(col)) <==> AllIntCodes(col)
  {
    var cats := Distinct(col);
    if AllIntCodes(cats) {
      forall i | 0 <= i < |col| ensures IsIntCode(col[i]) {
        assert col[i] in cats;
      }
    }
    if AllIntCodes(col) {
      forall j | 0 <= j < |cats| ensures IsIntCode(cats[j]) {
        assert cats[j] in col;
      }
    }
  }

  /** A constructed dataset: its table and the two classified column lists. */
  datatype Dataset = Dataset(data: Table, protectedCols: seq<string>, targetCols: seq<string>)
  {
    /** What construction establishes. */
    ghost predicate Valid()
    {
      && data.WellFormed()
      && protectedCols == ColumnsWithPrefix(data.names, PROTECTED_PREFIX)
      && targetCols == ColumnsWithPrefix(data.names, TARGET_PREFIX)
      && protectedCols != []
      && targetCols != []
      && ProtectionEncoded(data, protectedCols)
    }
  }

  /** `Dataset(data)` for a DataFrame `data`: classify columns, then check them. */
  method NewDataset(t: Table) returns (r: Result<Dataset, Error>)
    requires t.WellFormed()
    ensures r.Success? ==> r.value.data == t && r.value.Valid()
    ensures ColumnsWithPrefix(t.names, PROTECTED_PREFIX) == [] ==> r == Failure(NoProtectedColumn)
    ensures ColumnsWithPrefix(t.names, PROTECTED_PREFIX) != [] && ColumnsWithPrefix(t.names, TARGET_PREFIX) == []
      ==> r == Failure(NoTargetColumn)
    ensures ColumnsWithPrefix(t.names, PROTECTED_PREFIX) != [] && ColumnsWithPrefix(t.names, TARGET_PREFIX) != []
      ==> r.Success? || r == Failure(NonIntegerProtection)
    ensures ColumnsWithPrefix(t.names, PROTECTED_PREFIX) != [] && ColumnsWithPrefix(t.names, TARGET_PREFIX) != []
      ==> (r.Success? <==> ProtectionEncoded(t, ColumnsWithPrefix(t.names, PROTECTED_PREFIX)))
  {
    var protectedCols := ColumnsWithPrefix(t.names, PROTECTED_PREFIX);
    var targetCols := ColumnsWithPrefix(t.names, TARGET_PREFIX);
    if protectedCols == [] {
      return Failure(NoProtectedColumn);
    }
    if targetCols == [] {
      return Failure(NoTargetColumn);
    }
    for i := 0 to |protectedCols|
      invariant forall j :: 0 <= j < i ==> AllIntCodes(Column(t, protectedCols[j]))
    {
      var columnValues := Column(t, protectedCols[i]);
      var categories := Distinct(columnValues);
      DistinctKeepsVerdict(columnValues);
      if !AllIntCodes(categories) {
        return Failure(NonIntegerProtection);
      }
    }
    return Success(Dataset(t, protectedCols, targetCols));
  }
}
