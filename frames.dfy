/**
  The part of a pandas DataFrame that the dataset core relies on: typed cells,
  named columns of equal length, column lookup by name, the distinct values of
  a column (`unique()` / `np.unique`) and the number of cells equal to a code
  (`(column == k).sum()`, `value_counts().get(k, 0)`).
 */
module Frames {
  import opened Wrappers

  /** One cell of a table. */
  datatype Cell =
    | Int(value: int)       // a numpy integer
    | Float(number: real)   // a finite float
    | Text(chars: string)   // a string in an object column
    | Missing               // NaN / None

  /** `isinstance(item, numpy.integer)`: the cell is an integer category code. */
  predicate IsIntCode(c: Cell)
  {
    c.Int?
  }

  /** Python's `c == k` for an integer `k`: numbers compare by value, NaN and strings never equal. */
  predicate Matches(c: Cell, k: int)
  {
    match c
    case Int(v) => v == k
    case Float(x) => x == k as real
    case Text(_) => false
    case Missing => false
  }

  predicate AllIntCodes(cells: seq<Cell>)
  {
    forall i :: 0 <= i < |cells| ==> IsIntCode(cells[i])
  }

  /** A rectangular table: `columns[i]` is the column named `names[i]`, each `rows` cells long. */
  datatype Table = Table(names: seq<string>, columns: seq<seq<Cell>>, rows: nat)
  {
    predicate WellFormed()
    {
      && |names| == |columns|
      && (forall i, j :: 0 <= i < j < |names| ==> names[i] != names[j])
      && (forall i :: 0 <= i < |columns| ==> |columns[i]| == rows)
    }
  }

  /** Position of a column name; None when no column has that name. */
  function IndexOf(names: seq<string>, name: string): (r: Option<nat>)
    ensures r.Some? <==> name in names
    ensures r.Some? ==> r.value < |names| && names[r.value] == name
  {
    if names == [] then None
    else if names[|names| - 1] == name then Some(|names| - 1)
    else
      assert names == names[..|names| - 1] + [names[|names| - 1]];
      IndexOf(names[..|names| - 1], name)
  }

  /** `data[name]`: the cells of the column called `name`. */
  function Column(t: Table, name: string): (col: seq<Cell>)
    requires t.WellFormed() && name in t.names
    ensures |col| == t.rows
    ensures forall i :: 0 <= i < |t.names| && t.names[i] == name ==> t.columns[i] == col
  {
    t.columns[IndexOf(t.names, name).value]
  }

  /** No value occurs twice in `s`. */
  predicate NoDuplicates<T(==)>(s: seq<T>)
  {
    forall j, k :: 0 <= j < k < |s| ==> s[j] != s[k]
  }

  /** `unique()`: each value once, in order of first appearance. */
  function Distinct(s: seq<Cell>): (r: seq<Cell>)
    ensures forall x :: x in r <==> x in s
    ensures NoDuplicates(r)
    ensures |r| <= |s|
  {
    if s == [] then []
    else
      var rest := Distinct(s[..|s| - 1]);
      assert s == s[..|s| - 1] + [s[|s| - 1]];
      if s[|s| - 1] in rest then rest else rest + [s[|s| - 1]]
  }

  /** `(s == k).sum()`: the number of cells equal to `k`. */
  function Occurrences(s: seq<Cell>, k: int): (n: nat)
    ensures n <= |s|
  {
    if s == [] then 0
    else Occurrences(s[..|s| - 1], k) + (if Matches(s[|s| - 1], k) then 1 else 0)
  }

  /** No cell equals `k` exactly when the count is 0; every cell does exactly when it is `|s|`. */
  lemma {:induction false} OccurrencesExtremes(s: seq<Cell>, k: int)
    ensures Occurrences(s, k) == 0 <==> forall i :: 0 <= i < |s| ==> !Matches(s[i], k)
    ensures Occurrences(s, k) == |s| <==> forall i :: 0 <= i < |s| ==> Matches(s[i], k)
  {
    if s != [] {
      var init := s[..|s| - 1];
      OccurrencesExtremes(init, k);
      assert forall i :: 0 <= i < |init| ==> init[i] == s[i];
    }
  }

  lemma OccurrencesSnoc(s: seq<Cell>, x: Cell, k: int)
    ensures Occurrences(s + [x], k) == Occurrences(s, k) + (if Matches(x, k) then 1 else 0)
  {
    assert (s + [x])[..|s|] == s;
  }

  lemma OccurrencesExtremesForAll(s: seq<Cell>)
    ensures forall k :: Occurrences(s, k) == 0 <==> forall i :: 0 <= i < |s| ==> !Matches(s[i], k)
  {
    forall k ensures Occurrences(s, k) == 0 <==> forall i :: 0 <= i < |s| ==> !Matches(s[i], k) {
      OccurrencesExtremes(s, k);
    }
  }

  /**
    The codes of `np.unique(col)` for an integer-coded column: each distinct code once.
    `np.unique` returns them sorted; here they come in order of first appearance, and
    that order is not modelled.
   */
  function Groups(col: seq<Cell>): (gs: seq<int>)
    requires AllIntCodes(col)
    ensures NoDuplicates(gs)
    ensures forall g :: g in gs <==> Occurrences(col, g) > 0
  {
    var cats := Distinct(col);
    OccurrencesExtremesForAll(col);
    assert forall j :: 0 <= j < |cats| ==> cats[j].Int? by {
      forall j | 0 <= j < |cats| ensures cats[j].Int? {
        assert cats[j] in col;
        var i :| 0 <= i < |col| && col[i] == cats[j];
      }
    }
    var gs := seq(|cats|, j requires 0 <= j < |cats| => cats[j].value);
    assert forall g :: g in gs <==> Occurrences(col, g) > 0 by {
      forall g ensures g in gs <==> Occurrences(col, g) > 0 {
        if g in gs {
          var j :| 0 <= j < |gs| && gs[j] == g;
          assert cats[j] == Int(g) && Int(g) in col;
          var i :| 0 <= i < |col| && col[i] == Int(g);
          assert Matches(col[i], g);
        }
        if Occurrences(col, g) > 0 {
          var i :| 0 <= i < |col| && Matches(col[i], g);
          assert col[i] == Int(g) && col[i] in cats;
          var j :| 0 <= j < |cats| && cats[j] == col[i];
          assert gs[j] == g;
        }
      }
    }
    gs
  }

  /** `dict(zip(*np.unique(col, return_counts=True)))`: each code with its number of rows. */
  function GroupCounts(col: seq<Cell>): (m: map<int, nat>)
    requires AllIntCodes(col)
    ensures forall g :: g in m <==> g in Groups(col)
    ensures forall g :: g in m ==> m[g] == Occurrences(col, g) && m[g] > 0
  {
    map g | g in Groups(col) :: Occurrences(col, g)
  }
}
