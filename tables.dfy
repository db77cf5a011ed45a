/** The parsed table, taken as given (CSV parsing and type inference are the
    parser's business), and the row operations the tools apply to it: the
    column lookup, `head(limit)`, the case-insensitive row filter of the
    search tool and the column-to-type mapping of the schema tool. */
module Tables {
  import opened Results
  import opened Text
  import opened Seqs

  /** A cell as text (what `astype(str)` shows), or a missing value. */
  datatype Cell = Missing | Str(text: string)

  type Row = seq<Cell>

  /** A column name and the name of the type the parser inferred for it. */
  datatype Column = Column(name: string, dtype: string)

  datatype Table = Table(columns: seq<Column>, rows: seq<Row>)

  function ColumnName(c: Column): string
  {
    c.name
  }

  function ColumnNames(t: Table): (r: seq<string>)
    ensures |r| == |t.columns|
  {
    Map(ColumnName, t.columns)
  }

  /** The first column called `name`, or `None` when `name` is not among the
      table's columns (`column not in df.columns`). */
  function ColumnIndex(cols: seq<Column>, name: string): (r: Option<nat>)
    ensures r.None? <==> forall i :: 0 <= i < |cols| ==> cols[i].name != name
    ensures r.Some? ==> r.value < |cols| && cols[r.value].name == name
    ensures r.Some? ==> forall i :: 0 <= i < r.value ==> cols[i].name != name
  {
    if cols == [] then None
    else if cols[0].name == name then Some(0)
    else match ColumnIndex(cols[1..], name)
      case None => None
      case Some(k) => Some(k + 1)
  }

  /** The cell of `row` in column `j`; a short row reads as missing there. */
  function CellAt(row: Row, j: nat): Cell
  {
    if j < |row| then row[j] else Missing
  }

  /** `str.contains(value, case=False, na=False)` on one cell: a missing cell
      never matches; otherwise `value` is searched as literal text, ignoring case. */
  predicate Matches(c: Cell, value: string)
  {
    c.Str? && ContainsIgnoringCase(c.text, value)
  }

  /** The row mask of the search tool, for column `j`. */
  function RowMatcher(j: nat, value: string): Row -> bool
  {
    row => Matches(CellAt(row, j), value)
  }

  /** `df[df[column].astype(str).str.contains(value, case=False, na=False)]`. */
  function Select(t: Table, j: nat, value: string): (r: seq<Row>)
    ensures forall row :: row in r ==> row in t.rows && Matches(CellAt(row, j), value)
  {
    Filter(RowMatcher(j, value), t.rows)
  }

  /** The selected rows are exactly the matching rows of the table, each as
      many times as the table holds it, kept in their original order. */
  lemma SelectSpec(t: Table, j: nat, value: string)
    ensures IsSubsequence(Select(t, j, value), t.rows)
    ensures forall row :: row in Select(t, j, value) <==> row in t.rows && Matches(CellAt(row, j), value)
    ensures forall row :: multiset(Select(t, j, value))[row] ==
              if Matches(CellAt(row, j), value) then multiset(t.rows)[row] else 0
    ensures Select(t, j, value) == [] <==> forall row :: row in t.rows ==> !Matches(CellAt(row, j), value)
  {
    FilterIsSubsequence(RowMatcher(j, value), t.rows);
    FilterMembership(RowMatcher(j, value), t.rows);
    FilterEmpty(RowMatcher(j, value), t.rows);
    forall row
      ensures multiset(Select(t, j, value))[row] ==
              if Matches(CellAt(row, j), value) then multiset(t.rows)[row] else 0
    {
      FilterCount(RowMatcher(j, value), t.rows, row);
    }
  }

  /** Selecting over a concatenation of row blocks selects block by block. */
  lemma SelectAppend(a: Table, b: Table, j: nat, value: string)
    ensures Select(Table(a.columns, a.rows + b.rows), j, value) == Select(a, j, value) + Select(b, j, value)
  {
    FilterAppend(RowMatcher(j, value), a.rows, b.rows);
  }

  /** `df.head(n)`: the first `n` rows; for negative `n`, all rows but the
      last `-n`. */
  function Head<T>(s: seq<T>, n: int): (r: seq<T>)
    ensures |r| <= |s| && r == s[..|r|]
    ensures n >= 0 ==> |r| == if n <= |s| then n else |s|
    ensures n < 0 ==> |r| == if |s| + n >= 0 then |s| + n else 0
  {
    if n >= 0 then (if n <= |s| then s[..n] else s)
    else (if |s| + n >= 0 then s[..|s| + n] else [])
  }

  /** A limit at or beyond the row count returns every row. */
  lemma HeadAll<T>(s: seq<T>, n: int)
    requires n >= |s|
    ensures Head(s, n) == s
  {
  }

  /** Taking `a` rows and then `b` rows is taking the smaller number of rows. */
  lemma HeadHead<T>(s: seq<T>, a: nat, b: nat)
    ensures Head(Head(s, a), b) == Head(s, if a <= b then a else b)
  {
    var m := if a <= b then a else b;
    var r := Head(Head(s, a), b);
    assert |r| == |Head(s, m)|;
    forall i | 0 <= i < |r|
      ensures r[i] == Head(s, m)[i]
    {
      assert r[i] == Head(s, a)[i] == s[i];
    }
  }

  /** The set of column names. */
  function NameSet(cols: seq<Column>): set<string>
  {
    set c | c in cols :: c.name
  }

  /** `df.dtypes.apply(lambda x: x.name).to_dict()`: column name to type
      name, built in column order, so that of two columns sharing a name the
      later one wins, as in a Python dictionary. */
  function Schema(cols: seq<Column>): (r: map<string, string>)
    ensures r.Keys == NameSet(cols)
  {
    if cols == [] then map[]
    else
      var last := cols[|cols| - 1];
      assert NameSet(cols) == NameSet(cols[..|cols| - 1]) + {last.name} by {
        assert cols == cols[..|cols| - 1] + [last];
      }
      Schema(cols[..|cols| - 1])[last.name := last.dtype]
  }

  /** Each name is bound to the type of the last column carrying it. */
  lemma {:induction false} SchemaLastWins(cols: seq<Column>, i: nat)
    requires i < |cols|
    requires forall k :: i < k < |cols| ==> cols[k].name != cols[i].name
    ensures Schema(cols)[cols[i].name] == cols[i].dtype
    decreases |cols|
  {
    if i < |cols| - 1 {
      var init := cols[..|cols| - 1];
      assert init[i] == cols[i];
      SchemaLastWins(init, i);
    }
  }

  predicate DistinctNames(cols: seq<Column>)
  {
    forall i, k :: 0 <= i < k < |cols| ==> cols[i].name != cols[k].name
  }

  /** With distinct column names (as the parser produces them) the schema has
      one entry per column, holding that column's type. */
  lemma SchemaOfDistinct(cols: seq<Column>)
    requires DistinctNames(cols)
    ensures |Schema(cols)| == |cols|
    ensures forall i :: 0 <= i < |cols| ==> Schema(cols)[cols[i].name] == cols[i].dtype
  {
    NameSetSize(cols);
    forall i | 0 <= i < |cols|
      ensures Schema(cols)[cols[i].name] == cols[i].dtype
    {
      SchemaLastWins(cols, i);
    }
  }

  lemma {:induction false} NameSetSize(cols: seq<Column>)
    requires DistinctNames(cols)
    ensures |NameSet(cols)| == |cols|
  {
    if cols != [] {
      var init, last := cols[..|cols| - 1], cols[|cols| - 1];
      DistinctPrefix(cols);
      NameSetSize(init);
      assert cols == init + [last];
      NameSetSnoc(init, last);
      LastNameFresh(cols);
    }
  }

  lemma DistinctPrefix(cols: seq<Column>)
    requires cols != [] && DistinctNames(cols)
    ensures DistinctNames(cols[..|cols| - 1])
  {
    var init := cols[..|cols| - 1];
    forall i, k | 0 <= i < k < |init|
      ensures init[i].name != init[k].name
    {
      assert init[i] == cols[i] && init[k] == cols[k];
    }
  }

  lemma LastNameFresh(cols: seq<Column>)
    requires cols != [] && DistinctNames(cols)
    ensures cols[|cols| - 1].name !in NameSet(cols[..|cols| - 1])
  {
    var init, last := cols[..|cols| - 1], cols[|cols| - 1];
    forall c | c in init
      ensures c.name != last.name
    {
      var k :| 0 <= k < |init| && init[k] == c;
      assert cols[k] == c;
    }
  }

  lemma NameSetSnoc(init: seq<Column>, last: Column)
    ensures NameSet(init + [last]) == NameSet(init) + {last.name}
  {
    forall c | c in init + [last]
      ensures c in init || c == last
    {
    }
  }

  /** The search example: "cancel" matches "Cancelled" and "CANCELLED" but
      not "Shipped", so the first and third rows are kept, in that order. */
  lemma SearchExample(orders: Table)
    requires orders == Table([Column("status", "object")],
                             [[Str("Cancelled")], [Str("Shipped")], [Str("CANCELLED")]])
    ensures Select(orders, 0, "cancel") == [orders.rows[0], orders.rows[2]]
  {
    MatchesExamples();
    var p := RowMatcher(0, "cancel");
    assert p(orders.rows[0]) by { assert CellAt(orders.rows[0], 0) == Str("Cancelled"); }
    assert !p(orders.rows[1]) by { assert CellAt(orders.rows[1], 0) == Str("Shipped"); }
    assert p(orders.rows[2]) by { assert CellAt(orders.rows[2], 0) == Str("CANCELLED"); }
    KeepFirstAndThird(p, orders.rows);
  }

  lemma KeepFirstAndThird<T>(p: T -> bool, s: seq<T>)
    requires |s| == 3 && p(s[0]) && !p(s[1]) && p(s[2])
    ensures Filter(p, s) == [s[0], s[2]]
  {
    var tail := s[1..];
    assert tail[1..] == [s[2]] && [s[2]][1..] == [];
    assert Filter(p, [s[2]]) == [s[2]];
    assert Filter(p, tail) == [s[2]];
  }

  lemma MatchesExamples()
    ensures Matches(Str("Cancelled"), "cancel")
    ensures !Matches(Str("Shipped"), "cancel")
    ensures Matches(Str("CANCELLED"), "cancel")
  {
    CancelledMatches();
    UpperCancelledMatches();
    ShippedDoesNotMatch();
  }

  lemma CancelledMatches()
    ensures Matches(Str("Cancelled"), "cancel")
  {
    var s, sub := "Cancelled", "cancel";
    assert LowerChar(s[0]) == LowerChar(sub[0]);
    PrefixIgnoringCase(s, sub);
  }

  lemma UpperCancelledMatches()
    ensures Matches(Str("CANCELLED"), "cancel")
  {
    var s, sub := "CANCELLED", "cancel";
    assert LowerChar(s[0]) == LowerChar(sub[0]) && LowerChar(s[1]) == LowerChar(sub[1]);
    assert LowerChar(s[2]) == LowerChar(sub[2]) && LowerChar(s[3]) == LowerChar(sub[3]);
    assert LowerChar(s[4]) == LowerChar(sub[4]) && LowerChar(s[5]) == LowerChar(sub[5]);
    PrefixIgnoringCase(s, sub);
  }

  lemma ShippedDoesNotMatch()
    ensures !Matches(Str("Shipped"), "cancel")
  {
    var w, n := Lower("Shipped"), Lower("cancel");
    assert LowerChar('S') == 's' && LowerChar('c') == 'c';
    assert w[0] == 's' && w[1] == 'h' && n[0] == 'c';
    assert !StartsWith(w, n) by { assert w[..6][0] != n[0]; }
    assert !StartsWith(w[1..], n) by { assert w[1..][..6][0] != n[0]; }
    assert !Contains(w[2..], n);
  }
}
