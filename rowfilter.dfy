/** The row filter: compare one column of every row against the parsed
    literal, keep the rows where the comparison holds, in their original
    order, numbered again from zero. */
module RowFilter {
  import opened Outcomes
  import opened Conditions
  import Tokens
  import Numbers

  /** A row maps column names to cells. A column the row has no entry for
      holds a missing value (NaN or None in the table). */
  type Row = map<string, Value>

  /** A table: its column names and its rows. The row index is the position
      in `rows`, so it always runs from 0 to |rows| - 1. */
  datatype Table = Table(columns: seq<string>, rows: seq<Row>)

  function Cell(row: Row, field: string): Option<Value>
  {
    if field in row then Some(row[field]) else None
  }

  predicate IsOrdering(op: Op)
  {
    op != Eq && op != Ne
  }

  predicate SameKind(a: Value, b: Value)
  {
    (a.Num? && b.Num?) || (a.Str? && b.Str?)
  }

  // ------------------------------------------------------ comparing cells

  /** Python's string order: lexicographic by code point, a proper prefix first. */
  function StrLess(a: string, b: string): (r: bool)
    ensures r ==> a != b
    ensures |a| < |b| && a == b[..|a|] ==> r
  {
    if |b| == 0 then false
    else if |a| == 0 then true
    else if a[0] != b[0] then a[0] < b[0]
    else StrLess(a[1..], b[1..])
  }

  /** Of `a < b`, `a == b` and `b < a` exactly one holds (trichotomy, and with
      it irreflexivity). */
  lemma {:induction false} StrLessTrichotomy(a: string, b: string)
    ensures StrLess(a, b) ==> a != b && !StrLess(b, a)
    ensures a != b ==> StrLess(a, b) || StrLess(b, a)
  {
    if |a| > 0 && |b| > 0 && a[0] == b[0] {
      StrLessTrichotomy(a[1..], b[1..]);
      assert a == [a[0]] + a[1..] && b == [b[0]] + b[1..];
    }
  }

  /** The string order is transitive, so with trichotomy it is a strict total order. */
  lemma {:induction false} StrLessTransitive(a: string, b: string, c: string)
    requires StrLess(a, b) && StrLess(b, c)
    ensures StrLess(a, c)
  {
    if |a| > 0 && a[0] == b[0] && b[0] == c[0] {
      StrLessTransitive(a[1..], b[1..], c[1..]);
    }
  }

  function CompareReals(op: Op, x: real, y: real): bool
  {
    match op
    case Gt => x > y
    case Lt => x < y
    case Ge => x >= y
    case Le => x <= y
    case Eq => x == y
    case Ne => x != y
  }

  function CompareStrings(op: Op, a: string, b: string): bool
  {
    match op
    case Gt => StrLess(b, a)
    case Lt => StrLess(a, b)
    case Ge => StrLess(b, a) || a == b
    case Le => StrLess(a, b) || a == b
    case Eq => a == b
    case Ne => a != b
  }

  /** One element of the boolean mask `data[field] <op> value`. A missing cell
      compares false except under `!=`; `==` and `!=` between a number and a
      string give false and true; ordering a number against a string has no
      answer (`None`), which makes the whole comparison fail. */
  function CompareCell(op: Op, cell: Option<Value>, literal: Value): (r: Option<bool>)
    ensures op == Eq ==> r == Some(cell == Some(literal))
    ensures op == Ne ==> r == Some(cell != Some(literal))
    ensures r.None? <==> IsOrdering(op) && cell.Some? && !SameKind(cell.value, literal)
    ensures IsOrdering(op) && cell.None? ==> r == Some(false)
  {
    match cell
    case None => Some(op == Ne)
    case Some(v) =>
      if v.Num? && literal.Num? then Some(CompareReals(op, v.r, literal.r))
      else if v.Str? && literal.Str? then Some(CompareStrings(op, v.s, literal.s))
      else if op == Eq then Some(false)
      else if op == Ne then Some(true)
      else None
  }

  /** The row's cell can be compared with the condition's literal. */
  predicate Comparable(c: Condition, row: Row)
  {
    CompareCell(c.op, Cell(row, c.field), c.literal).Some?
  }

  /** The row satisfies the condition. */
  predicate Holds(c: Condition, row: Row)
  {
    CompareCell(c.op, Cell(row, c.field), c.literal) == Some(true)
  }

  /** `>` and `<=`, `<` and `>=`, `==` and `!=` are each other's negation. */
  predicate Complementary(op1: Op, op2: Op)
  {
    match op1
    case Gt => op2 == Le
    case Le => op2 == Gt
    case Lt => op2 == Ge
    case Ge => op2 == Lt
    case Eq => op2 == Ne
    case Ne => op2 == Eq
  }

  /** Complementary operators give opposite answers on a present cell of the
      literal's kind; `==` and `!=` do so on every cell, missing or not. */
  lemma ComplementaryCompare(op1: Op, op2: Op, cell: Option<Value>, literal: Value)
    requires Complementary(op1, op2)
    requires IsOrdering(op1) ==> cell.Some? && SameKind(cell.value, literal)
    ensures CompareCell(op1, cell, literal).Some? && CompareCell(op2, cell, literal).Some?
    ensures CompareCell(op1, cell, literal).value != CompareCell(op2, cell, literal).value
  {
    if IsOrdering(op1) && cell.value.Str? {
      StrLessTrichotomy(cell.value.s, literal.s);
    }
  }

  // ------------------------------------------------- selecting by a mask

  /** The mask `data[field] <op> value`, one boolean per row. */
  function MaskOf(c: Condition, rows: seq<Row>): (m: seq<bool>)
    ensures |m| == |rows|
    ensures forall i :: 0 <= i < |rows| ==> (m[i] <==> Holds(c, rows[i]))
    ensures forall i :: 0 <= i < |rows| && m[i] ==> Comparable(c, rows[i])
  {
    seq(|rows|, i requires 0 <= i < |rows| => Holds(c, rows[i]))
  }

  /** Boolean-mask indexing `data[mask]` followed by renumbering the rows. */
  function Select<T>(items: seq<T>, mask: seq<bool>): (r: seq<T>)
    requires |mask| == |items|
    ensures |r| <= |items|
    ensures multiset(r) <= multiset(items)
  {
    if |items| == 0 then []
    else
      var n := |items| - 1;
      assert items == items[..n] + [items[n]];
      Select(items[..n], mask[..n]) + (if mask[n] then [items[n]] else [])
  }

  /** The original positions of the rows a mask keeps, in increasing order:
      the index labels `data[mask]` carries before `reset_index`. */
  function KeptIndices(mask: seq<bool>): (ks: seq<nat>)
    ensures forall k :: 0 <= k < |ks| ==> ks[k] < |mask| && mask[ks[k]]
    ensures forall k, l :: 0 <= k < l < |ks| ==> ks[k] < ks[l]
    ensures forall i :: 0 <= i < |mask| && mask[i] ==> i in ks
  {
    if |mask| == 0 then []
    else
      var n := |mask| - 1;
      KeptIndices(mask[..n]) + (if mask[n] then [n] else [])
  }

  /** Row k of the selection is the row at the k-th kept position: dropping
      the old labels renumbers the kept rows 0, 1, ... in their original order. */
  lemma {:induction false} SelectReindexes<T>(items: seq<T>, mask: seq<bool>)
    requires |mask| == |items|
    ensures |Select(items, mask)| == |KeptIndices(mask)|
    ensures forall k :: 0 <= k < |KeptIndices(mask)| ==>
      Select(items, mask)[k] == items[KeptIndices(mask)[k]]
  {
    if |items| > 0 {
      var n := |items| - 1;
      var prev := Select(items[..n], mask[..n]);
      var ks := KeptIndices(mask[..n]);
      SelectReindexes(items[..n], mask[..n]);
      assert Select(items, mask) == prev + (if mask[n] then [items[n]] else []);
      assert KeptIndices(mask) == ks + (if mask[n] then [n] else []);
      forall k | 0 <= k < |ks| ensures Select(items, mask)[k] == items[KeptIndices(mask)[k]] {
        assert ks[k] < n;
        assert items[..n][ks[k]] == items[ks[k]];
      }
    }
  }

  // ---------------------------------------- the rows satisfying a condition

  /** Reference definition of the result: the rows satisfying `c`, in order. */
  function Retained(c: Condition, rows: seq<Row>): (r: seq<Row>)
    ensures |r| <= |rows|
  {
    if |rows| == 0 then []
    else
      var n := |rows| - 1;
      Retained(c, rows[..n]) + (if Holds(c, rows[n]) then [rows[n]] else [])
  }

  /** The retained rows are drawn from the input, and an input row is retained
      exactly when it satisfies the condition. */
  lemma {:induction false} RetainedMembers(c: Condition, rows: seq<Row>)
    ensures multiset(Retained(c, rows)) <= multiset(rows)
    ensures forall x :: x in Retained(c, rows) ==> x in rows && Holds(c, x)
    ensures forall x :: x in rows ==> (x in Retained(c, rows) <==> Holds(c, x))
  {
    if |rows| > 0 {
      var n := |rows| - 1;
      var p := rows[..n];
      assert rows == p + [rows[n]];
      RetainedMembers(c, p);
    }
  }

  lemma RetainedSnoc(c: Condition, rows: seq<Row>, x: Row)
    ensures Retained(c, rows + [x]) == Retained(c, rows) + (if Holds(c, x) then [x] else [])
  {
    assert (rows + [x])[..|rows|] == rows;
  }

  /** Selecting with the condition's mask yields exactly the reference rows. */
  lemma {:induction false} SelectMaskIsRetained(c: Condition, rows: seq<Row>)
    ensures Select(rows, MaskOf(c, rows)) == Retained(c, rows)
  {
    if |rows| > 0 {
      var n := |rows| - 1;
      assert MaskOf(c, rows)[..n] == MaskOf(c, rows[..n]);
      SelectMaskIsRetained(c, rows[..n]);
    }
  }

  /** Keeping the rows that satisfy `c` a second time keeps them all. */
  lemma {:induction false} RetainedIdempotent(c: Condition, rows: seq<Row>)
    ensures Retained(c, Retained(c, rows)) == Retained(c, rows)
  {
    if |rows| > 0 {
      var n := |rows| - 1;
      var x := rows[n];
      var prev := Retained(c, rows[..n]);
      assert rows == rows[..n] + [x];
      RetainedSnoc(c, rows[..n], x);
      RetainedIdempotent(c, rows[..n]);
      if Holds(c, x) {
        RetainedSnoc(c, prev, x);
      } else {
        assert Retained(c, rows) == prev;
      }
    }
  }

  /** Applying two conditions one after the other does not depend on their order. */
  lemma {:induction false} RetainedCommute(c1: Condition, c2: Condition, rows: seq<Row>)
    ensures Retained(c2, Retained(c1, rows)) == Retained(c1, Retained(c2, rows))
  {
    if |rows| > 0 {
      var n := |rows| - 1;
      var x := rows[n];
      var r1 := Retained(c1, rows[..n]);
      var r2 := Retained(c2, rows[..n]);
      assert rows == rows[..n] + [x];
      RetainedSnoc(c1, rows[..n], x);
      RetainedSnoc(c2, rows[..n], x);
      RetainedCommute(c1, c2, rows[..n]);
      if Holds(c1, x) {
        RetainedSnoc(c2, r1, x);
      } else {
        assert Retained(c1, rows) == r1;
      }
      if Holds(c2, x) {
        RetainedSnoc(c1, r2, x);
      } else {
        assert Retained(c2, rows) == r2;
      }
    }
  }

  /** Two conditions that disagree on every row split the rows between them. */
  lemma {:induction false} RetainedPartition(c1: Condition, c2: Condition, rows: seq<Row>)
    requires forall x :: x in rows ==> Holds(c1, x) != Holds(c2, x)
    ensures |Retained(c1, rows)| + |Retained(c2, rows)| == |rows|
    ensures multiset(Retained(c1, rows)) + multiset(Retained(c2, rows)) == multiset(rows)
  {
    if |rows| > 0 {
      var n := |rows| - 1;
      var p := rows[..n];
      var x := rows[n];
      assert rows == p + [x];
      forall y | y in p ensures Holds(c1, y) != Holds(c2, y) {
        assert y in rows;
      }
      assert Holds(c1, x) != Holds(c2, x) by {
        assert x in rows;
      }
      RetainedPartition(c1, c2, p);
      RetainedSnoc(c1, p, x);
      RetainedSnoc(c2, p, x);
      if Holds(c1, x) {
        assert multiset(Retained(c1, rows)) == multiset(Retained(c1, p)) + multiset{x};
      } else {
        assert multiset(Retained(c2, rows)) == multiset(Retained(c2, p)) + multiset{x};
      }
    }
  }

  // ------------------------------------------------------------- filtering

  /** Steps 3 and 4 of `filter` for an already parsed condition: look the
      column up, build the mask, select and renumber. */
  function Apply(t: Table, c: Condition): (r: Result<Table>)
    ensures r.Ok? <==> c.field in t.columns && forall x :: x in t.rows ==> Comparable(c, x)
    ensures c.field !in t.columns ==> r == Err(MissingField(c.field))
    ensures r.Err? && c.field in t.columns ==> r == Err(Incomparable(c.field))
    ensures r.Ok? ==> r.value.columns == t.columns && r.value.rows == Retained(c, t.rows)
  {
    if c.field !in t.columns then Err(MissingField(c.field))
    else if exists i :: 0 <= i < |t.rows| && !Comparable(c, t.rows[i]) then Err(Incomparable(c.field))
    else
      SelectMaskIsRetained(c, t.rows);
      Ok(Table(t.columns, Select(t.rows, MaskOf(c, t.rows))))
  }

  /** `filter(data, condition)`: parse the condition, then keep the rows that
      satisfy it, in their original order, renumbered from zero. */
  function Filter(t: Table, condition: string): (r: Result<Table>)
    ensures Tokens.SpaceCount(condition) != 2 ==>
      r == Err(WrongTokenCount(Tokens.SpaceCount(condition) + 1))
    ensures r.Ok? ==> ParseCondition(condition).Ok?
    ensures r.Ok? ==> r.value.columns == t.columns && |r.value.rows| <= |t.rows|
    ensures r.Ok? ==> multiset(r.value.rows) <= multiset(t.rows)
    ensures r.Ok? ==> forall x :: x in t.rows ==>
      (x in r.value.rows <==> Holds(ParseCondition(condition).value, x))
  {
    match ParseCondition(condition)
    case Err(e) => Err(e)
    case Ok(c) =>
      RetainedMembers(c, t.rows);
      Apply(t, c)
  }

  // ---------------------------------------------------- filter properties

  /** Filtering the result again with the same condition changes nothing. */
  lemma FilterIdempotent(t: Table, condition: string)
    requires Filter(t, condition).Ok?
    ensures Filter(Filter(t, condition).value, condition) == Filter(t, condition)
  {
    var c := ParseCondition(condition).value;
    var once := Filter(t, condition).value;
    RetainedMembers(c, t.rows);
    assert forall x :: x in once.rows ==> Comparable(c, x);
    RetainedIdempotent(c, t.rows);
  }

  /** Chained filters commute: when each condition filters the table on its
      own, applying them in either order gives the same table. */
  lemma FilterCommutes(t: Table, cond1: string, cond2: string)
    requires Filter(t, cond1).Ok? && Filter(t, cond2).Ok?
    ensures Filter(Filter(t, cond1).value, cond2).Ok?
    ensures Filter(Filter(t, cond1).value, cond2) == Filter(Filter(t, cond2).value, cond1)
  {
    ApplyCommutes(t, ParseCondition(cond1).value, ParseCondition(cond2).value);
  }

  /** Chaining two parsed conditions: each succeeds on the other's result,
      and the two orders give the same table. */
  lemma ApplyCommutes(t: Table, c1: Condition, c2: Condition)
    requires Apply(t, c1).Ok? && Apply(t, c2).Ok?
    ensures Apply(Apply(t, c1).value, c2).Ok?
    ensures Apply(Apply(t, c1).value, c2) == Apply(Apply(t, c2).value, c1)
  {
    RetainedMembers(c1, t.rows);
    RetainedMembers(c2, t.rows);
    assert forall x :: x in Retained(c1, t.rows) ==> Comparable(c2, x);
    assert forall x :: x in Retained(c2, t.rows) ==> Comparable(c1, x);
    RetainedCommute(c1, c2, t.rows);
  }

  /** Row k of a filtered table is the input row at the k-th matching position,
      and those positions increase: the kept rows keep their order and are
      numbered 0 .. n-1 with no gaps. */
  lemma {:induction false} FilterReindexes(t: Table, condition: string)
    requires Filter(t, condition).Ok?
    ensures var ks := KeptIndices(MaskOf(ParseCondition(condition).value, t.rows));
      var out := Filter(t, condition).value.rows;
      && |out| == |ks|
      && (forall k :: 0 <= k < |ks| ==> ks[k] < |t.rows| && out[k] == t.rows[ks[k]])
      && (forall k, l :: 0 <= k < l < |ks| ==> ks[k] < ks[l])
  {
    var c := ParseCondition(condition).value;
    assert Filter(t, condition).value.rows == Retained(c, t.rows);
    SelectMaskIsRetained(c, t.rows);
    SelectReindexes(t.rows, MaskOf(c, t.rows));
  }

  /** Complementary operators on the same column and literal split the rows
      of a table between them, provided the column exists and, for the
      ordering pair, every cell is present and of the literal's kind. */
  lemma ApplyPartition(t: Table, c1: Condition, c2: Condition)
    requires c1.field == c2.field && c1.literal == c2.literal && Complementary(c1.op, c2.op)
    requires c1.field in t.columns
    requires IsOrdering(c1.op) ==>
      forall x :: x in t.rows ==> c1.field in x && SameKind(x[c1.field], c1.literal)
    ensures Apply(t, c1).Ok? && Apply(t, c2).Ok?
    ensures |Apply(t, c1).value.rows| + |Apply(t, c2).value.rows| == |t.rows|
    ensures multiset(Apply(t, c1).value.rows) + multiset(Apply(t, c2).value.rows) == multiset(t.rows)
  {
    forall x | x in t.rows ensures Holds(c1, x) != Holds(c2, x) && Comparable(c1, x) && Comparable(c2, x) {
      ComplementaryCompare(c1.op, c2.op, Cell(x, c1.field), c1.literal);
    }
    RetainedPartition(c1, c2, t.rows);
  }

  /** `field == v` and `field != v` split any table with that column between
      them: every row lands in exactly one of the two results. */
  lemma EqualNotEqualPartition(t: Table, field: string, valueTok: string)
    requires ' ' !in field && ' ' !in valueTok
    requires field in t.columns
    ensures var eq := Filter(t, ConditionText(field, "==", valueTok));
      var ne := Filter(t, ConditionText(field, "!=", valueTok));
      && eq.Ok? && ne.Ok?
      && |eq.value.rows| + |ne.value.rows| == |t.rows|
      && multiset(eq.value.rows) + multiset(ne.value.rows) == multiset(t.rows)
  {
    var lit := Coerce(valueTok);
    ParseOpSymbol("==", Eq);
    ParseOpSymbol("!=", Ne);
    FilterText(t, field, "==", valueTok);
    FilterText(t, field, "!=", valueTok);
    ApplyPartition(t, Condition(field, Eq, lit), Condition(field, Ne, lit));
  }

  /** With no missing value and cells of the literal's kind, `field > v` and
      `field <= v` split the table between them. */
  lemma GreaterLessEqualPartition(t: Table, field: string, valueTok: string)
    requires ' ' !in field && ' ' !in valueTok
    requires field in t.columns
    requires forall x :: x in t.rows ==> field in x && SameKind(x[field], Coerce(valueTok))
    ensures var gt := Filter(t, ConditionText(field, ">", valueTok));
      var le := Filter(t, ConditionText(field, "<=", valueTok));
      && gt.Ok? && le.Ok?
      && |gt.value.rows| + |le.value.rows| == |t.rows|
      && multiset(gt.value.rows) + multiset(le.value.rows) == multiset(t.rows)
  {
    var lit := Coerce(valueTok);
    ParseOpSymbol(">", Gt);
    ParseOpSymbol("<=", Le);
    FilterText(t, field, ">", valueTok);
    FilterText(t, field, "<=", valueTok);
    ApplyPartition(t, Condition(field, Gt, lit), Condition(field, Le, lit));
  }

  /** Filtering with a well-spaced condition text is applying its parsed form. */
  lemma FilterText(t: Table, field: string, opTok: string, valueTok: string)
    requires ' ' !in field && ' ' !in opTok && ' ' !in valueTok
    requires ParseOp(opTok).Some?
    ensures Filter(t, ConditionText(field, opTok, valueTok)) == Apply(t, Condition(field, ParseOp(opTok).value, Coerce(valueTok)))
  {
    ParseConditionText(field, opTok, valueTok);
  }

  /** A numeric literal is compared as a number: on a numeric cell the row is
      kept exactly when the real comparison holds, and an ordering against a
      string cell makes the filter fail rather than compare texts. */
  lemma NumericLiteralComparedAsNumber(field: string, op: Op, valueTok: string, x: real, row: Row)
    requires ' ' !in field && ' ' !in valueTok
    requires Numbers.ParseNumber(valueTok) == Some(x)
    requires field in row
    ensures var c := ParseCondition(ConditionText(field, OpSymbol(op), valueTok));
      && c.Ok?
      && (row[field].Num? ==> (Holds(c.value, row) <==> CompareReals(op, row[field].r, x)))
      && (row[field].Str? && IsOrdering(op) ==> !Comparable(c.value, row))
  {
    ParseOpSymbol(OpSymbol(op), op);
    ParseConditionText(field, OpSymbol(op), valueTok);
  }

  /** An unknown operator fails the filter before the column is looked up, so
      no table is produced even when the field is missing too. */
  lemma InvalidOperatorNoTable(t: Table, field: string, opTok: string, valueTok: string)
    requires ' ' !in field && ' ' !in opTok && ' ' !in valueTok
    requires opTok !in {">", "<", ">=", "<=", "==", "!="}
    ensures Filter(t, ConditionText(field, opTok, valueTok)) == Err(InvalidOperator(opTok))
  {
    UnknownOperatorRejected(field, opTok, valueTok);
  }

  /** A condition on an existing column whose cells, where present, have the
      literal's kind never fails; `==` and `!=` never fail on an existing column. */
  lemma WellTypedApplySucceeds(t: Table, c: Condition)
    requires c.field in t.columns
    requires IsOrdering(c.op) ==>
      forall x :: x in t.rows && c.field in x ==> SameKind(x[c.field], c.literal)
    ensures Apply(t, c).Ok?
  {
  }

  /** A valid condition on a column the table lacks fails with the missing
      field, and no table is produced. */
  lemma MissingFieldNoTable(t: Table, field: string, op: Op, valueTok: string)
    requires ' ' !in field && ' ' !in valueTok
    requires field !in t.columns
    ensures Filter(t, ConditionText(field, OpSymbol(op), valueTok)) == Err(MissingField(field))
  {
    ParseOpSymbol(OpSymbol(op), op);
    FilterText(t, field, OpSymbol(op), valueTok);
  }

  /** Two filters applied one after the other keep exactly the input rows
      that satisfy both conditions. */
  lemma FilterChainIsConjunction(t: Table, cond1: string, cond2: string)
    requires Filter(t, cond1).Ok?
    requires Filter(Filter(t, cond1).value, cond2).Ok?
    ensures var c1 := ParseCondition(cond1).value;
      var c2 := ParseCondition(cond2).value;
      var out := Filter(Filter(t, cond1).value, cond2).value.rows;
      forall x :: x in t.rows ==> (x in out <==> Holds(c1, x) && Holds(c2, x))
  {
    var c1 := ParseCondition(cond1).value;
    var c2 := ParseCondition(cond2).value;
    var once := Filter(t, cond1).value;
    var out := Filter(once, cond2).value.rows;
    RetainedMembers(c1, t.rows);
    RetainedMembers(c2, once.rows);
    forall x | x in t.rows ensures x in out <==> Holds(c1, x) && Holds(c2, x) {
      if x in out {
        assert x in once.rows;
      }
    }
  }
}
