/** Worked examples of `filter` on small tables. */
module Scenarios {
  import opened Outcomes
  import opened Conditions
  import opened RowFilter
  import Numbers

  function Rec(a: real, target: real): Row
  {
    map["A" := Num(a), "TARGET" := Num(target)]
  }

  /** `A > 2` on the rows A = 1, 5, 10 keeps the last two, now numbered 0 and 1. */
  lemma GreaterThanExample(t: Table)
    requires t == Table(["A", "TARGET"], [Rec(1.0, 0.0), Rec(5.0, 1.0), Rec(10.0, 1.0)])
    ensures Filter(t, ConditionText("A", ">", "2")) == Ok(Table(t.columns, [Rec(5.0, 1.0), Rec(10.0, 1.0)]))
  {
    var c := Condition("A", Gt, Num(2.0));
    var r1, r2, r3 := Rec(1.0, 0.0), Rec(5.0, 1.0), Rec(10.0, 1.0);
    RecCell(1.0, 0.0);
    RecCell(5.0, 1.0);
    RecCell(10.0, 1.0);
    assert Comparable(c, r1) && Comparable(c, r2) && Comparable(c, r3);
    assert !Holds(c, r1) && Holds(c, r2) && Holds(c, r3);
    KeepLastTwo(t, c, r1, r2, r3);
    GreaterThanParses();
  }

  /** On a table of three comparable rows of which only the first fails, the
      condition keeps the other two. */
  lemma KeepLastTwo(t: Table, c: Condition, r1: Row, r2: Row, r3: Row)
    requires c.field in t.columns && t.rows == [r1, r2, r3]
    requires Comparable(c, r1) && Comparable(c, r2) && Comparable(c, r3)
    requires !Holds(c, r1) && Holds(c, r2) && Holds(c, r3)
    ensures Apply(t, c) == Ok(Table(t.columns, [r2, r3]))
  {
    assert forall x :: x in t.rows ==> Comparable(c, x);
    DropFirstOfThree(c, r1, r2, r3);
  }

  lemma RecCell(a: real, target: real)
    ensures Cell(Rec(a, target), "A") == Some(Num(a))
  {
  }

  lemma GreaterThanParses()
    ensures ParseCondition(ConditionText("A", ">", "2")) == Ok(Condition("A", Gt, Num(2.0)))
  {
    assert Numbers.IntToString(2) == "2";
    ParseIntegerLiteral("A", Gt, 2);
  }

  /** Of three rows where only the first fails the condition, the last two are retained. */
  lemma {:induction false} DropFirstOfThree(c: Condition, r1: Row, r2: Row, r3: Row)
    requires !Holds(c, r1) && Holds(c, r2) && Holds(c, r3)
    ensures Retained(c, [r1, r2, r3]) == [r2, r3]
  {
    var s1: seq<Row> := [r1];
    var s2 := s1 + [r2];
    var s3 := s2 + [r3];
    assert s3 == [r1, r2, r3];
    RetainedSnoc(c, [], r1);
    assert [] + [r1] == s1;
    RetainedSnoc(c, s1, r2);
    RetainedSnoc(c, s2, r3);
  }

  /** A condition with a double space has four tokens and is rejected. */
  lemma DoubleSpaceExample()
    ensures Filter(Table(["A"], []), "A  > 2") == Err(WrongTokenCount(4))
  {
  }

  /** `age ~ 5` names no supported operator: an error and no table. */
  lemma UnknownOperatorExample(t: Table)
    ensures Filter(t, ConditionText("age", "~", "5")) == Err(InvalidOperator("~"))
  {
    InvalidOperatorNoTable(t, "age", "~", "5");
  }
}
