/** The values a graph query returns and the shaping of its rows by arity
    (the `for row in neo4j_result` loop of `answer_question`). */
module Shaping {
  import opened Results
  import opened Text

  /** A Python value as the graph driver hands it over. `Dict` is a node or
      map, `List` a list; `Other` stands for every remaining driver type
      (floats, dates, paths, ...) and records only its Python type name. */
  datatype Value =
    | Null
    | Bool(b: bool)
    | Int(i: int)
    | Str(s: string)
    | Dict(fields: map<string, Value>)
    | List(items: seq<Value>)
    | Other(typeName: string)

  /** One row of a graph result: the list `list(row.values())`. */
  type Row = seq<Value>

  /** Python's `type(v).__name__`. */
  function TypeName(v: Value): string {
    match v
    case Null => "NoneType"
    case Bool(_) => "bool"
    case Int(_) => "int"
    case Str(_) => "str"
    case Dict(_) => "dict"
    case List(_) => "list"
    case Other(t) => t
  }

  /** The decimal rendering of an integer, with a leading `-` when negative. */
  function IntText(i: int): string {
    if i < 0 then "-" + Decimal(-i) else Decimal(i)
  }

  /** Python's `str(v)`. Scalars are rendered as Python renders them; the
      rendering of containers and other driver objects is the parameter
      `repr`, which the model does not look inside. */
  function PyStr(v: Value, repr: Value -> string): (r: string)
    ensures v.Str? ==> r == v.s
    ensures v.Null? ==> r == "None"
  {
    match v
    case Null => "None"
    case Bool(b) => if b then "True" else "False"
    case Int(i) => IntText(i)
    case Str(s) => s
    case Dict(_) => repr(v)
    case List(_) => repr(v)
    case Other(_) => repr(v)
  }

  /** `v.get('name')` for a dict `v`, and `v` itself otherwise: how each
      component of a two-value row is shaped. */
  function NameOrSelf(v: Value): Value {
    if v.Dict? then (if "name" in v.fields then v.fields["name"] else Null) else v
  }

  /** A row that the shaping loop keeps: one or two values. */
  predicate Kept(row: Row) {
    |row| == 1 || |row| == 2
  }

  /** The shaped form of one row, or `None` when the loop skips it.
      A single value becomes its `name` field when it is a dict holding
      one, and its `str()` otherwise; a pair has each component shaped by
      `NameOrSelf`; every other arity is dropped. */
  function ShapeRow(row: Row, repr: Value -> string): (r: Option<Row>)
    ensures r.Some? <==> Kept(row)
    ensures r.Some? ==> |r.value| == |row|
    ensures (r.Some? && |row| == 1 && row[0].Dict? && "name" in row[0].fields)
            ==> r.value[0] == row[0].fields["name"]
    ensures (r.Some? && |row| == 1 && !(row[0].Dict? && "name" in row[0].fields))
            ==> r.value[0] == Str(PyStr(row[0], repr))
    ensures r.Some? && |row| == 2 ==> forall k :: 0 <= k < 2 ==> r.value[k] == NameOrSelf(row[k])
  {
    if |row| == 1 then
      var v := row[0];
      if v.Dict? && "name" in v.fields then Some([v.fields["name"]])
      else Some([Str(PyStr(v, repr))])
    else if |row| == 2 then
      Some([NameOrSelf(row[0]), NameOrSelf(row[1])])
    else None
  }

  /** The shaped result set: the shaped forms of the kept rows, in order. */
  function Shape(rows: seq<Row>, repr: Value -> string): (r: seq<Row>)
    ensures |r| <= |rows|
    ensures forall k :: 0 <= k < |r| ==> Kept(r[k])
  {
    if rows == [] then []
    else
      var head := ShapeRow(rows[0], repr);
      (if head.Some? then [head.value] else []) + Shape(rows[1..], repr)
  }

  /** Shaping distributes over concatenation of result sets. */
  lemma {:induction false} ShapeAppend(a: seq<Row>, b: seq<Row>, repr: Value -> string)
    ensures Shape(a + b, repr) == Shape(a, repr) + Shape(b, repr)
  {
    if a == [] {
      assert a + b == b;
    } else {
      assert (a + b)[0] == a[0];
      assert (a + b)[1..] == a[1..] + b;
      ShapeAppend(a[1..], b, repr);
    }
  }

  /** Exactly the rows of arity one or two survive. */
  function KeptCount(rows: seq<Row>): (n: nat)
    ensures n <= |rows|
  {
    if rows == [] then 0 else (if Kept(rows[0]) then 1 else 0) + KeptCount(rows[1..])
  }

  /** The shaped set has one row per kept input row, so it is as long as the
      input exactly when no row is dropped, and empty exactly when every
      row is dropped. */
  lemma {:induction false} ShapeKeepsKeptRows(rows: seq<Row>, repr: Value -> string)
    ensures |Shape(rows, repr)| == KeptCount(rows)
    ensures |Shape(rows, repr)| == |rows| <==> forall k :: 0 <= k < |rows| ==> Kept(rows[k])
    ensures Shape(rows, repr) == [] <==> forall k :: 0 <= k < |rows| ==> !Kept(rows[k])
  {
    if rows != [] {
      ShapeKeepsKeptRows(rows[1..], repr);
      assert forall k :: 1 <= k < |rows| ==> rows[k] == rows[1..][k - 1];
      if !Kept(rows[0]) {
        assert |Shape(rows, repr)| < |rows|;
      }
    }
  }

  /** Shaping keeps the order of the rows: the shaped form of a kept input
      row sits at the position given by the number of kept rows before it. */
  lemma {:induction false} ShapePreservesOrder(rows: seq<Row>, repr: Value -> string, i: nat)
    requires i < |rows| && Kept(rows[i])
    ensures KeptCount(rows[..i]) < |Shape(rows, repr)|
    ensures Shape(rows, repr)[KeptCount(rows[..i])] == ShapeRow(rows[i], repr).value
  {
    assert rows == rows[..i] + rows[i..];
    ShapeAppend(rows[..i], rows[i..], repr);
    ShapeKeepsKeptRows(rows[..i], repr);
    assert rows[i..][0] == rows[i];
  }

  /** When no row is dropped, the shaped set is the shaped form of each row,
      position by position. */
  lemma {:induction false} ShapeKeepsAllRows(rows: seq<Row>, repr: Value -> string)
    requires forall k :: 0 <= k < |rows| ==> Kept(rows[k])
    ensures |Shape(rows, repr)| == |rows|
    ensures forall k :: 0 <= k < |rows| ==> Shape(rows, repr)[k] == ShapeRow(rows[k], repr).value
  {
    if rows != [] {
      ShapeKeepsAllRows(rows[1..], repr);
      var shaped := Shape(rows, repr);
      assert shaped == [ShapeRow(rows[0], repr).value] + Shape(rows[1..], repr);
      forall k | 1 <= k < |rows|
        ensures shaped[k] == ShapeRow(rows[k], repr).value
      {
        assert rows[1..][k - 1] == rows[k];
      }
    }
  }

  /** The shaping loop: rows are visited in order and each kept row is
      appended to `shaped`. */
  method ShapeRows(rows: seq<Row>, repr: Value -> string) returns (shaped: seq<Row>)
    ensures shaped == Shape(rows, repr)
  {
    shaped := [];
    var i := 0;
    while i < |rows|
      invariant 0 <= i <= |rows|
      invariant shaped == Shape(rows[..i], repr)
    {
      var r := ShapeRow(rows[i], repr);
      assert rows[..i + 1] == rows[..i] + [rows[i]];
      ShapeAppend(rows[..i], [rows[i]], repr);
      if r.Some? {
        shaped := shaped + [r.value];
      }
      i := i + 1;
    }
    assert rows[..i] == rows;
  }
}
