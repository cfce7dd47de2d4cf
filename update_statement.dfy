/** The SET list of the update handler: which columns an update writes, in
    which order, with which bound values, and what executing that statement
    does to a row. */
module UpdateStatement {
  import opened JsValues
  import opened Filtering
  import opened Rows

  /** The columns a request may update, in the order the statement lists
      them. */
  const AllowList: seq<string> := ["titulo", "autor", "ano_publicacao", "isbn", "disponivel"]

  /** Position of a column in the allow-list (5 for anything else). */
  function ColumnRank(name: string): int
  {
    match name
    case "titulo" => 0
    case "autor" => 1
    case "ano_publicacao" => 2
    case "isbn" => 3
    case "disponivel" => 4
    case _ => 5
  }

  /** `data[key] !== undefined`: the key was sent, whatever its value
      (`null` included). */
  function PresentIn(data: Payload): string -> bool
  {
    name => name in data
  }

  /** The columns an update with `data` writes: the allow-listed keys that
      were sent, in allow-list order. */
  function SelectedColumns(data: Payload): seq<string>
  {
    Filter(AllowList, PresentIn(data))
  }

  /** Every selected column is bound to the value sent for it, position by
      position, and the id is bound last, for `WHERE id = ?`. */
  predicate Aligned(columns: seq<string>, values: seq<JsVal>, data: Payload, id: int)
  {
    |values| == |columns| + 1 && values[|columns|] == Num(id) &&
    forall i :: 0 <= i < |columns| ==> columns[i] in data && values[i] == data[columns[i]]
  }

  /** The loop over the allow-list that collects `campos` (as column names)
      and `valores`, then appends the id. */
  method BuildUpdate(data: Payload, id: int) returns (columns: seq<string>, values: seq<JsVal>)
    ensures columns == SelectedColumns(data)
    ensures Aligned(columns, values, data, id)
  {
    columns, values := [], [];
    var todo := AllowList;
    while todo != []
      invariant Collected(columns, values, todo, data)
      decreases |todo|
    {
      var key := todo[0];
      CollectStep(columns, values, todo, data);
      if key in data {
        columns, values := columns + [key], values + [data[key]];
      }
      todo := todo[1..];
    }
    CollectDone(columns, values, data, id);
    values := values + [Num(id)];
  }

  /** Loop invariant of the builder: what is collected so far, followed by
      what the rest of the allow-list selects, is the whole selection. */
  predicate Collected(columns: seq<string>, values: seq<JsVal>, todo: seq<string>, data: Payload)
  {
    columns + Filter(todo, PresentIn(data)) == SelectedColumns(data) &&
    |values| == |columns| &&
    forall i :: 0 <= i < |columns| ==> columns[i] in data && values[i] == data[columns[i]]
  }

  lemma CollectStep(columns: seq<string>, values: seq<JsVal>, todo: seq<string>, data: Payload)
    requires todo != []
    requires Collected(columns, values, todo, data)
    ensures if todo[0] in data
            then Collected(columns + [todo[0]], values + [data[todo[0]]], todo[1..], data)
            else Collected(columns, values, todo[1..], data)
  {
    FilterStep(columns, todo, PresentIn(data), AllowList);
  }

  lemma CollectDone(columns: seq<string>, values: seq<JsVal>, data: Payload, id: int)
    requires Collected(columns, values, [], data)
    ensures columns == SelectedColumns(data)
    ensures Aligned(columns, values + [Num(id)], data, id)
  {
    assert columns + [] == columns;
  }

  /** A column is written exactly when it is allow-listed and was sent. */
  lemma SelectedColumnsExact(data: Payload, name: string)
    ensures name in SelectedColumns(data) <==> IsColumn(name) && name in data
  {
    FilterMembers(AllowList, PresentIn(data), name);
  }

  /** The columns come in allow-list order, each at most once. */
  lemma SelectedColumnsOrdered(data: Payload)
    ensures Ascending(SelectedColumns(data), ColumnRank)
  {
    assert Ascending(AllowList, ColumnRank);
    FilterAscending(AllowList, PresentIn(data), ColumnRank);
  }

  /** Nothing is written exactly when no allow-listed key was sent: the
      update with only unknown keys. */
  lemma NoColumnsIff(data: Payload)
    ensures SelectedColumns(data) == [] <==> forall name :: IsColumn(name) ==> name !in data
  {
    FilterEmpty(AllowList, PresentIn(data));
    assert forall i :: 0 <= i < |AllowList| ==> (PresentIn(data)(AllowList[i]) <==> AllowList[i] in data);
  }

  /** The effect of `UPDATE livros SET c1 = ?, c2 = ?, ... WHERE id = ?` on
      the row: each assignment in turn. */
  function ApplySet(row: Row, columns: seq<string>, values: seq<JsVal>): (r: Row)
    requires |columns| <= |values|
    requires forall name :: name in columns ==> IsColumn(name)
    ensures forall name :: IsColumn(name) && name !in columns ==> Column(r, name) == Column(row, name)
    decreases |columns|
  {
    if columns == [] then row
    else ApplySet(SetColumn(row, columns[0], values[0]), columns[1..], values[1..])
  }

  /** Executing a statement whose values are aligned with `data` sets every
      listed column to its sent value and leaves the others. */
  lemma {:induction false} ApplySetColumns(row: Row, columns: seq<string>, values: seq<JsVal>, data: Payload, name: string)
    requires |columns| <= |values|
    requires forall c :: c in columns ==> IsColumn(c)
    requires forall i :: 0 <= i < |columns| ==> columns[i] in data && values[i] == data[columns[i]]
    requires IsColumn(name)
    ensures Column(ApplySet(row, columns, values), name) ==
            if name in columns then StoreValue(name, data[name]) else Column(row, name)
    decreases |columns|
  {
    if columns != [] {
      var next := SetColumn(row, columns[0], values[0]);
      assert forall i :: 0 <= i < |columns[1..]| ==> columns[1..][i] == columns[i + 1] && values[1..][i] == values[i + 1];
      ApplySetColumns(next, columns[1..], values[1..], data, name);
      assert name in columns <==> name == columns[0] || name in columns[1..];
    }
  }

  /** The statement the builder produces does to the row exactly what
      `UpdatedRow` describes. */
  lemma ExecuteUpdate(row: Row, data: Payload, columns: seq<string>, values: seq<JsVal>, id: int)
    requires columns == SelectedColumns(data)
    requires Aligned(columns, values, data, id)
    ensures forall name :: name in columns ==> IsColumn(name)
    ensures ApplySet(row, columns, values) == UpdatedRow(row, data)
  {
    forall name | name in columns
      ensures IsColumn(name)
    {
      SelectedColumnsExact(data, name);
    }
    forall name | IsColumn(name)
      ensures Column(ApplySet(row, columns, values), name) == Column(UpdatedRow(row, data), name)
    {
      ApplySetColumns(row, columns, values, data, name);
      SelectedColumnsExact(data, name);
    }
    RowsEqual(ApplySet(row, columns, values), UpdatedRow(row, data));
  }
}
