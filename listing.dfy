/** The list handler's query: the optional author filter, the selection
    of rows in descending id order, and the normalised books it answers
    with. */
module Listing {
  import opened JsValues
  import opened Rows

  /** `sub` occurs in `s` as a contiguous piece: it is a prefix of `s` or
      occurs in the rest of `s`. */
  predicate Contains(s: string, sub: string)
    decreases |s|
  {
    sub <= s || (s != [] && Contains(s[1..], sub))
  }

  /** `sub` occurs in `s` at position `i`. */
  predicate OccursAt(s: string, sub: string, i: int)
  {
    0 <= i <= |s| - |sub| && s[i..i + |sub|] == sub
  }

  /** The scan agrees with the positional definition of an occurrence. */
  lemma {:induction false} ContainsIff(s: string, sub: string)
    ensures Contains(s, sub) <==> exists i :: OccursAt(s, sub, i)
    decreases |s|
  {
    if sub <= s {
      assert OccursAt(s, sub, 0);
    } else if s != [] {
      ContainsIff(s[1..], sub);
      if i :| OccursAt(s[1..], sub, i) {
        assert s[i + 1..i + 1 + |sub|] == s[1..][i..i + |sub|];
        assert OccursAt(s, sub, i + 1);
      }
      if i :| OccursAt(s, sub, i) {
        assert i != 0;
        assert s[1..][i - 1..i - 1 + |sub|] == s[i..i + |sub|];
        assert OccursAt(s[1..], sub, i - 1);
      }
    }
  }

  /** `if (autorFiltro)`: the query parameter filters only when it was sent
      and is not the empty string. */
  predicate FilterActive(filter: Option<string>)
    ensures FilterActive(filter) <==> filter.Some? && Truthy(Str(filter.value))
  {
    filter.Some? && filter.value != ""
  }

  /** `WHERE autor LIKE '%x%'`, read as plain substring containment. */
  predicate Selects(filter: Option<string>, row: Row)
    ensures Selects(filter, row) <==>
              !FilterActive(filter) ||
              (row.author.Str? && exists i :: OccursAt(row.author.s, filter.value, i))
  {
    if FilterActive(filter) && row.author.Str? then
      ContainsIff(row.author.s, filter.value);
      Contains(row.author.s, filter.value)
    else
      !FilterActive(filter)
  }

  /** The keys from `n` down to 1 that are in the table and selected by the
      filter: `ORDER BY id DESC`. */
  function SelectedIds(rows: map<int, Row>, filter: Option<string>, n: int): (ids: seq<int>)
    ensures forall k :: 0 <= k < |ids| ==> 1 <= ids[k] <= n && ids[k] in rows
    decreases n
  {
    if n < 1 then []
    else if n in rows && Selects(filter, rows[n]) then [n] + SelectedIds(rows, filter, n - 1)
    else SelectedIds(rows, filter, n - 1)
  }

  /** Strictly decreasing ids, so no id occurs twice. */
  predicate Descending(ids: seq<int>)
  {
    forall i, j :: 0 <= i < j < |ids| ==> ids[i] > ids[j]
  }

  /** An id is listed exactly when it is a key in 1..n whose row the filter
      selects. */
  lemma {:induction false} SelectedIdsMembers(rows: map<int, Row>, filter: Option<string>, n: int, id: int)
    ensures id in SelectedIds(rows, filter, n) <==> 1 <= id <= n && id in rows && Selects(filter, rows[id])
    decreases n
  {
    if n >= 1 {
      SelectedIdsMembers(rows, filter, n - 1, id);
    }
  }

  /** The listed ids are strictly decreasing. */
  lemma {:induction false} SelectedIdsDescending(rows: map<int, Row>, filter: Option<string>, n: int)
    ensures Descending(SelectedIds(rows, filter, n))
    decreases n
  {
    if n >= 1 {
      var rest := SelectedIds(rows, filter, n - 1);
      SelectedIdsDescending(rows, filter, n - 1);
      if n in rows && Selects(filter, rows[n]) {
        forall k | 0 <= k < |rest|
          ensures rest[k] < n
        {
          SelectedIdsMembers(rows, filter, n - 1, rest[k]);
        }
      }
    }
  }

  /** `rows.map(livro => ({...livro, disponivel: !!livro.disponivel}))`. */
  function Books(rows: map<int, Row>, ids: seq<int>): seq<Book>
    requires forall id :: id in ids ==> id in rows
  {
    seq(|ids|, i requires 0 <= i < |ids| => Normalize(ids[i], rows[ids[i]]))
  }

  /** The books the list handler answers with, given the table's keys all lie
      in 1..n. */
  function Listed(rows: map<int, Row>, filter: Option<string>, n: int): seq<Book>
  {
    var ids := SelectedIds(rows, filter, n);
    assert forall id :: id in ids ==> id in rows by {
      forall id | id in ids
        ensures id in rows
      {
        SelectedIdsMembers(rows, filter, n, id);
      }
    }
    Books(rows, ids)
  }

  /** Listing, all inputs: every listed book is a selected row, read back
      normalised; every selected row is listed; ids strictly decrease. */
  lemma ListedExact(rows: map<int, Row>, filter: Option<string>, n: int)
    requires forall id :: id in rows ==> 1 <= id <= n
    ensures var books := Listed(rows, filter, n);
      && (forall i :: 0 <= i < |books| ==>
            books[i].id in rows && Selects(filter, rows[books[i].id]) &&
            books[i] == Normalize(books[i].id, rows[books[i].id]))
      && (forall id :: id in rows && Selects(filter, rows[id]) ==>
            exists i :: 0 <= i < |books| && books[i].id == id)
      && (forall i, j :: 0 <= i < j < |books| ==> books[i].id > books[j].id)
  {
    var ids := SelectedIds(rows, filter, n);
    var books := Listed(rows, filter, n);
    SelectedIdsDescending(rows, filter, n);
    forall i | 0 <= i < |books|
      ensures books[i].id in rows && Selects(filter, rows[books[i].id])
    {
      SelectedIdsMembers(rows, filter, n, ids[i]);
    }
    forall id | id in rows && Selects(filter, rows[id])
      ensures exists i :: 0 <= i < |books| && books[i].id == id
    {
      SelectedIdsMembers(rows, filter, n, id);
      var i :| 0 <= i < |ids| && ids[i] == id;
      assert books[i].id == id;
    }
  }

  /** An empty or absent filter lists every row. */
  lemma NoFilterListsAll(rows: map<int, Row>, filter: Option<string>, n: int, id: int)
    requires !FilterActive(filter)
    requires forall k :: k in rows ==> 1 <= k <= n
    ensures id in rows <==> id in SelectedIds(rows, filter, n)
  {
    SelectedIdsMembers(rows, filter, n, id);
  }
}
