/** The `livros` table and the five handlers of the book API (create, list,
    get, update, delete) as operations on it. The MySQL table becomes a map
    from id to row plus the next AUTO_INCREMENT value; every store call
    succeeds. */
module Catalog {
  import opened JsValues
  import opened Validation
  import opened Rows
  import opened UpdateStatement
  import opened Listing

  /** The handlers' answers; the HTTP status of each is `Status`. */
  datatype Response =
    | Created(book: Book)
    | Found(book: Book)
    | Updated(book: Book)
    | BookList(total: nat, books: seq<Book>)
    | Removed
    | BadRequest(error: string, details: seq<string>)
    | NotFound

  const CreateRejected: string := "Requisição inválida"
  const UpdateRejected: string := "Dados inválidos"
  const NothingToUpdate: string := "Nenhum dado de atualização fornecido."

  function Status(r: Response): (code: int)
    ensures code == 201 <==> r.Created?
    ensures code == 200 <==> r.Found? || r.Updated? || r.BookList? || r.Removed?
    ensures code == 400 <==> r.BadRequest?
    ensures code == 404 <==> r.NotFound?
  {
    match r
    case Created(_) => 201
    case BadRequest(_, _) => 400
    case NotFound => 404
    case _ => 200
  }

  /** A payload the create handler accepts yields a well-formed row, and
      reading that row back gives exactly the book the handler echoed.
      This exact round trip rests on the model's store keeping every
      column as sent (except the 0/1 availability); a real column type
      would coerce a value such as `isbn: true` or a numeric `titulo`, and
      the read-back would then differ from the echo. */
  lemma CreatedRowReadsBack(id: int, data: Payload)
    requires Errors(data, false) == []
    ensures HasRequired(data) && AvailableOrTrue(data).Bool?
    ensures WellFormed(NewRow(data))
    ensures Normalize(id, NewRow(data)) == Echo(id, data)
  {
    AcceptedIff(data, false);
  }

  /** An update the validator accepts keeps a row well-formed. */
  lemma UpdateKeepsWellFormed(row: Row, data: Payload)
    requires WellFormed(row)
    requires Errors(data, true) == []
    ensures WellFormed(UpdatedRow(row, data))
  {
    AcceptedIff(data, true);
  }

  class BookTable {
    /** The rows by primary key. */
    var rows: map<int, Row>
    /** The id the next insert receives (AUTO_INCREMENT). */
    var nextId: int

    /** Ids are positive and below the counter, so the counter is always
        fresh; every row has a numeric year and a 0/1 availability. */
    ghost predicate Valid()
      reads this
    {
      && nextId >= 1
      && (forall id :: id in rows ==> 1 <= id < nextId && WellFormed(rows[id]))
    }

    constructor ()
      ensures Valid()
      ensures rows == map[] && nextId == 1
    {
      rows := map[];
      nextId := 1;
    }

    /** POST /livros. */
    method Create(data: Payload) returns (r: Response)
      requires Valid()
      modifies this
      ensures Valid()
      ensures Errors(data, false) != [] ==>
                r == BadRequest(CreateRejected, Errors(data, false)) &&
                rows == old(rows) && nextId == old(nextId)
      ensures Errors(data, false) == [] ==>
                && old(nextId) !in old(rows)
                && HasRequired(data) && AvailableOrTrue(data).Bool?
                && rows == old(rows)[old(nextId) := NewRow(data)]
                && nextId == old(nextId) + 1
                && r == Created(Echo(old(nextId), data))
    {
      var errs := ValidateBookData(data, false);
      if |errs| > 0 {
        return BadRequest(CreateRejected, errs);
      }
      CreatedRowReadsBack(nextId, data);
      var id := nextId;
      rows := rows[id := NewRow(data)];
      nextId := nextId + 1;
      r := Created(Echo(id, data));
    }

    /** GET /livros, with the optional `autor` query parameter. */
    method List(filter: Option<string>) returns (r: Response)
      requires Valid()
      ensures r.BookList? && r.total == |r.books|
      ensures forall i :: 0 <= i < |r.books| ==>
                r.books[i].id in rows && Selects(filter, rows[r.books[i].id]) &&
                r.books[i] == Normalize(r.books[i].id, rows[r.books[i].id])
      ensures forall id :: id in rows && Selects(filter, rows[id]) ==>
                exists i :: 0 <= i < |r.books| && r.books[i].id == id
      ensures forall i, j :: 0 <= i < j < |r.books| ==> r.books[i].id > r.books[j].id
    {
      ListedExact(rows, filter, nextId - 1);
      var books := Listed(rows, filter, nextId - 1);
      r := BookList(|books|, books);
    }

    /** GET /livros/:id. */
    method Get(id: int) returns (r: Response)
      ensures id in rows ==> r == Found(Normalize(id, rows[id]))
      ensures id !in rows ==> r == NotFound
    {
      if id !in rows {
        return NotFound;
      }
      r := Found(Normalize(id, rows[id]));
    }

    /** PUT /livros/:id: empty body, then validation, then lookup, then the
        SET list; a body with only unknown keys writes nothing. */
    method Update(id: int, data: Payload) returns (r: Response)
      requires Valid()
      modifies this
      ensures Valid() && nextId == old(nextId)
      ensures |data| == 0 ==> r == BadRequest(NothingToUpdate, []) && rows == old(rows)
      ensures |data| != 0 && Errors(data, true) != [] ==>
                r == BadRequest(UpdateRejected, Errors(data, true)) && rows == old(rows)
      ensures |data| != 0 && Errors(data, true) == [] && id !in old(rows) ==>
                r == NotFound && rows == old(rows)
      ensures |data| != 0 && Errors(data, true) == [] && id in old(rows) && SelectedColumns(data) == [] ==>
                r == Found(Normalize(id, old(rows)[id])) && rows == old(rows)
      ensures |data| != 0 && Errors(data, true) == [] && id in old(rows) && SelectedColumns(data) != [] ==>
                rows == old(rows)[id := UpdatedRow(old(rows)[id], data)] &&
                r == Updated(Normalize(id, rows[id]))
    {
      if |data| == 0 {
        return BadRequest(NothingToUpdate, []);
      }
      var errs := ValidateBookData(data, true);
      if |errs| > 0 {
        return BadRequest(UpdateRejected, errs);
      }
      if id !in rows {
        return NotFound;
      }
      AcceptedIff(data, true);
      r := WriteUpdate(id, data);
    }

    /** The part of PUT /livros/:id after the row was found: build the SET
        list, write nothing if it is empty, else execute and re-read. */
    method WriteUpdate(id: int, data: Payload) returns (r: Response)
      requires Valid() && id in rows && WellTyped(data)
      modifies this
      ensures Valid() && nextId == old(nextId)
      ensures SelectedColumns(data) == [] ==> r == Found(Normalize(id, old(rows)[id])) && rows == old(rows)
      ensures SelectedColumns(data) != [] ==>
                rows == old(rows)[id := UpdatedRow(old(rows)[id], data)] &&
                r == Updated(Normalize(id, rows[id]))
    {
      var original := rows[id];
      var columns, values := BuildUpdate(data, id);
      if |columns| == 0 {
        return Found(Normalize(id, original));
      }
      ExecuteUpdate(original, data, columns, values, id);
      rows := rows[id := ApplySet(original, columns, values)];
      r := Updated(Normalize(id, rows[id]));
    }

    /** DELETE /livros/:id. */
    method Delete(id: int) returns (r: Response)
      requires Valid()
      modifies this
      ensures Valid() && nextId == old(nextId)
      ensures id in old(rows) ==> r == Removed && rows == old(rows) - {id}
      ensures id !in old(rows) ==> r == NotFound && rows == old(rows)
    {
      if id !in rows {
        return NotFound;
      }
      rows := rows - {id};
      r := Removed;
    }
  }

  /** A book that was created reads back as the book the create handler
      answered with, defaults included (with the store keeping columns as
      sent; see CreatedRowReadsBack). */
  method CreateThenGet(t: BookTable, data: Payload) returns (created: Response, fetched: Response)
    requires t.Valid()
    requires Errors(data, false) == []
    modifies t
    ensures t.Valid()
    ensures created.Created? && fetched == Found(created.book)
    ensures "isbn" !in data ==> created.book.isbn == Null
    ensures "disponivel" !in data ==> created.book.available
  {
    created := t.Create(data);
    fetched := t.Get(created.book.id);
    CreatedRowReadsBack(created.book.id, data);
  }

  /** After a delete, the id is gone, whether or not it was there. */
  method DeleteThenGet(t: BookTable, id: int) returns (deleted: Response, fetched: Response)
    requires t.Valid()
    modifies t
    ensures t.Valid()
    ensures deleted == Removed <==> id in old(t.rows)
    ensures fetched == NotFound
  {
    deleted := t.Delete(id);
    fetched := t.Get(id);
  }

  /** The book an update answers with is the one a later get returns. */
  method UpdateThenGet(t: BookTable, id: int, data: Payload) returns (updated: Response, fetched: Response)
    requires t.Valid()
    modifies t
    ensures t.Valid()
    ensures updated.Updated? ==> fetched == Found(updated.book)
    ensures !updated.Updated? ==> t.rows == old(t.rows)
  {
    updated := t.Update(id, data);
    fetched := t.Get(id);
  }

  /** Reading is idempotent: two gets with no write between them agree.
      This follows from Get changing nothing; it names the property. */
  method GetTwice(t: BookTable, id: int) returns (first: Response, second: Response)
    ensures first == second
    ensures first.Found? || first == NotFound
  {
    first := t.Get(id);
    second := t.Get(id);
  }
}
