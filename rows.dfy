/** A row of the `livros` table as the store holds it, the book as the API
    returns it, and the conversions between them: the 0/1 boolean column on
    the write path and `!!disponivel` on every read path. */
module Rows {
  import opened JsValues

  /** A stored row (the key `id` is kept apart, in the table). The store
      holds the values as sent, except `disponivel`, which it holds as
      Num(0) or Num(1). */
  datatype Row = Row(title: JsVal, author: JsVal, publicationYear: JsVal, isbn: JsVal, available: JsVal)

  /** A book in a response: the row, its id, and `disponivel` as a true
      boolean. */
  datatype Book = Book(id: int, title: JsVal, author: JsVal, publicationYear: JsVal, isbn: JsVal, available: bool)

  /** The columns of the table, by their names in requests and in SQL. */
  predicate IsColumn(name: string)
  {
    name == "titulo" || name == "autor" || name == "ano_publicacao" || name == "isbn" || name == "disponivel"
  }

  /** The value of column `name` of a row. */
  function Column(row: Row, name: string): JsVal
    requires IsColumn(name)
  {
    match name
    case "titulo" => row.title
    case "autor" => row.author
    case "ano_publicacao" => row.publicationYear
    case "isbn" => row.isbn
    case _ => row.available
  }

  /** The boolean column's write path: true and false become 1 and 0. */
  function ToColumn(v: JsVal): (stored: JsVal)
    ensures v.Bool? ==> stored == Num(if v.b then 1 else 0) && Truthy(stored) == v.b
    ensures !v.Bool? ==> stored == v
  {
    if v.Bool? then Num(if v.b then 1 else 0) else v
  }

  /** What the store holds after writing `v` to column `name`. */
  function StoreValue(name: string, v: JsVal): JsVal
  {
    if name == "disponivel" then ToColumn(v) else v
  }

  /** The row with column `name` set to `v`, as an UPDATE's `name = ?`
      does. */
  function SetColumn(row: Row, name: string, v: JsVal): (r: Row)
    requires IsColumn(name)
    ensures forall other :: IsColumn(other) ==>
              Column(r, other) == if other == name then StoreValue(name, v) else Column(row, other)
  {
    match name
    case "titulo" => row.(title := v)
    case "autor" => row.(author := v)
    case "ano_publicacao" => row.(publicationYear := v)
    case "isbn" => row.(isbn := v)
    case _ => row.(available := ToColumn(v))
  }

  /** Row invariant that create and update maintain: the year is a number
      and the availability column holds 0 or 1. */
  predicate WellFormed(row: Row)
  {
    row.publicationYear.Num? && (row.available == Num(0) || row.available == Num(1))
  }

  /** `{...livro, disponivel: !!livro.disponivel}`: the read path. */
  function Normalize(id: int, row: Row): (b: Book)
    ensures WellFormed(row) ==> (b.available <==> row.available == Num(1))
  {
    Book(id, row.title, row.author, row.publicationYear, row.isbn, Truthy(row.available))
  }

  /** The `isbn = null` default of the create handler. */
  function IsbnOrNull(data: Payload): JsVal
  {
    if "isbn" in data then data["isbn"] else Null
  }

  /** The `disponivel = true` default of the create handler. */
  function AvailableOrTrue(data: Payload): JsVal
  {
    if "disponivel" in data then data["disponivel"] else Bool(true)
  }

  /** The row the create handler inserts: the three required fields, the
      isbn or null, and the availability (true by default) as 0/1. */
  function NewRow(data: Payload): (r: Row)
    requires "titulo" in data && "autor" in data && "ano_publicacao" in data
    ensures r.title == data["titulo"] && r.author == data["autor"] && r.publicationYear == data["ano_publicacao"]
    ensures "isbn" in data ==> r.isbn == data["isbn"]
    ensures "isbn" !in data ==> r.isbn == Null
    ensures "disponivel" in data ==> r.available == ToColumn(data["disponivel"])
    ensures "disponivel" !in data ==> r.available == Num(1)
  {
    Row(data["titulo"], data["autor"], data["ano_publicacao"], IsbnOrNull(data), ToColumn(AvailableOrTrue(data)))
  }

  /** The book the create handler answers with: the fields as supplied or
      defaulted, not as read back from the store. */
  function Echo(id: int, data: Payload): (b: Book)
    requires "titulo" in data && "autor" in data && "ano_publicacao" in data
    requires AvailableOrTrue(data).Bool?
    ensures b.id == id
    ensures b.title == data["titulo"] && b.author == data["autor"] && b.publicationYear == data["ano_publicacao"]
    ensures b.isbn == if "isbn" in data then data["isbn"] else Null
    ensures b.available <==> "disponivel" !in data || data["disponivel"] == Bool(true)
  {
    Book(id, data["titulo"], data["autor"], data["ano_publicacao"], IsbnOrNull(data), AvailableOrTrue(data).b)
  }

  /** The row after an update with `data`: every column named in `data`
      takes the sent value (0/1 for `disponivel`), every other column
      keeps its value. */
  function UpdatedRow(row: Row, data: Payload): (r: Row)
    ensures forall name :: IsColumn(name) ==>
              Column(r, name) == if name in data then StoreValue(name, data[name]) else Column(row, name)
  {
    Row(if "titulo" in data then data["titulo"] else row.title,
        if "autor" in data then data["autor"] else row.author,
        if "ano_publicacao" in data then data["ano_publicacao"] else row.publicationYear,
        if "isbn" in data then data["isbn"] else row.isbn,
        if "disponivel" in data then ToColumn(data["disponivel"]) else row.available)
  }

  /** Two rows that agree on every column are the same row. */
  lemma RowsEqual(a: Row, b: Row)
    requires forall name :: IsColumn(name) ==> Column(a, name) == Column(b, name)
    ensures a == b
  {
    assert Column(a, "titulo") == Column(b, "titulo");
    assert Column(a, "autor") == Column(b, "autor");
    assert Column(a, "ano_publicacao") == Column(b, "ano_publicacao");
    assert Column(a, "isbn") == Column(b, "isbn");
    assert Column(a, "disponivel") == Column(b, "disponivel");
  }
}
