# Book catalogue API, modelled in Dafny

This project models the book catalogue of an Express/MySQL service: the
`livros` table and the five handlers that manage it (POST, GET list, GET by
id, PUT, DELETE on `/livros`). It also models the request validator
`validarDadosLivro`, the allow-list builder of the PUT handler's
`UPDATE ... SET` statement, and the `!!disponivel` conversion of the stored
0/1 column into a boolean on every read path.

The project has seven modules, one file each:

- `JsValues` (`js_values.dfy`) defines the JSON values a handler receives and
  the two JavaScript operators applied to them. These are truthiness (`!v`,
  `!!v`) and `typeof`, with `typeof null == "object"`. A request body is a
  map from field name to value, and an absent key stands for `undefined`.
- `Filtering` (`filtering.dfy`) defines an order-preserving selection from a
  sequence. The validator's failed checks and the update's columns are both
  specified with it.
- `Validation` (`validation.dfy`) holds the validator. The method
  `ValidateBookData` follows the source's sequence of `if`/`push` steps, and
  it is proved equal to `Errors`. `Errors` is the list of failed checks, in
  check order, mapped to their messages.
- `Rows` (`rows.dfy`) defines the stored row, the returned book, the write
  path of the boolean column (true/false become 1/0) and the read path
  (`Normalize`). It also has the create handler's defaults and the row after
  an update.
- `UpdateStatement` (`update_statement.dfy`) holds the loop that collects
  the columns and the bound values. It is proved against the allow-list
  filter. `ApplySet` gives what executing the resulting statement does to a
  row.
- `Listing` (`listing.dfy`) holds the list query: the author filter, the
  selection in descending id order, and the normalised books.
- `Catalog` (`catalog.dfy`) holds the class `BookTable`. Its fields are the
  rows by id and the next AUTO_INCREMENT value. Each handler is a method
  that states the new table and the response. Four client methods check the
  handlers in combination: create then get, delete then get, update then
  get, and get twice.

The model follows what the code checks:

- The "required" checks of the create mode test truthiness, not presence.
  So `titulo: ""`, `autor: 0` and `titulo: false` are reported as missing.
- The update mode runs no required checks. So `titulo: ""` or
  `titulo: null` passes validation and is written, so an update can blank
  or null the title.
- The year check is a `typeof ... === 'number'` check, not an integrality
  check, despite its message.
- `typeof null` is `"object"`. In create mode, `ano_publicacao: null`
  therefore yields both the required message and the type message
  (`Validation.NullYearQuirk`).

## Model

| member | source | states |
|---|---|---|
| JsValues.Truthy | server.js:46-50 | a value is falsy exactly when it is null, false, 0 or the empty string |
| JsValues.TypeOf | server.js:58-62 | `typeof` is "number" exactly for numbers, "boolean" exactly for booleans, and "object" for null and objects |
| Validation.ValidateBookData | server.js:41-67 | the messages the validator pushes, step by step, are exactly `Errors(data, isUpdate)`: the failed checks in check order, each mapped to its message |
| Validation.RequiredChecks | server.js:45-55 | the create-mode block leaves the messages of exactly the failing required checks, in order, with the two type checks still to run |
| Validation.ErrorReported | server.js:45-64 | for each of the five checks, its message is reported iff that check fails: falsy titulo or autor (create), absent or null year (create), present non-number year, present non-boolean disponivel |
| Validation.ErrorsInCheckOrder | server.js:41-67 | the reported messages follow the fixed order titulo, autor, ano required, ano type, disponivel type, each message at most once |
| Validation.ErrorsBounded | server.js:45-64 | at most 5 messages; in update mode at most 2 and never a required-field message |
| Validation.AcceptedIff | server.js:41-67 | no message iff the year (if sent) is a number and disponivel (if sent) is a boolean, and, in create mode, titulo and autor are truthy and the year is present and not null |
| Validation.NullYearQuirk | server.js:52-59 | a null year gives both the required and the type message in create mode, and only the type message in update mode |
| Validation.NonBooleanAvailableRejected | server.js:62-64 | a sent disponivel that is not a boolean (null, "true", 1 included) is rejected in both modes |
| Validation.MessagesDistinct | server.js:47-63 | the five messages are pairwise different, so a message identifies its check |
| Rows.ToColumn | server.js:96 | a boolean written to the availability column is stored as 1 or 0, and its truthiness is the boolean |
| Rows.SetColumn | server.js:204 | an assignment `key = ?` changes that column (0/1 for disponivel) and no other |
| Rows.Normalize | server.js:133-136 | the returned availability is the truthiness of the stored column, true exactly when a well-formed row stores 1 |
| Rows.NewRow | server.js:82-96 | the inserted row holds titulo, autor and the year as sent, the isbn as sent or null, and the availability as 0/1, 1 when absent |
| Rows.Echo | server.js:98-106 | the create response carries the new id, the sent fields, the isbn as sent or null, and availability true unless false was sent |
| Rows.UpdatedRow | server.js:202-221 | after an update every column sent in the body holds the sent value and every other column keeps its value |
| UpdateStatement.BuildUpdate | server.js:196-216 | the columns are the allow-listed keys present in the body, in allow-list order; values align with columns index by index, and the id comes last |
| UpdateStatement.SelectedColumnsExact | server.js:200-206 | a column is in the SET list iff it is allow-listed and its key was sent, null values included |
| UpdateStatement.SelectedColumnsOrdered | server.js:200-206 | the SET list is strictly ascending in allow-list order, so no column is listed twice |
| UpdateStatement.NoColumnsIff | server.js:209-214 | the SET list is empty iff no allow-listed key was sent |
| UpdateStatement.ApplySet | server.js:218-221 | executing the SET list leaves every column it does not name unchanged |
| UpdateStatement.ApplySetColumns | server.js:218-221 | executing an aligned SET list sets each listed column to its sent value and leaves the others |
| UpdateStatement.ExecuteUpdate | server.js:196-221 | the statement the builder produces changes the row exactly as `UpdatedRow` describes |
| Listing.FilterActive | server.js:124 | the filter applies exactly when the `autor` parameter is sent and is a truthy string, so the empty string means no filter |
| Listing.Selects | server.js:124-126 | a row is selected iff no filter applies, or its author is a string in which the filter occurs at some position |
| Listing.SelectedIds | server.js:120-125 | every listed id lies in 1..n and is a key of the table |
| Listing.ContainsIff | server.js:124-126 | the substring scan agrees with "the filter occurs at some position of the author" |
| Listing.SelectedIdsMembers | server.js:119-126 | an id is listed iff it is a key of the table whose row the filter selects |
| Listing.SelectedIdsDescending | server.js:120-125 | listed ids are strictly decreasing |
| Listing.ListedExact | server.js:118-141 | every listed book is a selected row read back normalised, every selected row is listed, and ids strictly decrease |
| Listing.NoFilterListsAll | server.js:124 | an absent or empty filter lists every row |
| Catalog.Status | server.js:73-257 | 201 exactly for a created book; 200 exactly for a fetched, updated, listed or removed one; 400 exactly for rejected requests; 404 exactly for missing rows |
| Catalog.CreatedRowReadsBack | server.js:82-108 | an accepted create payload gives a well-formed row, and reading that row back yields exactly the book the create response echoed |
| Catalog.UpdateKeepsWellFormed | server.js:183-221 | an update that passes validation keeps the year numeric and the availability 0/1 |
| Catalog.BookTable.Create | server.js:73-108 | a rejected payload returns the messages and changes nothing; otherwise exactly one row is inserted under a fresh id, and the response echoes the supplied or defaulted fields |
| Catalog.BookTable.List | server.js:118-141 | total equals the number of books; the books are exactly the selected rows, normalised, in strictly descending id order |
| Catalog.BookTable.Get | server.js:151-166 | the normalised row when the id exists, NotFound otherwise |
| Catalog.BookTable.Update | server.js:175-231 | an empty body is rejected before validation and lookup; then validation errors, then NotFound; a body with no allow-listed key returns the original row unchanged; otherwise only that row changes, as `UpdatedRow`, and the response is the re-read row |
| Catalog.BookTable.WriteUpdate | server.js:196-231 | builds and executes the SET list: with no column the table is unchanged and the original row is returned, otherwise the row becomes `UpdatedRow` and is re-read |
| Catalog.BookTable.Delete | server.js:241-251 | an existing id is removed and nothing else changes; a missing id gives NotFound and leaves the table unchanged |
| Catalog.CreateThenGet | server.js:82-166 | a created book, fetched by its id, is the book the create response echoed |
| Catalog.DeleteThenGet | server.js:245-251 | after a delete, a get on that id returns NotFound |
| Catalog.UpdateThenGet | server.js:224-231 | the book an update returns is what a later get returns |
| Catalog.GetTwice | server.js:151-165 | two gets with no write between them return the same response |

## Left out

- Store failures and the 500 responses of every handler: every `pool.execute` succeeds in the model. Schema constraints the store may enforce, such as NOT NULL columns, are not modelled either.
- The Express bootstrap, the middleware, the connection pool and the logging: framework plumbing with no decision logic.
- SQL text and `LIKE` semantics. The author filter is plain, case-sensitive substring containment. Collation, case folding and the wildcard meaning of `%` and `_` inside the filter belong to the store. An author that is not a string never matches.
- Coercion of stored values by the store. Columns hold the JSON values as sent, except the availability column, which holds 0 or 1.
- Floating-point years: numbers are integers in the model, so the model neither shows nor excludes fractional years passing the year check.
- The route id is an integer in the model. Matching of non-numeric route text against the integer key is store behaviour.
- A repeated `autor` query parameter (an array in Express) is not modelled. The filter is absent or one string.
- The race between lookup, write and re-read in PUT: concurrency, outside a sequential model.
- The fixed texts `mensagem` of the success responses and `erro` of the 404 responses are implied by the response constructor, not carried in it.
- controller/userController.js is not part of this model: it only forwards to `../service/userService`, which is not part of this model either, and has no decision logic of its own.
