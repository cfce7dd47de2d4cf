/** The book payload validator (`validarDadosLivro`): required-field
    checks in create mode, type checks in both modes, and the ordered list
    of messages it returns. */
module Validation {
  import opened JsValues
  import opened Filtering

  /** The five checks, one per message the validator can emit. */
  datatype Check = TitleRequired | AuthorRequired | YearRequired | YearType | AvailableType

  /** The order in which the validator runs its checks. */
  const CheckOrder: seq<Check> := [TitleRequired, AuthorRequired, YearRequired, YearType, AvailableType]

  /** Position of a check in CheckOrder. */
  function Rank(c: Check): int
  {
    match c
    case TitleRequired => 0
    case AuthorRequired => 1
    case YearRequired => 2
    case YearType => 3
    case AvailableType => 4
  }

  /** The message a failing check adds to the list, verbatim. */
  function Message(c: Check): string
  {
    match c
    case TitleRequired => "O campo 'titulo' é obrigatório."
    case AuthorRequired => "O campo 'autor' é obrigatório."
    case YearRequired => "O campo 'ano_publicacao' é obrigatório."
    case YearType => "O campo 'ano_publicacao' deve ser um número inteiro."
    case AvailableType => "O campo 'disponivel' deve ser um valor booleano (true/false)."
  }

  /** `!data[key]`: the key is absent (undefined) or its value is falsy. */
  predicate Missing(data: Payload, key: string)
  {
    key !in data || !Truthy(data[key])
  }

  /** Whether check `c` fails on `data` in the given mode. The required
      checks apply only when creating; `ano_publicacao` is required to be
      neither undefined nor null, the other two fields to be truthy. The
      type checks skip an undefined field but not a null one. */
  predicate Fails(c: Check, data: Payload, isUpdate: bool)
  {
    match c
    case TitleRequired => !isUpdate && Missing(data, "titulo")
    case AuthorRequired => !isUpdate && Missing(data, "autor")
    case YearRequired => !isUpdate && ("ano_publicacao" !in data || data["ano_publicacao"] == Null)
    case YearType => "ano_publicacao" in data && TypeOf(data["ano_publicacao"]) != "number"
    case AvailableType => "disponivel" in data && TypeOf(data["disponivel"]) != "boolean"
  }

  /** Fails on a given payload and mode, as a predicate on checks. */
  function FailsOn(data: Payload, isUpdate: bool): Check -> bool
  {
    c => Fails(c, data, isUpdate)
  }

  /** The failing checks, in check order. */
  function FailedChecks(data: Payload, isUpdate: bool): seq<Check>
  {
    Filter(CheckOrder, FailsOn(data, isUpdate))
  }

  /** The messages of a list of checks. */
  function Messages(cs: seq<Check>): (msgs: seq<string>)
    ensures |msgs| == |cs|
  {
    if cs == [] then [] else [Message(cs[0])] + Messages(cs[1..])
  }

  /** What the validator returns: the message of every failing check, in
      check order. */
  function Errors(data: Payload, isUpdate: bool): seq<string>
  {
    Messages(FailedChecks(data, isUpdate))
  }

  /** `validarDadosLivro`: runs the checks one after the other, appending
      the message of each one that fails. */
  method ValidateBookData(data: Payload, isUpdate: bool) returns (errs: seq<string>)
    ensures errs == Errors(data, isUpdate)
  {
    // `failed` holds the checks that have failed so far and `todo` the
    // checks still to run (see Progress)
    ghost var failed: seq<Check>;
    ghost var todo := CheckOrder[3..];
    if !isUpdate {
      errs, failed := RequiredChecks(data);
    } else {
      errs, failed := [], [];
      RequiredSkipped(data);
    }
    Advance(errs, failed, todo, data, isUpdate);
    if "ano_publicacao" in data && TypeOf(data["ano_publicacao"]) != "number" {
      errs, failed := errs + [Message(YearType)], failed + [YearType];
    }
    todo := todo[1..];
    Advance(errs, failed, todo, data, isUpdate);
    if "disponivel" in data && TypeOf(data["disponivel"]) != "boolean" {
      errs, failed := errs + [Message(AvailableType)], failed + [AvailableType];
    }
    todo := todo[1..];
    Finish(errs, failed, todo, data, isUpdate);
  }

  /** The create-mode block of the validator: the three required-field
      checks, in order. */
  method RequiredChecks(data: Payload) returns (errs: seq<string>, ghost failed: seq<Check>)
    ensures Progress(errs, failed, CheckOrder[3..], data, false)
    ensures errs == Messages(Filter(CheckOrder[..3], FailsOn(data, false)))
  {
    errs, failed := [], [];
    ghost var todo := CheckOrder;
    Advance(errs, failed, todo, data, false);
    if "titulo" !in data || !Truthy(data["titulo"]) {
      errs, failed := errs + [Message(TitleRequired)], failed + [TitleRequired];
    }
    todo := todo[1..];
    Advance(errs, failed, todo, data, false);
    if "autor" !in data || !Truthy(data["autor"]) {
      errs, failed := errs + [Message(AuthorRequired)], failed + [AuthorRequired];
    }
    todo := todo[1..];
    Advance(errs, failed, todo, data, false);
    if "ano_publicacao" !in data || data["ano_publicacao"] == Null {
      errs, failed := errs + [Message(YearRequired)], failed + [YearRequired];
    }
    todo := todo[1..];
    assert todo == CheckOrder[3..];
    RequiredPrefix(failed, data);
  }

  /** What the required checks leave is the filter of the first three
      checks. */
  lemma RequiredPrefix(failed: seq<Check>, data: Payload)
    requires failed + Filter(CheckOrder[3..], FailsOn(data, false)) == FailedChecks(data, false)
    ensures failed == Filter(CheckOrder[..3], FailsOn(data, false))
  {
    var keep := FailsOn(data, false);
    var head, tail := Filter(CheckOrder[..3], keep), Filter(CheckOrder[3..], keep);
    assert CheckOrder[..3] + CheckOrder[3..] == CheckOrder;
    FilterAppend(CheckOrder[..3], CheckOrder[3..], keep);
    assert failed + tail == head + tail;
    assert |failed| == |head|;
    assert forall i :: 0 <= i < |failed| ==> failed[i] == (failed + tail)[i] == (head + tail)[i] == head[i];
  }

  /** In update mode the required-field checks do not run, and none of
      them fails. */
  lemma RequiredSkipped(data: Payload)
    ensures Progress([], [], CheckOrder[3..], data, true)
  {
    var keep := FailsOn(data, true);
    assert Filter(CheckOrder, keep) == Filter(CheckOrder[1..], keep);
    assert Filter(CheckOrder[1..], keep) == Filter(CheckOrder[2..], keep);
    assert Filter(CheckOrder[2..], keep) == Filter(CheckOrder[3..], keep);
  }

  /** The validator's progress: `errs` holds the messages of the checks in
      `failed`, and those are the failing checks that precede `todo`. */
  predicate Progress(errs: seq<string>, failed: seq<Check>, todo: seq<Check>, data: Payload, isUpdate: bool)
  {
    errs == Messages(failed) && failed + Filter(todo, FailsOn(data, isUpdate)) == FailedChecks(data, isUpdate)
  }

  /** One step of the validator: the first check of `todo` runs next. */
  lemma Advance(errs: seq<string>, failed: seq<Check>, todo: seq<Check>, data: Payload, isUpdate: bool)
    requires todo != []
    requires todo == CheckOrder || Progress(errs, failed, todo, data, isUpdate)
    requires todo == CheckOrder ==> errs == [] && failed == []
    ensures Progress(errs, failed, todo, data, isUpdate)
    ensures var c := todo[0];
            if Fails(c, data, isUpdate)
            then Progress(errs + [Message(c)], failed + [c], todo[1..], data, isUpdate)
            else Progress(errs, failed, todo[1..], data, isUpdate)
  {
    FilterStep(failed, todo, FailsOn(data, isUpdate), CheckOrder);
    MessagesAppend(failed, todo[0]);
  }

  /** Once no check is left, the messages are the validator's result. */
  lemma Finish(errs: seq<string>, failed: seq<Check>, todo: seq<Check>, data: Payload, isUpdate: bool)
    requires todo == [] && Progress(errs, failed, todo, data, isUpdate)
    ensures errs == Errors(data, isUpdate)
  {
    assert failed + [] == failed;
  }

  lemma {:induction false} MessagesAppend(cs: seq<Check>, c: Check)
    ensures Messages(cs + [c]) == Messages(cs) + [Message(c)]
  {
    if cs != [] {
      assert (cs + [c])[1..] == cs[1..] + [c];
      MessagesAppend(cs[1..], c);
    }
  }

  lemma {:induction false} MessagesAt(cs: seq<Check>, i: nat)
    requires i < |cs|
    ensures Messages(cs)[i] == Message(cs[i])
  {
    if i > 0 {
      MessagesAt(cs[1..], i - 1);
    }
  }

  /** Distinct checks have distinct messages. */
  lemma MessagesDistinct(c: Check, d: Check)
    ensures Message(c) == Message(d) <==> c == d
  {
  }

  /** A check's message is in the rendered list exactly when the check is. */
  lemma {:induction false} MessageIn(cs: seq<Check>, c: Check)
    ensures Message(c) in Messages(cs) <==> c in cs
  {
    if cs != [] {
      MessageIn(cs[1..], c);
      MessagesDistinct(c, cs[0]);
      assert Messages(cs) == [Message(cs[0])] + Messages(cs[1..]);
      assert c in cs <==> c == cs[0] || c in cs[1..];
    }
  }

  /** The validator reports the message of check `c` exactly when `c`
      fails: in create mode `titulo` and `autor` are reported when absent
      or falsy and `ano_publicacao` when absent or null; in both modes a
      present `ano_publicacao` that is not a number and a present
      `disponivel` that is not a boolean are reported. */
  lemma ErrorReported(data: Payload, isUpdate: bool, c: Check)
    ensures Message(c) in Errors(data, isUpdate) <==> Fails(c, data, isUpdate)
  {
    FilterMembers(CheckOrder, FailsOn(data, isUpdate), c);
    MessageIn(FailedChecks(data, isUpdate), c);
  }

  /** The messages come in check order: titulo-required, autor-required,
      ano-required, ano-type, disponivel-type, each at most once. */
  lemma ErrorsInCheckOrder(data: Payload, isUpdate: bool)
    ensures Ascending(FailedChecks(data, isUpdate), Rank)
    ensures |Errors(data, isUpdate)| == |FailedChecks(data, isUpdate)|
    ensures forall i :: 0 <= i < |FailedChecks(data, isUpdate)| ==>
              Errors(data, isUpdate)[i] == Message(FailedChecks(data, isUpdate)[i])
  {
    assert Ascending(CheckOrder, Rank);
    FilterAscending(CheckOrder, FailsOn(data, isUpdate), Rank);
    forall i | 0 <= i < |FailedChecks(data, isUpdate)|
      ensures Errors(data, isUpdate)[i] == Message(FailedChecks(data, isUpdate)[i])
    {
      MessagesAt(FailedChecks(data, isUpdate), i);
    }
  }

  /** At most five messages, and at most two (the type checks) in update
      mode, where no required-field message is ever emitted. */
  lemma ErrorsBounded(data: Payload, isUpdate: bool)
    ensures |Errors(data, isUpdate)| <= 5
    ensures isUpdate ==> |Errors(data, isUpdate)| <= 2
    ensures isUpdate ==> (Message(TitleRequired) !in Errors(data, isUpdate) &&
                          Message(AuthorRequired) !in Errors(data, isUpdate) &&
                          Message(YearRequired) !in Errors(data, isUpdate))
  {
    var cs := FailedChecks(data, isUpdate);
    ErrorsInCheckOrder(data, isUpdate);
    if isUpdate {
      ErrorReported(data, isUpdate, TitleRequired);
      ErrorReported(data, isUpdate, AuthorRequired);
      ErrorReported(data, isUpdate, YearRequired);
      forall c | c in cs
        ensures 3 <= Rank(c) <= 4
      {
        FilterMembers(CheckOrder, FailsOn(data, isUpdate), c);
      }
      AscendingLength(cs, Rank, 3, 4);
    }
  }

  /** A payload whose `ano_publicacao`, when present, is a number and whose
      `disponivel`, when present, is a boolean. */
  predicate WellTyped(data: Payload)
  {
    && ("ano_publicacao" in data ==> data["ano_publicacao"].Num?)
    && ("disponivel" in data ==> data["disponivel"].Bool?)
  }

  /** A payload that has a truthy `titulo`, a truthy `autor` and a non-null
      `ano_publicacao`. */
  predicate HasRequired(data: Payload)
  {
    && "titulo" in data && Truthy(data["titulo"])
    && "autor" in data && Truthy(data["autor"])
    && "ano_publicacao" in data && data["ano_publicacao"] != Null
  }

  /** The validator accepts a payload (returns no message) exactly when it
      is well typed and, in create mode, carries the required fields. */
  lemma AcceptedIff(data: Payload, isUpdate: bool)
    ensures Errors(data, isUpdate) == [] <==> WellTyped(data) && (!isUpdate ==> HasRequired(data))
  {
    NoErrorsIffNoFailure(data, isUpdate);
  }

  /** No check fails. */
  predicate NoneFails(data: Payload, isUpdate: bool)
  {
    && !Fails(TitleRequired, data, isUpdate) && !Fails(AuthorRequired, data, isUpdate)
    && !Fails(YearRequired, data, isUpdate) && !Fails(YearType, data, isUpdate)
    && !Fails(AvailableType, data, isUpdate)
  }

  lemma NoErrorsIffNoFailure(data: Payload, isUpdate: bool)
    ensures Errors(data, isUpdate) == [] <==> NoneFails(data, isUpdate)
  {
    var fails := FailsOn(data, isUpdate);
    FilterEmpty(CheckOrder, fails);
    assert Errors(data, isUpdate) == [] <==> FailedChecks(data, isUpdate) == [];
    assert (forall i :: 0 <= i < |CheckOrder| ==> !fails(CheckOrder[i])) <==> NoneFails(data, isUpdate);
  }


  /** `typeof null` is "object": a null `ano_publicacao` draws both the
      required and the type message on create, and the type message alone
      on update. */
  lemma NullYearQuirk(data: Payload)
    requires "ano_publicacao" in data && data["ano_publicacao"] == Null
    ensures Message(YearRequired) in Errors(data, false)
    ensures Message(YearType) in Errors(data, false)
    ensures Message(YearType) in Errors(data, true)
    ensures Message(YearRequired) !in Errors(data, true)
  {
    ErrorReported(data, false, YearRequired);
    ErrorReported(data, false, YearType);
    ErrorReported(data, true, YearType);
    ErrorReported(data, true, YearRequired);
  }

  /** A present `disponivel` that is not a boolean (null, "true", 1, ...)
      is rejected in both modes. */
  lemma NonBooleanAvailableRejected(data: Payload, isUpdate: bool)
    requires "disponivel" in data && !data["disponivel"].Bool?
    ensures Message(AvailableType) in Errors(data, isUpdate)
    ensures Errors(data, isUpdate) != []
  {
    ErrorReported(data, isUpdate, AvailableType);
  }
}
