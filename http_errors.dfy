/**
 * The error classes of `src/lib/http-errors.ts` and the human-readable
 * message a `ValidationError` derives from its field-error map.
 */
module HttpErrors {
  import opened Wrappers
  import opened Text

  /**
   * A `Record<string, string[]>` of field errors, as its entries in the
   * order `Object.entries` reports them: for the non-numeric field names
   * used here (`title`, `slug`, `mainImage`, `content`, `_form`), insertion order.
   */
  type FieldErrors = seq<(string, seq<string>)>

  /** The messages recorded under `field`, if the map has that key. */
  function Lookup(errors: FieldErrors, field: string): Option<seq<string>>
  {
    if errors == [] then None
    else if errors[0].0 == field then Some(errors[0].1)
    else Lookup(errors[1..], field)
  }

  /** `field.charAt(0).toUpperCase() + field.slice(1)`, ASCII only. */
  function Capitalize(field: string): string
  {
    if field == "" then "" else [UpperChar(field[0])] + field[1..]
  }

  /** The fragment `formatFieldErrors` produces for one entry. */
  function FormatField(field: string, messages: seq<string>): (fragment: string)
    // "Required" first: "<Field> is required", only the first character upper-cased
    ensures |messages| > 0 && messages[0] == "Required" ==>
              |fragment| == |field| + |" is required"| &&
              fragment[|field|..] == " is required" &&
              (field != "" ==> fragment[0] == UpperChar(field[0]) && fragment[1..|field|] == field[1..])
    // an empty message list gives an empty fragment
    ensures messages == [] ==> fragment == ""
    // a single other message is reported as it is
    ensures |messages| == 1 && messages[0] != "Required" ==> fragment == messages[0]
  {
    if |messages| > 0 && messages[0] == "Required" then Capitalize(field) + " is required"
    else Join(messages, "and")
  }

  /** Outside the "Required" case the fragment does not depend on the field name. */
  lemma FragmentIgnoresField(field1: string, field2: string, messages: seq<string>)
    requires |messages| == 0 || messages[0] != "Required"
    ensures FormatField(field1, messages) == FormatField(field2, messages)
  {
  }

  /** Outside the "Required" case the messages are glued with the literal "and", no spaces. */
  lemma FragmentJoinsWithAnd(field: string, messages: seq<string>, m: string)
    requires |messages| > 0 && messages[0] != "Required"
    ensures FormatField(field, messages + [m]) == FormatField(field, messages) + "and" + m
  {
    assert (messages + [m])[0] == messages[0];
    JoinSnoc(messages, "and", m);
  }

  /** The fragments of all entries, in entry order. */
  function Fragments(errors: FieldErrors): (fragments: seq<string>)
    ensures |fragments| == |errors|
  {
    if errors == [] then [] else [FormatField(errors[0].0, errors[0].1)] + Fragments(errors[1..])
  }

  /** `ValidationError.formatFieldErrors`: the fragments joined by ", ". */
  function FormatFieldErrors(errors: FieldErrors): (message: string)
    ensures errors == [] ==> message == ""
    ensures |errors| == 1 ==> message == FormatField(errors[0].0, errors[0].1)
  {
    Join(Fragments(errors), ", ")
  }

  /** Entries are reported in entry order: one more entry appends ", " and its fragment. */
  lemma {:induction false} FormatFieldErrorsSnoc(errors: FieldErrors, field: string, messages: seq<string>)
    requires errors != []
    ensures FormatFieldErrors(errors + [(field, messages)])
            == FormatFieldErrors(errors) + ", " + FormatField(field, messages)
  {
    FragmentsSnoc(errors, (field, messages));
    JoinSnoc(Fragments(errors), ", ", FormatField(field, messages));
  }

  lemma {:induction false} FragmentsSnoc(errors: FieldErrors, e: (string, seq<string>))
    ensures Fragments(errors + [e]) == Fragments(errors) + [FormatField(e.0, e.1)]
  {
    if errors != [] {
      assert (errors + [e])[1..] == errors[1..] + [e];
      FragmentsSnoc(errors[1..], e);
    }
  }

  /** `RequestError` (and, through its second constructor, `ValidationError`). */
  class RequestError {
    var statusCode: int
    var message: string
    var errors: Option<FieldErrors>
    var name: string

    /** `new RequestError(statusCode, message, errors)`. */
    constructor (statusCode: int, message: string, errors: Option<FieldErrors>)
      ensures this.statusCode == statusCode && this.message == message
      ensures this.errors == errors && name == "RequestError"
    {
      this.message := message;
      this.statusCode := statusCode;
      this.errors := errors;
      this.name := "RequestError";
    }

    /** `new ValidationError(fieldErrors)`: status 400 and the formatted message. */
    constructor Validation(fieldErrors: FieldErrors)
      ensures statusCode == 400 && message == FormatFieldErrors(fieldErrors)
      ensures errors == Some(fieldErrors) && name == "ValidationError"
    {
      var formatted := FormatFieldErrors(fieldErrors);
      message := formatted;
      statusCode := 400;
      errors := Some(fieldErrors);
      name := "ValidationError";
    }
  }
}
