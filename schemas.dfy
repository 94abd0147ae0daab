/**
 * The webhook payload validator: the `WebhookMessage` schema with its field
 * constraints, the `E164_REGEX` pattern and the `validate_msisdn` and
 * `validate_ts` validators.
 *
 * A payload is the decoded JSON body, an object from keys to JSON values.
 * The schema reads the senders under their aliases "from" and "to" and stores
 * them as `fromMsisdn` and `toMsisdn`; like any pydantic model without
 * population by field name, it does not read the keys "from_msisdn" and
 * "to_msisdn". Keys the schema does not know are ignored. All failing fields
 * are reported together, in the order the fields are declared.
 */
module Schemas {
  import opened Wrappers
  import opened Strings

  const MESSAGE_ID_MIN_LENGTH: nat := 1
  const MAX_TEXT_LENGTH: nat := 4096

  /**
   * The JSON values a payload field is modelled with. Arrays, objects and
   * non-integer numbers are outside the model; pydantic refuses them for `str`
   * fields, as it refuses the non-string values below.
   */
  datatype JsonValue = JString(s: string) | JNumber(n: int) | JBool(b: bool) | JNull

  type JsonObject = map<string, JsonValue>

  /** A validated `WebhookMessage`. */
  datatype Message = Message(
    messageId: string,
    fromMsisdn: string,
    toMsisdn: string,
    ts: string,
    text: Option<string>)

  /** Why a field was refused; `field` is the name the payload uses for it. */
  datatype FieldError =
    | Missing(field: string)
    | NotAString(field: string)
    | TooShort(field: string)
    | TooLong(field: string)
    | BadMsisdn(field: string)
    | BadTimestamp(field: string)

  /** The keys a payload must carry. */
  const REQUIRED_KEYS: set<string> := {"message_id", "from", "to", "ts"}

  /** A `+` followed by one or more ASCII digits and nothing else. */
  predicate IsMsisdn(s: string) {
    |s| >= 2 && s[0] == '+' && forall i :: 1 <= i < |s| ==> IsDigit(s[i])
  }

  /** A timestamp carrying the UTC marker `Z` as its last character. */
  predicate IsUtcTimestamp(s: string) {
    |s| > 0 && s[|s| - 1] == 'Z'
  }

  /** The constraints every validated message satisfies. */
  predicate WellFormed(m: Message) {
    && |m.messageId| >= MESSAGE_ID_MIN_LENGTH
    && IsMsisdn(m.fromMsisdn)
    && IsMsisdn(m.toMsisdn)
    && IsUtcTimestamp(m.ts)
    && (m.text.Some? ==> |m.text.value| <= MAX_TEXT_LENGTH)
  }

  // ---------------------------------------------------------------------------
  // E164_REGEX = ^\+\d+$, matched element by element from the start anchor

  /** `\d+$`: one or more digits, then the end of the string. */
  predicate MatchDigitsToEnd(s: string)
    decreases |s|
  {
    |s| > 0 && IsDigit(s[0]) && (|s| == 1 || MatchDigitsToEnd(s[1..]))
  }

  lemma {:induction false} MatchDigitsToEndSpec(s: string)
    ensures MatchDigitsToEnd(s) <==> |s| >= 1 && forall i :: 0 <= i < |s| ==> IsDigit(s[i])
    decreases |s|
  {
    if |s| > 1 {
      MatchDigitsToEndSpec(s[1..]);
      if forall i :: 0 <= i < |s| ==> IsDigit(s[i]) {
        assert forall i :: 0 <= i < |s[1..]| ==> IsDigit(s[1..][i]) by {
          forall i | 0 <= i < |s[1..]| ensures IsDigit(s[1..][i]) {
            assert s[1..][i] == s[i + 1];
          }
        }
      }
      if MatchDigitsToEnd(s) {
        forall i | 0 <= i < |s| ensures IsDigit(s[i]) {
          if i > 0 { assert s[i] == s[1..][i - 1]; }
        }
      }
    }
  }

  /** The MSISDN shape read as `+` followed by a digit string. */
  lemma MsisdnIsPlusDigits(s: string)
    requires |s| > 0
    ensures IsMsisdn(s) <==> s[0] == '+' && |s[1..]| >= 1 && forall i :: 0 <= i < |s[1..]| ==> IsDigit(s[1..][i])
  {
    if IsMsisdn(s) {
      forall i | 0 <= i < |s[1..]| ensures IsDigit(s[1..][i]) {
        assert s[1..][i] == s[i + 1];
      }
    }
    if s[0] == '+' && |s[1..]| >= 1 && forall i :: 0 <= i < |s[1..]| ==> IsDigit(s[1..][i]) {
      forall i | 1 <= i < |s| ensures IsDigit(s[i]) {
        assert s[i] == s[1..][i - 1];
      }
    }
  }

  /** `^\+\d+$` applied with `re.match`: it accepts exactly the MSISDN shape. */
  predicate MatchE164(s: string): (m: bool)
    ensures m <==> IsMsisdn(s)
  {
    if |s| == 0 then false
    else
      MatchDigitsToEndSpec(s[1..]);
      MsisdnIsPlusDigits(s);
      s[0] == '+' && MatchDigitsToEnd(s[1..])
  }

  // ---------------------------------------------------------------------------
  // Validators

  /** `validate_msisdn`: accepts exactly the MSISDN shape and returns the value unchanged. */
  function ValidateMsisdn(field: string, v: string): (r: Result<string, FieldError>)
    ensures r.Ok? <==> IsMsisdn(v)
    ensures r.Ok? ==> r.value == v
    ensures r.Err? ==> r.error == BadMsisdn(field)
  {
    if !MatchE164(v) then Err(BadMsisdn(field)) else Ok(v)
  }

  /** `validate_ts`: accepts exactly the strings ending in `Z` and returns the value unchanged. */
  function ValidateTs(v: string): (r: Result<string, FieldError>)
    ensures r.Ok? <==> IsUtcTimestamp(v)
    ensures r.Ok? ==> r.value == v
    ensures r.Err? ==> r.error == BadTimestamp("ts")
  {
    EndsWithLastChar(v, 'Z');
    if !EndsWith(v, "Z") then Err(BadTimestamp("ts")) else Ok(v)
  }

  // ---------------------------------------------------------------------------
  // Fields

  predicate HasString(p: JsonObject, key: string) {
    key in p && p[key].JString?
  }

  /** A required `str` field: present and a JSON string. */
  function StringField(p: JsonObject, key: string): (r: Result<string, FieldError>)
    ensures r.Ok? <==> HasString(p, key)
    ensures r.Ok? ==> r.value == p[key].s
    ensures key !in p ==> r == Err(Missing(key))
    ensures key in p && !p[key].JString? ==> r == Err(NotAString(key))
  {
    if key !in p then Err(Missing(key))
    else match p[key]
      case JString(s) => Ok(s)
      case _ => Err(NotAString(key))
  }

  /** `message_id: str = Field(..., min_length=1)`. */
  function MessageIdField(p: JsonObject): (r: Result<string, FieldError>)
    ensures r.Ok? <==> HasString(p, "message_id") && |p["message_id"].s| >= MESSAGE_ID_MIN_LENGTH
    ensures r.Ok? ==> r.value == p["message_id"].s
    ensures HasString(p, "message_id") && |p["message_id"].s| < MESSAGE_ID_MIN_LENGTH ==> r == Err(TooShort("message_id"))
    ensures !HasString(p, "message_id") ==> r == StringField(p, "message_id")
  {
    match StringField(p, "message_id")
    case Err(e) => Err(e)
    case Ok(s) => if |s| < MESSAGE_ID_MIN_LENGTH then Err(TooShort("message_id")) else Ok(s)
  }

  /** `from_msisdn` (alias "from") and `to_msisdn` (alias "to"), checked by `validate_msisdn`. */
  function MsisdnField(p: JsonObject, key: string): (r: Result<string, FieldError>)
    ensures r.Ok? <==> HasString(p, key) && IsMsisdn(p[key].s)
    ensures r.Ok? ==> r.value == p[key].s
    ensures HasString(p, key) && !IsMsisdn(p[key].s) ==> r == Err(BadMsisdn(key))
    ensures !HasString(p, key) ==> r == StringField(p, key)
  {
    match StringField(p, key)
    case Err(e) => Err(e)
    case Ok(s) => ValidateMsisdn(key, s)
  }

  /** `ts: str`, checked by `validate_ts`. */
  function TsField(p: JsonObject): (r: Result<string, FieldError>)
    ensures r.Ok? <==> HasString(p, "ts") && IsUtcTimestamp(p["ts"].s)
    ensures r.Ok? ==> r.value == p["ts"].s
    ensures HasString(p, "ts") && !IsUtcTimestamp(p["ts"].s) ==> r == Err(BadTimestamp("ts"))
    ensures !HasString(p, "ts") ==> r == StringField(p, "ts")
  {
    match StringField(p, "ts")
    case Err(e) => Err(e)
    case Ok(s) => ValidateTs(s)
  }

  /** `text: str | None = Field(default=None, max_length=4096)`: absent and null both give None. */
  function TextField(p: JsonObject): (r: Result<Option<string>, FieldError>)
    ensures r.Ok? <==> ("text" in p ==> p["text"] == JNull || (p["text"].JString? && |p["text"].s| <= MAX_TEXT_LENGTH))
    ensures r.Ok? ==> r.value == TextOf(p)
    ensures HasString(p, "text") && |p["text"].s| > MAX_TEXT_LENGTH ==> r == Err(TooLong("text"))
    ensures "text" in p && !p["text"].JString? && p["text"] != JNull ==> r == Err(NotAString("text"))
  {
    if "text" !in p then Ok(None)
    else match p["text"]
      case JNull => Ok(None)
      case JString(s) => if |s| > MAX_TEXT_LENGTH then Err(TooLong("text")) else Ok(Some(s))
      case _ => Err(NotAString("text"))
  }

  function ErrorsOf<T>(r: Result<T, FieldError>): seq<FieldError> {
    if r.Err? then [r.error] else []
  }

  /** The text a payload carries, if any. */
  function TextOf(p: JsonObject): Option<string> {
    if "text" in p && p["text"].JString? then Some(p["text"].s) else None
  }

  /** What the schema accepts, stated field by field. */
  ghost predicate Acceptable(p: JsonObject) {
    && HasString(p, "message_id") && |p["message_id"].s| >= MESSAGE_ID_MIN_LENGTH
    && HasString(p, "from") && IsMsisdn(p["from"].s)
    && HasString(p, "to") && IsMsisdn(p["to"].s)
    && HasString(p, "ts") && IsUtcTimestamp(p["ts"].s)
    && ("text" in p ==> p["text"] == JNull || (p["text"].JString? && |p["text"].s| <= MAX_TEXT_LENGTH))
  }

  /** The errors of all fields, in declaration order; one per failing field. */
  function FieldErrors(p: JsonObject): (e: seq<FieldError>)
    ensures |e| <= 5
  {
    ErrorsOf(MessageIdField(p)) + ErrorsOf(MsisdnField(p, "from")) + ErrorsOf(MsisdnField(p, "to"))
      + ErrorsOf(TsField(p)) + ErrorsOf(TextField(p))
  }

  /** No error is reported exactly when every field constraint holds. */
  lemma NoFieldErrors(p: JsonObject)
    ensures FieldErrors(p) == [] <==> Acceptable(p)
  {
    var id, from, dest, ts, text := MessageIdField(p), MsisdnField(p, "from"), MsisdnField(p, "to"), TsField(p), TextField(p);
    assert FieldErrors(p) == [] <==> id.Ok? && from.Ok? && dest.Ok? && ts.Ok? && text.Ok?;
  }

  /** Which field error lies behind an error in the list. */
  lemma InFieldErrors(p: JsonObject, x: FieldError)
    ensures x in FieldErrors(p) <==>
      || x in ErrorsOf(MessageIdField(p)) || x in ErrorsOf(MsisdnField(p, "from"))
      || x in ErrorsOf(MsisdnField(p, "to")) || x in ErrorsOf(TsField(p)) || x in ErrorsOf(TextField(p))
  {
  }

  /** A required key that is missing, or holds no string, is reported under its name. */
  lemma RequiredKeyReported(p: JsonObject, key: string)
    requires key in REQUIRED_KEYS && !HasString(p, key)
    ensures key !in p ==> Missing(key) in FieldErrors(p)
    ensures key in p ==> NotAString(key) in FieldErrors(p)
  {
    var x := if key !in p then Missing(key) else NotAString(key);
    InFieldErrors(p, x);
    if key == "message_id" {
      assert x in ErrorsOf(MessageIdField(p));
    } else if key == "from" {
      assert x in ErrorsOf(MsisdnField(p, "from"));
    } else if key == "to" {
      assert x in ErrorsOf(MsisdnField(p, "to"));
    } else {
      assert x in ErrorsOf(TsField(p));
    }
  }

  /** A string field that breaks its constraint is reported under its name. */
  lemma BadValuesReported(p: JsonObject)
    ensures HasString(p, "message_id") && |p["message_id"].s| < MESSAGE_ID_MIN_LENGTH ==> TooShort("message_id") in FieldErrors(p)
    ensures HasString(p, "from") && !IsMsisdn(p["from"].s) ==> BadMsisdn("from") in FieldErrors(p)
    ensures HasString(p, "to") && !IsMsisdn(p["to"].s) ==> BadMsisdn("to") in FieldErrors(p)
    ensures HasString(p, "ts") && !IsUtcTimestamp(p["ts"].s) ==> BadTimestamp("ts") in FieldErrors(p)
    ensures HasString(p, "text") && |p["text"].s| > MAX_TEXT_LENGTH ==> TooLong("text") in FieldErrors(p)
    ensures "text" in p && !p["text"].JString? && p["text"] != JNull ==> NotAString("text") in FieldErrors(p)
  {
    InFieldErrors(p, TooShort("message_id"));
    InFieldErrors(p, BadMsisdn("from"));
    InFieldErrors(p, BadMsisdn("to"));
    InFieldErrors(p, BadTimestamp("ts"));
    InFieldErrors(p, TooLong("text"));
    InFieldErrors(p, NotAString("text"));
  }

  /** Every reported error names one of the five fields, and that field breaks its constraint. */
  lemma ReportedFieldsFail(p: JsonObject)
    ensures forall e :: e in FieldErrors(p) ==> e.field in REQUIRED_KEYS || e.field == "text"
    ensures forall e :: e in FieldErrors(p) && e.field == "message_id" ==>
      !(HasString(p, "message_id") && |p["message_id"].s| >= MESSAGE_ID_MIN_LENGTH)
    ensures forall e :: e in FieldErrors(p) && e.field == "from" ==> !(HasString(p, "from") && IsMsisdn(p["from"].s))
    ensures forall e :: e in FieldErrors(p) && e.field == "to" ==> !(HasString(p, "to") && IsMsisdn(p["to"].s))
    ensures forall e :: e in FieldErrors(p) && e.field == "ts" ==> !(HasString(p, "ts") && IsUtcTimestamp(p["ts"].s))
    ensures forall e :: e in FieldErrors(p) && e.field == "text" ==>
      "text" in p && p["text"] != JNull && !(p["text"].JString? && |p["text"].s| <= MAX_TEXT_LENGTH)
  {
    forall e | e in FieldErrors(p)
      ensures e.field in REQUIRED_KEYS || e.field == "text"
      ensures e.field == "message_id" ==> !(HasString(p, "message_id") && |p["message_id"].s| >= MESSAGE_ID_MIN_LENGTH)
      ensures e.field == "from" ==> !(HasString(p, "from") && IsMsisdn(p["from"].s))
      ensures e.field == "to" ==> !(HasString(p, "to") && IsMsisdn(p["to"].s))
      ensures e.field == "ts" ==> !(HasString(p, "ts") && IsUtcTimestamp(p["ts"].s))
      ensures e.field == "text" ==> "text" in p && p["text"] != JNull && !(p["text"].JString? && |p["text"].s| <= MAX_TEXT_LENGTH)
    {
      InFieldErrors(p, e);
    }
  }

  /**
   * Builds a `WebhookMessage` from a payload. The result holds the payload's
   * own strings, with "from" and "to" stored as `fromMsisdn` and `toMsisdn`;
   * no field is rewritten. A refusal names every failing field, and only those.
   */
  function Parse(p: JsonObject): (r: Result<Message, seq<FieldError>>)
    ensures r.Ok? <==> Acceptable(p)
    ensures r.Ok? ==> WellFormed(r.value)
    ensures r.Ok? ==> r.value == Message(p["message_id"].s, p["from"].s, p["to"].s, p["ts"].s, TextOf(p))
    ensures r.Err? ==> 1 <= |r.error| <= 5
    ensures forall key :: key in REQUIRED_KEYS && key !in p ==> r.Err? && Missing(key) in r.error
    ensures forall key :: key in REQUIRED_KEYS && key in p && !p[key].JString? ==> r.Err? && NotAString(key) in r.error
    ensures HasString(p, "message_id") && |p["message_id"].s| < MESSAGE_ID_MIN_LENGTH ==>
      r.Err? && TooShort("message_id") in r.error
    ensures HasString(p, "from") && !IsMsisdn(p["from"].s) ==> r.Err? && BadMsisdn("from") in r.error
    ensures HasString(p, "to") && !IsMsisdn(p["to"].s) ==> r.Err? && BadMsisdn("to") in r.error
    ensures HasString(p, "ts") && !IsUtcTimestamp(p["ts"].s) ==> r.Err? && BadTimestamp("ts") in r.error
    ensures HasString(p, "text") && |p["text"].s| > MAX_TEXT_LENGTH ==> r.Err? && TooLong("text") in r.error
    ensures "text" in p && !p["text"].JString? && p["text"] != JNull ==> r.Err? && NotAString("text") in r.error
    ensures r.Err? ==> forall e :: e in r.error ==> e.field in REQUIRED_KEYS || e.field == "text"
    ensures r.Err? ==> forall e :: e in r.error && e.field == "message_id" ==>
      !(HasString(p, "message_id") && |p["message_id"].s| >= MESSAGE_ID_MIN_LENGTH)
    ensures r.Err? ==> forall e :: e in r.error && e.field == "from" ==> !(HasString(p, "from") && IsMsisdn(p["from"].s))
    ensures r.Err? ==> forall e :: e in r.error && e.field == "to" ==> !(HasString(p, "to") && IsMsisdn(p["to"].s))
    ensures r.Err? ==> forall e :: e in r.error && e.field == "ts" ==> !(HasString(p, "ts") && IsUtcTimestamp(p["ts"].s))
    ensures r.Err? ==> forall e :: e in r.error && e.field == "text" ==>
      "text" in p && p["text"] != JNull && !(p["text"].JString? && |p["text"].s| <= MAX_TEXT_LENGTH)
  {
    var errors := FieldErrors(p);
    NoFieldErrors(p);
    BadValuesReported(p);
    ReportedFieldsFail(p);
    forall key | key in REQUIRED_KEYS && !HasString(p, key)
      ensures key !in p ==> Missing(key) in errors
      ensures key in p ==> NotAString(key) in errors
    {
      RequiredKeyReported(p, key);
    }
    if errors == [] then
      Ok(Message(p["message_id"].s, p["from"].s, p["to"].s, p["ts"].s, TextOf(p)))
    else Err(errors)
  }

  // ---------------------------------------------------------------------------
  // Examples

  lemma MsisdnExamples()
    ensures ValidateMsisdn("from", "1234567") == Err(BadMsisdn("from"))
    ensures ValidateMsisdn("from", "+1234567") == Ok("+1234567")
    ensures ValidateMsisdn("to", "+") == Err(BadMsisdn("to"))
    ensures ValidateMsisdn("to", "+12a4") == Err(BadMsisdn("to"))
  {
    assert !IsDigit("+12a4"[3]);
  }

  lemma TimestampExamples()
    ensures ValidateTs("2024-01-01T00:00:00") == Err(BadTimestamp("ts"))
    ensures ValidateTs("2024-01-01T00:00:00Z") == Ok("2024-01-01T00:00:00Z")
  {
  }

  /** A payload keyed by the field names instead of the aliases is refused. */
  lemma FieldNamesAreNotAliases(p: JsonObject)
    requires "from" !in p && "from_msisdn" in p
    ensures Parse(p).Err? && Missing("from") in Parse(p).error
  {
  }
}
