/**
 * The attribute-payload validator: it accepts a dict, None or a JSON text
 * and yields the attribute dict, or the ValueError it raises.
 */
module Utils {
  import opened Values
  import opened Text

  /** The shapes of input the validator tells apart. */
  datatype Raw =
    | RDict(d: Attrs)     // a dict (returned as it is)
    | RNone               // None
    | RStr(s: string)     // a str, expected to hold JSON
    | ROther              // anything else: a list, a number, a bool, ...

  /** What json.loads yields, by kind; only an object's contents matter here. */
  datatype Json =
    | JObject(fields: Attrs)
    | JArray
    | JNumber
    | JString
    | JBool
    | JNull

  /** json.loads: a value, or the JSONDecodeError it raises with its str(). */
  datatype Decoded = Decoded(value: Json) | DecodeError(msg: string)

  /** The dict returned, or the message of the ValueError raised. */
  datatype Parsed = Ok(attrs: Attrs) | Err(message: string)

  const NotObjectMessage: string := "Attributes must be a JSON object or dict."
  const InvalidJsonPrefix: string := "Invalid attributes JSON: "

  /**
   * parse_attributes, with json.loads as the parameter decode. Results are
   * stated case by case: a dict comes back unchanged, None gives the empty
   * dict, anything that is neither a dict, None nor a str is refused with
   * the fixed message, and an error whose message is not the fixed one is a
   * decode failure of the stripped text reported under the JSON prefix.
   */
  function ParseAttributes(raw: Raw, decode: string -> Decoded): (r: Parsed)
    ensures raw.RDict? ==> r == Ok(raw.d)
    ensures raw.RNone? ==> r == Ok([])
    ensures raw.ROther? ==> r == Err(NotObjectMessage)
    ensures r.Err? && r.message != NotObjectMessage ==>
              raw.RStr? && Strip(raw.s) != [] && decode(Strip(raw.s)).DecodeError? &&
              r.message == InvalidJsonPrefix + decode(Strip(raw.s)).msg
  {
    match raw
    case RDict(d) => Ok(d)
    case RNone => Ok([])
    case RStr(s) =>
      var t := Strip(s);
      if t == [] then Ok([])
      else
        (match decode(t)
         case DecodeError(msg) => Err(InvalidJsonPrefix + msg)
         case Decoded(JObject(fields)) => Ok(fields)
         case Decoded(_) => Err(NotObjectMessage))
    case ROther => Err(NotObjectMessage)
  }

  /** An empty or whitespace-only string yields the empty dict, without decoding. */
  lemma BlankStringYieldsEmpty(s: string, decode: string -> Decoded)
    requires AllSpace(s)
    ensures ParseAttributes(RStr(s), decode) == Ok([])
  {
    StripEmptyIffAllSpace(s);
  }

  /** A string holding a JSON object yields the decoded object. */
  lemma ObjectStringYieldsFields(s: string, decode: string -> Decoded, fields: Attrs)
    requires !AllSpace(s)
    requires decode(Strip(s)) == Decoded(JObject(fields))
    ensures ParseAttributes(RStr(s), decode) == Ok(fields)
  {
    StripEmptyIffAllSpace(s);
  }

  /** Text that is not valid JSON raises with the prefixed decoder message. */
  lemma InvalidJsonReported(s: string, decode: string -> Decoded)
    requires !AllSpace(s)
    requires decode(Strip(s)).DecodeError?
    ensures ParseAttributes(RStr(s), decode) == Err(InvalidJsonPrefix + decode(Strip(s)).msg)
    ensures InvalidJsonPrefix <= ParseAttributes(RStr(s), decode).message
  {
    StripEmptyIffAllSpace(s);
  }

  /** Valid JSON that is not an object (list, number, string, bool, null) is refused. */
  lemma NonObjectJsonRejected(s: string, decode: string -> Decoded)
    requires !AllSpace(s)
    requires decode(Strip(s)).Decoded? && !decode(Strip(s)).value.JObject?
    ensures ParseAttributes(RStr(s), decode) == Err(NotObjectMessage)
  {
    StripEmptyIffAllSpace(s);
  }

  /**
   * Exactly which inputs succeed: a dict, None, a blank string, or a string
   * whose stripped text decodes to a JSON object; the two messages are
   * never confused.
   */
  lemma ParseSucceedsIff(raw: Raw, decode: string -> Decoded)
    ensures ParseAttributes(raw, decode).Ok? <==>
              raw.RDict? || raw.RNone? ||
              (raw.RStr? && (AllSpace(raw.s) ||
                             (decode(Strip(raw.s)).Decoded? && decode(Strip(raw.s)).value.JObject?)))
    ensures ParseAttributes(raw, decode).Err? ==>
              (ParseAttributes(raw, decode).message == NotObjectMessage) !=
              (InvalidJsonPrefix <= ParseAttributes(raw, decode).message)
  {
    if raw.RStr? {
      StripEmptyIffAllSpace(raw.s);
    }
    var r := ParseAttributes(raw, decode);
    if r.Err? && r.message == NotObjectMessage {
      assert r.message[0] != InvalidJsonPrefix[0];
    }
  }

  /** A JSON object sent with white-space padding decodes to that object. */
  lemma PaddedObjectString(pre: string, body: string, post: string, decode: string -> Decoded,
                           fields: Attrs)
    requires AllSpace(pre) && AllSpace(post)
    requires body != [] && !IsSpace(body[0]) && !IsSpace(body[|body| - 1])
    requires decode(body) == Decoded(JObject(fields))
    ensures ParseAttributes(RStr(pre + body + post), decode) == Ok(fields)
  {
    StripPadding(pre, body, post);
  }
}
