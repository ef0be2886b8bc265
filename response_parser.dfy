/**
 * Reading a field out of a model's reply
 * (src/benchmark_framework/utils/response_parser.py): the reply may be
 * wrapped in a Markdown code fence, and the JSON in it may be broken.
 * The JSON decoder and the two regular-expression searches are parameters.
 */
module ResponseParser {
  import opened Wrappers
  import opened Text

  const Fence := "```"

  predicate StartsWith(s: string, prefix: string) {
    |prefix| <= |s| && s[..|prefix|] == prefix
  }

  /**
   * `strip_markdown_code_blocks`: strip; if the text opens a fence, drop the
   * first line, drop the last line if it is a closing fence, re-join and strip.
   */
  function StripMarkdownCodeBlocks(text: string): (r: string)
    ensures IsStripped(r)
    ensures !StartsWith(Strip(text), Fence) ==> r == Strip(text)
  {
    var t := Strip(text);
    StripIsStripped(text);
    if StartsWith(t, Fence) then
      var lines := SplitOn(t, '\n');
      var lines := if StartsWith(lines[0], Fence) then lines[1..] else lines;
      var lines := if |lines| > 0 && Strip(lines[|lines| - 1]) == Fence then lines[..|lines| - 1] else lines;
      StripIsStripped(JoinWith(lines, "\n"));
      Strip(JoinWith(lines, "\n"))
    else
      t
  }

  /** The first line of a fenced text always opens the fence, so the first test of the function never fails. */
  lemma FirstLineOpensFence(t: string)
    requires StartsWith(t, Fence)
    ensures StartsWith(SplitOn(t, '\n')[0], Fence)
  {
    var p := SplitOn(t, '\n')[0];
    FirstPartPrefix(t, '\n');
    assert p[..|Fence|] == t[..|Fence|];
  }

  /** The first part of a split is the prefix up to the first separator. */
  lemma {:induction false} FirstPartPrefix(s: string, c: char)
    ensures |SplitOn(s, c)[0]| <= |s| && SplitOn(s, c)[0] == s[..|SplitOn(s, c)[0]|]
    ensures |SplitOn(s, c)[0]| == |s| || s[|SplitOn(s, c)[0]|] == c
  {
    if s != [] {
      FirstPartPrefix(s[1..], c);
    }
  }

  /** Text with no fence comes back stripped and otherwise unchanged. */
  lemma UnfencedUnchanged(text: string)
    requires !StartsWith(Strip(text), Fence)
    ensures StripMarkdownCodeBlocks(text) == Strip(text)
  {
  }

  /** A fence that never closes and has no body, such as "```json", leaves nothing. */
  lemma BareFenceIsEmpty(text: string)
    requires StartsWith(Strip(text), Fence) && '\n' !in Strip(text)
    ensures StripMarkdownCodeBlocks(text) == ""
  {
    SplitOnNoSep(Strip(text), '\n');
  }

  /**
   * A fenced block, with any language tag on the opening line and a
   * closing fence on its own line, is unwrapped to its stripped body.
   */
  lemma FencedBlockUnwrapped(text: string, tag: string, body: string)
    requires '\n' !in tag
    requires Strip(text) == Fence + tag + "\n" + body + "\n" + Fence
    ensures StripMarkdownCodeBlocks(text) == Strip(body)
  {
    var t := Strip(text);
    var bodyLines := SplitOn(body, '\n');
    FencedLines(t, tag, body);
    var lines := SplitOn(t, '\n');
    FirstLineOpensFence(t);
    assert lines[1..] == bodyLines + [Fence];
    NoSpaceStripped(Fence);
    assert (bodyLines + [Fence])[..|bodyLines|] == bodyLines;
    JoinSplitOn(body, '\n');
  }

  /** The lines of a fenced block: the opening line, the body's lines, the closing fence. */
  lemma FencedLines(t: string, tag: string, body: string)
    requires '\n' !in tag
    requires t == Fence + tag + "\n" + body + "\n" + Fence
    ensures SplitOn(t, '\n') == [Fence + tag] + (SplitOn(body, '\n') + [Fence])
  {
    var opening := Fence + tag;
    assert '\n' !in opening by {
      assert forall i :: 0 <= i < |Fence| ==> Fence[i] == '`';
    }
    assert t == opening + ['\n'] + (body + "\n" + Fence);
    SplitOnPrefix(opening, '\n', body + "\n" + Fence);
    assert body + "\n" + Fence == body + ['\n'] + Fence;
    assert '\n' !in Fence;
    SplitOnAppendLast(body, '\n', Fence);
    var bodyLines := SplitOn(body, '\n');
    assert bodyLines[..|bodyLines| - 1] + [bodyLines[|bodyLines| - 1]] == bodyLines;
  }

  // ---------------------------------------------------------------------
  // extract_json_field
  // ---------------------------------------------------------------------

  /** A JSON value as far as the field lookup cares: a string, or anything else. */
  datatype JsonValue = JsonString(s: string) | JsonOther

  /** The outcome of `json.loads`: a decode error, an object, or some other JSON value. */
  datatype Parsed = DecodeError | JsonObject(fields: map<string, JsonValue>) | NotAnObject

  /** `.get(...)` on a non-object, or `.strip()` on a non-string, raises. */
  const AttributeError := "AttributeError"

  /** `json_response.get(field_name, default).strip()`. */
  function GetStripped(parsed: Parsed, fieldName: string, default: string): (r: Result<string>)
    requires !parsed.DecodeError?
    ensures r.Ok? ==> IsStripped(r.value)
    ensures parsed.JsonObject? && fieldName !in parsed.fields ==> r == Ok(Strip(default))
    ensures r.Err? <==> parsed.NotAnObject? || (fieldName in parsed.fields && parsed.fields[fieldName].JsonOther?)
  {
    StripIsStripped(default);
    match parsed
    case NotAnObject => Err(AttributeError)
    case JsonObject(fields) =>
      if fieldName in fields then
        match fields[fieldName]
        case JsonString(s) => StripIsStripped(s); Ok(Strip(s))
        case JsonOther => Err(AttributeError)
      else Ok(Strip(default))
  }

  /**
   * `extract_json_field`. `jsonLoads` is the JSON decoder; `fieldSearch`
   * returns group 1 of the first match of the field regex, `objectSearch`
   * the whole first match of the embedded-object regex.
   */
  function ExtractJsonField(
    jsonLoads: string -> Parsed,
    fieldSearch: string -> Option<string>,
    objectSearch: string -> Option<string>,
    responseText: string, fieldName: string, default: string): (r: Result<string>)
    ensures r.Ok? ==> r.value == default || IsStripped(r.value)
  {
    var text := StripMarkdownCodeBlocks(responseText);
    var parsed := jsonLoads(text);
    if !parsed.DecodeError? then
      GetStripped(parsed, fieldName, default)
    else if fieldSearch(text).Some? then
      StripIsStripped(fieldSearch(text).value);
      Ok(Strip(fieldSearch(text).value))
    else if objectSearch(text).Some? && !jsonLoads(objectSearch(text).value).DecodeError? then
      GetStripped(jsonLoads(objectSearch(text).value), fieldName, default)
    else
      Ok(default)
  }

  /**
   * The fallback order: a reply that decodes is answered from the decoded
   * value, whatever the regular expressions would find.
   */
  lemma DecodedReplyIgnoresSearches(
    jsonLoads: string -> Parsed,
    fieldSearch: string -> Option<string>, fieldSearch': string -> Option<string>,
    objectSearch: string -> Option<string>, objectSearch': string -> Option<string>,
    responseText: string, fieldName: string, default: string)
    requires !jsonLoads(StripMarkdownCodeBlocks(responseText)).DecodeError?
    ensures ExtractJsonField(jsonLoads, fieldSearch, objectSearch, responseText, fieldName, default)
         == ExtractJsonField(jsonLoads, fieldSearch', objectSearch', responseText, fieldName, default)
  {
  }

  /**
   * Only when the reply does not decode is the field searched for, and a
   * found field is returned stripped, whatever an embedded object holds.
   */
  lemma FieldMatchIgnoresObjectSearch(
    jsonLoads: string -> Parsed,
    fieldSearch: string -> Option<string>,
    objectSearch: string -> Option<string>, objectSearch': string -> Option<string>,
    responseText: string, fieldName: string, default: string)
    requires jsonLoads(StripMarkdownCodeBlocks(responseText)).DecodeError?
    requires fieldSearch(StripMarkdownCodeBlocks(responseText)).Some?
    ensures ExtractJsonField(jsonLoads, fieldSearch, objectSearch, responseText, fieldName, default)
         == ExtractJsonField(jsonLoads, fieldSearch, objectSearch', responseText, fieldName, default)
         == Ok(Strip(fieldSearch(StripMarkdownCodeBlocks(responseText)).value))
  {
  }

  /** When nothing decodes and the field regex finds nothing, the default comes back as given, unstripped. */
  lemma AllFallbacksFail(
    jsonLoads: string -> Parsed,
    fieldSearch: string -> Option<string>,
    objectSearch: string -> Option<string>,
    responseText: string, fieldName: string, default: string)
    requires var text := StripMarkdownCodeBlocks(responseText);
             jsonLoads(text).DecodeError? && fieldSearch(text).None? &&
             (objectSearch(text).None? || jsonLoads(objectSearch(text).value).DecodeError?)
    ensures ExtractJsonField(jsonLoads, fieldSearch, objectSearch, responseText, fieldName, default) == Ok(default)
  {
  }

  /** A reply whose JSON has the field as a string yields that string, stripped. */
  lemma DecodedFieldWins(
    jsonLoads: string -> Parsed,
    fieldSearch: string -> Option<string>,
    objectSearch: string -> Option<string>,
    responseText: string, fieldName: string, default: string, value: string)
    requires jsonLoads(StripMarkdownCodeBlocks(responseText)).JsonObject?
    requires var fields := jsonLoads(StripMarkdownCodeBlocks(responseText)).fields;
             fieldName in fields && fields[fieldName] == JsonString(value)
    ensures ExtractJsonField(jsonLoads, fieldSearch, objectSearch, responseText, fieldName, default) == Ok(Strip(value))
  {
  }
}
