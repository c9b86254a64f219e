/** The JSON-recovery part of `ollama_chat_json`: take the reply text out of
    the chat response, try to parse it, and on failure retry on the span from
    the first `{` to the last `}`. The HTTP exchange is an input here, and
    `json.loads` is the parameter `parse`. */
module OllamaClient {
  import opened Wrappers
  import opened PyStr

  /** The `message` object of an Ollama chat response. */
  datatype ChatMessage = ChatMessage(content: Option<string>)

  /** The decoded body of an Ollama chat response; `None` is a missing key
      (a `null` value, on which the source raises, is not represented). */
  datatype ChatResponse = ChatResponse(message: Option<ChatMessage>)

  /** The reply text: the `content` of the `message` object, empty when
      either is missing, with surrounding whitespace trimmed. */
  function Content(data: ChatResponse): (c: string)
    ensures NoEdgeSpace(c)
    ensures data.message.None? || data.message.value.content.None? ==> c == ""
    ensures data.message.Some? && data.message.value.content.Some? ==>
              c == Strip(data.message.value.content.value)
  {
    match data.message
    case None => ""
    case Some(m) =>
      match m.content
      case None => ""
      case Some(raw) => Strip(raw)
  }

  /** True when some `{` occurs before some `}`. */
  predicate HasBracePair(content: string) {
    exists i, j | 0 <= i < j < |content| :: content[i] == '{' && content[j] == '}'
  }

  /** The fallback candidate `content[start : end + 1]`, where `start` is the
      first `{` and `end` the last `}`; `None` when the code re-raises. */
  function BraceSpan(content: string): (span: Option<string>)
    ensures span.Some? <==> HasBracePair(content)
    ensures span.Some? ==> |span.value| >= 2 && span.value[0] == '{' && span.value[|span.value| - 1] == '}'
  {
    var start := Find(content, '{');
    var end := RFind(content, '}');
    assert HasBracePair(content) ==> start != -1 && end != -1 && end > start by {
      if HasBracePair(content) {
        var i, j :| 0 <= i < j < |content| && content[i] == '{' && content[j] == '}';
      }
    }
    if start != -1 && end != -1 && end > start then
      var span := content[start..end + 1];
      assert span[0] == content[start];
      assert span[|span| - 1] == content[end];
      Some(span)
    else
      None
  }

  /** The fallback span is the stretch of `content` that begins at its first
      `{` and ends at its last `}`. */
  lemma BraceSpanBounds(content: string) returns (start: nat, end: nat)
    requires BraceSpan(content).Some?
    ensures start < end < |content|
    ensures BraceSpan(content).value == content[start..end + 1]
    ensures forall k | 0 <= k < start :: content[k] != '{'
    ensures forall k | end < k < |content| :: content[k] != '}'
  {
    start := Find(content, '{');
    end := RFind(content, '}');
  }

  /** Any text without `{` before the object and any text without `}` after
      it is cut away by the fallback. */
  lemma BraceSpanOfWrapped(prefix: string, obj: string, suffix: string)
    requires '{' !in prefix && '}' !in suffix
    requires |obj| >= 2 && obj[0] == '{' && obj[|obj| - 1] == '}'
    ensures BraceSpan(prefix + obj + suffix) == Some(obj)
  {
    var content := prefix + obj + suffix;
    assert content[|prefix|] == '{' && content[|prefix| + |obj| - 1] == '}';
    var start, end := BraceSpanBounds(content);
    assert start == |prefix|;
    assert end == |prefix| + |obj| - 1;
    assert content[start..end + 1] == obj;
  }

  /** `ollama_chat_json` after the HTTP call: parse the content, and on a
      parse error retry on the brace span, or re-raise the first error. */
  function ChatJson<T, E>(data: ChatResponse, parse: string -> Result<T, E>): (r: Result<T, E>)
    ensures parse(Content(data)).Success? ==> r == parse(Content(data))
    ensures r.Failure? ==> parse(Content(data)).Failure?
    ensures r != parse(Content(data)) ==>
              HasBracePair(Content(data)) && r == parse(BraceSpan(Content(data)).value)
    ensures parse(Content(data)).Failure? && HasBracePair(Content(data)) ==>
              r == parse(BraceSpan(Content(data)).value)
  {
    var content := Content(data);
    var direct := parse(content);
    if direct.Success? then direct
    else
      match BraceSpan(content)
      case Some(span) => parse(span)
      case None => direct
  }

  /** Empty content, or content with no `{` before a `}`, can only
      re-raise the first parse error. */
  lemma ChatJsonNoSpan<T, E>(data: ChatResponse, parse: string -> Result<T, E>)
    requires parse(Content(data)).Failure?
    requires '{' !in Content(data) || '}' !in Content(data) || RFind(Content(data), '}') < Find(Content(data), '{')
    ensures ChatJson(data, parse) == parse(Content(data))
  {
    var c := Content(data);
    assert !HasBracePair(c) by {
      if HasBracePair(c) {
        var s, e := BraceSpanBounds(c);
      }
    }
  }

  /** A JSON object surrounded by chatter is recovered as the object alone. */
  lemma ChatJsonRecoversWrapped<T, E>(data: ChatResponse, parse: string -> Result<T, E>,
                                     prefix: string, obj: string, suffix: string)
    requires Content(data) == prefix + obj + suffix
    requires '{' !in prefix && '}' !in suffix
    requires |obj| >= 2 && obj[0] == '{' && obj[|obj| - 1] == '}'
    requires parse(Content(data)).Failure?
    ensures ChatJson(data, parse) == parse(obj)
  {
    BraceSpanOfWrapped(prefix, obj, suffix);
  }

  /** Braces are not balanced: two objects in one reply give one span that
      covers both and the text between them. */
  lemma BraceSpanCoversTwoObjects()
    ensures BraceSpan("a {1} b {2} c") == Some("{1} b {2}")
  {
    var prefix, obj, suffix := "a ", "{1} b {2}", " c";
    assert prefix + obj + suffix == "a {1} b {2} c";
    assert '{' !in prefix by { assert prefix == ['a', ' ']; }
    assert '}' !in suffix by { assert suffix == [' ', 'c']; }
    BraceSpanOfWrapped(prefix, obj, suffix);
  }
}
