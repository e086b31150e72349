/**
 * The deterministic parts of the service layer: how chat history is turned into
 * role-tagged request entries, how it is serialised into one prompt text, the
 * check that accepts or rejects a generated market tree, and the fixed strings
 * each operation falls back to when the call into the hosted model throws.
 *
 * The hosted model itself is not part of this model: what a call ends with is a
 * `Reply` the caller supplies, and the outcome of `JSON.parse` is likewise an input.
 */
module GeminiService {
  import opened Types
  import opened JsString

  // ---------------------------------------------------------------------------
  // Role-tagged history for the chat session

  datatype Part = Part(text: string)

  /** One entry of the history a chat session is created with. */
  datatype Content = Content(role: string, parts: seq<Part>)

  /** The user speaks as `'user'`; every other sender as `'model'`. */
  function RoleOf(s: MessageSender): (role: string)
    ensures role == "user" <==> s == User
    ensures role == "model" <==> s != User
  {
    if s == User then "user" else "model"
  }

  /** The history mapped entry by entry to role-tagged contents with a single text part. */
  function ToContents(h: seq<ChatMessage>): (r: seq<Content>)
    ensures |r| == |h|
    ensures forall i :: 0 <= i < |h| ==> r[i].role == RoleOf(h[i].sender)
    ensures forall i :: 0 <= i < |h| ==> (r[i].role == "user" <==> h[i].sender == User)
    ensures forall i :: 0 <= i < |h| ==> r[i].parts == [Part(h[i].text)]
  {
    if h == [] then []
    else [Content(RoleOf(h[0].sender), [Part(h[0].text)])] + ToContents(h[1..])
  }

  /** Reads a request history back: `'user'` entries are the user's, all others the assistant's. */
  function FromContents(cs: seq<Content>): (r: seq<ChatMessage>)
    ensures |r| == |cs|
  {
    if cs == [] then []
    else
      var c := cs[0];
      var text := if |c.parts| == 1 then c.parts[0].text else "";
      [ChatMessage(if c.role == "user" then User else AI, text)] + FromContents(cs[1..])
  }

  /** The mapping loses nothing: the history can be read back from the request. */
  lemma {:induction false} ContentsRoundTrip(h: seq<ChatMessage>)
    ensures FromContents(ToContents(h)) == h
  {
    if h != [] {
      ContentsRoundTrip(h[1..]);
      assert h == [h[0]] + h[1..];
    }
  }

  /** Appending to the history appends to the request, so earlier entries keep their place. */
  lemma {:induction false} ContentsAppend(h: seq<ChatMessage>, m: ChatMessage)
    ensures ToContents(h + [m]) == ToContents(h) + ToContents([m])
  {
    if h != [] {
      assert (h + [m])[1..] == h[1..] + [m];
      ContentsAppend(h[1..], m);
    } else {
      assert h + [m] == [m];
    }
  }

  // ---------------------------------------------------------------------------
  // The conversation as one prompt text

  /** One message as `<sender>: <text>`, the sender written as its enum value. */
  function Line(m: ChatMessage): (line: string)
    ensures |line| == |SenderValue(m.sender)| + 2 + |m.text|
  {
    SenderValue(m.sender) + ": " + m.text
  }

  function Lines(h: seq<ChatMessage>): (r: seq<string>)
    ensures |r| == |h|
    ensures forall i :: 0 <= i < |h| ==> r[i] == Line(h[i])
  {
    if h == [] then [] else [Line(h[0])] + Lines(h[1..])
  }

  /** The conversation text of the document prompt: the lines joined with `'\n'`. */
  function Serialize(h: seq<ChatMessage>): string
  {
    Join(Lines(h), '\n')
  }

  /** No message text holds a line break, so each message is exactly one line. */
  predicate SingleLine(h: seq<ChatMessage>)
  {
    forall i :: 0 <= i < |h| ==> '\n' !in h[i].text
  }

  /** Reads one line back; a line without a known sender yields nothing. */
  function ParseLine(line: string): (r: Option<ChatMessage>)
  {
    if StartsWith(line, "user: ") then Some(ChatMessage(User, line[6..]))
    else if StartsWith(line, "ai: ") then Some(ChatMessage(AI, line[4..]))
    else None
  }

  lemma LineRoundTrip(m: ChatMessage)
    ensures ParseLine(Line(m)) == Some(m)
  {
    var line := Line(m);
    if m.sender == User {
      assert line == "user: " + m.text;
      assert line[..6] == "user: " && line[6..] == m.text;
    } else {
      assert line == "ai: " + m.text;
      assert line[..4] == "ai: " && line[4..] == m.text;
      assert !StartsWith(line, "user: ") by { assert line[1] == 'i'; }
    }
  }

  /** Reads a conversation text back, line by line. */
  function Deserialize(text: string): Option<seq<ChatMessage>>
  {
    ParseLines(Split(text, '\n'))
  }

  function ParseLines(lines: seq<string>): (r: Option<seq<ChatMessage>>)
    ensures r.Some? ==> |r.value| == |lines|
  {
    if lines == [] then Some([])
    else match (ParseLine(lines[0]), ParseLines(lines[1..]))
      case (Some(m), Some(ms)) => Some([m] + ms)
      case _ => None
  }

  lemma {:induction false} ParseLinesRoundTrip(h: seq<ChatMessage>)
    ensures ParseLines(Lines(h)) == Some(h)
  {
    if h != [] {
      LineRoundTrip(h[0]);
      ParseLinesRoundTrip(h[1..]);
      assert Lines(h)[1..] == Lines(h[1..]);
      assert h == [h[0]] + h[1..];
    }
  }

  /**
   * `n` single-line messages give `n` lines and `n - 1` separators, and the text
   * can be read back into the very same history.
   */
  lemma SerializeRoundTrip(h: seq<ChatMessage>)
    requires |h| >= 1 && SingleLine(h)
    ensures Split(Serialize(h), '\n') == Lines(h)
    ensures Count(Serialize(h), '\n') == |h| - 1
    ensures Deserialize(Serialize(h)) == Some(h)
  {
    LinesSingle(h);
    SplitJoin(Lines(h), '\n');
    ParseLinesRoundTrip(h);
  }

  lemma LinesSingle(h: seq<ChatMessage>)
    requires SingleLine(h)
    ensures forall i :: 0 <= i < |h| ==> '\n' !in Lines(h)[i]
  {
    forall i | 0 <= i < |h| ensures '\n' !in Lines(h)[i] {
      NoBreakInLine(h[i]);
    }
  }

  lemma NoBreakInLine(m: ChatMessage)
    requires '\n' !in m.text
    ensures '\n' !in Line(m)
  {
    var v := SenderValue(m.sender);
    assert '\n' !in v;
    assert Line(m) == (v + ": ") + m.text;
  }

  // ---------------------------------------------------------------------------
  // Accepting a generated market tree

  /** The trimmed response looks like a JSON object: it starts with `{` and ends with `}`. */
  predicate LooksLikeObject(text: string)
  {
    var t := Trim(text);
    StartsWith(t, "{") && EndsWith(t, "}")
  }

  /** A response that passes the check holds at least the two braces. */
  lemma LooksLikeObjectLength(text: string)
    requires LooksLikeObject(text)
    ensures |Trim(text)| >= 2
  {
    var t := Trim(text);
    assert t[0] == '{' by { assert t[..1] == "{"; }
    assert t[|t| - 1] == '}' by { assert t[|t| - 1..] == "}"; }
  }

  /**
   * The result of asking for a market tree: the tree `JSON.parse` made of the
   * trimmed response, if the response passed the brace check; nothing if the call
   * threw, the check failed, or parsing failed (`parsed` is `None`).
   */
  function MarketTreeResult(reply: Reply, parsed: Option<MarketNode>): (r: Option<MarketNode>)
    ensures r.Some? <==> reply.Answered? && LooksLikeObject(reply.text) && parsed.Some?
    ensures r.Some? ==> r == parsed
  {
    match reply
    case Threw => None
    case Answered(text) =>
      var t := Trim(text);
      if StartsWith(t, "{") && EndsWith(t, "}") then parsed else None
  }

  /** Any whitespace around an object, including none, is trimmed away before the check. */
  lemma PaddedObjectAccepted(pre: string, body: string, post: string)
    requires AllWhitespace(pre) && AllWhitespace(post)
    ensures LooksLikeObject(pre + "{" + body + "}" + post)
  {
    var core := "{" + body + "}";
    assert pre + "{" + body + "}" + post == pre + core + post;
    TrimAround(pre, core, post);
    assert core[..1] == "{";
    assert core[|core| - 1..] == "}";
  }

  // ---------------------------------------------------------------------------
  // What each operation returns when the call throws

  /** The prefix by which the idea form tells a failed analysis from a real one. */
  const ErrorPrefix := "There was an error"

  /** The analysis fallback: the error prefix followed by the rest of the sentence. */
  const AnalysisFailure := ErrorPrefix + " analyzing your idea. Please check your API key and try again."
  const ConversationFailure := "An error occurred. Please try again."
  const DocumentFailure := "Failed to generate the validation document."

  lemma AnalysisFailureHasErrorPrefix()
    ensures StartsWith(AnalysisFailure, ErrorPrefix)
  {
    assert AnalysisFailure[..|ErrorPrefix|] == ErrorPrefix;
  }

  /** The text the initial analysis yields: the reply, or the fixed failure text. */
  function InitialAnalysis(reply: Reply): (r: string)
    ensures reply.Threw? ==> StartsWith(r, ErrorPrefix)
    ensures reply.Answered? ==> r == reply.text
  {
    AnalysisFailureHasErrorPrefix();
    match reply
    case Threw => AnalysisFailure
    case Answered(text) => text
  }

  /** The assistant's next chat message: the reply, or the fixed failure text. */
  function ConversationReply(reply: Reply): (r: string)
    ensures reply.Threw? ==> r == ConversationFailure && r != []
    ensures reply.Answered? ==> r == reply.text
  {
    match reply
    case Threw => ConversationFailure
    case Answered(text) => text
  }

  /** The validation document: the reply, or the fixed failure text (never empty). */
  function ValidationDocument(reply: Reply): (r: string)
    ensures reply.Threw? ==> r == DocumentFailure && r != []
    ensures reply.Answered? ==> r == reply.text
  {
    match reply
    case Threw => DocumentFailure
    case Answered(text) => text
  }
}
