/**
 * The chat workspace: a conversation with the assistant that starts from two
 * assistant messages about the topic being validated, grows by one user message
 * and one assistant reply per exchange, and can be summarised into a validation
 * document once it is long enough.
 */
module Chat {
  import opened Types
  import opened JsString
  import opened StarMarkup
  import GeminiService

  // ---------------------------------------------------------------------------
  // The opening messages

  const ValidatingPrefix := "Validating the idea: "
  const TacklingPrefix := "Tackling the problem: "

  /** The context with the first occurrence of each context prefix removed, in that order. */
  function Topic(context: string): (r: string)
    ensures |r| <= |context|
    ensures !Includes(context, ValidatingPrefix) && !Includes(context, TacklingPrefix) ==> r == context
  {
    ReplaceFirst(ReplaceFirst(context, ValidatingPrefix, ""), TacklingPrefix, "")
  }

  /** A context that starts with the first prefix and holds no second prefix loses exactly the first. */
  lemma TopicOfValidating(rest: string)
    requires !Includes(rest, TacklingPrefix)
    ensures Topic(ValidatingPrefix + rest) == rest
  {
    var s := ValidatingPrefix + rest;
    assert s[..|ValidatingPrefix|] == ValidatingPrefix;
    assert s[|ValidatingPrefix|..] == rest;
    assert ReplaceFirst(s, ValidatingPrefix, "") == "" + rest == rest;
  }

  /** A context that starts with the second prefix and holds no first prefix loses exactly the second. */
  lemma TopicOfTackling(rest: string)
    requires !Includes(TacklingPrefix + rest, ValidatingPrefix)
    ensures Topic(TacklingPrefix + rest) == rest
  {
    var s := TacklingPrefix + rest;
    assert s[..|TacklingPrefix|] == TacklingPrefix;
    assert s[|TacklingPrefix|..] == rest;
    assert ReplaceFirst(s, TacklingPrefix, "") == "" + rest == rest;
  }

  /**
   * The first phrase is removed wherever it first occurs, not only at the start:
   * text before it stays, and only that one occurrence goes.
   */
  lemma TopicOfValidatingWithin(a: string, b: string)
    requires forall k :: 0 <= k < |a| ==> !OccursAt(a + ValidatingPrefix + b, ValidatingPrefix, k)
    requires !Includes(a + b, TacklingPrefix)
    ensures Topic(a + ValidatingPrefix + b) == a + b
  {
    RemoveFirstThenAbsent(a, ValidatingPrefix, b, TacklingPrefix);
  }

  /** Likewise for the second phrase, once the first is absent. */
  lemma TopicOfTacklingWithin(a: string, b: string)
    requires !Includes(a + TacklingPrefix + b, ValidatingPrefix)
    requires forall k :: 0 <= k < |a| ==> !OccursAt(a + TacklingPrefix + b, TacklingPrefix, k)
    ensures Topic(a + TacklingPrefix + b) == a + b
  {
    AbsentThenRemoveFirst(a, ValidatingPrefix, b, TacklingPrefix);
  }

  const Greeting := "Okay, let's start building your concept for: *"
  const OpeningQuestion := "Let's start building your solution. What are your initial thoughts on how to approach this?"

  /** The two assistant messages the conversation starts with; the topic is set in italics. */
  function InitialMessages(context: string): (r: seq<ChatMessage>)
    ensures |r| == 2 && r[0].sender == AI && r[1].sender == AI
    ensures |r[0].text| == |Greeting| + |Topic(context)| + 1
    ensures StartsWith(r[0].text, Greeting) && EndsWith(r[0].text, "*")
    ensures r[0].text[|Greeting|..|r[0].text| - 1] == Topic(context)
    ensures r[1].text == OpeningQuestion
  {
    var first := Greeting + Topic(context) + "*";
    assert first[..|Greeting|] == Greeting;
    assert first[|first| - 1..] == "*";
    assert first[|Greeting|..|first| - 1] == Topic(context);
    [ChatMessage(AI, first), ChatMessage(AI, OpeningQuestion)]
  }

  // ---------------------------------------------------------------------------
  // Formatting

  /** The chat formatting: bold spans first, then italic spans. */
  function FormatMessage(text: string): string
  {
    Rewrite(Rewrite(text, Strong), Emphasis)
  }

  /** Text without a star is shown as it is. */
  lemma FormatMessageIdentity(text: string)
    requires '*' !in text
    ensures FormatMessage(text) == text
  {
    RewriteIdentity(text, Strong);
    RewriteIdentity(text, Emphasis);
  }

  /**
   * Formatting drops no text: in a message without `<`, turning the tags back
   * into stars gives the message back.
   */
  lemma FormatMessageRestores(text: string)
    requires '<' !in text
    ensures ValidRules(MarkupRules) && Restore(FormatMessage(text), MarkupRules) == text
  {
    MarkupRulesValid();
    PassesFit();
    PlainRestores(text, MarkupRules);
    RewriteRestores(text, Strong, MarkupRules, 0, 1);
    RewriteRestores(Rewrite(text, Strong), Emphasis, MarkupRules, 2, 3);
  }

  /** A star-free span between double stars is set in bold, and nothing else changes. */
  lemma FormatBoldSpan(x: string)
    requires '*' !in x
    requires forall i :: 0 <= i < |x| ==> !IsLineTerminator(x[i])
    ensures FormatMessage("**" + x + "**") == "<strong>" + x + "</strong>"
  {
    BoldPass(x);
    BoldHasNoStar(x);
    RewriteIdentity("<strong>" + x + "</strong>", Emphasis);
  }

  /** A star-free span between single stars is set in italics; the bold pass leaves it alone. */
  lemma FormatItalicSpan(x: string)
    requires '*' !in x
    requires forall i :: 0 <= i < |x| ==> !IsLineTerminator(x[i])
    ensures FormatMessage("*" + x + "*") == "<em>" + x + "</em>"
  {
    StrongKeepsItalic(x);
    SpanAlone(x, Emphasis);
  }

  /** The bold pass finds no double star in a single-star span. */
  lemma StrongKeepsItalic(x: string)
    requires '*' !in x
    ensures Rewrite("*" + x + "*", Strong) == "*" + x + "*"
  {
    var s := "*" + x + "*";
    if x == [] {
      assert FindClose(s, "**", 2).None?;
    } else {
      assert s[1] == x[0];
      assert !OccursAt(s, "**", 0) by { assert s[1] != '*'; }
    }
    assert MatchAt(s, Strong).None?;
    assert s[1..] == x + "*";
    RewritePlainPrefix(x, "*", Strong);
    assert Rewrite("*", Strong) == "*";
  }

  lemma BoldPass(x: string)
    requires '*' !in x
    requires forall i :: 0 <= i < |x| ==> !IsLineTerminator(x[i])
    ensures Rewrite("**" + x + "**", Strong) == "<strong>" + x + "</strong>"
  {
    SpanAlone(x, Strong);
  }

  lemma BoldHasNoStar(x: string)
    requires '*' !in x
    ensures '*' !in "<strong>" + x + "</strong>"
  {
    StrongTagsWellFormed();
  }

  /** The document view: every line break becomes `<br />`, then the chat formatting applies. */
  function DocumentHtml(doc: string): string
  {
    FormatMessage(ReplaceAllChar(doc, '\n', "<br />"))
  }

  /** The document view drops no text either: restoring gives the document back, line breaks included. */
  lemma DocumentRestores(doc: string)
    requires '<' !in doc
    ensures ValidRules(MarkupRules) && Restore(DocumentHtml(doc), MarkupRules) == doc
  {
    MarkupRulesValid();
    PassesFit();
    var t := ReplaceAllChar(doc, '\n', "<br />");
    BreaksRestore(doc);
    RewriteRestores(t, Strong, MarkupRules, 0, 1);
    RewriteRestores(Rewrite(t, Strong), Emphasis, MarkupRules, 2, 3);
  }

  lemma {:induction false} BreaksRestore(s: string)
    requires '<' !in s
    ensures TagAligned(ReplaceAllChar(s, '\n', "<br />"), MarkupRules)
    ensures ValidRules(MarkupRules) && Restore(ReplaceAllChar(s, '\n', "<br />"), MarkupRules) == s
  {
    MarkupRulesValid();
    if s != [] {
      var rest := ReplaceAllChar(s[1..], '\n', "<br />");
      assert s[0] in s;
      assert '<' !in s[1..] by {
        forall c | c in s[1..] ensures c != '<' { assert c in s; }
      }
      BreaksRestore(s[1..]);
      var head := if s[0] == '\n' then "<br />" else [s[0]];
      assert ReplaceAllChar(s, '\n', "<br />") == head + rest;
      if s[0] == '\n' {
        assert MarkupRules[4].tag == "<br />" && MarkupRules[4].text == "\n";
        TagRestores(4, rest, MarkupRules);
        TagIsAligned(4, MarkupRules);
      } else {
        PlainRestores(head, MarkupRules);
        RestoreConcat(head, rest, MarkupRules);
      }
      AlignedConcat(head, rest, MarkupRules);
      assert s == [s[0]] + s[1..];
    }
  }

  // ---------------------------------------------------------------------------
  // The workspace's view state

  /** From index 2 on, the user and the assistant take turns, the user first. */
  predicate Alternating(h: seq<ChatMessage>)
  {
    forall i :: 2 <= i < |h| ==> h[i].sender == (if i % 2 == 0 then User else AI)
  }

  class Workspace {
    const context: string
    var chatHistory: seq<ChatMessage>
    var userInput: string
    var isLoading: bool
    var isDocGenerating: bool
    var validationDoc: string

    /**
     * The opening messages stay first; after them user and assistant alternate;
     * a request is pending exactly when the last message is the user's.
     */
    predicate Valid()
      reads this
    {
      && |chatHistory| >= 2
      && chatHistory[..2] == InitialMessages(context)
      && Alternating(chatHistory)
      && (isLoading <==> |chatHistory| % 2 == 1)
    }

    /** The workspace once its opening messages are in place. */
    constructor(context: string)
      ensures this.context == context
      ensures chatHistory == InitialMessages(context)
      ensures userInput == [] && !isLoading && !isDocGenerating && validationDoc == []
      ensures Valid()
    {
      this.context := context;
      chatHistory := InitialMessages(context);
      userInput := [];
      isLoading := false;
      isDocGenerating := false;
      validationDoc := [];
    }

    /** Typing in the input box. */
    method SetUserInput(text: string)
      requires Valid()
      modifies this
      ensures userInput == text
      ensures chatHistory == old(chatHistory) && isLoading == old(isLoading)
      ensures isDocGenerating == old(isDocGenerating) && validationDoc == old(validationDoc)
      ensures Valid()
    {
      userInput := text;
    }

    /**
     * First half of sending: refused for a blank input or while a reply is pending;
     * otherwise the untrimmed input is appended as the user's message, the input is
     * cleared and loading starts. Returns the history and text the request carries.
     */
    method BeginSendMessage() returns (sent: bool, history: seq<ChatMessage>, text: string)
      requires Valid()
      modifies this
      ensures sent <==> !IsBlank(old(userInput)) && !old(isLoading)
      ensures !sent ==> chatHistory == old(chatHistory) && userInput == old(userInput) && isLoading == old(isLoading)
      ensures sent ==> chatHistory == old(chatHistory) + [ChatMessage(User, old(userInput))]
      ensures sent ==> userInput == [] && isLoading
      ensures sent ==> history == chatHistory && text == old(userInput)
      ensures isDocGenerating == old(isDocGenerating) && validationDoc == old(validationDoc)
      ensures Valid()
    {
      if IsBlank(userInput) || isLoading {
        return false, chatHistory, [];
      }
      text := userInput;
      chatHistory := chatHistory + [ChatMessage(User, text)];
      history := chatHistory;
      userInput := [];
      isLoading := true;
      sent := true;
    }

    /** Second half: the reply (or the fixed failure text) is appended as the assistant's; loading ends. */
    method CompleteSendMessage(reply: Reply)
      requires Valid() && isLoading
      modifies this
      ensures chatHistory == old(chatHistory) + [ChatMessage(AI, GeminiService.ConversationReply(reply))]
      ensures !isLoading
      ensures userInput == old(userInput)
      ensures isDocGenerating == old(isDocGenerating) && validationDoc == old(validationDoc)
      ensures Valid()
    {
      chatHistory := chatHistory + [ChatMessage(AI, GeminiService.ConversationReply(reply))];
      isLoading := false;
    }

    /**
     * A whole exchange: when the message is sent, the history grows by exactly the
     * user's message and the assistant's reply to it; a refused send changes nothing.
     */
    method Exchange(reply: Reply) returns (sent: bool)
      requires Valid()
      modifies this
      ensures sent <==> !IsBlank(old(userInput)) && !old(isLoading)
      ensures !sent ==> chatHistory == old(chatHistory) && userInput == old(userInput) && isLoading == old(isLoading)
      ensures sent ==> chatHistory == old(chatHistory) + [ChatMessage(User, old(userInput)), ChatMessage(AI, GeminiService.ConversationReply(reply))]
      ensures sent ==> !isLoading && userInput == []
      ensures isDocGenerating == old(isDocGenerating) && validationDoc == old(validationDoc)
      ensures Valid()
    {
      var history, text;
      sent, history, text := BeginSendMessage();
      if sent {
        CompleteSendMessage(reply);
      }
    }

    /** The document action is offered once the history holds more than four messages. */
    predicate CanGenerateDocument()
      reads this
    {
      |chatHistory| > 4
    }

    /** The document view replaces the chat while a document is held. */
    predicate ShowsDocument()
      reads this
    {
      validationDoc != []
    }

    /**
     * First half of document generation: the offered and enabled action starts
     * generating and returns the history the document is asked for.
     */
    method BeginGenerateDocument() returns (request: Option<seq<ChatMessage>>)
      requires Valid()
      modifies this
      ensures request.Some? <==> old(CanGenerateDocument()) && !old(isDocGenerating)
      ensures request.Some? ==> request.value == chatHistory && isDocGenerating
      ensures request.None? ==> isDocGenerating == old(isDocGenerating)
      ensures chatHistory == old(chatHistory) && userInput == old(userInput)
      ensures isLoading == old(isLoading) && validationDoc == old(validationDoc)
      ensures Valid()
    {
      if CanGenerateDocument() && !isDocGenerating {
        isDocGenerating := true;
        request := Some(chatHistory);
      } else {
        request := None;
      }
    }

    /** Second half: the document (or the fixed failure text) is stored and generation ends. */
    method CompleteGenerateDocument(reply: Reply)
      requires Valid() && isDocGenerating
      modifies this
      ensures validationDoc == GeminiService.ValidationDocument(reply)
      ensures !isDocGenerating
      ensures ShowsDocument() <==> reply.Threw? || reply.text != []
      ensures chatHistory == old(chatHistory) && userInput == old(userInput) && isLoading == old(isLoading)
      ensures Valid()
    {
      validationDoc := GeminiService.ValidationDocument(reply);
      isDocGenerating := false;
    }

    /** Back from the document view to the chat. */
    method BackToWorkspace()
      requires Valid()
      modifies this
      ensures !ShowsDocument()
      ensures chatHistory == old(chatHistory) && userInput == old(userInput)
      ensures isLoading == old(isLoading) && isDocGenerating == old(isDocGenerating)
      ensures Valid()
    {
      validationDoc := [];
    }
  }
}
