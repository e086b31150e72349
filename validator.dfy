/**
 * The idea form: the user describes an idea, asks for an initial analysis, and
 * either sees an error under the form or the analysis in place of the form, from
 * where the idea and the analysis are handed on for validation.
 */
module Validator {
  import opened Types
  import opened JsString
  import opened StarMarkup
  import GeminiService

  /** The error shown for a blank idea. */
  const EnterIdea := "Please enter your idea."

  /** Each line of the analysis becomes one paragraph with its bold spans highlighted. */
  function FormatAnalysis(text: string): (r: seq<string>)
    ensures |r| == Count(text, '\n') + 1
  {
    HighlightLines(Split(text, '\n'))
  }

  function HighlightLines(lines: seq<string>): (r: seq<string>)
    ensures |r| == |lines|
    ensures forall i :: 0 <= i < |lines| ==> r[i] == Rewrite(lines[i], Highlight)
  {
    if lines == [] then [] else [Rewrite(lines[0], Highlight)] + HighlightLines(lines[1..])
  }

  /** A one-line analysis that is a single bold span becomes one highlighted paragraph. */
  lemma HighlightBoldLine(x: string)
    requires '*' !in x
    requires forall i :: 0 <= i < |x| ==> !IsLineTerminator(x[i])
    ensures FormatAnalysis("**" + x + "**") == ["<strong class=\"text-blue-400\">" + x + "</strong>"]
  {
    var line := "**" + x + "**";
    assert '\n' !in line by {
      forall k | 0 <= k < |line| ensures line[k] != '\n' {
        if 2 <= k < 2 + |x| { assert line[k] == x[k - 2]; }
      }
    }
    SplitPlain(line, [], '\n');
    assert line + [] == line;
    SpanAlone(x, Highlight);
  }

  /** Turns the tags of every paragraph back into stars. */
  function RestoreAll(paragraphs: seq<string>): (r: seq<string>)
    requires ValidRules(MarkupRules)
    ensures |r| == |paragraphs|
    ensures forall i :: 0 <= i < |r| ==> r[i] == Restore(paragraphs[i], MarkupRules)
  {
    if paragraphs == [] then [] else [Restore(paragraphs[0], MarkupRules)] + RestoreAll(paragraphs[1..])
  }

  /**
   * The paragraphs lose no text: for an analysis without `<`, restoring each
   * paragraph and joining them with line breaks gives the analysis back.
   */
  lemma FormatAnalysisRestores(text: string)
    requires '<' !in text
    ensures ValidRules(MarkupRules) && Join(RestoreAll(FormatAnalysis(text)), '\n') == text
  {
    MarkupRulesValid();
    PassesFit();
    var lines := Split(text, '\n');
    SplitPiecesOmit(text, '\n', '<');
    var restored := RestoreAll(FormatAnalysis(text));
    forall i | 0 <= i < |lines| ensures restored[i] == lines[i] {
      PlainRestores(lines[i], MarkupRules);
      RewriteRestores(lines[i], Highlight, MarkupRules, 5, 1);
    }
    assert restored == lines;
    JoinSplit(text, '\n');
  }

  class ValidatorPath {
    var idea: string
    var analysis: string
    var isLoading: bool
    var error: string

    /** No error is shown while an analysis is pending. */
    predicate Valid()
      reads this
    {
      isLoading ==> error == []
    }

    constructor()
      ensures idea == [] && analysis == [] && !isLoading && error == []
      ensures Valid()
    {
      idea := [];
      analysis := [];
      isLoading := false;
      error := [];
    }

    /** The form is shown as long as there is no analysis. */
    predicate ShowsForm()
      reads this
    {
      analysis == []
    }

    /** Typing in the idea box. */
    method SetIdea(text: string)
      requires Valid()
      modifies this
      ensures idea == text
      ensures analysis == old(analysis) && isLoading == old(isLoading) && error == old(error)
      ensures Valid()
    {
      idea := text;
    }

    /**
     * First half of submitting: a blank idea only sets the error and asks for
     * nothing; otherwise the error is cleared, loading starts, and the idea is
     * what the analysis is asked for. The button is disabled while loading.
     */
    method BeginSubmit() returns (request: Option<string>)
      requires Valid() && !isLoading
      modifies this
      ensures request.None? <==> IsBlank(old(idea))
      ensures request.None? ==> error == EnterIdea && !isLoading
      ensures request.Some? ==> request.value == idea && error == [] && isLoading
      ensures idea == old(idea) && analysis == old(analysis)
      ensures Valid()
    {
      if IsBlank(idea) {
        error := EnterIdea;
        return None;
      }
      error := [];
      isLoading := true;
      request := Some(idea);
    }

    /**
     * Second half: a result starting with the error prefix becomes the error and
     * leaves the analysis alone; any other result becomes the analysis. Loading ends.
     */
    method CompleteSubmit(reply: Reply)
      requires Valid() && isLoading
      modifies this
      ensures !isLoading && idea == old(idea)
      ensures var result := GeminiService.InitialAnalysis(reply);
        if StartsWith(result, GeminiService.ErrorPrefix)
        then error == result && analysis == old(analysis)
        else analysis == result && error == old(error)
      ensures reply.Threw? ==> error == GeminiService.AnalysisFailure && analysis == old(analysis)
      ensures Valid()
    {
      var result := GeminiService.InitialAnalysis(reply);
      if StartsWith(result, GeminiService.ErrorPrefix) {
        error := result;
      } else {
        analysis := result;
      }
      isLoading := false;
    }

    /** Moving on hands over the idea and the analysis exactly as they are. */
    method Proceed() returns (handedIdea: string, handedAnalysis: string)
      requires !ShowsForm()
      ensures handedIdea == idea && handedAnalysis == analysis
      ensures handedAnalysis != []
    {
      handedIdea := idea;
      handedAnalysis := analysis;
    }
  }
}
