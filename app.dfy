/**
 * The top-level router: which of the four stages is on screen, whether the
 * sign-in dialog is shown, and the context and analysis handed to the workspace.
 */
module Router {
  import opened Types
  import opened JsString
  import Chat
  import Validator
  import Explorer
  import GeminiService

  /** The stage components; exactly one of them is on screen. */
  datatype View = WelcomeView | ValidatorView | ExplorerView | WorkspaceView

  /** Each stage shows its own component, and no two stages share one. */
  function RenderStage(stage: Stage): (v: View)
    ensures v == WelcomeView <==> stage == Welcome
    ensures v == ValidatorView <==> stage == ValidatorPath
    ensures v == ExplorerView <==> stage == ExplorerPath
    ensures v == WorkspaceView <==> stage == Workspace
  {
    match stage
    case Welcome => WelcomeView
    case ValidatorPath => ValidatorView
    case ExplorerPath => ExplorerView
    case Workspace => WorkspaceView
  }

  /** A text between double quotes, as the context templates write it. */
  function Quoted(s: string): string
  {
    "\"" + s + "\""
  }

  function IdeaContext(idea: string): string
  {
    Chat.ValidatingPrefix + Quoted(idea)
  }

  function ProblemContext(title: string): string
  {
    Chat.TacklingPrefix + Quoted(title)
  }

  const ProblemDetailsPrefix := "Problem details: "

  /**
   * The workspace shows the quoted idea as its topic: the context prefix the
   * router adds is exactly the one the workspace removes. This holds unless the
   * quoted idea itself contains the problem prefix, which the workspace would
   * remove as well.
   */
  lemma IdeaTopic(idea: string)
    requires !Includes(Quoted(idea), Chat.TacklingPrefix)
    ensures Chat.Topic(IdeaContext(idea)) == Quoted(idea)
  {
    Chat.TopicOfValidating(Quoted(idea));
  }

  /** Likewise for a problem: the workspace shows the quoted title. */
  lemma ProblemTopic(title: string)
    requires !Includes(ProblemContext(title), Chat.ValidatingPrefix)
    ensures Chat.Topic(ProblemContext(title)) == Quoted(title)
  {
    Chat.TopicOfTackling(Quoted(title));
  }

  class App {
    var stage: Stage
    var showAuthModal: bool
    var validationContext: string
    var initialAnalysis: string

    constructor()
      ensures stage == Welcome && !showAuthModal
      ensures validationContext == [] && initialAnalysis == []
    {
      stage := Welcome;
      showAuthModal := false;
      validationContext := [];
      initialAnalysis := [];
    }

    /** The sign-in dialog is drawn over the stage exactly when its flag is set. */
    predicate ShowsAuthModal()
      reads this
    {
      showAuthModal
    }

    /** `'validator'` opens the idea form; any other path opens the explorer. */
    method HandleSelectPath(path: string)
      modifies this
      ensures stage == ValidatorPath <==> path == "validator"
      ensures stage == ValidatorPath || stage == ExplorerPath
      ensures showAuthModal == old(showAuthModal)
      ensures validationContext == old(validationContext) && initialAnalysis == old(initialAnalysis)
    {
      if path == "validator" {
        stage := ValidatorPath;
      } else {
        stage := ExplorerPath;
      }
    }

    /** A validated idea sets the context and the analysis and asks the user to sign in. */
    method HandleIdeaReady(idea: string, analysis: string)
      modifies this
      ensures validationContext == IdeaContext(idea) && initialAnalysis == analysis
      ensures ShowsAuthModal() && stage == old(stage)
    {
      validationContext := IdeaContext(idea);
      initialAnalysis := analysis;
      showAuthModal := true;
    }

    /** A chosen problem sets the context and the details and asks the user to sign in. */
    method HandleProblemReady(o: Opportunity)
      modifies this
      ensures validationContext == ProblemContext(o.title)
      ensures initialAnalysis == ProblemDetailsPrefix + o.details
      ensures ShowsAuthModal() && stage == old(stage)
    {
      validationContext := ProblemContext(o.title);
      initialAnalysis := ProblemDetailsPrefix + o.details;
      showAuthModal := true;
    }

    /** Signing in hides the dialog and opens the workspace. */
    method HandleAuthSuccess()
      modifies this
      ensures !ShowsAuthModal() && stage == Workspace
      ensures validationContext == old(validationContext) && initialAnalysis == old(initialAnalysis)
    {
      showAuthModal := false;
      stage := Workspace;
    }

    /** Home clears the context and the analysis; the dialog flag stays as it is. */
    method HandleGoHome()
      modifies this
      ensures stage == Welcome && validationContext == [] && initialAnalysis == []
      ensures showAuthModal == old(showAuthModal)
    {
      stage := Welcome;
      validationContext := [];
      initialAnalysis := [];
    }

    /** The workspace is mounted with the current context. */
    method MountWorkspace() returns (w: Chat.Workspace)
      requires stage == Workspace
      ensures fresh(w) && w.context == validationContext && w.Valid()
      ensures w.chatHistory == Chat.InitialMessages(validationContext)
    {
      w := new Chat.Workspace(validationContext);
    }
  }

  /** The first message of a conversation spelled out from its topic. */
  lemma OpeningText(context: string)
    ensures Chat.InitialMessages(context)[0].text == Chat.Greeting + Chat.Topic(context) + "*"
  {
    var t := Chat.InitialMessages(context)[0].text;
    var g := |Chat.Greeting|;
    assert t[..g] == Chat.Greeting;
    assert t[|t| - 1..] == "*";
    assert t == t[..g] + t[g..|t| - 1] + t[|t| - 1..];
  }

  /**
   * The idea path end to end: the user picks the validator, submits a non-blank
   * idea, the analysis comes back, the user proceeds and signs in. The workspace
   * then opens with a greeting naming the quoted idea.
   */
  method IdeaJourney(idea: string, analysisText: string) returns (opening: string, stage: Stage)
    requires !IsBlank(idea)
    requires analysisText != [] && !StartsWith(analysisText, GeminiService.ErrorPrefix)
    requires !Includes(Quoted(idea), Chat.TacklingPrefix)
    ensures stage == Workspace
    ensures opening == Chat.Greeting + Quoted(idea) + "*"
  {
    var app := new App();
    app.HandleSelectPath("validator");
    var form := new Validator.ValidatorPath();
    form.SetIdea(idea);
    var request := form.BeginSubmit();
    form.CompleteSubmit(Answered(analysisText));
    var handedIdea, handedAnalysis := form.Proceed();
    app.HandleIdeaReady(handedIdea, handedAnalysis);
    app.HandleAuthSuccess();
    var w := app.MountWorkspace();
    opening := w.chatHistory[0].text;
    stage := app.stage;
    OpeningText(app.validationContext);
    IdeaTopic(idea);
  }

  /**
   * The explorer path end to end: the user picks the explorer and a market, the
   * tree arrives, the user selects a leaf of it, tackles it and signs in. The
   * workspace opens with a greeting naming the quoted leaf, and the analysis
   * handed over carries the leaf's details.
   */
  method ProblemJourney(market: Market, tree: MarketNode, leaf: MarketNode)
    returns (opening: string, analysis: string, stage: Stage)
    requires Explorer.InTree(tree, leaf) && Explorer.IsLeaf(leaf)
    requires !Includes(ProblemContext(leaf.name), Chat.ValidatingPrefix)
    ensures stage == Workspace
    ensures opening == Chat.Greeting + Quoted(leaf.name) + "*"
    ensures analysis == ProblemDetailsPrefix + Explorer.OpportunityFor(leaf).details
  {
    var app := new App();
    app.HandleSelectPath("explorer");
    var explorer := new Explorer.ExplorerPath();
    var request := explorer.BeginSelectMarket(market);
    explorer.CompleteSelectMarket(Some(tree));
    explorer.HandleNodeSelect(leaf);
    var o := explorer.HandleTackleProblem();
    app.HandleProblemReady(o.value);
    app.HandleAuthSuccess();
    var w := app.MountWorkspace();
    opening := w.chatHistory[0].text;
    analysis := app.initialAnalysis;
    stage := app.stage;
    OpeningText(app.validationContext);
    ProblemTopic(leaf.name);
  }
}
