/** The value types shared by the components and the service module. */
module Types {

  datatype Option<T> = None | Some(value: T)

  /** The four screens of the single-page application. */
  datatype Stage = Welcome | ValidatorPath | ExplorerPath | Workspace

  datatype Opportunity = Opportunity(title: string, details: string, existingSolutions: seq<string>)

  datatype Market = Market(name: string, opportunities: seq<Opportunity>, currentSize: string, futureEvaluation: string)

  /** A node of a generated market tree; `details` and `children` are optional fields. */
  datatype MarketNode = MarketNode(name: string, probability: int, details: Option<string>, children: Children)

  /** The optional `children` array of a market node: missing, or present (possibly empty). */
  datatype Children = Absent | Present(nodes: seq<MarketNode>)

  /** The string enum of message senders: `User = 'user'`, `AI = 'ai'`. */
  datatype MessageSender = User | AI

  function SenderValue(s: MessageSender): (v: string)
    ensures v == "user" <==> s == User
    ensures v == "ai" <==> s == AI
  {
    match s
    case User => "user"
    case AI => "ai"
  }

  datatype ChatMessage = ChatMessage(sender: MessageSender, text: string)

  /** What a call into the hosted model ends with: the response text, or a thrown error. */
  datatype Reply = Answered(text: string) | Threw
}
