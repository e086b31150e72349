/**
 * The market explorer: a searchable list of markets; choosing one asks for a
 * generated tree of sub-markets, which is shown as an expandable outline whose
 * leaves (specific business ideas) can be selected and turned into an opportunity.
 */
module Explorer {
  import opened Types
  import opened JsString

  // ---------------------------------------------------------------------------
  // Nodes of the generated tree

  /** The children a node lists; a missing `children` field lists none. */
  function ChildList(n: MarketNode): seq<MarketNode>
  {
    match n.children
    case Absent => []
    case Present(nodes) => nodes
  }

  /** A node without `children`, or with an empty `children` array, is a leaf. */
  predicate IsLeaf(n: MarketNode)
  {
    n.children.Absent? || |n.children.nodes| == 0
  }

  lemma LeafIff(n: MarketNode)
    ensures IsLeaf(n) <==> ChildList(n) == []
  {
  }

  /** `x` is `tree` itself or a node somewhere below it. */
  predicate InTree(tree: MarketNode, x: MarketNode)
  {
    tree == x || (tree.children.Present? && InForest(tree.children.nodes, x))
  }

  predicate InForest(nodes: seq<MarketNode>, x: MarketNode)
  {
    exists i :: 0 <= i < |nodes| && InTree(nodes[i], x)
  }

  /** A node counts as selected when the selected node has the same name. */
  predicate IsSelected(selected: Option<MarketNode>, n: MarketNode)
  {
    selected.Some? && selected.value.name == n.name
  }

  /** Only a selected leaf is highlighted. */
  predicate Highlighted(selected: Option<MarketNode>, n: MarketNode)
  {
    IsSelected(selected, n) && IsLeaf(n)
  }

  /** The opportunity text used when a leaf carries no details, or empty ones. */
  const NoDetails := "No specific details generated for this idea."

  /** The opportunity a selected leaf becomes. */
  function OpportunityFor(n: MarketNode): (o: Opportunity)
    ensures o.title == n.name && o.existingSolutions == []
    ensures o.details != []
    ensures n.details.Some? && n.details.value != [] ==> o.details == n.details.value
    ensures n.details.None? || n.details.value == [] ==> o.details == NoDetails
  {
    var details := if n.details.Some? && n.details.value != [] then n.details.value else NoDetails;
    Opportunity(n.name, details, [])
  }

  // ---------------------------------------------------------------------------
  // Rendering the outline

  /** One rendered line of the outline: a node and its indentation level. */
  datatype Row = Row(node: MarketNode, level: nat)

  function RowsAt(nodes: seq<MarketNode>, level: nat): (r: seq<Row>)
    ensures |r| == |nodes|
    ensures forall i :: 0 <= i < |nodes| ==> r[i].node == nodes[i] && r[i].level == level
  {
    if nodes == [] then [] else [Row(nodes[0], level)] + RowsAt(nodes[1..], level)
  }

  /** The child views a node renders: its children, in order, one level deeper, only when expanded. */
  function ChildViews(n: MarketNode, level: nat, expanded: bool): (r: seq<Row>)
    ensures !expanded ==> r == []
    ensures expanded ==> |r| == |ChildList(n)|
    ensures expanded ==> forall i :: 0 <= i < |r| ==> r[i] == Row(ChildList(n)[i], level + 1)
  {
    if expanded && n.children.Present? then RowsAt(n.children.nodes, level + 1) else []
  }

  /** A view starts expanded exactly at levels 0 and 1. */
  predicate InitiallyExpanded(level: nat)
  {
    level < 2
  }

  /** The whole outline, in display order, as first rendered. */
  function InitialRows(n: MarketNode, level: nat): seq<Row>
  {
    [Row(n, level)] +
      (if InitiallyExpanded(level) && n.children.Present? then InitialRowsList(n.children.nodes, level + 1) else [])
  }

  function InitialRowsList(nodes: seq<MarketNode>, level: nat): seq<Row>
  {
    if nodes == [] then [] else InitialRows(nodes[0], level) + InitialRowsList(nodes[1..], level)
  }

  /** Every row lies at `level` or deeper, and no deeper than level 2 unless `level` already is. */
  predicate LevelsWithin(rows: seq<Row>, level: nat)
  {
    forall i :: 0 <= i < |rows| ==> level <= rows[i].level <= if level < 2 then 2 else level
  }

  /**
   * The first render starts with the node itself and shows rows no deeper than
   * level 2: levels 0 and 1 are expanded, level 2 is not.
   */
  lemma {:induction false} InitialRowsLevels(n: MarketNode, level: nat)
    ensures LevelsWithin(InitialRows(n, level), level)
    ensures InitialRows(n, level)[0] == Row(n, level)
  {
    if InitiallyExpanded(level) && n.children.Present? {
      InitialRowsListLevels(n.children.nodes, level + 1);
      LevelsConcat([Row(n, level)], InitialRowsList(n.children.nodes, level + 1), level);
    }
  }

  lemma {:induction false} InitialRowsListLevels(nodes: seq<MarketNode>, level: nat)
    ensures LevelsWithin(InitialRowsList(nodes, level), level)
  {
    if nodes != [] {
      InitialRowsLevels(nodes[0], level);
      InitialRowsListLevels(nodes[1..], level);
      LevelsConcat(InitialRows(nodes[0], level), InitialRowsList(nodes[1..], level), level);
    }
  }

  lemma LevelsConcat(a: seq<Row>, b: seq<Row>, level: nat)
    requires LevelsWithin(a, level) && LevelsWithin(b, level)
    ensures LevelsWithin(a + b, level)
  {
    forall i | 0 <= i < |a + b| ensures level <= (a + b)[i].level <= if level < 2 then 2 else level {
      if i < |a| { assert (a + b)[i] == a[i]; } else { assert (a + b)[i] == b[i - |a|]; }
    }
  }

  // ---------------------------------------------------------------------------
  // The market list filter

  /** A market matches when its lower-cased name contains the lower-cased query. */
  predicate Matches(m: Market, query: string)
  {
    Includes(ToLower(m.name), ToLower(query))
  }

  function FilterMatching(markets: seq<Market>, query: string): (r: seq<Market>)
    ensures |r| <= |markets|
    ensures forall i :: 0 <= i < |r| ==> Matches(r[i], query)
    ensures forall m :: m in markets && Matches(m, query) ==> m in r
    ensures forall m :: multiset(r)[m] == if Matches(m, query) then multiset(markets)[m] else 0
  {
    if markets == [] then []
    else
      var rest := FilterMatching(markets[1..], query);
      assert markets == [markets[0]] + markets[1..];
      if Matches(markets[0], query) then [markets[0]] + rest else rest
  }

  /**
   * The markets on display: all of them for a blank query; otherwise, in their
   * original order, exactly those whose name contains the (untrimmed) query,
   * ignoring case.
   */
  function FilterMarkets(markets: seq<Market>, query: string): (r: seq<Market>)
    ensures IsBlank(query) ==> r == markets
    ensures !IsBlank(query) ==> r == FilterMatching(markets, query)
  {
    if IsBlank(query) then markets else FilterMatching(markets, query)
  }

  /** `a` is `b` with some elements left out. */
  predicate IsSubsequence(a: seq<Market>, b: seq<Market>)
    decreases |b|
  {
    if a == [] then true
    else if b == [] then false
    else (a[0] == b[0] && IsSubsequence(a[1..], b[1..])) || IsSubsequence(a, b[1..])
  }

  lemma {:induction false} FilterKeepsOrder(markets: seq<Market>, query: string)
    ensures IsSubsequence(FilterMarkets(markets, query), markets)
  {
    if IsBlank(query) {
      SubsequenceRefl(markets);
    } else {
      FilterMatchingSubsequence(markets, query);
    }
  }

  lemma {:induction false} FilterMatchingSubsequence(markets: seq<Market>, query: string)
    ensures IsSubsequence(FilterMatching(markets, query), markets)
  {
    if markets != [] {
      FilterMatchingSubsequence(markets[1..], query);
      var rest := FilterMatching(markets[1..], query);
      if Matches(markets[0], query) {
        assert ([markets[0]] + rest)[1..] == rest;
      } else if rest != [] {
        assert IsSubsequence(rest, markets[1..]);
      }
    }
  }

  lemma {:induction false} SubsequenceRefl(s: seq<Market>)
    ensures IsSubsequence(s, s)
  {
    if s != [] {
      SubsequenceRefl(s[1..]);
    }
  }

  // ---------------------------------------------------------------------------
  // The explorer's view state

  /** The text shown when no tree could be generated. */
  const TreeFailure := "Failed to generate market analysis. Please check your API key and try again."

  class ExplorerPath {
    var selectedMarket: Option<Market>
    var marketTree: Option<MarketNode>
    var isTreeLoading: bool
    var treeError: string
    var selectedNode: Option<MarketNode>
    var searchQuery: string

    /**
     * Only leaves are ever selected; a tree and an error are never shown together;
     * while a tree is loading there is neither.
     */
    predicate Valid()
      reads this
    {
      && (selectedNode.Some? ==> IsLeaf(selectedNode.value))
      && !(marketTree.Some? && treeError != [])
      && (isTreeLoading ==> marketTree.None? && treeError == [])
    }

    constructor()
      ensures selectedMarket == None && marketTree == None && !isTreeLoading
      ensures treeError == [] && selectedNode == None && searchQuery == []
      ensures Valid()
    {
      selectedMarket := None;
      marketTree := None;
      isTreeLoading := false;
      treeError := [];
      selectedNode := None;
      searchQuery := [];
    }

    /** Typing in the search box. */
    method SetSearchQuery(query: string)
      requires Valid()
      modifies this
      ensures searchQuery == query
      ensures selectedMarket == old(selectedMarket) && marketTree == old(marketTree)
      ensures isTreeLoading == old(isTreeLoading) && treeError == old(treeError)
      ensures selectedNode == old(selectedNode)
      ensures Valid()
    {
      searchQuery := query;
    }

    /** The markets on display for the current query. */
    function FilteredMarkets(markets: seq<Market>): (r: seq<Market>)
      reads this
      ensures r == FilterMarkets(markets, searchQuery)
      ensures IsSubsequence(r, markets)
      ensures IsBlank(searchQuery) ==> r == markets
      ensures forall i :: 0 <= i < |r| && !IsBlank(searchQuery) ==> Matches(r[i], searchQuery)
    {
      FilterKeepsOrder(markets, searchQuery);
      FilterMarkets(markets, searchQuery)
    }

    /**
     * First half of choosing a market: the market is set, loading starts, and the
     * previous tree, error and selection are cleared. Returns the market name the
     * tree is requested for.
     */
    method BeginSelectMarket(market: Market) returns (request: string)
      requires Valid()
      modifies this
      ensures request == market.name
      ensures selectedMarket == Some(market) && isTreeLoading
      ensures marketTree == None && treeError == [] && selectedNode == None
      ensures searchQuery == old(searchQuery)
      ensures Valid()
    {
      selectedMarket := Some(market);
      isTreeLoading := true;
      marketTree := None;
      treeError := [];
      selectedNode := None;
      request := market.name;
    }

    /** Second half: the tree is shown, or else the fixed error text; loading ends. */
    method CompleteSelectMarket(tree: Option<MarketNode>)
      requires Valid() && isTreeLoading
      modifies this
      ensures !isTreeLoading
      ensures tree.Some? ==> marketTree == tree && treeError == []
      ensures tree.None? ==> marketTree == None && treeError == TreeFailure
      ensures selectedMarket == old(selectedMarket) && selectedNode == old(selectedNode)
      ensures searchQuery == old(searchQuery)
      ensures Valid()
    {
      if tree.Some? {
        marketTree := tree;
      } else {
        treeError := TreeFailure;
      }
      isTreeLoading := false;
    }

    /** Back to the market list: the market, tree, selection and query are cleared. */
    method HandleBackToMarkets()
      requires Valid()
      modifies this
      ensures selectedMarket == None && marketTree == None
      ensures selectedNode == None && searchQuery == []
      ensures treeError == old(treeError) && isTreeLoading == old(isTreeLoading)
      ensures Valid()
    {
      selectedMarket := None;
      marketTree := None;
      selectedNode := None;
      searchQuery := [];
    }

    /** A leaf becomes the selection; choosing an inner node changes nothing. */
    method HandleNodeSelect(node: MarketNode)
      requires Valid()
      modifies this
      ensures selectedNode == if IsLeaf(node) then Some(node) else old(selectedNode)
      ensures IsLeaf(node) ==> forall n :: Highlighted(selectedNode, n) <==> IsLeaf(n) && n.name == node.name
      ensures selectedMarket == old(selectedMarket) && marketTree == old(marketTree)
      ensures isTreeLoading == old(isTreeLoading) && treeError == old(treeError)
      ensures searchQuery == old(searchQuery)
      ensures Valid()
    {
      if IsLeaf(node) {
        selectedNode := Some(node);
      }
    }

    /** The opportunity handed on for the selected leaf, if there is one. */
    method HandleTackleProblem() returns (o: Option<Opportunity>)
      requires Valid()
      ensures selectedNode.None? ==> o.None?
      ensures selectedNode.Some? ==> o == Some(OpportunityFor(selectedNode.value))
      ensures o.Some? ==> o.value.title == selectedNode.value.name && o.value.details != []
    {
      if selectedNode.Some? {
        o := Some(OpportunityFor(selectedNode.value));
      } else {
        o := None;
      }
    }
  }

  /** One node's view in the outline, with its own expansion state. */
  class MarketNodeView {
    const node: MarketNode
    const level: nat
    var isExpanded: bool

    constructor(node: MarketNode, level: nat)
      ensures this.node == node && this.level == level
      ensures isExpanded <==> InitiallyExpanded(level)
    {
      this.node := node;
      this.level := level;
      isExpanded := level < 2;
    }

    /** Whether this row is highlighted for the explorer's current selection. */
    function IsHighlighted(explorer: ExplorerPath): bool
      reads explorer
    {
      Highlighted(explorer.selectedNode, node)
    }

    /** The child views rendered below this one. */
    function Children(): (r: seq<Row>)
      reads this
      ensures |r| == if isExpanded then |ChildList(node)| else 0
      ensures forall i :: 0 <= i < |r| ==> r[i].node == ChildList(node)[i] && r[i].level == level + 1
    {
      ChildViews(node, level, isExpanded)
    }

    /**
     * A click: an inner node flips its expansion, a leaf keeps it; either way the
     * node is offered to the explorer, which selects it only if it is a leaf.
     */
    method HandleToggle(explorer: ExplorerPath)
      requires explorer.Valid()
      modifies this, explorer
      ensures isExpanded == if IsLeaf(node) then old(isExpanded) else !old(isExpanded)
      ensures explorer.selectedNode == if IsLeaf(node) then Some(node) else old(explorer.selectedNode)
      ensures explorer.selectedMarket == old(explorer.selectedMarket)
      ensures explorer.marketTree == old(explorer.marketTree)
      ensures explorer.isTreeLoading == old(explorer.isTreeLoading)
      ensures explorer.treeError == old(explorer.treeError)
      ensures explorer.searchQuery == old(explorer.searchQuery)
      ensures IsLeaf(node) ==> IsHighlighted(explorer)
      ensures explorer.Valid()
    {
      if !IsLeaf(node) {
        isExpanded := !isExpanded;
      }
      explorer.HandleNodeSelect(node);
    }
  }
}
