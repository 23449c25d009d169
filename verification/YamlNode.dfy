/** The node graph of a parsed YAML document.

  A `Node` has children in `content` (keys and values alternate below a
  mapping) and, when it is an alias, a pointer to its anchored target.  Methods
  work on nodes in place; what they do is stated about a `Graph`, the
  snapshot of a set of nodes, and about `Denote`, the tree that a reader of the
  document sees at a node once aliases are followed.
*/
module YamlNode {

  datatype Kind = DocumentNode | SequenceNode | MappingNode | ScalarNode | AliasNode

  const MERGE_TAG := "!!merge"
  const MERGE_KEY := "<<"
  const TAG_STR := "!!str"
  const TAG_NULL := "!!null"
  const TAG_SEQ := "!!seq"
  const TAG_MAP := "!!map"
  const TYPE_NULL := "null"

  datatype Fields = Fields(
    kind: Kind, style: int, tag: string, value: string, anchor: string,
    alias: Node?, content: seq<Node>,
    headComment: string, lineComment: string, footComment: string,
    line: int, column: int)

  class Node {
    var kind: Kind
    var style: int
    var tag: string
    var value: string
    var anchor: string
    var alias: Node?
    var content: seq<Node>
    var headComment: string
    var lineComment: string
    var footComment: string
    var line: int
    var column: int

    // A node literal: every field not named takes Go's zero value.
    constructor (kind: Kind, tag: string, value: string)
      ensures Snap() == Fields(kind, 0, tag, value, "", null, [], "", "", "", 0, 0)
    {
      this.kind, this.tag, this.value := kind, tag, value;
      style, anchor, alias, content := 0, "", null, [];
      headComment, lineComment, footComment := "", "", "";
      line, column := 0, 0;
    }

    // A node literal that names every field but the two that point at nodes.
    constructor Literal(kind: Kind, style: int, tag: string, value: string, anchor: string,
                        head: string, lineText: string, foot: string, line: int, column: int)
      ensures Snap() == Fields(kind, style, tag, value, anchor, null, [], head, lineText, foot, line, column)
    {
      this.kind, this.style, this.tag, this.value, this.anchor := kind, style, tag, value, anchor;
      headComment, lineComment, footComment := head, lineText, foot;
      this.line, this.column := line, column;
      alias, content := null, [];
    }

    ghost function Snap(): Fields
      reads this
    {
      Fields(kind, style, tag, value, anchor, alias, content,
             headComment, lineComment, footComment, line, column)
    }
  }

  type Graph = map<Node, Fields>

  ghost function Snapshot(nodes: set<Node>): Graph
    reads nodes
  {
    map n | n in nodes :: n.Snap()
  }

  // The heap still looks as g says.
  ghost predicate Shows(g: Graph)
    reads g.Keys
  {
    forall n {:trigger n.Snap()} | n in g :: n.Snap() == g[n]
  }

  // ----- well-formed graphs -----

  // A mapping's keys sit at the even positions that have a value after them.
  predicate KeyPosition(f: Fields, i: int) {
    f.kind == MappingNode && 0 <= i && i + 1 < |f.content| && i % 2 == 0
  }

  // `rank` witnesses that following children and aliases never cycles.
  // Aliases point at non-aliases, as the parser and SetNodeAlias make them,
  // no mapping key is an alias, and every key has a value.
  ghost predicate Ranked(g: Graph, older rank: map<Node, nat>) {
    && rank.Keys == g.Keys
    && forall n {:trigger RankedAt(g, rank, n)} {:trigger g[n].alias} {:trigger g[n].content} | n in g ::
         RankedAt(g, rank, n)
  }

  ghost predicate RankedAt(g: Graph, rank: map<Node, nat>, n: Node)
    requires rank.Keys == g.Keys && n in g
  {
    && (forall i | 0 <= i < |g[n].content| ::
          g[n].content[i] in g && rank[g[n].content[i]] < rank[n])
    && (g[n].alias != null ==> g[n].alias in g && rank[g[n].alias] < rank[n])
    && (g[n].kind == AliasNode ==> g[n].alias != null && g[g[n].alias].kind != AliasNode)
    && (forall i | KeyPosition(g[n], i) :: g[g[n].content[i]].kind != AliasNode)
    && (g[n].kind == MappingNode ==> |g[n].content| % 2 == 0)
  }

  lemma RankedHere(g: Graph, rank: map<Node, nat>, n: Node)
    requires Ranked(g, rank) && n in g
    ensures rank.Keys == g.Keys && RankedAt(g, rank, n)
  {
  }

  ghost predicate WellFormed(g: Graph) {
    exists rank: map<Node, nat> :: Ranked(g, rank)
  }

  // One alias step reaches the node that carries the content.
  ghost function Target(g: Graph, n: Node): Node
    requires n in g
    requires g[n].kind == AliasNode ==> g[n].alias != null
  {
    if g[n].kind == AliasNode then g[n].alias else n
  }

  // ----- what a node denotes -----

  // What a consumer of the document sees: kinds, tags, values and children.
  datatype Tree = Tree(kind: Kind, tag: string, value: string, kids: seq<Tree>)

  predicate IsContainer(t: Tree) {
    t.kind == MappingNode || t.kind == SequenceNode
  }

  ghost function Meaning(g: Graph, rank: map<Node, nat>, n: Node): Tree
    requires Ranked(g, rank) && n in g
    decreases rank[n]
  {
    if g[n].kind == AliasNode then
      Meaning(g, rank, g[n].alias)
    else
      var f := g[n];
      Tree(f.kind, f.tag, f.value,
           seq(|f.content|, i requires 0 <= i < |f.content| => Meaning(g, rank, f.content[i])))
  }

  ghost function SomeRank(g: Graph): (rank: map<Node, nat>)
    requires WellFormed(g)
    ensures Ranked(g, rank)
  {
    var rank: map<Node, nat> :| Ranked(g, rank);
    rank
  }

  ghost function Denote(g: Graph, n: Node): Tree
    requires WellFormed(g) && n in g
  {
    Meaning(g, SomeRank(g), n)
  }

  // ----- graphs that look alike -----

  // Related nodes show the same kind, tag and value once aliases are followed,
  // and have related children.
  ghost predicate Bisimulation(g: Graph, h: Graph, pairs: set<(Node, Node)>)
    requires WellFormed(g) && WellFormed(h)
  {
    forall p | p in pairs ::
      && p.0 in g && p.1 in h
      && Matching(g[Target(g, p.0)], h[Target(h, p.1)], pairs)
  }

  ghost predicate Matching(f: Fields, f': Fields, pairs: set<(Node, Node)>) {
    && f.kind == f'.kind && f.tag == f'.tag && f.value == f'.value
    && |f.content| == |f'.content|
    && forall i | 0 <= i < |f.content| :: (f.content[i], f'.content[i]) in pairs
  }

  lemma {:induction false} BisimilarMeaning(g: Graph, rank: map<Node, nat>, h: Graph, rank': map<Node, nat>,
                                            pairs: set<(Node, Node)>, x: Node, y: Node)
    requires Ranked(g, rank) && Ranked(h, rank') && Bisimulation(g, h, pairs)
    requires (x, y) in pairs
    ensures Meaning(g, rank, x) == Meaning(h, rank', y)
    decreases rank[Target(g, x)]
  {
    var x', y' := Target(g, x), Target(h, y);
    var c, c' := g[x'].content, h[y'].content;
    forall i | 0 <= i < |c|
      ensures Meaning(g, rank, c[i]) == Meaning(h, rank', c'[i])
    {
      assert (c[i], c'[i]) in pairs;
      assert rank[Target(g, c[i])] <= rank[c[i]] < rank[x'];
      BisimilarMeaning(g, rank, h, rank', pairs, c[i], c'[i]);
    }
  }

  // Nodes related by a bisimulation denote the same tree, whatever the shape of
  // the sharing behind them.
  lemma BisimilarDenote(g: Graph, h: Graph, pairs: set<(Node, Node)>, x: Node, y: Node)
    requires WellFormed(g) && WellFormed(h) && Bisimulation(g, h, pairs)
    requires (x, y) in pairs
    ensures x in g && y in h
    ensures Denote(g, x) == Denote(h, y)
  {
    BisimilarMeaning(g, SomeRank(g), h, SomeRank(h), pairs, x, y);
  }

  // The equations that make `Denote` usable without mentioning a rank.
  lemma DenoteStep(g: Graph, n: Node)
    requires WellFormed(g) && n in g
    ensures g[n].kind == AliasNode ==>
      g[n].alias != null && g[n].alias in g && g[g[n].alias].kind != AliasNode
      && Denote(g, n) == Denote(g, g[n].alias)
    ensures g[n].kind != AliasNode ==>
      var t, f := Denote(g, n), g[n];
      && t.kind == f.kind && t.tag == f.tag && t.value == f.value
      && |t.kids| == |f.content|
      && forall i | 0 <= i < |f.content| :: f.content[i] in g && t.kids[i] == Denote(g, f.content[i])
  {
  }

  // A key shows its own tag and text: it is never an alias.
  lemma DenoteKey(g: Graph, n: Node, i: nat)
    requires WellFormed(g) && n in g && KeyPosition(g[n], i)
    ensures g[n].content[i] in g && g[g[n].content[i]].kind != AliasNode
    ensures Denote(g, n).kids[i].tag == g[g[n].content[i]].tag
    ensures Denote(g, n).kids[i].value == g[g[n].content[i]].value
  {
    DenoteStep(g, n);
    DenoteStep(g, g[n].content[i]);
  }

  // ----- plain texts, for examples -----

  predicate AllDifferent(ns: seq<Node>) {
    forall i, j | 0 <= i < j < |ns| :: ns[i] != ns[j]
  }

  predicate IsText(f: Fields, s: string) {
    f.kind == ScalarNode && f.tag == TAG_STR && f.value == s && f.content == [] && f.alias == null
  }

  lemma LeafDenotes(g: Graph, n: Node)
    requires WellFormed(g) && n in g && g[n].kind == ScalarNode && g[n].content == []
    ensures Denote(g, n) == Tree(ScalarNode, g[n].tag, g[n].value, [])
  {
    hide Ranked;
    DenoteStep(g, n);
  }

  // ----- reachability, as membership in closed sets -----

  ghost predicate ClosedIn(g: Graph, older s: set<Node>) {
    && s <= g.Keys
    && (forall n, i | n in s && 0 <= i < |g[n].content| :: g[n].content[i] in s)
    && (forall n {:trigger g[n].alias} | n in s && g[n].alias != null :: g[n].alias in s)
  }

  lemma WellFormedClosed(g: Graph)
    requires WellFormed(g)
    ensures ClosedIn(g, g.Keys)
  {
  }

  // No path of children and aliases leads from n into `targets`.
  ghost predicate Avoids(g: Graph, n: Node, targets: set<Node>) {
    exists s: set<Node> :: n in s && ClosedIn(g, s) && s !! targets
  }

  // A node that cannot reach any changed node denotes what it did.
  lemma UnreachedDenote(g: Graph, h: Graph, n: Node, changed: set<Node>)
    requires WellFormed(g) && WellFormed(h) && n in g
    requires g.Keys <= h.Keys
    requires forall x | x in g && x !in changed :: h[x] == g[x]
    requires Avoids(g, n, changed)
    ensures Denote(h, n) == Denote(g, n)
  {
    var s: set<Node> :| n in s && ClosedIn(g, s) && s !! changed;
    var pairs := set x | x in s :: (x, x);
    assert Bisimulation(g, h, pairs) by {
      forall p | p in pairs
        ensures p.0 in g && p.1 in h && Matching(g[Target(g, p.0)], h[Target(h, p.1)], pairs)
      {
        DenoteStep(g, p.0);
        assert Target(g, p.0) in s && Target(h, p.0) == Target(g, p.0);
      }
    }
    BisimilarDenote(g, h, pairs, n, n);
  }

  // Everything of rank at most that of n is closed, so n avoids every node of
  // higher rank.
  lemma LowerRankAvoids(g: Graph, rank: map<Node, nat>, n: Node, targets: set<Node>)
    requires Ranked(g, rank) && n in g
    requires forall x | x in targets && x in g :: rank[n] < rank[x]
    ensures Avoids(g, n, targets)
  {
    var s := set x | x in g && rank[x] <= rank[n];
    assert n in s && ClosedIn(g, s) && s !! targets;
  }
}
