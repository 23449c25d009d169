/** Anchors and aliases: breaking an alias into a local copy, and the anchor
  operations built on it. */
module Anchors {
  import opened YamlNode
  import opened DeepCopy

  // ----- breaking one alias -----

  // h is g with alias a turned into a copy of its target's content.  Every node
  // below a is new; the target's own copy is dropped once its fields are moved
  // into a.
  ghost predicate BreaksAlias(g: Graph, h: Graph, a: Node, copies: map<Node, Node>) {
    && a in g && g[a].kind == AliasNode && g[a].alias != null && g[a].alias in copies
    && var t := g[a].alias;
    && Injective(copies) && ClosedIn(g, copies.Keys)
    && (forall c: set<Node> {:trigger ClosedIn(g, c)} | ClosedIn(g, c) && t in c :: copies.Keys <= c)
    && (forall x | x in copies :: copies[x] !in g)
    && (forall y {:trigger IsCopy(copies, t, y)} | y in h && y !in g :: IsCopy(copies, t, y))
    && (forall n | n in g && n != a :: n in h && h[n] == g[n])
    && (forall x | x in copies && x != t :: copies[x] in h)
    && (forall x {:trigger CopyOf(g[x], h[copies[x]], copies)} | x in copies && x != t ::
          CopyOf(g[x], h[copies[x]], copies))
    && a in h && Moved(g[a], g[t], h[a], copies)
  }

  ghost predicate IsCopy(copies: map<Node, Node>, t: Node, y: Node) {
    exists x: Node | x in copies :: x != t && copies[x] == y
  }

  // What breakAliasInPlace leaves in the alias node: the target's content and
  // the alias's own comments and position.
  ghost predicate Moved(alias: Fields, target: Fields, f: Fields, copies: map<Node, Node>) {
    && (forall i | 0 <= i < |target.content| :: target.content[i] in copies)
    && |f.content| == |target.content|
    && (forall i | 0 <= i < |target.content| :: f.content[i] == copies[target.content[i]])
    && f == alias.(kind := target.kind, style := target.style, tag := target.tag, value := target.value,
                   anchor := "", alias := null, content := f.content)
  }

  // Copies of nodes reachable from t have at most t's rank; only t attains it.
  lemma CopiedRank(g: Graph, rank: map<Node, nat>, t: Node, x: Node, keys: set<Node>)
    requires Ranked(g, rank) && t in g && x in keys
    requires forall c: set<Node> {:trigger ClosedIn(g, c)} | ClosedIn(g, c) && t in c :: keys <= c
    ensures x in g && rank[x] <= rank[t]
    ensures x != t ==> rank[x] < rank[t]
  {
    var c := set y | y in g && (rank[y] < rank[t] || y == t);
    assert ClosedIn(g, c) && t in c;
  }

  // The rank of a copy is the rank of its original.
  ghost function OriginalRank(g: Graph, rank: map<Node, nat>, t: Node, copies: map<Node, Node>, y: Node): (r: nat)
    requires Ranked(g, rank) && copies.Keys <= g.Keys && Injective(copies)
    ensures forall x: Node {:trigger copies[x]} | x in copies && x != t && copies[x] == y :: r == rank[x]
  {
    if exists x: Node :: x in copies && x != t && copies[x] == y then
      var x: Node :| x in copies && x != t && copies[x] == y; rank[x]
    else 0
  }

  ghost function BrokenRanks(g: Graph, h: Graph, a: Node, copies: map<Node, Node>): (r: map<Node, nat>)
    requires WellFormed(g) && BreaksAlias(g, h, a, copies)
    ensures r.Keys == h.Keys
    ensures forall n | n in g :: r[n] == SomeRank(g)[n]
    ensures forall x {:trigger copies[x]} | x in copies && x != g[a].alias :: r[copies[x]] == SomeRank(g)[x]
  {
    map y: Node | y in h ::
      if y in g then SomeRank(g)[y] else OriginalRank(g, SomeRank(g), g[a].alias, copies, y)
  }

  // The alias itself now holds copies of its target's children.
  lemma BrokenRankAlias(g: Graph, h: Graph, a: Node, copies: map<Node, Node>)
    requires WellFormed(g) && BreaksAlias(g, h, a, copies)
    ensures RankedAt(h, BrokenRanks(g, h, a, copies), a)
  {
    var rank, rank', t := SomeRank(g), BrokenRanks(g, h, a, copies), g[a].alias;
    assert RankedAt(g, rank, a) && RankedAt(g, rank, t);
    forall i | 0 <= i < |h[a].content|
      ensures h[a].content[i] in h && rank'[h[a].content[i]] < rank'[a]
      ensures h[h[a].content[i]].kind == g[g[t].content[i]].kind
    {
      var c := g[t].content[i];
      assert rank[c] < rank[t] && c != t;
      assert CopyOf(g[c], h[copies[c]], copies);
    }
  }

  lemma BrokenRankCopy(g: Graph, h: Graph, a: Node, copies: map<Node, Node>, x: Node)
    requires WellFormed(g) && BreaksAlias(g, h, a, copies) && x in copies && x != g[a].alias
    ensures RankedAt(h, BrokenRanks(g, h, a, copies), copies[x])
  {
    hide Ranked;
    var rank, rank', t := SomeRank(g), BrokenRanks(g, h, a, copies), g[a].alias;
    CopiedRank(g, rank, t, x, copies.Keys);
    RankedHere(g, rank, x);
    assert CopyOf(g[x], h[copies[x]], copies);
    forall i | 0 <= i < |g[x].content|
      ensures h[copies[x]].content[i] == copies[g[x].content[i]]
      ensures h[copies[x]].content[i] in h && rank'[h[copies[x]].content[i]] < rank'[copies[x]]
      ensures h[h[copies[x]].content[i]].kind == g[g[x].content[i]].kind
    {
      var c := g[x].content[i];
      assert rank[c] < rank[x] && c != t;
      assert CopyOf(g[c], h[copies[c]], copies);
    }
    if g[x].alias != null {
      assert CopyOf(g[g[x].alias], h[copies[g[x].alias]], copies);
    }
  }

  lemma BrokenRank(g: Graph, h: Graph, a: Node, copies: map<Node, Node>)
    requires WellFormed(g) && BreaksAlias(g, h, a, copies)
    ensures WellFormed(h)
  {
    var rank, rank' := SomeRank(g), BrokenRanks(g, h, a, copies);
    forall n | n in h ensures RankedAt(h, rank', n) {
      if n == a {
        BrokenRankAlias(g, h, a, copies);
      } else if n in g {
        BrokenRankOther(g, h, a, copies, n);
      } else {
        assert IsCopy(copies, g[a].alias, n);
        var x: Node :| x in copies && x != g[a].alias && copies[x] == n;
        BrokenRankCopy(g, h, a, copies, x);
      }
    }
    assert Ranked(h, rank');
  }

  lemma BrokenRankOther(g: Graph, h: Graph, a: Node, copies: map<Node, Node>, n: Node)
    requires WellFormed(g) && BreaksAlias(g, h, a, copies) && n in g && n != a
    ensures n in h && RankedAt(h, BrokenRanks(g, h, a, copies), n)
  {
    var rank, t := SomeRank(g), g[a].alias;
    assert RankedAt(g, rank, n) && RankedAt(g, rank, a);
  }

  ghost function BreakPairs(g: Graph, t: Node, copies: map<Node, Node>): set<(Node, Node)> {
    (set n | n in g :: (n, n)) + (set x | x in copies && x != t :: (x, copies[x]))
  }

  lemma SameMatches(g: Graph, h: Graph, a: Node, copies: map<Node, Node>, n: Node)
    requires WellFormed(g) && BreaksAlias(g, h, a, copies) && n in g
    ensures n in h && Target(g, n) in g && (h[n].kind == AliasNode ==> h[n].alias != null) && Target(h, n) in h
    ensures Matching(g[Target(g, n)], h[Target(h, n)], BreakPairs(g, g[a].alias, copies))
  {
    var rank, t := SomeRank(g), g[a].alias;
    if n == a || g[n].alias == a || Target(g, n) == t {
      forall c | c in g[t].content ensures c in copies && c != t {
        var i :| 0 <= i < |g[t].content| && g[t].content[i] == c;
        assert rank[g[t].content[i]] < rank[t];
      }
    }
  }

  lemma CopyMatches(g: Graph, h: Graph, a: Node, copies: map<Node, Node>, x: Node)
    requires WellFormed(g) && BreaksAlias(g, h, a, copies) && x in copies && x != g[a].alias
    ensures x in g && copies[x] in h && Target(g, x) in g
    ensures (h[copies[x]].kind == AliasNode ==> h[copies[x]].alias != null) && Target(h, copies[x]) in h
    ensures Matching(g[Target(g, x)], h[Target(h, copies[x])], BreakPairs(g, g[a].alias, copies))
  {
    var rank, t := SomeRank(g), g[a].alias;
    CopiedRank(g, rank, t, x, copies.Keys);
    var y := Target(g, x);
    assert y in copies && rank[y] <= rank[x];
    assert CopyOf(g[x], h[copies[x]], copies) && CopyOf(g[y], h[copies[y]], copies);
    forall i | 0 <= i < |g[y].content| ensures g[y].content[i] in copies && g[y].content[i] != t {
      assert rank[g[y].content[i]] < rank[y];
    }
  }

  // Breaking an alias changes what no node denotes: neither a nor any node that
  // reaches it, and each new node denotes what its original does.
  lemma BrokenMeaning(g: Graph, h: Graph, a: Node, copies: map<Node, Node>)
    requires WellFormed(g) && BreaksAlias(g, h, a, copies)
    ensures WellFormed(h)
    ensures forall n | n in g :: n in h && Denote(h, n) == Denote(g, n)
    ensures forall x | x in copies && x != g[a].alias ::
      x in g && copies[x] in h && Denote(h, copies[x]) == Denote(g, x)
  {
    BrokenRank(g, h, a, copies);
    var t := g[a].alias;
    var pairs := BreakPairs(g, t, copies);
    forall p: (Node, Node) | p in pairs
      ensures p.0 in g && p.1 in h && Matching(g[Target(g, p.0)], h[Target(h, p.1)], pairs)
    {
      if p.0 == p.1 {
        SameMatches(g, h, a, copies, p.0);
      } else {
        CopyMatches(g, h, a, copies, p.0);
      }
    }
    forall n | n in g ensures n in h && Denote(h, n) == Denote(g, n) {
      assert (n, n) in pairs;
      BisimilarDenote(g, h, pairs, n, n);
    }
    forall x | x in copies && x != t
      ensures x in g && copies[x] in h && Denote(h, copies[x]) == Denote(g, x)
    {
      assert (x, copies[x]) in pairs;
      BisimilarDenote(g, h, pairs, x, copies[x]);
    }
  }

  // g after alias a is severed, given a deep copy d of its target.
  ghost function Severed(g: Graph, d: Graph, a: Node, copies: map<Node, Node>): Graph
    requires a in g && g[a].alias != null && Isomorphism(g, d, copies) && g[a].alias in copies
  {
    map y | y in g.Keys + NewNodes(copies, g[a].alias) ::
      if y == a then MovedFields(g[a], d[copies[g[a].alias]]) else if y in g then g[y] else d[y]
  }

  ghost function NewNodes(copies: map<Node, Node>, t: Node): set<Node> {
    set x | x in copies && x != t :: copies[x]
  }

  lemma SeveredBreaks(g: Graph, d: Graph, a: Node, copies: map<Node, Node>)
    requires a in g && g[a].kind == AliasNode && g[a].alias != null && g[a].alias in copies
    requires Isomorphism(g, d, copies) && ClosedIn(g, copies.Keys)
    requires forall c: set<Node> {:trigger ClosedIn(g, c)} | ClosedIn(g, c) && g[a].alias in c :: copies.Keys <= c
    requires forall x | x in copies :: copies[x] !in g
    ensures BreaksAlias(g, Severed(g, d, a, copies), a, copies)
  {
    var t, h := g[a].alias, Severed(g, d, a, copies);
    assert CopyOf(g[t], d[copies[t]], copies);
    forall y | y in h && y !in g ensures IsCopy(copies, t, y) {
      var x: Node :| x in copies && x != t && y == copies[x];
    }
    forall x | x in copies && x != t ensures copies[x] in h && CopyOf(g[x], h[copies[x]], copies) {
      assert CopyOf(g[x], d[copies[x]], copies);
    }
  }

  lemma BrokenKind(g: Graph, h: Graph, a: Node, copies: map<Node, Node>)
    requires WellFormed(g) && BreaksAlias(g, h, a, copies)
    ensures h[a].kind == g[g[a].alias].kind && h[a].kind != AliasNode
  {
    assert RankedAt(g, SomeRank(g), a);
  }

  // The alias node looks like its target, under its own comments, and has no anchor.
  lemma BrokenLooks(g: Graph, h: Graph, a: Node, copies: map<Node, Node>)
    requires BreaksAlias(g, h, a, copies)
    ensures g[a].alias in g && a in h
    ensures var t := g[g[a].alias];
      && (h[a].kind, h[a].style, h[a].tag, h[a].value) == (t.kind, t.style, t.tag, t.value)
      && h[a].anchor == "" && h[a].alias == null
      && h[a].headComment == g[a].headComment && h[a].lineComment == g[a].lineComment
      && h[a].footComment == g[a].footComment
  {
  }

  // Nothing new leads back to what was there before.
  ghost predicate NewClosed(g: Graph, h: Graph) {
    forall x {:trigger h[x]} | x in h && x !in g ::
      && (forall c | c in h[x].content :: c in h && c !in g)
      && (h[x].alias != null ==> h[x].alias in h && h[x].alias !in g)
  }

  lemma BrokenBelow(g: Graph, h: Graph, a: Node, copies: map<Node, Node>)
    requires WellFormed(g) && BreaksAlias(g, h, a, copies)
    ensures NewClosed(g, h)
    ensures forall c | c in h[a].content :: c in h && c !in g
  {
    hide Ranked;
    var rank, t := SomeRank(g), g[a].alias;
    forall x | x in copies
      ensures forall c | c in g[x].content :: c in copies && c != t
      ensures g[x].alias != null ==> g[x].alias in copies && g[x].alias != t
    {
      CopiedRank(g, rank, t, x, copies.Keys);
      RankedHere(g, rank, x);
    }
    forall y | y in h && y !in g
      ensures forall c | c in h[y].content :: c in h && c !in g
      ensures h[y].alias != null ==> h[y].alias in h && h[y].alias !in g
    {
      assert IsCopy(copies, t, y);
      var x: Node :| x in copies && x != t && copies[x] == y;
      assert CopyOf(g[x], h[y], copies);
    }
  }

  ghost function MovedFields(alias: Fields, cp: Fields): Fields {
    alias.(kind := cp.kind, style := cp.style, tag := cp.tag, value := cp.value,
           anchor := "", alias := null, content := cp.content)
  }

  // The field writes of breakAliasInPlace.
  method MoveInto(a: Node, cp: Node)
    requires a != cp
    modifies a
    ensures a.Snap() == MovedFields(old(a.Snap()), old(cp.Snap()))
    ensures a.kind == old(cp.kind) && a.style == old(cp.style) && a.tag == old(cp.tag) && a.value == old(cp.value)
    ensures a.content == old(cp.content) && a.anchor == "" && a.alias == null
    ensures a.headComment == old(a.headComment) && a.lineComment == old(a.lineComment) &&
      a.footComment == old(a.footComment)
  {
    var head, lineText, foot := a.headComment, a.lineComment, a.footComment;
    a.kind := cp.kind;
    a.style := cp.style;
    a.tag := cp.tag;
    a.value := cp.value;
    a.anchor := "";
    a.alias := null;
    a.content := cp.content;
    a.headComment := head;
    a.lineComment := lineText;
    a.footComment := foot;
  }

  // breakAliasInPlace.  `made` are the nodes that now hang below the former
  // alias; a node that is not an alias is left alone.
  method BreakAliasInPlace(a: Node, ghost nodes: set<Node>)
    returns (ghost made: set<Node>, ghost copies: map<Node, Node>)
    requires a in nodes && WellFormed(Snapshot(nodes))
    modifies a
    ensures fresh(made)
    ensures old(a.kind) != AliasNode ==> made == {} && Snapshot(nodes + made) == old(Snapshot(nodes))
    ensures old(a.kind) == AliasNode ==> BreaksAlias(old(Snapshot(nodes)), Snapshot(nodes + made), a, copies)
  {
    ghost var g := Snapshot(nodes);
    WellFormedClosed(g);
    assert g[a] == a.Snap() && RankedAt(g, SomeRank(g), a);
    if a.kind != AliasNode || a.alias == null {
      assert nodes + {} == nodes;
      return {}, map[];
    }
    assert g.Keys == nodes;
    made, copies := Sever(a, g);
  }

  method Sever(a: Node, ghost g: Graph) returns (ghost made: set<Node>, ghost copies: map<Node, Node>)
    requires Shows(g) && ClosedIn(g, g.Keys)
    requires a in g && a.kind == AliasNode && a.alias != null
    modifies a
    ensures fresh(made)
    ensures BreaksAlias(g, Snapshot(g.Keys + made), a, copies)
  {
    assert a.Snap() == g[a];
    var cp;
    ghost var d;
    cp, copies, d := DeepCopyYAMLNode(a.alias, g);
    made := NewNodes(copies, a.alias);
    ghost var h := Severed(g, d, a, copies);
    MoveInto(a, cp);
    assert Snapshot(g.Keys + made) == h;
    assert BreaksAlias(g, h, a, copies) by {
      forall x | x in copies ensures copies[x] in d {}
      SeveredBreaks(g, d, a, copies);
    }
  }
}
