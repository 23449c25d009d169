/** A deep copy reads like its source in every way that saving looks at it. */
module CopyReads {
  import opened Prelude
  import opened KeyPath
  import opened YamlNode
  import opened DeepCopy
  import opened Lookup
  import opened Walk
  import opened UpsertNodes
  import opened UpsertTrail
  import opened PhysicalLeaves

  // d is exactly the copy.
  ghost predicate CopiedTo(g: Graph, d: Graph, copies: map<Node, Node>) {
    WellFormed(g) && Isomorphism(g, d, copies) && d.Keys == copies.Values
  }

  lemma CopiedHere(g: Graph, d: Graph, copies: map<Node, Node>, x: Node)
    requires CopiedTo(g, d, copies) && x in copies
    ensures WellFormed(g) && x in g && copies[x] in d && CopyOf(g[x], d[copies[x]], copies)
  {
  }

  lemma CopiedFrom(g: Graph, d: Graph, copies: map<Node, Node>, y: Node) returns (x: Node)
    requires CopiedTo(g, d, copies) && y in d
    ensures x in copies && copies[x] == y
  {
    x :| x in copies && copies[x] == y;
  }

  ghost function SourceOf(copies: map<Node, Node>, y: Node): (x: Node)
    requires y in copies.Values
    ensures x in copies && copies[x] == y
  {
    var x :| x in copies && copies[x] == y;
    x
  }

  lemma SourceIs(g: Graph, d: Graph, copies: map<Node, Node>, x: Node)
    requires CopiedTo(g, d, copies) && x in copies
    ensures copies[x] in copies.Values && SourceOf(copies, copies[x]) == x
  {
    assert copies[SourceOf(copies, copies[x])] == copies[x];
  }

  lemma CopyWellFormed(g: Graph, d: Graph, copies: map<Node, Node>)
    requires CopiedTo(g, d, copies)
    ensures WellFormed(d)
  {
    hide Ranked, CopiedTo;
    CopiedKeys(g, d, copies);
    var rank := SomeRank(g);
    forall x | x in copies ensures x in rank {
      CopiedHere(g, d, copies, x);
      RankedHere(g, rank, x);
    }
    var rank': map<Node, nat> := map y: Node | y in d :: rank[SourceOf(copies, y)];
    forall y | y in d ensures RankedAt(d, rank', y) {
      CopyRankAt(g, d, copies, rank, rank', y);
    }
    assert Ranked(d, rank') by { RankedIntro(d, rank'); }
  }

  lemma CopiedKeys(g: Graph, d: Graph, copies: map<Node, Node>)
    requires CopiedTo(g, d, copies)
    ensures d.Keys == copies.Values && WellFormed(g)
  {
  }

  lemma CopyRankAt(g: Graph, d: Graph, copies: map<Node, Node>, rank: map<Node, nat>, rank': map<Node, nat>, y: Node)
    requires CopiedTo(g, d, copies) && Ranked(g, rank) && y in d
    requires d.Keys == copies.Values && (forall x | x in copies :: x in rank)
    requires rank'.Keys == d.Keys && forall z | z in d :: rank'[z] == rank[SourceOf(copies, z)]
    ensures RankedAt(d, rank', y)
  {
    hide Ranked, CopiedTo;
    var x := CopiedFrom(g, d, copies, y);
    CopiedHere(g, d, copies, x);
    SourceIs(g, d, copies, x);
    RankedHere(g, rank, x);
    forall i | 0 <= i < |d[y].content|
      ensures d[y].content[i] in d && rank'[d[y].content[i]] < rank'[y]
      ensures KeyPosition(d[y], i) ==> d[d[y].content[i]].kind != AliasNode
    {
      CopiedHere(g, d, copies, g[x].content[i]);
      SourceIs(g, d, copies, g[x].content[i]);
      assert KeyPosition(d[y], i) ==> KeyPosition(g[x], i);
    }
    if g[x].alias != null {
      CopiedHere(g, d, copies, g[x].alias);
      SourceIs(g, d, copies, g[x].alias);
    }
  }

  lemma CopyDenote(g: Graph, d: Graph, copies: map<Node, Node>, n: Node)
    requires CopiedTo(g, d, copies) && n in copies
    ensures WellFormed(d) && n in g && copies[n] in d && Denote(d, copies[n]) == Denote(g, n)
  {
    hide Denote, CopiedTo;
    CopyWellFormed(g, d, copies);
    CopiedKeys(g, d, copies);
    var pairs := set x | x in copies :: (x, copies[x]);
    assert Bisimulation(g, d, pairs) by {
      forall p | p in pairs ensures p.0 in g && p.1 in d {
        CopiedHere(g, d, copies, p.0);
      }
      forall p | p in pairs
        ensures p.0 in g && p.1 in d && Matching(g[Target(g, p.0)], d[Target(d, p.1)], pairs)
      {
        CopyMatches(g, d, copies, pairs, p.0);
      }
    }
    assert (n, copies[n]) in pairs;
    BisimilarDenote(g, d, pairs, n, copies[n]);
  }

  lemma CopyMatches(g: Graph, d: Graph, copies: map<Node, Node>, pairs: set<(Node, Node)>, x: Node)
    requires CopiedTo(g, d, copies) && WellFormed(d) && x in copies
    requires pairs == set z | z in copies :: (z, copies[z])
    ensures x in g && copies[x] in d
    ensures Target(g, x) in copies && Target(d, copies[x]) == copies[Target(g, x)]
    ensures Target(g, x) in g && Target(d, copies[x]) in d
    ensures Matching(g[Target(g, x)], d[Target(d, copies[x])], pairs)
  {
    hide Ranked, Denote, CopiedTo;
    CopiedHere(g, d, copies, x);
    DenoteStep(g, x);
    DenoteStep(d, copies[x]);
    CopiedHere(g, d, copies, Target(g, x));
  }

  lemma CopyShape(g: Graph, d: Graph, copies: map<Node, Node>, root: Node)
    requires CopiedTo(g, d, copies) && root in copies && Shape(g) && NoParent(g, root)
    ensures Shape(d) && NoParent(d, copies[root])
  {
    hide Ranked, CopiedTo, WellFormed;
    forall y | y in d ensures d[y].kind != AliasNode && d[y].alias == null {
      var x := CopiedFrom(g, d, copies, y);
      CopiedHere(g, d, copies, x);
    }
    forall y, i | y in d && 0 <= i < |d[y].content| ensures d[y].content[i] != copies[root] {
      var x := CopiedFrom(g, d, copies, y);
      CopiedHere(g, d, copies, x);
      CopiedOnce(g, d, copies, g[x].content[i], root);
    }
    forall y, z, i, j |
      y in d && z in d && 0 <= i < |d[y].content| && 0 <= j < |d[z].content| && d[y].content[i] == d[z].content[j]
      ensures y == z && i == j
    {
      var x := CopiedFrom(g, d, copies, y);
      var w := CopiedFrom(g, d, copies, z);
      CopiedHere(g, d, copies, x);
      CopiedHere(g, d, copies, w);
      CopiedOnce(g, d, copies, g[x].content[i], g[w].content[j]);
    }
  }

  lemma CopiedOnce(g: Graph, d: Graph, copies: map<Node, Node>, x: Node, y: Node)
    requires CopiedTo(g, d, copies) && x in copies && y in copies
    ensures copies[x] == copies[y] ==> x == y
  {
  }

  // ----- the same leaf keys -----

  lemma {:induction false} CopyLeafKeys(g: Graph, d: Graph, copies: map<Node, Node>, n: Node, prefix: string)
    requires CopiedTo(g, d, copies) && WellFormed(d) && n in copies
    ensures n in g && copies[n] in d && LeafKeys(d, copies[n], prefix) == LeafKeys(g, n, prefix)
    decreases Denote(g, n), |g[n].content| + 1
  {
    hide Ranked, Denote, CopiedTo, WellFormed;
    CopiedHere(g, d, copies, n);
    if g[n].kind == MappingNode && g[n].content != [] {
      CopyEntryKeys(g, d, copies, n, prefix, 0);
    } else if g[n].kind == SequenceNode && g[n].content != [] {
      CopyItemKeys(g, d, copies, n, prefix, 0);
    }
  }

  lemma {:induction false} CopyEntryKeys(g: Graph, d: Graph, copies: map<Node, Node>, n: Node, prefix: string, i: nat)
    requires CopiedTo(g, d, copies) && WellFormed(d) && n in copies && n in g && g[n].kind == MappingNode && i % 2 == 0
    ensures copies[n] in d && d[copies[n]].kind == MappingNode
    ensures EntryKeys(d, copies[n], prefix, i) == EntryKeys(g, n, prefix, i)
    decreases Denote(g, n), |g[n].content| - i
  {
    hide Ranked, Denote, CopiedTo, WellFormed, LeafKeys;
    CopiedHere(g, d, copies, n);
    DenoteStep(g, n);
    if i + 1 < |g[n].content| {
      CopiedHere(g, d, copies, g[n].content[i]);
      assert Denote(g, g[n].content[i + 1]) < Denote(g, n);
      CopyLeafKeys(g, d, copies, g[n].content[i + 1], Extended(prefix, Name(g[g[n].content[i]].value)));
      CopyEntryKeys(g, d, copies, n, prefix, i + 2);
    }
  }

  lemma {:induction false} CopyItemKeys(g: Graph, d: Graph, copies: map<Node, Node>, n: Node, prefix: string, i: nat)
    requires CopiedTo(g, d, copies) && WellFormed(d) && n in copies && n in g && g[n].kind == SequenceNode
    ensures copies[n] in d && ItemKeys(d, copies[n], prefix, i) == ItemKeys(g, n, prefix, i)
    decreases Denote(g, n), |g[n].content| - i
  {
    hide Ranked, Denote, CopiedTo, WellFormed, LeafKeys;
    CopiedHere(g, d, copies, n);
    DenoteStep(g, n);
    if i < |g[n].content| {
      assert Denote(g, g[n].content[i]) < Denote(g, n);
      CopyLeafKeys(g, d, copies, g[n].content[i], Extended(prefix, Index(i)));
      CopyItemKeys(g, d, copies, n, prefix, i + 1);
    }
  }

  // ----- the same slots -----

  lemma {:induction false} CopyReadSlot(g: Graph, d: Graph, copies: map<Node, Node>, n: Node, segs: seq<Segment>)
    requires CopiedTo(g, d, copies) && WellFormed(d) && n in copies && segs != []
    ensures n in g && copies[n] in d
    ensures match ReadSlot(g, n, segs)
      case None => ReadSlot(d, copies[n], segs) == None
      case Some(r) => r.0 in copies && ReadSlot(d, copies[n], segs) == Some((copies[r.0], r.1, r.2))
    decreases |segs|
  {
    hide Ranked, Denote, CopiedTo, WellFormed, SlotIn;
    CopyMatches(g, d, copies, set z | z in copies :: (z, copies[z]), n);
    CopiedHere(g, d, copies, n);
    var p := Target(g, n);
    CopiedHere(g, d, copies, p);
    CopySlotIn(g, d, copies, p, segs[0]);
    var slot := SlotIn(g, p, segs[0]);
    if 0 <= slot < |g[p].content| {
      CopiedHere(g, d, copies, g[p].content[slot]);
      if |segs| > 1 {
        CopyReadSlot(g, d, copies, g[p].content[slot], segs[1..]);
      }
    }
  }

  lemma CopySlotIn(g: Graph, d: Graph, copies: map<Node, Node>, p: Node, seg: Segment)
    requires CopiedTo(g, d, copies) && WellFormed(d) && p in copies && p in g && copies[p] in d
    ensures SlotIn(d, copies[p], seg) == SlotIn(g, p, seg)
  {
    hide Ranked, Denote, CopiedTo, WellFormed;
    CopyDenote(g, d, copies, p);
  }
}
