/** Edits that no reader of the document can see. */
module Cosmetics {
  import opened YamlNode

  // Names, comments and positions may differ, and the tag and text of an alias.
  ghost predicate Cosmetic(g: Graph, h: Graph) {
    h.Keys == g.Keys && forall n {:trigger h[n]} | n in g :: SameShape(g[n], h[n])
  }

  predicate SameShape(f: Fields, f': Fields) {
    && f'.kind == f.kind && f'.alias == f.alias && f'.content == f.content
    && (f.kind != AliasNode ==> f'.tag == f.tag && f'.value == f.value)
  }

  lemma CosmeticRankAt(g: Graph, h: Graph, rank: map<Node, nat>, n: Node)
    requires Ranked(g, rank) && Cosmetic(g, h) && n in g
    ensures RankedAt(h, rank, n)
  {
    hide Ranked;
    RankedHere(g, rank, n);
    assert SameShape(g[n], h[n]);
    if g[n].alias != null {
      assert SameShape(g[g[n].alias], h[g[n].alias]);
    }
    forall i | 0 <= i < |g[n].content| ensures h[g[n].content[i]].kind == g[g[n].content[i]].kind {
      assert SameShape(g[g[n].content[i]], h[g[n].content[i]]);
    }
  }

  lemma CosmeticRank(g: Graph, h: Graph)
    requires WellFormed(g) && Cosmetic(g, h)
    ensures WellFormed(h)
  {
    hide Cosmetic;
    var rank := SomeRank(g);
    assert h.Keys == g.Keys by { CosmeticKeys(g, h); }
    forall n | n in h ensures RankedAt(h, rank, n) {
      CosmeticRankAt(g, h, rank, n);
    }
    assert Ranked(h, rank);
  }

  lemma CosmeticKeys(g: Graph, h: Graph)
    requires Cosmetic(g, h)
    ensures h.Keys == g.Keys
  {
  }

  lemma CosmeticMeaning(g: Graph, h: Graph)
    requires WellFormed(g) && Cosmetic(g, h)
    ensures WellFormed(h) && forall n | n in g :: Denote(h, n) == Denote(g, n)
  {
    hide Denote;
    CosmeticRank(g, h);
    var pairs := set n | n in g :: (n, n);
    forall p: (Node, Node) | p in pairs
      ensures p.0 in g && p.1 in h && Matching(g[Target(g, p.0)], h[Target(h, p.1)], pairs)
    {
      var n := p.0;
      assert RankedAt(g, SomeRank(g), n) && SameShape(g[n], h[n]);
      var t := Target(g, n);
      assert RankedAt(g, SomeRank(g), t) && SameShape(g[t], h[t]);
    }
    assert Bisimulation(g, h, pairs);
    forall n | n in g ensures Denote(h, n) == Denote(g, n) {
      assert (n, n) in pairs;
      BisimilarDenote(g, h, pairs, n, n);
    }
  }
}
