/** Keys that are aliases, as in `*x : 1`.  A reader of the document sees the anchored
  text there; mappingKeyIndex compares the alias's own text, which is the anchor's name.

  The other modules leave such keys out of their graphs. */
module AliasKeys {
  import opened YamlNode
  import opened Reading

  // A mapping whose keys may be aliases.
  ghost predicate Mapping(g: Graph, n: Node) {
    && n in g && g[n].kind == MappingNode
    && (forall c | c in g[n].content :: c in g)
    && (forall i | KeyPosition(g[n], i) && g[g[n].content[i]].kind == AliasNode ::
          g[g[n].content[i]].alias != null && g[g[n].content[i]].alias in g)
  }

  // The test on what a key stands for.
  ghost predicate SeenKey(g: Graph, k: Node, name: string)
    requires k in g && (g[k].kind == AliasNode ==> g[k].alias != null && g[k].alias in g)
  {
    if g[k].kind == AliasNode then g[g[k].alias].value == name else OwnKey(g[k], name)
  }

  // The first key that stands for the name.
  ghost predicate FirstSeen(g: Graph, n: Node, name: string, at: int)
    requires Mapping(g, n)
  {
    && (at >= 0 ==> KeyPosition(g[n], at) && SeenKey(g, g[n].content[at], name))
    && (forall i | KeyPosition(g[n], i) && SeenKey(g, g[n].content[i], name) :: 0 <= at <= i)
  }

  // No two keys of a mapping stand for the same text: the decoder rejects the others.
  ghost predicate KeysDiffer(g: Graph, n: Node)
    requires Mapping(g, n)
  {
    forall i, j, name: string {:trigger SeenKey(g, g[n].content[i], name), SeenKey(g, g[n].content[j], name)} |
      KeyPosition(g[n], i) && KeyPosition(g[n], j) && i < j ::
      !(SeenKey(g, g[n].content[i], name) && SeenKey(g, g[n].content[j], name))
  }

  // The anchor is called like the text it is on.
  ghost predicate NamedLikeItsText(g: Graph, k: Node)
    requires k in g && g[k].kind == AliasNode && g[k].alias != null && g[k].alias in g
  {
    OwnKey(g[k], g[g[k].alias].value)
  }

  // mappingKeyIndex finds what each name stands for.
  ghost predicate FindsAll(g: Graph, n: Node)
    requires Mapping(g, n)
  {
    forall name :: FirstSeen(g, n, name, OwnKeyIndex(g, g[n].content, name, 0))
  }

  // Every alias key is an alias of an anchor called like the anchored text.
  ghost predicate AllNamedLikeTheirText(g: Graph, n: Node)
    requires Mapping(g, n)
  {
    forall i | KeyPosition(g[n], i) && g[g[n].content[i]].kind == AliasNode :: NamedLikeItsText(g, g[n].content[i])
  }

  lemma AliasKeysAgree(g: Graph, n: Node)
    requires Mapping(g, n) && KeysDiffer(g, n)
    ensures FindsAll(g, n) <==> AllNamedLikeTheirText(g, n)
  {
    if FindsAll(g, n) {
      FindingNeedsNames(g, n);
    }
    if AllNamedLikeTheirText(g, n) {
      NamesSuffice(g, n);
    }
  }

  lemma FindingNeedsNames(g: Graph, n: Node)
    requires Mapping(g, n) && KeysDiffer(g, n) && FindsAll(g, n)
    ensures AllNamedLikeTheirText(g, n)
  {
    var content := g[n].content;
    forall i | KeyPosition(g[n], i) && g[content[i]].kind == AliasNode ensures NamedLikeItsText(g, content[i]) {
      var name := g[g[content[i]].alias].value;
      var at := OwnKeyIndex(g, content, name, 0);
      OwnFirst(g, n, name, 0);
      assert FirstSeen(g, n, name, at) && SeenKey(g, content[i], name);
      assert SeenKey(g, content[at], name);
    }
  }

  lemma NamesSuffice(g: Graph, n: Node)
    requires Mapping(g, n) && AllNamedLikeTheirText(g, n)
    ensures FindsAll(g, n)
  {
    var content := g[n].content;
    forall name ensures FirstSeen(g, n, name, OwnKeyIndex(g, content, name, 0)) {
      OwnFirst(g, n, name, 0);
      forall i | KeyPosition(g[n], i) ensures SeenKey(g, content[i], name) <==> OwnKey(g[content[i]], name) {
        assert g[content[i]].kind == AliasNode ==> NamedLikeItsText(g, content[i]);
      }
    }
  }

  // What OwnKeyIndex finds.
  lemma {:induction false} OwnFirst(g: Graph, n: Node, name: string, i: nat)
    requires Mapping(g, n) && i % 2 == 0
    ensures var at := OwnKeyIndex(g, g[n].content, name, i);
      && (at >= 0 ==> i <= at && KeyPosition(g[n], at) && OwnKey(g[g[n].content[at]], name))
      && (forall j | KeyPosition(g[n], j) && i <= j && OwnKey(g[g[n].content[j]], name) :: 0 <= at <= j)
    decreases |g[n].content| - i
  {
    if i + 1 < |g[n].content| {
      OwnFirst(g, n, name, i + 2);
    }
  }

  // a: &x foo
  // *x : 1
  ghost predicate IsAliasKeyed(g: Graph, root: Node, ka: Node, x: Node, k: Node, v: Node) {
    && g.Keys == {root, ka, x, k, v} && g[root].kind == MappingNode && g[root].content == [ka, x, k, v]
    && IsText(g[ka], "a") && IsText(g[x], "foo") && g[x].anchor == "x" && IsText(g[v], "1")
    && g[k].kind == AliasNode && g[k].tag == "" && g[k].value == "x" && g[k].alias == x && g[k].content == []
  }

  // The name foo stands for the second entry, and mappingKeyIndex finds nothing; it
  // finds that entry under x, which no key stands for.
  lemma AliasKeyMissed(g: Graph, root: Node, ka: Node, x: Node, k: Node, v: Node)
    requires IsAliasKeyed(g, root, ka, x, k, v)
    ensures Mapping(g, root) && KeysDiffer(g, root)
    ensures FirstSeen(g, root, "foo", 2) && OwnKeyIndex(g, g[root].content, "foo", 0) == -1
    ensures FirstSeen(g, root, "x", -1) && OwnKeyIndex(g, g[root].content, "x", 0) == 2
  {
    var content := g[root].content;
    assert OwnKeyIndex(g, content, "foo", 4) == -1 && OwnKeyIndex(g, content, "foo", 2) == -1;
    assert OwnKeyIndex(g, content, "x", 2) == 2;
    forall i | KeyPosition(g[root], i) ensures i == 0 || i == 2 {}
  }
}
