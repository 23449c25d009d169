/** upsertPath on the node graph, step by step in place. */
module UpsertNodes {
  import opened Prelude
  import opened KeyPath
  import opened YamlNode
  import opened DeepCopy
  import opened Anchors
  import opened Lookup
  import opened Reading
  import opened Walk
  import opened Upsert

  // ----- one container gains new childless nodes -----

  // h is g with the content of n changed, using old children of n and new nodes
  // that have no children.
  ghost predicate Grown(g: Graph, h: Graph, n: Node) {
    && n in g && g[n].kind != AliasNode && g.Keys <= h.Keys
    && (forall x {:trigger h[x]} | x in g && x != n :: h[x] == g[x])
    && (forall x {:trigger h[x]} | x in h && x !in g ::
          h[x].kind != AliasNode && h[x].alias == null && h[x].content == [])
    && h[n] == g[n].(content := h[n].content)
    && (forall i {:trigger h[n].content[i]} | 0 <= i < |h[n].content| ::
          && h[n].content[i] in h
          && (h[n].content[i] in g ==> i < |g[n].content| && g[n].content[i] == h[n].content[i]))
    && (forall i, j {:trigger h[n].content[i], h[n].content[j]} |
          0 <= i < j < |h[n].content| && h[n].content[i] !in g :: h[n].content[i] != h[n].content[j])
    && (forall i {:trigger h[n].content[i]} | KeyPosition(h[n], i) && h[n].content[i] in g ::
          KeyPosition(g[n], i) && g[n].content[i] == h[n].content[i])
    && (g[n].kind == MappingNode ==> |h[n].content| % 2 == 0)
  }

  lemma GrownAt(g: Graph, h: Graph, n: Node, rank: map<Node, nat>, rank': map<Node, nat>, x: Node)
    requires Ranked(g, rank) && Grown(g, h, n) && x in h && rank'.Keys == h.Keys
    requires forall y | y in h :: rank'[y] == if y in g then rank[y] + 1 else 0
    ensures RankedAt(h, rank', x)
  {
    hide Ranked;
    if x in g {
      RankedHere(g, rank, x);
    }
    if x == n {
      forall i | 0 <= i < |h[n].content|
        ensures h[n].content[i] in h && rank'[h[n].content[i]] < rank'[n]
        ensures KeyPosition(h[n], i) ==> h[h[n].content[i]].kind != AliasNode
      {
        var c := h[n].content[i];
        if c in g {
          assert c != n && h[c] == g[c];
        }
      }
    }
  }

  lemma GrownWellFormed(g: Graph, h: Graph, n: Node)
    requires WellFormed(g) && Grown(g, h, n)
    ensures WellFormed(h)
  {
    hide Ranked;
    var rank := SomeRank(g);
    RankedHere(g, rank, n);
    var rank': map<Node, nat> := map y: Node | y in h :: if y in g then rank[y] + 1 else 0;
    forall x | x in h ensures RankedAt(h, rank', x) {
      GrownAt(g, h, n, rank, rank', x);
    }
    assert Ranked(h, rank') by { RankedIntro(h, rank'); }
  }

  lemma RankedIntro(g: Graph, rank: map<Node, nat>)
    requires rank.Keys == g.Keys && forall x | x in g :: RankedAt(g, rank, x)
    ensures Ranked(g, rank)
  {
  }

  // Nodes that cannot reach the grown container denote what they did, and the new
  // ones are leaves or empty.
  lemma GrownDenote(g: Graph, h: Graph, n: Node)
    requires WellFormed(g) && Grown(g, h, n)
    ensures WellFormed(h)
    ensures forall x | x in g && Avoids(g, x, {n}) :: Denote(h, x) == Denote(g, x)
    ensures forall c | c in g[n].content :: c in g && Denote(h, c) == Denote(g, c)
    ensures forall x | x in h && x !in g :: Denote(h, x) == Tree(h[x].kind, h[x].tag, h[x].value, [])
  {
    hide Ranked, Denote, Avoids;
    GrownWellFormed(g, h, n);
    forall x | x in g && Avoids(g, x, {n}) ensures Denote(h, x) == Denote(g, x) {
      UnreachedDenote(g, h, x, {n});
    }
    RankedHere(g, SomeRank(g), n);
    forall c | c in g[n].content ensures c in g && Denote(h, c) == Denote(g, c) {
      LowerRankAvoids(g, SomeRank(g), c, {n});
    }
    forall x | x in h && x !in g ensures Denote(h, x) == Tree(h[x].kind, h[x].tag, h[x].value, []) {
      DenoteStep(h, x);
    }
  }

  // ----- alias-free trees -----

  // Without aliases, and with every node in at most one place.
  ghost predicate Shape(g: Graph) {
    && (forall n {:trigger g[n]} | n in g :: g[n].kind != AliasNode && g[n].alias == null)
    && (forall x, y, i, j {:trigger g[x].content[i], g[y].content[j]} |
          && x in g && y in g && 0 <= i < |g[x].content| && 0 <= j < |g[y].content|
          && g[x].content[i] == g[y].content[j] ::
          x == y && i == j)
  }

  lemma GrownShape(g: Graph, h: Graph, n: Node)
    requires WellFormed(g) && Grown(g, h, n) && Shape(g)
    ensures Shape(h)
  {
    hide Ranked, WellFormed;
    forall x, y, i, j |
      && x in h && y in h && 0 <= i < |h[x].content| && 0 <= j < |h[y].content|
      && h[x].content[i] == h[y].content[j]
      ensures x == y && i == j
    {
      var c := h[x].content[i];
      GrownChild(g, h, n, x, i);
      GrownChild(g, h, n, y, j);
      if c in g {
        assert g[x].content[i] == c && g[y].content[j] == c;
      }
    }
  }

  // A child in the grown graph is an old child where it was, or new and below n.
  lemma GrownChild(g: Graph, h: Graph, n: Node, x: Node, i: nat)
    requires WellFormed(g) && Grown(g, h, n) && x in h && i < |h[x].content|
    ensures var c := h[x].content[i];
      if c in g then x in g && i < |g[x].content| && g[x].content[i] == c else x == n
  {
    hide Ranked;
    if x in g {
      RankedHere(g, SomeRank(g), x);
    }
  }

  // ----- nodes made by an upsert -----

  predicate Childless(f: Fields) {
    f.kind != AliasNode && f.alias == null && f.content == []
  }

  // f is a scalar that looks like the one it replaces: style, anchor and comments are the
  // same.  Without one it has neither anchor nor comments.
  predicate Takes(f: Fields, was: Option<Fields>) {
    f.kind == ScalarNode &&
    match was
    case Some(o) =>
      && f.style == o.style && f.anchor == o.anchor
      && f.headComment == o.headComment && f.lineComment == o.lineComment && f.footComment == o.footComment
    case None => f.anchor == "" && f.headComment == "" && f.lineComment == "" && f.footComment == ""
  }

  // A written scalar keeps the style, anchor and comments of the scalar it
  // replaces.
  function LeafFields(leaf: Leaf, preserve: Option<Fields>): (f: Fields)
    ensures f.kind == ScalarNode && f.tag == leaf.tag && f.value == leaf.value
    ensures Takes(f, if preserve.Some? && preserve.value.kind == ScalarNode then preserve else None)
    ensures !(preserve.Some? && preserve.value.kind == ScalarNode) ==> f.style == leaf.style
  {
    var plain := Fields(ScalarNode, leaf.style, leaf.tag, leaf.value, "", null, [], "", "", "", 0, 0);
    match preserve
    case Some(p) =>
      if p.kind == ScalarNode then
        plain.(style := p.style, anchor := p.anchor,
               headComment := p.headComment, lineComment := p.lineComment, footComment := p.footComment)
      else plain
    case None => plain
  }

  // leafNodeFromValue
  method LeafNodeFromValue(leaf: Leaf, preserve: Node?) returns (node: Node)
    ensures fresh(node)
    ensures node.Snap() == LeafFields(leaf, if preserve == null then None else Some(preserve.Snap()))
    ensures node.value == leaf.value && node.tag == leaf.tag
    ensures preserve != null && preserve.kind == ScalarNode ==>
      && node.style == preserve.style && node.anchor == preserve.anchor
      && node.headComment == preserve.headComment && node.lineComment == preserve.lineComment
      && node.footComment == preserve.footComment
  {
    node := new Node(ScalarNode, leaf.tag, leaf.value);
    node.style := leaf.style;
    if preserve != null && preserve.kind == ScalarNode {
      node.style := preserve.style;
      node.anchor := preserve.anchor;
      node.headComment := preserve.headComment;
      node.lineComment := preserve.lineComment;
      node.footComment := preserve.footComment;
    }
  }

  // containerForNextSegment
  method ContainerForNextSegment(next: Segment) returns (node: Node)
    ensures fresh(node) && Childless(node.Snap())
    ensures Tree(node.kind, node.tag, node.value, []) == EmptyFor(next)
    ensures next.Index? ==> node.kind == SequenceNode && node.tag == "!!seq"
    ensures next.Name? ==> node.kind == MappingNode && node.tag == "!!map"
  {
    if next.Index? {
      node := new Node(SequenceNode, TAG_SEQ, "");
    } else {
      node := new Node(MappingNode, TAG_MAP, "");
    }
  }

  // The children a write may give n: its own, and childless new nodes.
  ghost predicate Extension(g: Graph, n: Node, content: seq<Node>, added: set<Node>)
    reads added
  {
    && n in g && g[n].kind != AliasNode && added !! g.Keys
    && (forall x {:trigger x.Snap()} | x in added :: Childless(x.Snap()))
    && (forall i | 0 <= i < |content| :: content[i] in added || (i < |g[n].content| && g[n].content[i] == content[i]))
    && (forall i, j | 0 <= i < j < |content| && content[i] in added :: content[i] != content[j])
    && (g[n].kind == MappingNode ==> |content| % 2 == 0)
    && (forall i | KeyPosition(g[n].(content := content), i) ::
          content[i] in added || (KeyPosition(g[n], i) && g[n].content[i] == content[i]))
  }

  method SetContent(n: Node, content: seq<Node>, ghost nodes: set<Node>, ghost added: set<Node>)
    requires n in nodes && WellFormed(Snapshot(nodes))
    requires Extension(Snapshot(nodes), n, content, added)
    modifies n`content
    ensures n.content == content
    ensures Grown(old(Snapshot(nodes)), Snapshot(nodes + added), n)
  {
    hide Ranked;
    ghost var g := Snapshot(nodes);
    RankedHere(g, SomeRank(g), n);
    n.content := content;
    ghost var h := Snapshot(nodes + added);
    forall x | x in g && x != n ensures h[x] == g[x] {
      assert x.Snap() == g[x];
    }
    forall x | x in added ensures Childless(h[x]) {
      assert Childless(x.Snap());
    }
    assert h[n] == g[n].(content := content);
  }

  function TreeOf(f: Fields): Tree {
    Tree(f.kind, f.tag, f.value, [])
  }

  // The grown container's children, old ones as before and new ones bare.
  lemma GrownKids(g: Graph, h: Graph, n: Node)
    requires WellFormed(g) && Grown(g, h, n)
    ensures WellFormed(h)
    ensures var t, u, c := Denote(g, n), Denote(h, n), h[n].content;
      && u.kind == t.kind && u.tag == t.tag && u.value == t.value && |u.kids| == |c|
      && (forall i | 0 <= i < |c| :: c[i] in h && u.kids[i] == if c[i] in g then Denote(g, c[i]) else TreeOf(h[c[i]]))
  {
    hide Ranked, Denote;
    GrownDenote(g, h, n);
    DenoteStep(g, n);
    DenoteStep(h, n);
    forall i | 0 <= i < |h[n].content|
      ensures h[n].content[i] in h
      ensures h[n].content[i] in g ==> Denote(h, h[n].content[i]) == Denote(g, h[n].content[i])
    {
    }
  }

  // A new node in an existing slot.
  method ReplaceAt(n: Node, slot: nat, c: Node, ghost nodes: set<Node>)
    requires n in nodes && WellFormed(Snapshot(nodes)) && n.kind != AliasNode
    requires c !in nodes && Childless(c.Snap())
    requires slot < |n.content| && !KeyPosition(n.Snap(), slot)
    modifies n`content
    ensures Grown(old(Snapshot(nodes)), Snapshot(nodes + {c}), n)
    ensures n.content == old(n.content)[slot := c]
    ensures WellFormed(Snapshot(nodes + {c}))
    ensures var t := old(Denote(Snapshot(nodes), n));
      && slot < |t.kids| && Denote(Snapshot(nodes + {c}), n) == t.(kids := t.kids[slot := TreeOf(c.Snap())])
  {
    hide Ranked, Denote;
    ghost var g := Snapshot(nodes);
    DenoteStep(g, n);
    assert n.Snap() == g[n];
    RankedHere(g, SomeRank(g), n);
    SetContent(n, n.content[slot := c], nodes, {c});
    ghost var h := Snapshot(nodes + {c});
    assert c.Snap() == h[c];
    GrownKids(g, h, n);
    assert Denote(h, n).kids == Denote(g, n).kids[slot := TreeOf(c.Snap())];
  }

  // A new item at the end of a sequence.
  method AppendItem(n: Node, c: Node, ghost nodes: set<Node>)
    requires n in nodes && WellFormed(Snapshot(nodes)) && n.kind == SequenceNode
    requires c !in nodes && Childless(c.Snap())
    modifies n`content
    ensures Grown(old(Snapshot(nodes)), Snapshot(nodes + {c}), n)
    ensures n.content == old(n.content) + [c]
    ensures WellFormed(Snapshot(nodes + {c}))
    ensures var t := old(Denote(Snapshot(nodes), n));
      Denote(Snapshot(nodes + {c}), n) == t.(kids := t.kids + [TreeOf(c.Snap())])
  {
    hide Ranked, Denote;
    ghost var g := Snapshot(nodes);
    DenoteStep(g, n);
    assert n.Snap() == g[n];
    SetContent(n, n.content + [c], nodes, {c});
    ghost var h := Snapshot(nodes + {c});
    assert c.Snap() == h[c];
    GrownKids(g, h, n);
    assert Denote(h, n).kids == Denote(g, n).kids + [TreeOf(c.Snap())];
  }

  // A new entry at the end of a mapping.
  method AppendPair(n: Node, key: Node, v: Node, ghost nodes: set<Node>)
    requires n in nodes && WellFormed(Snapshot(nodes)) && n.kind == MappingNode
    requires key !in nodes && v !in nodes && key != v && Childless(key.Snap()) && Childless(v.Snap())
    modifies n`content
    ensures PairAppended(old(Snapshot(nodes)), Snapshot(nodes + {key, v}), n, key, v)
    ensures Snapshot(nodes + {key, v})[key] == old(key.Snap()) && Snapshot(nodes + {key, v})[v] == old(v.Snap())
  {
    hide Ranked, Denote, Grown, PairAppended;
    ghost var g := Snapshot(nodes);
    assert n.Snap() == g[n];
    PairExtends(g, n, key, v);
    SetContent(n, n.content + [key, v], nodes, {key, v});
    ghost var h := Snapshot(nodes + {key, v});
    assert key.Snap() == h[key] && v.Snap() == h[v] && n.Snap() == h[n];
    PairIsAppended(g, h, n, key, v);
  }

  lemma PairExtends(g: Graph, n: Node, key: Node, v: Node)
    requires WellFormed(g) && n in g && g[n].kind == MappingNode && key !in g && v !in g && key != v
    requires Childless(key.Snap()) && Childless(v.Snap())
    ensures Extension(g, n, g[n].content + [key, v], {key, v})
  {
    hide Ranked;
    RankedHere(g, SomeRank(g), n);
  }

  // h is g with the entry appended to n.
  ghost predicate PairAppended(g: Graph, h: Graph, n: Node, key: Node, v: Node) {
    && WellFormed(g) && WellFormed(h) && Grown(g, h, n) && key in h && v in h && key !in g && v !in g
    && h[n].content == g[n].content + [key, v]
    && Denote(h, n) == Denote(g, n).(kids := Denote(g, n).kids + [TreeOf(h[key]), TreeOf(h[v])])
  }

  lemma PairIsAppended(g: Graph, h: Graph, n: Node, key: Node, v: Node)
    requires WellFormed(g) && Grown(g, h, n) && key in h && v in h && key !in g && v !in g
    requires h[n].content == g[n].content + [key, v]
    ensures PairAppended(g, h, n, key, v)
  {
    hide Ranked, Denote;
    DenoteStep(g, n);
    RankedHere(g, SomeRank(g), n);
    GrownKids(g, h, n);
    assert Denote(h, n).kids == Denote(g, n).kids + [TreeOf(h[key]), TreeOf(h[v])];
  }

  // ----- what an edit leaves alone -----

  // Outside `changed` nothing changes; no node but an alias changes more than its
  // content; no old node gains an old child; and an alias-free tree stays one.
  ghost predicate Edit(g: Graph, h: Graph, changed: set<Node>) {
    && WellFormed(g) && WellFormed(h) && g.Keys <= h.Keys && NewClosed(g, h)
    && (Shape(g) ==> Shape(h))
    && forall x {:trigger EditedAt(g, h, changed, x)} {:trigger h[x]} | x in g :: EditedAt(g, h, changed, x)
  }

  ghost predicate EditedAt(g: Graph, h: Graph, changed: set<Node>, x: Node)
    requires x in g && x in h
  {
    && (x !in changed ==> h[x] == g[x])
    && (g[x].kind != AliasNode ==> h[x] == g[x].(content := h[x].content))
    && (h[x].alias == g[x].alias || h[x].alias == null)
    && (forall c | c in h[x].content :: c in h && (c in g ==> c in g[x].content))
  }

  lemma EditNothing(g: Graph, changed: set<Node>)
    requires WellFormed(g)
    ensures Edit(g, g, changed)
  {
    hide Ranked;
    forall x | x in g ensures EditedAt(g, g, changed, x) {
      RankedHere(g, SomeRank(g), x);
    }
  }

  lemma GrownEdit(g: Graph, h: Graph, n: Node)
    requires WellFormed(g) && Grown(g, h, n)
    ensures Edit(g, h, {n})
  {
    hide Ranked;
    GrownWellFormed(g, h, n);
    if Shape(g) {
      GrownShape(g, h, n);
    }
    forall x | x in g ensures EditedAt(g, h, {n}, x) {
      RankedHere(g, SomeRank(g), x);
    }
  }

  lemma ExpandEdit(g: Graph, h: Graph, a: Node)
    requires Expands(g, h) && NewClosed(g, h) && a in g && g[a].kind == AliasNode && g.Keys <= h.Keys
    requires forall x | x in g && x != a :: h[x] == g[x]
    requires h[a].alias == null && forall c | c in h[a].content :: c in h && c !in g
    ensures Edit(g, h, {a})
  {
    hide Ranked, Denote;
    forall x | x in g ensures EditedAt(g, h, {a}, x) {
      RankedHere(g, SomeRank(g), x);
    }
  }

  lemma EditTransitive(g: Graph, h: Graph, k: Graph, changed: set<Node>, more: set<Node>)
    requires Edit(g, h, changed) && Edit(h, k, more) && more * g.Keys <= changed
    ensures Edit(g, k, changed)
  {
    forall x | x in g ensures EditedAt(g, k, changed, x) {
      assert EditedAt(g, h, changed, x) && EditedAt(h, k, more, x);
    }
    forall x | x in k && x !in g
      ensures forall c | c in k[x].content :: c in k && c !in g
      ensures k[x].alias != null ==> k[x].alias in k && k[x].alias !in g
    {
      if x in h {
        assert EditedAt(h, k, more, x);
      }
    }
  }

  // ----- one step down -----

  // The old nodes a step at n may write to: the alias it breaks, and n itself when
  // the child there is no container.
  ghost function StepTouched(g: Graph, n: Node, seg: Segment): set<Node>
    requires WellFormed(g) && n in g
  {
    var slot := SlotIn(g, n, seg);
    if !(0 <= slot < |g[n].content|) || g[n].content[slot] !in g then {n}
    else
      SlotTouched(g, n, g[n].content[slot])
  }

  ghost function SlotTouched(g: Graph, n: Node, c: Node): set<Node>
    requires WellFormed(g) && c in g
  {
    (if g[c].kind == AliasNode then {c} else {}) + (if IsContainer(Denote(g, c)) then {} else {n})
  }

  // The state after stepping down from current to child.
  ghost predicate Stepped(g: Graph, h: Graph, current: Node, seg: Segment, next: Segment, child: Node)
    requires WellFormed(g) && current in g
  {
    && Edit(g, h, StepTouched(g, current, seg))
    && Fits(Denote(g, current), seg)
    && child in h && h[child].kind != AliasNode && child in h[current].content
    && Denote(h, child) == ChildFor(Denote(g, current), seg, next)
    && Denote(h, current) == Put(Denote(g, current), seg, Denote(h, child))
    && (seg != Name(MERGE_KEY) ==> At(h, current, seg, child))
    && Entered(g, h, StepTouched(g, current, seg), child)
    && ScalarsBelow(g, h, current, seg, child)
  }

  // The scalars at paths through the child are those at paths through the segment.
  ghost predicate ScalarsBelow(g: Graph, h: Graph, n: Node, seg: Segment, child: Node) {
    && WellFormed(g) && WellFormed(h) && n in g && child in h
    && forall rest {:trigger OldScalar(h, child, rest)} | rest != [] ::
         OldScalar(h, child, rest) == OldScalar(g, n, [seg] + rest)
  }

  // Nothing is found below a node without children.
  lemma NothingBelow(g: Graph, n: Node, segs: seq<Segment>)
    requires WellFormed(g) && n in g && segs != [] && g[n].kind != AliasNode
    requires g[n].content == [] || !IsContainer(Denote(g, n))
    ensures OldScalar(g, n, segs) == None
  {
    hide Denote, Ranked;
    DenoteStep(g, n);
    OldScalarStep(g, n, segs);
  }

  // The child in a slot, as it is or broken.
  lemma BelowSlot(g: Graph, h: Graph, n: Node, seg: Segment, child: Node)
    requires WellFormed(g) && n in g && g[n].kind != AliasNode
    requires var slot := SlotIn(g, n, seg);
      0 <= slot < |g[n].content| && g[n].content[slot] in g && SameScalars(g, h, g[n].content[slot], child)
    ensures ScalarsBelow(g, h, n, seg, child)
  {
    hide Denote, Ranked, SlotIn, OldScalar;
    forall rest: seq<Segment> | rest != [] ensures OldScalar(h, child, rest) == OldScalar(g, n, [seg] + rest) {
      OldScalarStep(g, n, [seg] + rest);
      assert ([seg] + rest)[1..] == rest;
    }
  }

  // An empty container where nothing was.
  lemma BelowNothing(g: Graph, h: Graph, n: Node, seg: Segment, child: Node)
    requires WellFormed(g) && n in g && g[n].kind != AliasNode && SlotIn(g, n, seg) < 0
    requires WellFormed(h) && child in h && h[child].kind != AliasNode && h[child].content == []
    ensures ScalarsBelow(g, h, n, seg, child)
  {
    hide Denote, Ranked, SlotIn, OldScalar;
    forall rest: seq<Segment> | rest != [] ensures OldScalar(h, child, rest) == OldScalar(g, n, [seg] + rest) {
      OldScalarStep(g, n, [seg] + rest);
      NothingBelow(h, child, rest);
    }
  }

  // A step that touches nothing goes on in the old graph; any other goes on in a
  // node it made or broke, below which everything is new.  An alias it touches is broken,
  // and a container it touches is given a new child.
  ghost predicate Entered(g: Graph, h: Graph, touched: set<Node>, child: Node)
    requires child in h
  {
    if touched == {} then h == g
    else
      && (child in g ==> child in touched && g[child].kind == AliasNode)
      && (forall c | c in h[child].content :: c !in g)
      && (forall x {:trigger x in touched} | x in touched && x in g ::
            if g[x].kind == AliasNode then x in h && h[x].kind != AliasNode else child !in g)
  }

  // Breaking an alias as an edit.
  method BreakChild(a: Node, ghost nodes: set<Node>) returns (ghost all: set<Node>)
    requires a in nodes && WellFormed(Snapshot(nodes))
    modifies if a.kind == AliasNode then {a} else {}
    ensures nodes <= all && fresh(all - nodes) && a.kind != AliasNode
    ensures Edit(old(Snapshot(nodes)), Snapshot(all), if old(a.kind) == AliasNode then {a} else {})
    ensures Expands(old(Snapshot(nodes)), Snapshot(all))
    ensures old(a.kind) != AliasNode ==> all == nodes
    ensures old(a.kind) == AliasNode ==> forall c | c in a.content :: c in all && c !in nodes
    ensures SameScalars(old(Snapshot(nodes)), Snapshot(all), a, a)
  {
    hide Ranked, Denote, Expands, NewClosed, SameScalars;
    ghost var g := Snapshot(nodes);
    ghost var wasAlias := a.kind == AliasNode;
    all := ExpandAlias(a, nodes);
    ghost var h := Snapshot(all);
    if wasAlias {
      forall x | x in g && x != a ensures h[x] == g[x] {
        assert x.Snap() == g[x];
      }
      assert a.Snap() == h[a];
      ExpandEdit(g, h, a);
    } else {
      EditNothing(g, {});
    }
  }

  // A padding null, with nothing else to it.
  predicate IsNull(f: Fields) {
    f == Fields(ScalarNode, 0, "!!null", "null", "", null, [], "", "", "", 0, 0)
  }

  // One round of the padding loop.
  method AppendNull(current: Node, ghost nodes: set<Node>) returns (pad: Node)
    requires current in nodes && WellFormed(Snapshot(nodes)) && current.kind == SequenceNode
    modifies current`content
    ensures fresh(pad) && IsNull(pad.Snap()) && current.content == old(current.content) + [pad]
    ensures Edit(old(Snapshot(nodes)), Snapshot(nodes + {pad}), {current})
    ensures var t := old(Denote(Snapshot(nodes), current));
      Denote(Snapshot(nodes + {pad}), current) == t.(kids := t.kids + [NullTree()])
  {
    hide Ranked, Denote, Grown, Edit;
    ghost var before := Snapshot(nodes);
    pad := new Node(ScalarNode, TAG_NULL, TYPE_NULL);
    AppendItem(current, pad, nodes);
    GrownEdit(before, Snapshot(nodes + {pad}), current);
  }

  // The padding loop of descendSequence and setLeaf.
  method PadTo(current: Node, index: nat, ghost nodes: set<Node>) returns (ghost all: set<Node>)
    requires current in nodes && WellFormed(Snapshot(nodes)) && current.kind == SequenceNode
    modifies current`content
    ensures nodes <= all && fresh(all - nodes)
    ensures Padded(old(Snapshot(nodes)), Snapshot(all), current, index)
  {
    hide Ranked, Denote, Edit, Padding, Padded;
    ghost var g, was := Snapshot(nodes), |current.content|;
    assert current.Snap() == g[current];
    all := nodes;
    PaddingStarts(g, current, index);
    while |current.content| <= index
      invariant nodes <= all && fresh(all - nodes) && current.kind == SequenceNode
      invariant Padding(g, Snapshot(all), current, index)
      decreases index - |current.content|
    {
      ghost var h := Snapshot(all);
      PaddingFacts(g, h, current, index);
      assert current.Snap() == h[current];
      var pad := AppendNull(current, all);
      all := all + {pad};
      assert current.Snap() == Snapshot(all)[current] && pad.Snap() == Snapshot(all)[pad];
      PaddingGoesOn(g, h, Snapshot(all), current, index, pad);
    }
    assert current.Snap() == Snapshot(all)[current];
    PaddingEnds(g, Snapshot(all), current, index);
  }

  // h is g with some nulls appended to n, on the way to item index.
  ghost predicate Padding(g: Graph, h: Graph, n: Node, index: nat) {
    && n in g && n in h && g[n].kind == SequenceNode && h[n].kind == SequenceNode
    && Edit(g, h, if index < |g[n].content| then {} else {n})
    && g[n].content <= h[n].content
    && (index < |g[n].content| ==> h == g)
    && (|h[n].content| <= index + 1 || h[n].content == g[n].content)
    && (forall j {:trigger h[n].content[j]} | |g[n].content| <= j < |h[n].content| ::
          h[n].content[j] in h && h[n].content[j] !in g && IsNull(h[h[n].content[j]]))
    && Denote(h, n) == Denote(g, n).(kids := Denote(g, n).kids + Nulls(|h[n].content| - |g[n].content|))
  }

  lemma PaddingFacts(g: Graph, h: Graph, n: Node, index: nat)
    requires Padding(g, h, n, index)
    ensures WellFormed(h) && n in h && h[n].kind == SequenceNode
  {
  }

  lemma PaddingStarts(g: Graph, n: Node, index: nat)
    requires WellFormed(g) && n in g && g[n].kind == SequenceNode
    ensures Padding(g, g, n, index)
  {
    hide Ranked, Denote, Edit;
    EditNothing(g, if index < |g[n].content| then {} else {n});
    assert Denote(g, n).kids + Nulls(0) == Denote(g, n).kids;
  }

  lemma PaddingGoesOn(g: Graph, h: Graph, k: Graph, n: Node, index: nat, pad: Node)
    requires Padding(g, h, n, index) && |h[n].content| <= index
    requires Edit(h, k, {n}) && n in k && k[n].kind == SequenceNode && k[n].content == h[n].content + [pad]
    requires pad in k && pad !in h && IsNull(k[pad])
    requires Denote(k, n) == Denote(h, n).(kids := Denote(h, n).kids + [NullTree()])
    ensures Padding(g, k, n, index)
  {
    hide Ranked, Denote, Edit;
    EditFacts(g, h, {n});
    var size, kids := |h[n].content| - |g[n].content|, Denote(g, n).kids;
    EditTransitive(g, h, k, {n}, {n});
    NullsSnoc(size);
    forall j | |g[n].content| <= j < |k[n].content|
      ensures k[n].content[j] in k && k[n].content[j] !in g && IsNull(k[k[n].content[j]])
    {
      if j < |h[n].content| {
        NoSelfSlot(h, n, j);
        UnchangedOutside(h, k, {n}, h[n].content[j]);
      }
    }
    assert kids + Nulls(size) + [NullTree()] == kids + (Nulls(size) + [NullTree()]);
  }

  lemma PaddingEnds(g: Graph, h: Graph, n: Node, index: nat)
    requires Padding(g, h, n, index) && index < |h[n].content|
    ensures Padded(g, h, n, index)
  {
    hide Ranked, Denote, Edit;
    EditFacts(g, h, if index < |g[n].content| then {} else {n});
    DenoteStep(g, n);
    DenoteStep(h, n);
    var kids := Denote(g, n).kids;
    if index < |kids| {
      assert kids + Nulls(0) == Pad(kids, index);
    } else {
      assert kids + Nulls(index + 1 - |kids|) == Pad(kids, index);
    }
  }

  lemma EditFacts(g: Graph, h: Graph, changed: set<Node>)
    requires Edit(g, h, changed)
    ensures WellFormed(g) && WellFormed(h) && g.Keys <= h.Keys
    ensures forall n, i | n in g && 0 <= i < |g[n].content| :: g[n].content[i] in g
  {
    WellFormedClosed(g);
  }

  method PutContainer(current: Node, slot: nat, next: Segment, ghost nodes: set<Node>) returns (child: Node)
    requires current in nodes && WellFormed(Snapshot(nodes)) && current.kind != AliasNode
    requires slot < |current.content| && !KeyPosition(current.Snap(), slot)
    modifies current`content
    ensures fresh(child) && child.kind != AliasNode && child.content == []
    ensures current.content == old(current.content)[slot := child]
    ensures Edit(old(Snapshot(nodes)), Snapshot(nodes + {child}), {current})
    ensures Denote(Snapshot(nodes + {child}), child) == EmptyFor(next)
    ensures var t := old(Denote(Snapshot(nodes), current));
      && slot < |t.kids|
      && Denote(Snapshot(nodes + {child}), current) == t.(kids := t.kids[slot := EmptyFor(next)])
  {
    hide Ranked, Denote, Edit, Grown;
    ghost var h := Snapshot(nodes);
    child := ContainerForNextSegment(next);
    ReplaceAt(current, slot, child, nodes);
    ghost var k := Snapshot(nodes + {child});
    GrownEdit(h, k, current);
    GrownDenote(h, k, current);
    assert child.Snap() == k[child];
  }

  // The state after entering the child in a slot of n.
  ghost predicate SlotEntered(g: Graph, h: Graph, n: Node, slot: nat, next: Segment, child: Node)
    requires WellFormed(g) && n in g && slot < |g[n].content| && g[n].content[slot] in g
  {
    var c := g[n].content[slot];
    && Edit(g, h, SlotTouched(g, n, c))
    && child in h && h[child].kind != AliasNode
    && h[n].content == g[n].content[slot := child]
    && Denote(h, child) == (if IsContainer(Denote(g, c)) then Denote(g, c) else EmptyFor(next))
    && Entered(g, h, SlotTouched(g, n, c), child)
    && SameScalars(g, h, c, child)
    && slot < |Denote(g, n).kids|
    && Denote(h, n) == Denote(g, n).(kids := Denote(g, n).kids[slot := Denote(h, child)])
  }

  // The tail descendSequence and descendMapping share: enter the child in a slot,
  // breaking an alias there and replacing what is no container.
  method EnterSlot(current: Node, slot: nat, next: Segment, ghost nodes: set<Node>)
    returns (child: Node, ghost all: set<Node>)
    requires current in nodes && WellFormed(Snapshot(nodes)) && current.kind != AliasNode
    requires slot < |current.content| && current.content[slot] in nodes && !KeyPosition(current.Snap(), slot)
    modifies current`content, if current.content[slot].kind == AliasNode then {current.content[slot]} else {}
    ensures nodes <= all && fresh(all - nodes)
    ensures SlotEntered(old(Snapshot(nodes)), Snapshot(all), current, slot, next, child)
  {
    hide Ranked, Denote, Edit, Expands, Grown, EmptyFor, IsContainer, NewClosed, SlotEntered;
    ghost var g, c := Snapshot(nodes), current.content[slot];
    assert current.Snap() == g[current];
    NoSelfSlot(g, current, slot);
    child := current.content[slot];
    ghost var broken := if c.kind == AliasNode then {c} else {};
    all := BreakChild(child, nodes);
    ghost var h, broke := Snapshot(all), all;
    EditFacts(g, h, broken);
    assert child.Snap() == h[child] && current.Snap() == h[current];
    if child.kind != MappingNode && child.kind != SequenceNode {
      child := PutContainer(current, slot, next, all);
      all := broke + {child};
      ghost var k := Snapshot(all);
      assert child.Snap() == k[child] && current.Snap() == k[current];
      EnteredByPut(g, h, k, current, slot, next, child);
    } else {
      EnteredAsIs(g, h, current, slot, next);
    }
  }

  lemma EnteredAsIs(g: Graph, h: Graph, n: Node, slot: nat, next: Segment)
    requires WellFormed(g) && n in g && g[n].kind != AliasNode && slot < |g[n].content| && g[n].content[slot] in g &&
      n in h && h[n] == g[n]
    requires var c := g[n].content[slot];
      && Edit(g, h, if g[c].kind == AliasNode then {c} else {}) && Expands(g, h)
      && c in h && (h[c].kind == MappingNode || h[c].kind == SequenceNode)
      && (g[c].kind != AliasNode ==> h == g)
      && (g[c].kind == AliasNode ==> forall d | d in h[c].content :: d !in g)
      && SameScalars(g, h, c, c)
    ensures SlotEntered(g, h, n, slot, next, g[n].content[slot])
  {
    hide Ranked, Denote, Edit, Expands, EmptyFor;
    var c := g[n].content[slot];
    var broken: set<Node> := if g[c].kind == AliasNode then {c} else {};
    ExpandsFacts(g, h);
    DenoteStep(g, n);
    ContainerKind(h, c);
    assert SlotTouched(g, n, c) == broken;
    assert g[n].content == g[n].content[slot := c];
    assert Denote(g, n).kids == Denote(g, n).kids[slot := Denote(g, c)];
  }

  lemma EnteredByPut(g: Graph, h: Graph, k: Graph, n: Node, slot: nat, next: Segment, child: Node)
    requires WellFormed(g) && n in g && g[n].kind != AliasNode && slot < |g[n].content| && g[n].content[slot] in g &&
      n in h && h[n] == g[n]
    requires var c := g[n].content[slot];
      && Edit(g, h, if g[c].kind == AliasNode then {c} else {}) && Expands(g, h)
      && c in h && h[c].kind != AliasNode && h[c].kind != MappingNode && h[c].kind != SequenceNode
    requires Edit(h, k, {n}) && child in k && child !in h && k[child].kind != AliasNode && k[child].content == []
    requires k[n].content == h[n].content[slot := child] && Denote(k, child) == EmptyFor(next)
    requires slot < |Denote(h, n).kids| &&
      Denote(k, n) == Denote(h, n).(kids := Denote(h, n).kids[slot := EmptyFor(next)])
    ensures SlotEntered(g, k, n, slot, next, child)
  {
    hide Ranked, Denote, Edit, Expands, EmptyFor, OldScalar;
    var c := g[n].content[slot];
    var broken: set<Node> := if g[c].kind == AliasNode then {c} else {};
    ExpandsFacts(g, h);
    EditFacts(g, h, broken);
    EditFacts(h, k, {n});
    ContainerKind(h, c);
    EditWiden(g, h, broken, broken + {n});
    EditTransitive(g, h, k, broken + {n}, {n});
    NoneInstead(g, k, c, child);
    assert SlotTouched(g, n, c) == broken + {n};
    NoSelfSlot(g, n, slot);
    UnchangedOutside(h, k, {n}, c);
  }

  // An empty container in place of something else.
  lemma NoneInstead(g: Graph, k: Graph, c: Node, child: Node)
    requires WellFormed(g) && c in g && !IsContainer(Denote(g, c))
    requires WellFormed(k) && child in k && k[child].kind != AliasNode && k[child].content == []
    ensures SameScalars(g, k, c, child)
  {
    hide Ranked, Denote, OldScalar;
    forall segs: seq<Segment> | segs != [] ensures OldScalar(k, child, segs) == OldScalar(g, c, segs) {
      NothingBelow(k, child, segs);
      TargetBare(g, c, segs);
    }
  }

  lemma TargetBare(g: Graph, c: Node, segs: seq<Segment>)
    requires WellFormed(g) && c in g && !IsContainer(Denote(g, c)) && segs != []
    ensures OldScalar(g, c, segs) == None
  {
    hide Ranked, Denote;
    DenoteStep(g, c);
    OldScalarStep(g, c, segs);
  }

  lemma UnchangedOutside(g: Graph, h: Graph, changed: set<Node>, x: Node)
    requires Edit(g, h, changed) && x in g && x !in changed
    ensures x in h && h[x] == g[x]
  {
    assert EditedAt(g, h, changed, x);
  }

  lemma ContainerKind(h: Graph, n: Node)
    requires WellFormed(h) && n in h && h[n].kind != AliasNode
    ensures IsContainer(Denote(h, n)) <==> h[n].kind == MappingNode || h[n].kind == SequenceNode
  {
    DenoteStep(h, n);
  }

  lemma NoSelfSlot(g: Graph, n: Node, slot: nat)
    requires WellFormed(g) && n in g && slot < |g[n].content|
    ensures g[n].content[slot] in g && g[n].content[slot] != n
  {
    RankedHere(g, SomeRank(g), n);
  }

  lemma EditWiden(g: Graph, h: Graph, changed: set<Node>, more: set<Node>)
    requires Edit(g, h, changed) && changed <= more
    ensures Edit(g, h, more)
  {
    forall x | x in g ensures EditedAt(g, h, more, x) {
      assert EditedAt(g, h, changed, x);
    }
  }

  // descendSequence; null stands for the error return.
  method DescendSequence(current: Node, seg: Segment, next: Segment, ghost nodes: set<Node>)
    returns (child: Node?, ghost all: set<Node>)
    requires current in nodes && WellFormed(Snapshot(nodes)) && current.kind != AliasNode && seg.Index?
    modifies nodes
    ensures nodes <= all && fresh(all - nodes)
    ensures child == null ==>
      all == nodes && Snapshot(nodes) == old(Snapshot(nodes)) && !Fits(old(Denote(Snapshot(nodes), current)), seg)
    ensures child != null ==> Stepped(old(Snapshot(nodes)), Snapshot(all), current, seg, next, child)
  {
    hide Ranked, Denote, Edit, SlotFor;
    ghost var g := Snapshot(nodes);
    DenoteStep(g, current);
    assert current.Snap() == g[current];
    if current.kind != SequenceNode {
      return null, nodes;
    }
    child, all := EnterItem(current, seg, next, nodes);
  }

  method EnterItem(current: Node, seg: Segment, next: Segment, ghost nodes: set<Node>)
    returns (child: Node, ghost all: set<Node>)
    requires current in nodes && WellFormed(Snapshot(nodes)) && current.kind == SequenceNode && seg.Index?
    modifies nodes
    ensures nodes <= all && fresh(all - nodes)
    ensures Stepped(old(Snapshot(nodes)), Snapshot(all), current, seg, next, child)
  {
    hide Ranked, Denote, Edit, SlotFor, LocalStep, SlotEntered, Stepped, Padded;
    ghost var g := Snapshot(nodes);
    all := PadTo(current, seg.index, nodes);
    ghost var h := Snapshot(all);
    PaddedFacts(g, h, current, seg.index);
    assert current.Snap() == h[current];
    child, all := EnterSlot(current, seg.index, next, all);
    SteppedSequence(g, h, Snapshot(all), current, seg.index, next, child);
  }

  // h is g with the sequence n long enough for item i.
  ghost predicate Padded(g: Graph, h: Graph, n: Node, i: nat) {
    var changed := if n in g && i < |g[n].content| then {} else {n};
    && Edit(g, h, changed) && n in g && n in h && g[n].kind == SequenceNode && h[n].kind == SequenceNode
    && i < |h[n].content| && h[n].content[i] in h && g[n].content <= h[n].content
    && (forall j {:trigger h[n].content[j]} | |g[n].content| <= j < |h[n].content| ::
          h[n].content[j] in h && h[n].content[j] !in g && IsNull(h[h[n].content[j]]))
    && (i < |g[n].content| ==> h == g)
    && Denote(h, n) == Denote(g, n).(kids := Pad(Denote(g, n).kids, i))
  }

  lemma PaddedFacts(g: Graph, h: Graph, n: Node, i: nat)
    requires Padded(g, h, n, i)
    ensures WellFormed(g) && WellFormed(h) && n in g && n in h && h[n].kind == SequenceNode
    ensures i < |h[n].content| && h[n].content[i] in h
  {
    EditFacts(g, h, if i < |g[n].content| then {} else {n});
  }

  lemma SteppedSequence(g: Graph, h: Graph, k: Graph, n: Node, i: nat, next: Segment, child: Node)
    requires Padded(g, h, n, i) && SlotEntered(h, k, n, i, next, child)
    ensures Stepped(g, k, n, Index(i), next, child)
  {
    hide Ranked, Denote, Edit, SlotFor;
    var changed := if i < |g[n].content| then {} else {n};
    EditFacts(g, h, changed);
    var touched, c := StepTouched(g, n, Index(i)), h[n].content[i];
    PaddedSlot(g, h, n, i, c);
    var more := SlotTouched(h, n, c);
    EditWiden(g, h, changed, touched);
    EditTransitive(g, h, k, touched, more);
    EditFacts(h, k, more);
    EditKind(h, k, more, n);
    DenoteStep(g, n);
    DenoteStep(k, n);
    assert k[n].content[i] == child;
    SlotForIndex(k, n, i);
    assert Denote(k, n) == Put(Denote(g, n), Index(i), Denote(k, child));
    assert SlotFor(k, n, i, Index(i)) && k[n].content[i] == child;
  }

  lemma EditKind(g: Graph, h: Graph, changed: set<Node>, n: Node)
    requires Edit(g, h, changed) && n in g && g[n].kind != AliasNode
    ensures n in h && h[n].kind == g[n].kind
  {
    assert EditedAt(g, h, changed, n);
  }

  lemma SlotForIndex(k: Graph, n: Node, i: nat)
    requires WellFormed(k) && n in k && k[n].kind == SequenceNode && i < |k[n].content|
    ensures SlotFor(k, n, i, Index(i))
  {
    RankedHere(k, SomeRank(k), n);
  }

  // After padding, the slot holds what it held before, or a new null.
  lemma PaddedSlot(g: Graph, h: Graph, n: Node, i: nat, c: Node)
    requires WellFormed(g) && WellFormed(h) && n in g && n in h && c in h
    requires i < |h[n].content| && c == h[n].content[i] && Padded(g, h, n, i)
    ensures
      && SlotTouched(h, n, c) * g.Keys <= StepTouched(g, n, Index(i))
      && (i >= |g[n].content| ==> n in StepTouched(g, n, Index(i)))
      && var kids := Denote(g, n).kids; Denote(h, c) == if i < |kids| then kids[i] else NullTree()
  {
    hide Ranked, Denote, Edit;
    EditFacts(g, h, if i < |g[n].content| then {} else {n});
    DenoteStep(g, n);
    DenoteStep(h, n);
    DenoteStep(h, c);
  }

  // descendMapping; null stands for the error return.
  method DescendMapping(current: Node, seg: Segment, next: Segment, ghost nodes: set<Node>)
    returns (child: Node?, ghost all: set<Node>)
    requires current in nodes && WellFormed(Snapshot(nodes)) && current.kind != AliasNode && seg.Name?
    modifies nodes
    ensures nodes <= all && fresh(all - nodes)
    ensures child == null ==>
      all == nodes && Snapshot(nodes) == old(Snapshot(nodes)) && !Fits(old(Denote(Snapshot(nodes), current)), seg)
    ensures child != null ==> Stepped(old(Snapshot(nodes)), Snapshot(all), current, seg, next, child)
  {
    hide Ranked, Denote, Edit, SlotFor, KeyIndex, SlotEntered, Stepped;
    ghost var g := Snapshot(nodes);
    DenoteStep(g, current);
    assert current.Snap() == g[current];
    if current.kind != MappingNode {
      return null, nodes;
    }
    var idx := MappingKeyIndex(current, seg.name, g);
    if idx < 0 {
      child, all := AddSection(current, seg.name, next, nodes);
      return;
    }
    KeySlot(g, current, seg.name);
    child, all := EnterSlot(current, idx + 1, next, nodes);
    SteppedSlot(g, Snapshot(all), current, seg.name, next, child);
  }

  lemma SteppedSlot(g: Graph, k: Graph, n: Node, name: string, next: Segment, child: Node)
    requires WellFormed(g) && n in g && g[n].kind == MappingNode && KeyIndex(Denote(g, n), name) >= 0
    requires var slot := KeyIndex(Denote(g, n), name) + 1;
      slot < |g[n].content| && g[n].content[slot] in g && SlotEntered(g, k, n, slot, next, child)
    ensures Stepped(g, k, n, Name(name), next, child)
  {
    hide Ranked, Denote, Edit, SlotFor, KeyIndex;
    var slot := KeyIndex(Denote(g, n), name) + 1;
    DenoteStep(g, n);
    EditFacts(g, k, SlotTouched(g, n, g[n].content[slot]));
    EditKind(g, k, SlotTouched(g, n, g[n].content[slot]), n);
    BelowSlot(g, k, n, Name(name), child);
    SteppedMapping(g, k, n, name, next, child);
  }

  lemma KeySlot(g: Graph, n: Node, name: string)
    requires WellFormed(g) && n in g && g[n].kind == MappingNode && KeyIndex(Denote(g, n), name) >= 0
    ensures var slot := KeyIndex(Denote(g, n), name) + 1;
      && slot < |g[n].content| && g[n].content[slot] in g && !KeyPosition(g[n], slot)
      && SlotFor(g, n, slot, Name(name))
  {
    DenoteStep(g, n);
    KeyIndexEven(Denote(g, n).kids, name, 0);
  }

  // A missing section: a key and an empty container at the end of the mapping.
  method AddSection(current: Node, name: string, next: Segment, ghost nodes: set<Node>)
    returns (child: Node, ghost all: set<Node>)
    requires current in nodes && WellFormed(Snapshot(nodes)) && current.kind == MappingNode
    requires KeyIndex(Denote(Snapshot(nodes), current), name) < 0
    modifies current`content
    ensures nodes <= all && fresh(all - nodes)
    ensures Stepped(old(Snapshot(nodes)), Snapshot(all), current, Name(name), next, child)
  {
    hide Ranked, Denote, Edit, Grown, SlotFor, KeyIndex, PairAppended, Stepped, EmptyFor;
    ghost var g := Snapshot(nodes);
    var key := new Node(ScalarNode, TAG_STR, name);
    child := ContainerForNextSegment(next);
    AppendPair(current, key, child, nodes);
    all := nodes + {key, child};
    assert current.Snap() == Snapshot(all)[current];
    SectionAdded(g, Snapshot(all), current, name, next, key, child);
  }

  lemma SectionAdded(g: Graph, k: Graph, n: Node, name: string, next: Segment, key: Node, child: Node)
    requires PairAppended(g, k, n, key, child) && n in g && g[n].kind == MappingNode
    requires KeyIndex(Denote(g, n), name) < 0
    requires TreeOf(k[key]) == Text(name) && TreeOf(k[child]) == EmptyFor(next) && Childless(k[child])
    ensures Stepped(g, k, n, Name(name), next, child)
  {
    hide Ranked, Denote, Edit, Grown, SlotFor, KeyIndex;
    DenoteStep(g, n);
    GrownEdit(g, k, n);
    GrownDenote(g, k, n);
    EditKind(g, k, {n}, n);
    BelowNothing(g, k, n, Name(name), child);
    SteppedMapping(g, k, n, name, next, child);
  }

  // Both ways of stepping down a mapping.
  lemma SteppedMapping(g: Graph, k: Graph, n: Node, name: string, next: Segment, child: Node)
    requires WellFormed(g) && n in g && g[n].kind == MappingNode
    requires Edit(g, k, StepTouched(g, n, Name(name))) && n in k && k[n].kind == MappingNode
    requires child in k && k[child].kind != AliasNode && Entered(g, k, StepTouched(g, n, Name(name)), child)
    requires ScalarsBelow(g, k, n, Name(name), child)
    requires Denote(k, child) == ChildFor(Denote(g, n), Name(name), next)
    requires Denote(k, n) == Put(Denote(g, n), Name(name), Denote(k, child))
    requires var idx := KeyIndex(Denote(g, n), name);
      if idx < 0 then |k[n].content| > 0 && k[n].content[|k[n].content| - 1] == child
      else idx + 1 < |k[n].content| && k[n].content[idx + 1] == child
    ensures Stepped(g, k, n, Name(name), next, child)
  {
    hide Ranked, Denote, Edit, SlotFor, ScalarsBelow;
    EditFacts(g, k, StepTouched(g, n, Name(name)));
    DenoteStep(g, n);
    DenoteStep(k, n);
    var t := Denote(g, n);
    var at := if KeyIndex(t, name) < 0 then |k[n].content| - 1 else KeyIndex(t, name) + 1;
    assert k[n].content[at] == child;
    if name != MERGE_KEY {
      RankedHere(g, SomeRank(g), n);
      PutReads(t, Name(name), Denote(k, child));
      PutIndex(t, name, Denote(k, child));
      KeySlot(k, n, name);
      assert SlotFor(k, n, KeyIndex(Denote(k, n), name) + 1, Name(name));
    }
  }

  // ----- the leaf -----

  // The state after writing the leaf.
  ghost predicate LeafSet(g: Graph, h: Graph, current: Node, seg: Segment, leaf: Leaf, node: Node)
    requires WellFormed(g) && current in g
  {
    && Edit(g, h, {current})
    && Fits(Denote(g, current), seg)
    && node in h && node !in g && node in h[current].content
    && Denote(h, current) == Put(Denote(g, current), seg, LeafTree(leaf))
    && Denote(h, node) == LeafTree(leaf)
    && Takes(h[node], OldScalar(g, current, [seg]))
    && Replaces(g, h, current, SlotIn(g, current, seg), node)
    && (seg != Name(MERGE_KEY) ==> At(h, current, seg, node))
  }

  // If the slot was there, it alone holds something new.
  ghost predicate Replaces(g: Graph, h: Graph, n: Node, slot: int, node: Node) {
    && n in g && n in h
    && (0 <= slot < |g[n].content| ==> h[n].content == g[n].content[slot := node])
  }

  // What a leaf takes over from the slot is what was found there.
  lemma LeafTakes(g: Graph, n: Node, seg: Segment, f: Fields, leaf: Leaf, preserve: Option<Fields>)
    requires WellFormed(g) && n in g && g[n].kind != AliasNode && f == LeafFields(leaf, preserve)
    requires var slot := SlotIn(g, n, seg);
      if 0 <= slot < |g[n].content| && g[n].content[slot] in g then
        var was := g[g[n].content[slot]];
        preserve == Some(was) || (was.kind == AliasNode && preserve == None)
      else
        preserve == None || IsNull(preserve.value)
    ensures Takes(f, OldScalar(g, n, [seg]))
  {
    hide Denote, Ranked, SlotIn, OldScalar, LeafFields;
    OldScalarStep(g, n, [seg]);
  }

  // setLeaf; null stands for the error return.
  method SetLeaf(current: Node, seg: Segment, leaf: Leaf, ghost nodes: set<Node>)
    returns (node: Node?, ghost all: set<Node>)
    requires current in nodes && WellFormed(Snapshot(nodes)) && current.kind != AliasNode
    modifies current`content
    ensures nodes <= all && fresh(all - nodes)
    ensures node == null ==>
      all == nodes && Snapshot(nodes) == old(Snapshot(nodes)) && !Fits(old(Denote(Snapshot(nodes), current)), seg)
    ensures node != null ==> LeafSet(old(Snapshot(nodes)), Snapshot(all), current, seg, leaf, node)
  {
    hide Ranked, Denote, Edit, SlotFor;
    ghost var g := Snapshot(nodes);
    DenoteStep(g, current);
    assert current.Snap() == g[current];
    if seg.Index? {
      if current.kind != SequenceNode {
        return null, nodes;
      }
      node, all := SetItem(current, seg.index, leaf, nodes);
      return;
    }
    if current.kind != MappingNode {
      return null, nodes;
    }
    node, all := SetEntry(current, seg.name, leaf, nodes);
  }

  // k is h with a new leaf in a slot of n.
  ghost predicate LeafPut(h: Graph, k: Graph, n: Node, slot: nat, leaf: Leaf, preserve: Option<Fields>, node: Node) {
    && Edit(h, k, {n}) && n in h && n in k && node in k && node !in h
    && slot < |h[n].content| && k[n].content == h[n].content[slot := node]
    && Denote(k, node) == LeafTree(leaf) && k[node] == LeafFields(leaf, preserve)
    && slot < |Denote(h, n).kids|
    && Denote(k, n) == Denote(h, n).(kids := Denote(h, n).kids[slot := LeafTree(leaf)])
  }

  // A written leaf in an existing slot.
  method PutLeaf(current: Node, slot: nat, leaf: Leaf, preserve: Node?, ghost nodes: set<Node>) returns (node: Node)
    requires current in nodes && WellFormed(Snapshot(nodes)) && current.kind != AliasNode
    requires slot < |current.content| && !KeyPosition(current.Snap(), slot)
    requires preserve == null || preserve in nodes
    modifies current`content
    ensures fresh(node)
    ensures var h := old(Snapshot(nodes));
      LeafPut(h, Snapshot(nodes + {node}), current, slot, leaf,
              if preserve == null then None else Some(h[preserve]), node)
  {
    hide Ranked, Denote, Edit, Grown, LeafFields;
    ghost var h := Snapshot(nodes);
    assert current.Snap() == h[current];
    node := LeafNodeFromValue(leaf, preserve);
    LeafIsChildless(leaf, if preserve == null then None else Some(h[preserve]));
    ReplaceAt(current, slot, node, nodes);
    ghost var k := Snapshot(nodes + {node});
    assert node.Snap() == k[node] && current.Snap() == k[current];
    GrownEdit(h, k, current);
    GrownDenote(h, k, current);
  }

  method SetItem(current: Node, index: nat, leaf: Leaf, ghost nodes: set<Node>)
    returns (node: Node, ghost all: set<Node>)
    requires current in nodes && WellFormed(Snapshot(nodes)) && current.kind == SequenceNode
    modifies current`content
    ensures nodes <= all && fresh(all - nodes)
    ensures LeafSet(old(Snapshot(nodes)), Snapshot(all), current, Index(index), leaf, node)
  {
    hide Ranked, Denote, Edit, SlotFor, LocalStep, Padded, LeafSet, LeafPut;
    ghost var g := Snapshot(nodes);
    all := PadTo(current, index, nodes);
    ghost var h := Snapshot(all);
    PaddedFacts(g, h, current, index);
    assert current.Snap() == h[current];
    node := PutLeaf(current, index, leaf, current.content[index], all);
    all := all + {node};
    LeafInSequence(g, h, Snapshot(all), current, index, leaf, node);
  }

  lemma LeafInSequence(g: Graph, h: Graph, k: Graph, n: Node, i: nat, leaf: Leaf, node: Node)
    requires Padded(g, h, n, i) && LeafPut(h, k, n, i, leaf, Some(h[h[n].content[i]]), node)
    ensures LeafSet(g, k, n, Index(i), leaf, node)
  {
    hide Ranked, Denote, Edit, SlotFor;
    var changed := if i < |g[n].content| then {} else {n};
    EditFacts(g, h, changed);
    EditFacts(h, k, {n});
    EditKind(h, k, {n}, n);
    EditWiden(g, h, changed, {n});
    EditTransitive(g, h, k, {n}, {n});
    DenoteStep(g, n);
    assert k[n].content[i] == node;
    SlotForIndex(k, n, i);
    assert SlotFor(k, n, i, Index(i)) && k[n].content[i] == node;
    LeafTakes(g, n, Index(i), k[node], leaf, Some(h[h[n].content[i]]));
  }

  method SetEntry(current: Node, name: string, leaf: Leaf, ghost nodes: set<Node>)
    returns (node: Node, ghost all: set<Node>)
    requires current in nodes && WellFormed(Snapshot(nodes)) && current.kind == MappingNode
    modifies current`content
    ensures nodes <= all && fresh(all - nodes)
    ensures LeafSet(old(Snapshot(nodes)), Snapshot(all), current, Name(name), leaf, node)
  {
    hide Ranked, Denote, Edit, SlotFor, KeyIndex, LeafPut, LeafSet;
    ghost var g := Snapshot(nodes);
    DenoteStep(g, current);
    assert current.Snap() == g[current];
    var idx := MappingKeyIndex(current, name, g);
    if idx < 0 {
      node, all := AddEntry(current, name, leaf, nodes);
      return;
    }
    KeySlot(g, current, name);
    var existing := current.content[idx + 1];
    assert existing.Snap() == g[existing];
    var preserve: Node? := if existing.kind == AliasNode then null else existing;
    node := PutLeaf(current, idx + 1, leaf, preserve, nodes);
    all := nodes + {node};
    LeafOverEntry(g, Snapshot(all), current, name, leaf, node);
  }

  lemma LeafOverEntry(g: Graph, k: Graph, n: Node, name: string, leaf: Leaf, node: Node)
    requires WellFormed(g) && n in g && g[n].kind == MappingNode && KeyIndex(Denote(g, n), name) >= 0
    requires var slot := KeyIndex(Denote(g, n), name) + 1;
      && slot < |g[n].content| && g[n].content[slot] in g
      && var c := g[n].content[slot];
         LeafPut(g, k, n, slot, leaf, if g[c].kind == AliasNode then None else Some(g[c]), node)
    ensures LeafSet(g, k, n, Name(name), leaf, node)
  {
    hide Ranked, Denote, Edit, SlotFor, KeyIndex, OldScalar, Takes;
    EditFacts(g, k, {n});
    EditKind(g, k, {n}, n);
    DenoteStep(g, n);
    var was := g[g[n].content[KeyIndex(Denote(g, n), name) + 1]];
    LeafTakes(g, n, Name(name), k[node], leaf, if was.kind == AliasNode then None else Some(was));
    LeafInMapping(g, k, n, name, leaf, node);
  }

  method AddEntry(current: Node, name: string, leaf: Leaf, ghost nodes: set<Node>)
    returns (node: Node, ghost all: set<Node>)
    requires current in nodes && WellFormed(Snapshot(nodes)) && current.kind == MappingNode
    requires KeyIndex(Denote(Snapshot(nodes), current), name) < 0
    modifies current`content
    ensures nodes <= all && fresh(all - nodes)
    ensures LeafSet(old(Snapshot(nodes)), Snapshot(all), current, Name(name), leaf, node)
  {
    hide Ranked, Denote, Edit, Grown, SlotFor, KeyIndex, PairAppended, LeafSet, LeafFields;
    ghost var g := Snapshot(nodes);
    assert current.Snap() == g[current];
    var key := new Node(ScalarNode, TAG_STR, name);
    node := LeafNodeFromValue(leaf, null);
    LeafIsChildless(leaf, None);
    AppendPair(current, key, node, nodes);
    all := nodes + {key, node};
    EntryAdded(g, Snapshot(all), current, name, leaf, key, node);
  }

  lemma LeafIsChildless(leaf: Leaf, preserve: Option<Fields>)
    ensures Childless(LeafFields(leaf, preserve)) && TreeOf(LeafFields(leaf, preserve)) == LeafTree(leaf)
  {
  }

  lemma EntryAdded(g: Graph, k: Graph, n: Node, name: string, leaf: Leaf, key: Node, node: Node)
    requires PairAppended(g, k, n, key, node) && n in g && g[n].kind == MappingNode
    requires KeyIndex(Denote(g, n), name) < 0
    requires TreeOf(k[key]) == Text(name) && k[node] == LeafFields(leaf, None)
    ensures LeafSet(g, k, n, Name(name), leaf, node)
  {
    hide Ranked, Denote, Edit, Grown, SlotFor, KeyIndex, LeafFields;
    LeafIsChildless(leaf, None);
    DenoteStep(g, n);
    GrownEdit(g, k, n);
    GrownDenote(g, k, n);
    EditKind(g, k, {n}, n);
    LeafTakes(g, n, Name(name), k[node], leaf, None);
    LeafInMapping(g, k, n, name, leaf, node);
  }

  lemma LeafInMapping(g: Graph, k: Graph, n: Node, name: string, leaf: Leaf, node: Node)
    requires Edit(g, k, {n}) && n in g && g[n].kind == MappingNode && n in k && k[n].kind == MappingNode
    requires WellFormed(g) && WellFormed(k) && node in k && node !in g
    requires Denote(k, n) == Put(Denote(g, n), Name(name), LeafTree(leaf)) && Denote(k, node) == LeafTree(leaf)
    requires var idx := KeyIndex(Denote(g, n), name);
      if idx < 0 then |k[n].content| > 0 && k[n].content[|k[n].content| - 1] == node
      else
        && idx + 1 < |k[n].content| && k[n].content[idx + 1] == node
        && idx + 1 < |g[n].content| && g[n].content[idx + 1] in g
        && k[n].content == g[n].content[idx + 1 := node]
    requires Takes(k[node], OldScalar(g, n, [Name(name)]))
    ensures LeafSet(g, k, n, Name(name), leaf, node)
  {
    hide Ranked, Denote, Edit, SlotFor, KeyIndex, OldScalar, Takes;
    DenoteStep(g, n);
    DenoteStep(k, n);
    if name != MERGE_KEY {
      RankedHere(g, SomeRank(g), n);
      PutReads(Denote(g, n), Name(name), LeafTree(leaf));
      PutIndex(Denote(g, n), name, LeafTree(leaf));
      KeySlot(k, n, name);
      assert SlotFor(k, n, KeyIndex(Denote(k, n), name) + 1, Name(name));
    }
  }
}
