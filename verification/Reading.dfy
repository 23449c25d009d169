/** The readers of the node graph: they change nothing, and each returns what the
  lookup on the denoted tree returns. */
module Reading {
  import opened Prelude
  import opened KeyPath
  import opened YamlNode
  import opened Lookup

  // resolveAlias
  method ResolveAlias(n: Node, ghost g: Graph) returns (r: Node)
    requires Shows(g) && WellFormed(g) && n in g
    ensures r == Target(g, n) && r in g && r.kind != AliasNode
    ensures Denote(g, r) == Denote(g, n)
  {
    r := n;
    while r.kind == AliasNode
      invariant r in g && Denote(g, r) == Denote(g, n)
      invariant r == n || r == Target(g, n)
      decreases SomeRank(g)[r]
    {
      assert r.Snap() == g[r] && RankedAt(g, SomeRank(g), r);
      DenoteStep(g, r);
      r := r.alias;
    }
    assert r.Snap() == g[r] && RankedAt(g, SomeRank(g), n);
  }

  // The test that the code puts to a key node: its own tag and text.
  predicate OwnKey(f: Fields, name: string) {
    f.tag != MERGE_TAG && f.value != MERGE_KEY && f.value == name
  }

  ghost function OwnKeyIndex(g: Graph, content: seq<Node>, name: string, i: nat): int
    requires forall c | c in content :: c in g
    decreases |content| - i
  {
    if i + 1 >= |content| then -1
    else if OwnKey(g[content[i]], name) then i
    else OwnKeyIndex(g, content, name, i + 2)
  }

  // mappingKeyIndex
  method MappingKeyIndex(m: Node, name: string, ghost g: Graph) returns (idx: int)
    requires Shows(g) && m in g && forall c | c in m.content :: c in g
    ensures idx == if m.kind == MappingNode then OwnKeyIndex(g, m.content, name, 0) else -1
    ensures WellFormed(g) ==> idx == if m.kind == MappingNode then KeyIndex(Denote(g, m), name) else -1
    ensures idx < 0 || idx + 1 < |m.content|
  {
    hide Denote, Ranked;
    if m.kind != MappingNode {
      return -1;
    }
    assert m.Snap() == g[m];
    if WellFormed(g) {
      OwnKeysShow(g, m, name, 0);
    }
    var i := 0;
    while i + 1 < |m.content|
      invariant 0 <= i && i % 2 == 0
      invariant OwnKeyIndex(g, m.content, name, 0) == OwnKeyIndex(g, m.content, name, i)
    {
      var k := m.content[i];
      assert k.Snap() == g[k];
      if k.tag == MERGE_TAG || k.value == MERGE_KEY {
        i := i + 2;
        continue;
      }
      if k.value == name {
        return i;
      }
      i := i + 2;
    }
    return -1;
  }

  // Where no key is an alias, its own tag and text are what it shows.
  lemma {:induction false} OwnKeysShow(g: Graph, m: Node, name: string, i: nat)
    requires WellFormed(g) && m in g && g[m].kind == MappingNode && i % 2 == 0
    ensures (forall c | c in g[m].content :: c in g) && Denote(g, m).kind == MappingNode
    ensures OwnKeyIndex(g, g[m].content, name, i) == KeyIndexFrom(Denote(g, m).kids, name, i)
    decreases |g[m].content| - i
  {
    hide Denote, Ranked;
    DenoteStep(g, m);
    if i + 1 < |g[m].content| {
      assert KeyPosition(g[m], i);
      DenoteKey(g, m, i);
      OwnKeysShow(g, m, name, i + 2);
    }
  }

  // What a node-returning lookup must deliver for a result on the denoted tree.
  ghost predicate Finds(g: Graph, r: Node?, found: Option<Tree>)
    requires WellFormed(g)
  {
    if r == null then found == None else r in g && found == Some(Denote(g, r))
  }

  // Merge sources as the merge-key type has them, everywhere below a mapping.
  ghost predicate Searchable(g: Graph, m: Node)
    requires WellFormed(g) && m in g
  {
    Denote(g, m).kind == MappingNode && MergesMappings(Denote(g, m))
  }

  // mappingValueWithMerge
  method MappingValueWithMerge(m: Node, name: string, ghost g: Graph) returns (r: Node?)
    requires Shows(g) && WellFormed(g) && m in g && m.kind != AliasNode
    ensures r != null ==> r in g
    ensures Searchable(g, m) ==> Finds(g, r, ValueWithMerge(Denote(g, m), name))
    decreases Denote(g, m), 0
  {
    hide Denote, Ranked, KeyIndex;
    ghost var t := Denote(g, m);
    assert m.Snap() == g[m];
    DenoteStep(g, m);
    var idx := MappingKeyIndex(m, name, g);
    if idx >= 0 {
      return m.content[idx + 1];
    }
    var i := 0;
    while i + 1 < |m.content|
      invariant 0 <= i && i % 2 == 0
      invariant Searchable(g, m) ==> MergedFrom(t, name, 0) == MergedFrom(t, name, i)
    {
      var k := m.content[i];
      assert k.Snap() == g[k] && (m.kind == MappingNode ==> KeyPosition(g[m], i));
      if Searchable(g, m) {
        DenoteKey(g, m, i);
        assert t.kids[i + 1] in t.kids;
      }
      if k.tag == MERGE_TAG || k.value == MERGE_KEY {
        r := SourceValue(m.content[i + 1], name, g);
        if r != null {
          return;
        }
      }
      i := i + 2;
    }
    return null;
  }

  // One merge source: a mapping, a sequence of them, or something to skip.
  method SourceValue(v: Node, name: string, ghost g: Graph) returns (r: Node?)
    requires Shows(g) && WellFormed(g) && v in g
    ensures r != null ==> r in g
    ensures MergesMappings(Denote(g, v)) && (Denote(g, v).kind == SequenceNode ==> AllMappings(Denote(g, v).kids)) ==>
      Finds(g, r, SourceFind(Denote(g, v), name))
    decreases Denote(g, v), 1
  {
    hide Denote, Ranked;
    var src := ResolveAlias(v, g);
    DenoteStep(g, src);
    assert src.Snap() == g[src];
    if src.kind == SequenceNode {
      r := FirstItemWithMerge(src, name, g);
      return;
    }
    if src.kind != MappingNode {
      return null;
    }
    r := MappingValueWithMerge(src, name, g);
  }

  // The inner loop of mappingValueWithMerge, over a sequence of merge sources.
  method FirstItemWithMerge(src: Node, name: string, ghost g: Graph) returns (r: Node?)
    requires Shows(g) && WellFormed(g) && src in g && src.kind == SequenceNode
    ensures r != null ==> r in g
    ensures AllMappings(Denote(g, src).kids) && MergesMappings(Denote(g, src)) ==>
      Finds(g, r, FirstItem(Denote(g, src), name, 0))
    decreases Denote(g, src), 0
  {
    hide Denote, Ranked;
    ghost var t := Denote(g, src);
    assert src.Snap() == g[src];
    DenoteStep(g, src);
    var j := 0;
    while j < |src.content|
      invariant 0 <= j <= |src.content|
      invariant AllMappings(t.kids) && MergesMappings(t) ==> FirstItem(t, name, 0) == FirstItem(t, name, j)
    {
      assert t.kids[j] in t.kids;
      var item := ResolveAlias(src.content[j], g);
      r := MappingValueWithMerge(item, name, g);
      if r != null {
        return;
      }
      j := j + 1;
    }
    return null;
  }

  // The walk that findEffectiveScalar and treeNodeMatchesContainerType share.
  method EffectiveNode(root: Node, segs: seq<Segment>, ghost g: Graph) returns (r: Node?)
    requires Shows(g) && WellFormed(g) && root in g
    ensures r != null ==> r in g && r.kind != AliasNode
    ensures MergesMappings(Denote(g, root)) ==> Finds(g, r, LazyWalk(Denote(g, root), segs))
  {
    hide Denote, Ranked, Agree;
    ghost var t := Denote(g, root);
    var current := ResolveAlias(root, g);
    var i := 0;
    while i < |segs|
      invariant 0 <= i <= |segs|
      invariant current in g && current.kind != AliasNode
      invariant MergesMappings(t) ==>
        && MergesMappings(Denote(g, current))
        && LazyWalk(t, segs) == LazyWalk(Denote(g, current), segs[i..])
    {
      assert current.Snap() == g[current];
      DenoteStep(g, current);
      var seg := segs[i];
      if seg.Index? {
        if current.kind != SequenceNode || seg.index >= |current.content| {
          return null;
        }
        assert Denote(g, current).kids[seg.index] in Denote(g, current).kids;
        current := ResolveAlias(current.content[seg.index], g);
        i := i + 1;
        continue;
      }
      if current.kind != MappingNode {
        return null;
      }
      if MergesMappings(t) && LazyStep(Denote(g, current), seg).Some? {
        StepWithin(Denote(g, current), seg);
        WithinMerges(Denote(g, current), LazyStep(Denote(g, current), seg).value);
      }
      var next := MappingValueWithMerge(current, seg.name, g);
      if next == null {
        return null;
      }
      current := ResolveAlias(next, g);
      i := i + 1;
    }
    r := current;
  }

  // findEffectiveScalar
  method FindEffectiveScalar(root: Node, segs: seq<Segment>, ghost g: Graph) returns (value: string, ok: bool)
    requires Shows(g) && WellFormed(g) && root in g
    ensures MergesMappings(Denote(g, root)) ==>
      EffectiveScalar(Denote(g, root), segs) == (if ok then Some(value) else None)
    ensures MergesMappings(Denote(g, root)) && (KeysResolved(Denote(g, root)) || ReachedResolved(Denote(g, root))) ==>
      FindScalar(Expand(Denote(g, root)), segs) == (if ok then Some(value) else None)
  {
    hide Denote, Ranked, MergesMappings, KeysResolved, ReachedResolved;
    ghost var t := Denote(g, root);
    if MergesMappings(t) && (KeysResolved(t) || ReachedResolved(t)) {
      LazyRefinesEager(t, segs);
    }
    var current := EffectiveNode(root, segs, g);
    if current == null {
      return "", false;
    }
    assert current.Snap() == g[current];
    DenoteStep(g, current);
    if current.kind != ScalarNode {
      return "", false;
    }
    return current.value, true;
  }

  const TYPE_MAP := "map"
  const TYPE_LIST := "list"

  predicate MatchesContainer(t: Tree, segs: seq<Segment>, typ: string) {
    match LazyWalk(t, segs)
    case None => false
    case Some(u) => (typ == TYPE_MAP && u.kind == MappingNode) || (typ == TYPE_LIST && u.kind == SequenceNode)
  }

  // treeNodeMatchesContainerType
  method TreeNodeMatchesContainerType(root: Node, segs: seq<Segment>, typ: string, ghost g: Graph) returns (r: bool)
    requires Shows(g) && WellFormed(g) && root in g
    ensures MergesMappings(Denote(g, root)) ==> r == MatchesContainer(Denote(g, root), segs, typ)
  {
    hide Denote, Ranked, MergesMappings;
    var current := EffectiveNode(root, segs, g);
    if current == null {
      return false;
    }
    assert current.Snap() == g[current];
    DenoteStep(g, current);
    if typ == TYPE_MAP {
      return current.kind == MappingNode;
    }
    if typ == TYPE_LIST {
      return current.kind == SequenceNode;
    }
    return false;
  }

  // LookupRawValue: the empty key names nothing.
  method LookupRawValue(raw: map<string, Value>, segs: seq<Segment>) returns (found: Option<Value>)
    ensures found == if segs == [] then None else Find(Map(raw), segs)
  {
    if |segs| == 0 {
      return None;
    }
    var current := Map(raw);
    var i := 0;
    while i < |segs|
      invariant 0 <= i <= |segs|
      invariant Find(Map(raw), segs) == Find(current, segs[i..])
    {
      if segs[i].Index? {
        if !current.List? || segs[i].index >= |current.items| {
          return None;
        }
        current := current.items[segs[i].index];
      } else {
        if !current.Map? || segs[i].name !in current.entries {
          return None;
        }
        current := current.entries[segs[i].name];
      }
      i := i + 1;
    }
    return Some(current);
  }
}
