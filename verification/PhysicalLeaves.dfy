/** collectPhysicalLeafKeys: the flat keys of everything that stands in the file
  itself, neither behind an alias nor inherited. */
module PhysicalLeaves {
  import opened Prelude
  import opened FlatKey
  import opened KeyPath
  import opened YamlNode
  import opened Lookup
  import opened Walk
  import opened Upsert
  import opened PatchTree

  // ----- the walk -----

  function Own(prefix: string): seq<string> {
    if prefix == "" then [] else [prefix]
  }

  predicate IsMergeNode(f: Fields) {
    f.tag == MERGE_TAG || f.value == MERGE_KEY
  }

  ghost function LeafKeys(g: Graph, n: Node, prefix: string): seq<string>
    requires WellFormed(g) && n in g
    decreases SomeRank(g)[n], |g[n].content| + 1
  {
    match g[n].kind
    case MappingNode => if g[n].content == [] then Own(prefix) else EntryKeys(g, n, prefix, 0)
    case SequenceNode => if g[n].content == [] then Own(prefix) else ItemKeys(g, n, prefix, 0)
    case ScalarNode => Own(prefix)
    case AliasNode => []
    case DocumentNode => []
  }

  ghost function EntryKeys(g: Graph, n: Node, prefix: string, i: nat): seq<string>
    requires WellFormed(g) && n in g && g[n].kind == MappingNode && i % 2 == 0
    decreases SomeRank(g)[n], |g[n].content| - i
  {
    if i + 1 >= |g[n].content| then []
    else
      RankedHere(g, SomeRank(g), n);
      var key := g[g[n].content[i]];
      (if IsMergeNode(key) then [] else LeafKeys(g, g[n].content[i + 1], Extended(prefix, Name(key.value))))
      + EntryKeys(g, n, prefix, i + 2)
  }

  ghost function ItemKeys(g: Graph, n: Node, prefix: string, i: nat): seq<string>
    requires WellFormed(g) && n in g
    decreases SomeRank(g)[n], |g[n].content| - i
  {
    if i >= |g[n].content| then []
    else
      RankedHere(g, SomeRank(g), n);
      LeafKeys(g, g[n].content[i], Extended(prefix, Index(i))) + ItemKeys(g, n, prefix, i + 1)
  }

  lemma EntryKeysStep(g: Graph, n: Node, prefix: string, i: nat)
    requires WellFormed(g) && n in g && g[n].kind == MappingNode && KeyPosition(g[n], i)
    ensures g[n].content[i] in g && g[n].content[i + 1] in g && SomeRank(g)[g[n].content[i + 1]] < SomeRank(g)[n]
    ensures var key := g[g[n].content[i]];
      EntryKeys(g, n, prefix, i) ==
        if IsMergeNode(key) then EntryKeys(g, n, prefix, i + 2)
        else LeafKeys(g, g[n].content[i + 1], Extended(prefix, Name(key.value))) + EntryKeys(g, n, prefix, i + 2)
  {
    hide Denote, Ranked, LeafKeys, Extended, IsMergeNode;
    RankedHere(g, SomeRank(g), n);
    assert [] + EntryKeys(g, n, prefix, i + 2) == EntryKeys(g, n, prefix, i + 2);
  }

  // walkPhysicalLeaves
  method WalkPhysicalLeaves(n: Node, prefix: string, ghost g: Graph) returns (out: seq<string>)
    requires Shows(g) && WellFormed(g) && n in g
    ensures out == LeafKeys(g, n, prefix)
    decreases SomeRank(g)[n]
  {
    hide Ranked, Extended;
    assert n.Snap() == g[n];
    RankedHere(g, SomeRank(g), n);
    out := [];
    match n.kind
    case MappingNode =>
      if |n.content| == 0 {
        return if prefix != "" then [prefix] else [];
      }
      var i := 0;
      while i + 1 < |n.content|
        invariant 0 <= i <= |n.content| && i % 2 == 0
        invariant out + EntryKeys(g, n, prefix, i) == EntryKeys(g, n, prefix, 0)
      {
        var key := n.content[i];
        EntryKeysStep(g, n, prefix, i);
        assert key.Snap() == g[key];
        ghost var later := EntryKeys(g, n, prefix, i + 2);
        if !(key.tag == MERGE_TAG || key.value == MERGE_KEY) {
          var childPrefix := BuildKey(prefix, key.value);
          var more := WalkPhysicalLeaves(n.content[i + 1], childPrefix, g);
          assert out + (more + later) == out + more + later;
          out := out + more;
        }
        i := i + 2;
      }
      assert out + [] == out;
    case SequenceNode =>
      if |n.content| == 0 {
        return if prefix != "" then [prefix] else [];
      }
      var i := 0;
      while i < |n.content|
        invariant 0 <= i <= |n.content|
        invariant out + ItemKeys(g, n, prefix, i) == ItemKeys(g, n, prefix, 0)
      {
        var more := WalkPhysicalLeaves(n.content[i], prefix + "[" + Itoa(i) + "]", g);
        BracketedSuffix(prefix, i);
        assert out + (more + ItemKeys(g, n, prefix, i + 1)) == out + more + ItemKeys(g, n, prefix, i + 1);
        out := out + more;
        i := i + 1;
      }
      assert out + [] == out;
    case ScalarNode =>
      return if prefix != "" then [prefix] else [];
    case AliasNode =>
    case DocumentNode =>
  }

  // ----- the keys are the paths of the leaves -----

  predicate Leafy(t: Tree) {
    t.kind == ScalarNode || (IsContainer(t) && t.kids == [])
  }

  // k is the key of a leaf below n, whose own path is pre.
  ghost predicate LeafPath(g: Graph, n: Node, pre: seq<Segment>, k: string, p: seq<Segment>)
    requires WellFormed(g) && n in g
  {
    && k == Encode(pre + p) && k != ""
    && AllNames(p) && NoMergeNames(p)
    && LocalWalk(Denote(g, n), p).Some? && Leafy(LocalWalk(Denote(g, n), p).value)
  }

  lemma EntryAt(g: Graph, n: Node, i: nat)
    requires WellFormed(g) && n in g && g[n].kind == MappingNode && Plain(Denote(g, n)) && KeyPosition(g[n], i)
    ensures g[n].content[i] in g && g[n].content[i + 1] in g && !IsMergeNode(g[g[n].content[i]])
    ensures LocalStep(Denote(g, n), Name(g[g[n].content[i]].value)) == Some(Denote(g, g[n].content[i + 1]))
    ensures g[g[n].content[i]].value != MERGE_KEY && Plain(Denote(g, g[n].content[i + 1]))
  {
    hide Denote, Ranked;
    DenoteStep(g, n);
    DenoteKey(g, n, i);
    assert KeyAt(Denote(g, n).kids, i);
    KeyIndexIs(Denote(g, n), g[g[n].content[i]].value, i);
  }

  lemma {:induction false} LeafKeyIsPath(g: Graph, n: Node, pre: seq<Segment>, k: string) returns (p: seq<Segment>)
    requires WellFormed(g) && n in g && Plain(Denote(g, n)) && g[n].kind != AliasNode
    requires k in LeafKeys(g, n, Encode(pre)) && NoAliases(g)
    ensures LeafPath(g, n, pre, k, p)
    decreases Denote(g, n), |g[n].content| + 1
  {
    hide Denote, Ranked, Encode;
    DenoteStep(g, n);
    if g[n].kind == MappingNode && g[n].content != [] {
      p := EntryKeyIsPath(g, n, pre, k, 0);
    } else {
      p := [];
      assert pre + p == pre;
    }
  }

  lemma {:induction false} EntryKeyIsPath(g: Graph, n: Node, pre: seq<Segment>, k: string, i: nat)
    returns (p: seq<Segment>)
    requires WellFormed(g) && n in g && Plain(Denote(g, n)) && g[n].kind == MappingNode && i % 2 == 0
    requires k in EntryKeys(g, n, Encode(pre), i) && NoAliases(g)
    ensures LeafPath(g, n, pre, k, p)
    decreases Denote(g, n), |g[n].content| - i
  {
    hide Denote, Ranked, LeafKeys, Plain, Encode, LeafPath, Extended, LocalStep, IsMergeNode;
    EntryAt(g, n, i);
    var c, seg := g[n].content[i + 1], Name(g[g[n].content[i]].value);
    if k in EntryKeys(g, n, Encode(pre), i + 2) {
      p := EntryKeyIsPath(g, n, pre, k, i + 2);
    } else {
      EncodeSnoc(pre, seg);
      var q := LeafKeyIsPath(g, c, pre + [seg], k);
      LeafPathUp(g, n, pre, k, seg, c, q);
      p := [seg] + q;
    }
  }

  lemma LeafPathUp(g: Graph, n: Node, pre: seq<Segment>, k: string, seg: Segment, c: Node, q: seq<Segment>)
    requires WellFormed(g) && n in g && c in g && LocalStep(Denote(g, n), seg) == Some(Denote(g, c))
    requires seg.Name? && seg.name != MERGE_KEY && LeafPath(g, c, pre + [seg], k, q)
    ensures LeafPath(g, n, pre, k, [seg] + q)
  {
    hide Denote, LocalStep, Encode, Leafy;
    assert pre + [seg] + q == pre + ([seg] + q) && ([seg] + q)[1..] == q;
  }

  lemma {:induction false} EntryKeysHas(g: Graph, n: Node, prefix: string, i: nat, j: nat, k: string)
    requires WellFormed(g) && n in g && g[n].kind == MappingNode && i % 2 == 0 && j % 2 == 0 && i <= j
    requires j + 1 < |g[n].content| && g[n].content[j] in g && g[n].content[j + 1] in g &&
      !IsMergeNode(g[g[n].content[j]])
    requires k in LeafKeys(g, g[n].content[j + 1], Extended(prefix, Name(g[g[n].content[j]].value)))
    ensures k in EntryKeys(g, n, prefix, i)
    decreases j - i
  {
    hide Ranked, LeafKeys, Extended;
    if i < j {
      EntryKeysHas(g, n, prefix, i + 2, j, k);
    }
  }

  // The entry that holds a name.
  lemma NamedEntry(g: Graph, n: Node, seg: Segment) returns (j: nat)
    requires WellFormed(g) && n in g && Plain(Denote(g, n)) && g[n].kind != AliasNode &&
      LocalStep(Denote(g, n), seg).Some?
    ensures g[n].kind == MappingNode && KeyPosition(g[n], j) && g[n].content[j] in g &&
      seg == Name(g[g[n].content[j]].value)
  {
    hide Denote, Ranked;
    DenoteStep(g, n);
    KeyIndexFinds(Denote(g, n).kids, seg.name, 0);
    j := KeyIndex(Denote(g, n), seg.name);
    DenoteKey(g, n, j);
  }

  // Every scalar's key is collected.
  lemma {:induction false} ScalarHasKey(g: Graph, n: Node, pre: seq<Segment>, p: seq<Segment>)
    requires WellFormed(g) && n in g && Plain(Denote(g, n)) && NoAliases(g)
    requires Read(Denote(g, n), p).Some? && Encode(pre + p) != ""
    ensures Encode(pre + p) in LeafKeys(g, n, Encode(pre)) && AllNames(p) && NoMergeNames(p)
    decreases |p|
  {
    hide Denote, Ranked, Encode, LocalStep, Plain, IsMergeNode, Extended;
    DenoteStep(g, n);
    if p == [] {
      assert pre + p == pre;
    } else {
      var j := NamedEntry(g, n, p[0]);
      EntryAt(g, n, j);
      var c := g[n].content[j + 1];
      EncodeSnoc(pre, p[0]);
      assert pre + [p[0]] + p[1..] == pre + p;
      ScalarHasKey(g, c, pre + [p[0]], p[1..]);
      EntryKeysHas(g, n, Encode(pre), 0, j, Encode(pre + p));
      assert p == [p[0]] + p[1..];
    }
  }
}
