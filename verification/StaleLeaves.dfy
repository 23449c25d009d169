/** Which leaves a save deletes, and when it deletes exactly those. */
module StaleLeaves {
  import opened Prelude
  import opened KeyPath
  import opened YamlNode
  import opened Lookup
  import opened Walk
  import opened Upsert
  import opened UpsertTrail
  import opened Upserting
  import opened PatchTree
  import opened PhysicalLeaves
  import opened PatchPlan
  import opened Patch
  import opened Patching
  import opened Pruning

  // ----- the leaves of a document, in its order -----

  function Prefixed(seg: Segment, paths: seq<seq<Segment>>): (r: seq<seq<Segment>>)
    ensures |r| == |paths| && forall i | 0 <= i < |r| :: r[i] == [seg] + paths[i]
  {
    seq(|paths|, i requires 0 <= i < |paths| => [seg] + paths[i])
  }

  function LeafPaths(t: Tree): seq<seq<Segment>>
    decreases t, |t.kids| + 1
  {
    if Leafy(t) then [[]] else LeafPathsFrom(t, 0)
  }

  function LeafPathsFrom(t: Tree, k: nat): seq<seq<Segment>>
    decreases t, |t.kids| - k
  {
    if k >= Width(t) then []
    else Prefixed(SlotSeg(t, k), LeafPaths(SlotValue(t, k))) + LeafPathsFrom(t, k + 1)
  }

  lemma {:induction false} LeafPathsLead(t: Tree, p: seq<Segment>)
    requires Regular(t) && p in LeafPaths(t)
    ensures LocalWalk(t, p).Some? && Leafy(LocalWalk(t, p).value)
    decreases t, |t.kids| + 1
  {
    if !Leafy(t) {
      var k := LeafPathsFromLead(t, 0, p);
    }
  }

  lemma {:induction false} LeafPathsFromLead(t: Tree, k: nat, p: seq<Segment>) returns (j: nat)
    requires Regular(t) && p in LeafPathsFrom(t, k)
    ensures k <= j < Width(t) && p != [] && p[0] == SlotSeg(t, j)
    ensures LocalWalk(t, p).Some? && Leafy(LocalWalk(t, p).value)
    decreases t, |t.kids| - k
  {
    var own := Prefixed(SlotSeg(t, k), LeafPaths(SlotValue(t, k)));
    if p in own {
      var i :| 0 <= i < |own| && own[i] == p;
      SlotStep(t, k);
      assert p[1..] == LeafPaths(SlotValue(t, k))[i];
      LeafPathsLead(SlotValue(t, k), p[1..]);
      j := k;
    } else {
      j := LeafPathsFromLead(t, k + 1, p);
    }
  }

  lemma {:induction false} LeafPathsOrdered(t: Tree)
    requires Regular(t)
    ensures Ordered(LeafPaths(t))
    decreases t, |t.kids| + 1
  {
    if !Leafy(t) {
      LeafPathsFromOrdered(t, 0);
    }
  }

  lemma {:induction false} LeafPathsFromOrdered(t: Tree, k: nat)
    requires Regular(t)
    ensures Ordered(LeafPathsFrom(t, k))
    decreases t, |t.kids| - k
  {
    if k < Width(t) {
      var seg, below := SlotSeg(t, k), LeafPaths(SlotValue(t, k));
      var own, next := Prefixed(seg, below), LeafPathsFrom(t, k + 1);
      SlotStep(t, k);
      LeafPathsOrdered(SlotValue(t, k));
      LeafPathsFromOrdered(t, k + 1);
      forall a, b | 0 <= a < b < |own| ensures Before(own[a], own[b]) {
        assert own[a][1..] == below[a] && own[b][1..] == below[b];
      }
      forall a, b | 0 <= a < |own| && 0 <= b < |next| ensures Before(own[a], next[b]) {
        assert next[b] in next;
        var j := LeafPathsFromLead(t, k + 1, next[b]);
        SlotsDiffer(t, k, j);
      }
    }
  }

  // ----- what pruning keeps -----

  // The texts of the scalars, in document order.
  function Texts(t: Tree): seq<string>
    decreases t, |t.kids| + 1
  {
    if t.kind == ScalarNode then [t.value] else TextsFrom(t, 0)
  }

  function TextsFrom(t: Tree, k: nat): seq<string>
    decreases t, |t.kids| - k
  {
    if k >= Width(t) then [] else Texts(SlotValue(t, k)) + TextsFrom(t, k + 1)
  }

  // The texts of the scalars at those paths that are not gone.
  function Kept(t: Tree, paths: seq<seq<Segment>>, gone: seq<seq<Segment>>): seq<string> {
    if paths == [] then []
    else
      (if paths[0] in gone || Read(t, paths[0]).None? then [] else [Read(t, paths[0]).value]) +
      Kept(t, paths[1..], gone)
  }

  lemma {:induction false} KeptBoth(t: Tree, a: seq<seq<Segment>>, b: seq<seq<Segment>>, gone: seq<seq<Segment>>)
    ensures Kept(t, a + b, gone) == Kept(t, a, gone) + Kept(t, b, gone)
  {
    if a == [] {
      assert a + b == b;
    } else {
      assert (a + b)[1..] == a[1..] + b;
      KeptBoth(t, a[1..], b, gone);
    }
  }

  lemma {:induction false} KeptBelow(t: Tree, k: nat, paths: seq<seq<Segment>>, gone: seq<seq<Segment>>)
    requires Regular(t) && k < Width(t)
    ensures Kept(t, Prefixed(SlotSeg(t, k), paths), gone) == Kept(SlotValue(t, k), paths, Below(gone, SlotSeg(t, k)))
    decreases |paths|
  {
    var seg := SlotSeg(t, k);
    if paths != [] {
      SlotStep(t, k);
      BelowMember(gone, seg, paths[0]);
      assert ([seg] + paths[0])[1..] == paths[0];
      assert Prefixed(seg, paths)[1..] == Prefixed(seg, paths[1..]);
      KeptBelow(t, k, paths[1..], gone);
    }
  }

  // Removing leaves all at once leaves the scalars that are not among them, in their order.
  lemma {:induction false} PrunedKeeps(t: Tree, gone: seq<seq<Segment>>)
    requires Regular(t) && LeavesIn(t, gone)
    ensures Texts(Pruned(t, gone)) == Kept(t, LeafPaths(t), gone)
    decreases t, |t.kids| + 1
  {
    if IsContainer(t) {
      RegularPaired(t);
      PrunedPaired(t, gone, 0);
      var u := Pruned(t, gone);
      PrunedKeepsFrom(t, gone, 0, u, 0);
      if t.kids == [] {
        assert Kept(t, [[]], gone) == [];
      }
    } else {
      assert LeafPaths(t) == [[]] && [] !in gone;
      assert Kept(t, LeafPaths(t)[1..], gone) == [];
    }
  }

  lemma {:induction false} PrunedPaired(t: Tree, gone: seq<seq<Segment>>, k: nat)
    ensures t.kind == MappingNode ==> |PrunedFrom(t, gone, k)| % 2 == 0
    decreases Width(t) - k
  {
    hide Below, Pruned;
    if k < Width(t) {
      PrunedPaired(t, gone, k + 1);
      PrunedStep(t, gone, k);
    } else {
      PrunedPast(t, gone, k);
    }
  }

  // What is left of u from its j-th child on is what is left of t from its k-th.
  lemma {:induction false} PrunedKeepsFrom(t: Tree, gone: seq<seq<Segment>>, k: nat, u: Tree, j: nat)
    requires Regular(t) && LeavesIn(t, gone) && IsContainer(t) && u.kind == t.kind && Paired(u) && j <= Width(u)
    requires RestFrom(u, j) == PrunedFrom(t, gone, k)
    ensures TextsFrom(u, j) == Kept(t, LeafPathsFrom(t, k), gone)
    decreases t, |t.kids| - k
  {
    hide Regular, LeavesIn, Below, Pruned, PrunedFrom, Paired, LeafPaths, Kept, Texts, RestFrom;
    if k >= Width(t) {
      PrunedPast(t, gone, k);
      NothingRests(u, j);
      assert Kept(t, [], gone) == [] by { NothingKept(t, gone); }
    } else {
      var seg, c := SlotSeg(t, k), SlotValue(t, k);
      var below := Below(gone, seg);
      PrunedStep(t, gone, k);
      SlotStep(t, k);
      KeptBoth(t, Prefixed(seg, LeafPaths(c)), LeafPathsFrom(t, k + 1), gone);
      KeptBelow(t, k, LeafPaths(c), gone);
      if [] in below {
        LeafGone(t, gone, k);
        PrunedKeepsFrom(t, gone, k + 1, u, j);
      } else {
        LeavesBelow(t, gone, k);
        RestSplits(t, gone, k, u, j);
        PrunedKeeps(c, below);
        PrunedKeepsFrom(t, gone, k + 1, u, j + 1);
      }
    }
  }

  lemma NothingKept(t: Tree, gone: seq<seq<Segment>>)
    ensures Kept(t, [], gone) == []
  {
  }

  lemma NothingRests(u: Tree, j: nat)
    requires IsContainer(u) && Paired(u) && j <= Width(u) && RestFrom(u, j) == []
    ensures TextsFrom(u, j) == []
  {
  }

  lemma LeafGone(t: Tree, gone: seq<seq<Segment>>, k: nat)
    requires Regular(t) && LeavesIn(t, gone) && k < Width(t) && [] in Below(gone, SlotSeg(t, k))
    ensures Kept(SlotValue(t, k), LeafPaths(SlotValue(t, k)), Below(gone, SlotSeg(t, k))) == []
  {
    var seg := SlotSeg(t, k);
    SlotStep(t, k);
    BelowMember(gone, seg, []);
    assert [seg] + [] == [seg] && [seg][1..] == [] && LocalWalk(t, [seg]) == Some(SlotValue(t, k));
    assert Kept(SlotValue(t, k), [[]], Below(gone, seg)) == [];
  }

  lemma RestSplits(t: Tree, gone: seq<seq<Segment>>, k: nat, u: Tree, j: nat)
    requires IsContainer(t) && u.kind == t.kind && Paired(u) && j <= Width(u) && k < Width(t)
    requires [] !in Below(gone, SlotSeg(t, k)) && RestFrom(u, j) == PrunedFrom(t, gone, k)
    ensures j < Width(u) && SlotValue(u, j) == Pruned(SlotValue(t, k), Below(gone, SlotSeg(t, k)))
    ensures RestFrom(u, j + 1) == PrunedFrom(t, gone, k + 1)
  {
    hide Below, Pruned, PrunedFrom;
    PrunedStep(t, gone, k);
    var own := Pared(t, gone, k);
    assert own != [];
    RestStep(u, j);
    SplitSame(own, PrunedFrom(t, gone, k + 1), Slot(u, j, SlotValue(u, j)), RestFrom(u, j + 1));
  }

  // ----- their keys -----

  function Keyed(pre: seq<Segment>, paths: seq<seq<Segment>>): (r: seq<string>)
    ensures |r| == |paths| && forall i | 0 <= i < |r| :: r[i] == Encode(pre + paths[i])
  {
    seq(|paths|, i requires 0 <= i < |paths| => Encode(pre + paths[i]))
  }

  lemma KeyedConcat(pre: seq<Segment>, a: seq<seq<Segment>>, b: seq<seq<Segment>>)
    ensures Keyed(pre, a + b) == Keyed(pre, a) + Keyed(pre, b)
  {
    hide Encode;
  }

  lemma KeyedPrefixed(pre: seq<Segment>, seg: Segment, paths: seq<seq<Segment>>)
    ensures Keyed(pre, Prefixed(seg, paths)) == Keyed(pre + [seg], paths)
  {
    hide Encode;
    forall i | 0 <= i < |paths| ensures pre + ([seg] + paths[i]) == pre + [seg] + paths[i] {
    }
  }

  // Below the root, no key is empty.
  ghost predicate KeysBelow(t: Tree, pre: seq<Segment>) {
    (pre != [] && Rooted(pre)) || (pre == [] && t.kind == MappingNode && t.kids != [] && KeyIndex(t, "") < 0)
  }

  // The walk over the nodes collects the keys of these paths.
  lemma {:induction false} LeafKeysAre(g: Graph, n: Node, pre: seq<Segment>)
    requires WellFormed(g) && n in g && NoAliases(g) && Regular(Denote(g, n)) && KeysBelow(Denote(g, n), pre)
    ensures LeafKeys(g, n, Encode(pre)) == Keyed(pre, LeafPaths(Denote(g, n)))
    decreases Denote(g, n), |g[n].content| + 1
  {
    hide Denote, Ranked, Regular;
    DenoteStep(g, n);
    if Leafy(Denote(g, n)) {
      RootedPrefix(pre, 0);
      assert pre + [] == pre;
    } else if g[n].kind == MappingNode {
      EntryKeysAre(g, n, pre, 0);
    } else {
      RegularKinds(Denote(g, n));
      ItemKeysAre(g, n, pre, 0);
    }
  }

  lemma RegularKinds(t: Tree)
    requires Regular(t)
    ensures t.kind == ScalarNode || t.kind == SequenceNode || t.kind == MappingNode
  {
  }

  lemma ChildKeyed(g: Graph, n: Node, pre: seq<Segment>, k: nat)
    requires WellFormed(g) && n in g && Regular(Denote(g, n)) && KeysBelow(Denote(g, n), pre) && k < Width(Denote(g, n))
    ensures var t := Denote(g, n);
      && Rooted(pre + [SlotSeg(t, k)])
      && Encode(pre + [SlotSeg(t, k)]) == Extended(Encode(pre), SlotSeg(t, k))
      && Keyed(pre, LeafPathsFrom(t, k)) ==
         Keyed(pre + [SlotSeg(t, k)], LeafPaths(SlotValue(t, k))) + Keyed(pre, LeafPathsFrom(t, k + 1))
  {
    hide Denote, Ranked, Encode, Extended;
    var t := Denote(g, n);
    var seg := SlotSeg(t, k);
    SlotStep(t, k);
    EncodeSnoc(pre, seg);
    KeyedConcat(pre, Prefixed(seg, LeafPaths(SlotValue(t, k))), LeafPathsFrom(t, k + 1));
    KeyedPrefixed(pre, seg, LeafPaths(SlotValue(t, k)));
  }

  lemma {:induction false} EntryKeysAre(g: Graph, n: Node, pre: seq<Segment>, i: nat)
    requires WellFormed(g) && n in g && NoAliases(g) && Regular(Denote(g, n)) && KeysBelow(Denote(g, n), pre)
    requires g[n].kind == MappingNode && i % 2 == 0
    ensures EntryKeys(g, n, Encode(pre), i) == Keyed(pre, LeafPathsFrom(Denote(g, n), i / 2))
    decreases Denote(g, n), |g[n].content| - i
  {
    hide Denote, Ranked, Regular, Encode, Extended, LeafKeys, LeafPaths, LeafPathsFrom, IsMergeNode, KeysBelow,
         EntryKeys, Keyed;
    var t := Denote(g, n);
    DenoteStep(g, n);
    if i + 1 >= |g[n].content| {
      NoMoreEntries(g, n, Encode(pre), i);
    } else {
      var c := g[n].content[i + 1];
      EntryNamed(g, n, i);
      EntryKeysStep(g, n, Encode(pre), i);
      ChildKeyed(g, n, pre, i / 2);
      assert KeysBelow(Denote(g, c), pre + [SlotSeg(t, i / 2)]) by {
        BelowRooted(Denote(g, c), pre, SlotSeg(t, i / 2));
      }
      LeafKeysAre(g, c, pre + [SlotSeg(t, i / 2)]);
      EntryKeysAre(g, n, pre, i + 2);
    }
  }

  lemma NoMoreEntries(g: Graph, n: Node, prefix: string, i: nat)
    requires WellFormed(g) && n in g && g[n].kind == MappingNode && i % 2 == 0 && i + 1 >= |g[n].content|
    ensures EntryKeys(g, n, prefix, i) == [] && forall pre :: Keyed(pre, LeafPathsFrom(Denote(g, n), i / 2)) == []
  {
    hide Denote, Ranked;
    DenoteStep(g, n);
  }

  lemma BelowRooted(t: Tree, pre: seq<Segment>, seg: Segment)
    requires Rooted(pre + [seg])
    ensures KeysBelow(t, pre + [seg])
  {
  }

  lemma EntryNamed(g: Graph, n: Node, i: nat)
    requires WellFormed(g) && n in g && g[n].kind == MappingNode && Regular(Denote(g, n)) && KeyPosition(g[n], i)
    ensures g[n].content[i] in g && g[n].content[i + 1] in g && !IsMergeNode(g[g[n].content[i]])
    ensures var t := Denote(g, n);
      && i / 2 < Width(t) && SlotSeg(t, i / 2) == Name(g[g[n].content[i]].value)
      && SlotValue(t, i / 2) == Denote(g, g[n].content[i + 1]) && Regular(SlotValue(t, i / 2))
  {
    hide Denote, Ranked;
    DenoteStep(g, n);
    DenoteKey(g, n, i);
    assert KeyAt(Denote(g, n).kids, i);
    SlotStep(Denote(g, n), i / 2);
  }

  lemma {:induction false} ItemKeysAre(g: Graph, n: Node, pre: seq<Segment>, i: nat)
    requires WellFormed(g) && n in g && NoAliases(g) && Regular(Denote(g, n)) && KeysBelow(Denote(g, n), pre)
    requires g[n].kind == SequenceNode
    ensures ItemKeys(g, n, Encode(pre), i) == Keyed(pre, LeafPathsFrom(Denote(g, n), i))
    decreases Denote(g, n), |g[n].content| - i
  {
    hide Denote, Ranked, Regular, Encode, Extended, LeafKeys, LeafPaths, KeysBelow;
    var t := Denote(g, n);
    DenoteStep(g, n);
    if i < |g[n].content| {
      var c := g[n].content[i];
      SlotStep(t, i);
      ChildKeyed(g, n, pre, i);
      assert KeysBelow(Denote(g, c), pre + [Index(i)]) by { BelowRooted(Denote(g, c), pre, Index(i)); }
      LeafKeysAre(g, c, pre + [Index(i)]);
      ItemKeysAre(g, n, pre, i + 1);
    }
  }

  // ----- what the save deletes -----

  // Every leaf's key leads back to it.
  ghost predicate KeysParse(t: Tree) {
    t.kind == MappingNode && KeyIndex(t, "") < 0 && forall p | p in LeafPaths(t) :: ParseKey(Encode(p)) == Ok(p)
  }

  lemma OrderedSnoc(paths: seq<seq<Segment>>, last: seq<Segment>)
    requires Ordered(paths) && forall p | p in paths :: Before(p, last)
    ensures Ordered(paths + [last])
  {
    hide Before;
  }

  lemma OrderedInit(paths: seq<seq<Segment>>)
    requires Ordered(paths) && paths != []
    ensures var init, last := paths[..|paths| - 1], paths[|paths| - 1];
      Ordered(init) && forall p | p in init :: Before(p, last)
  {
    hide Before;
  }

  // The last key is stale, or the stale keys are those before it.
  lemma StaleLast(paths: seq<seq<Segment>>, want: set<string>, gone: seq<seq<Segment>>)
    returns (first: seq<seq<Segment>>)
    requires paths != [] && ParseKey(Encode(paths[|paths| - 1])) == Ok(paths[|paths| - 1])
    requires ParsedAll(Stale(Keyed([], paths), want), gone)
    ensures var init, last := paths[..|paths| - 1], paths[|paths| - 1];
      && ParsedAll(Stale(Keyed([], init), want), first)
      && gone == if Encode(last) in want then first else first + [last]
  {
    hide Encode, ParseKey;
    var n := |paths| - 1;
    var keys := Keyed([], paths);
    assert [] + paths[n] == paths[n];
    assert keys[..n] == Keyed([], paths[..n]);
    first := if keys[n] in want then gone else gone[..|gone| - 1];
    if keys[n] !in want {
      assert Stale(keys, want) == Stale(keys[..n], want) + [keys[n]];
      assert gone == first + [gone[|first|]];
    }
  }

  lemma {:induction false} GoneFollows(paths: seq<seq<Segment>>, want: set<string>, gone: seq<seq<Segment>>)
    requires Ordered(paths) && forall p | p in paths :: ParseKey(Encode(p)) == Ok(p)
    requires ParsedAll(Stale(Keyed([], paths), want), gone)
    ensures Ordered(gone) && forall p :: p in gone <==> p in paths && Encode(p) !in want
  {
    hide Encode, ParseKey, Ordered, ParsedAll, Stale, Keyed;
    if paths == [] {
      NoneGone(want, gone);
    } else {
      var init, last := paths[..|paths| - 1], paths[|paths| - 1];
      assert paths == init + [last] && last in paths && forall p | p in init :: p in paths;
      var first := StaleLast(paths, want, gone);
      OrderedInit(paths);
      GoneFollows(init, want, first);
      if Encode(last) !in want {
        OrderedSnoc(first, last);
      }
    }
  }

  lemma NoneGone(want: set<string>, gone: seq<seq<Segment>>)
    requires ParsedAll(Stale(Keyed([], []), want), gone)
    ensures gone == [] && Ordered(gone)
  {
  }

  // What DropStale deletes are the leaves that no entry names, and it deletes exactly
  // those if no item among them stands before another in its sequence.  If the items of
  // every sequence differ, it does so only then.
  lemma StaleRemovedExactly(g: Graph, h: Graph, root: Node, want: set<string>, gone: seq<seq<Segment>>)
    requires Simple(g, root) && KeysParse(Denote(g, root))
    requires Dropped(g, h, root, gone) && ParsedAll(Stale(LeafKeys(g, root, ""), want), gone)
    ensures forall p :: p in gone <==> p != [] && p in LeafPaths(Denote(g, root)) && Encode(p) !in want
    ensures root in h && WellFormed(h)
    ensures Still(gone) ==>
      && Denote(h, root) == Pruned(Denote(g, root), gone)
      && Texts(Denote(h, root)) == Kept(Denote(g, root), LeafPaths(Denote(g, root)), gone)
    ensures Distinct(Denote(g, root)) && Denote(h, root) == Pruned(Denote(g, root), gone) ==> Still(gone)
  {
    hide Denote, Ranked, Regular, Distinct, Encode, ParseKey, Simple, AliasFree, Dropped, Still, Pruned, LeafPaths,
         LeafKeys, Texts, Kept, LeavesIn, Ordered;
    SimpleRegular(g, root);
    var t := Denote(g, root);
    DroppedFacts(g, h, root, gone);
    GoneInOrder(g, root, want, gone);
    if Still(gone) {
      StillPrunes(t, gone);
      PrunedKeeps(t, gone);
    } else if Distinct(t) {
      ShiftChanges(t, gone);
    }
  }

  lemma GoneInOrder(g: Graph, root: Node, want: set<string>, gone: seq<seq<Segment>>)
    requires WellFormed(g) && root in g && NoAliases(g) && Regular(Denote(g, root)) && KeysParse(Denote(g, root))
    requires ParsedAll(Stale(LeafKeys(g, root, ""), want), gone)
    ensures forall p :: p in gone <==> p != [] && p in LeafPaths(Denote(g, root)) && Encode(p) !in want
    ensures Ordered(gone) && [] !in gone && LeavesIn(Denote(g, root), gone)
  {
    hide Denote, Ranked, Regular, Encode, ParseKey, Ordered, LeafPaths, LeafKeys;
    var t := Denote(g, root);
    EmptyKey();
    if t.kids == [] {
      NoLeafKeys(g, root);
      NoneGone(want, gone);
    } else {
      LeafPathsOrdered(t);
      LeafKeysAre(g, root, []);
      GoneFollows(LeafPaths(t), want, gone);
      forall p | p in LeafPaths(t) ensures p != [] && LocalWalk(t, p).Some? && Leafy(LocalWalk(t, p).value) {
        LeafPathsLead(t, p);
      }
    }
  }

  lemma SimpleRegular(g: Graph, root: Node)
    requires Simple(g, root)
    ensures WellFormed(g) && root in g && NoAliases(g) && Regular(Denote(g, root))
  {
    hide Denote, Ranked, Regular;
  }

  lemma NoLeafKeys(g: Graph, root: Node)
    requires WellFormed(g) && root in g && NoAliases(g) && IsContainer(Denote(g, root)) && Denote(g, root).kids == []
    ensures LeafKeys(g, root, "") == [] && LeafPaths(Denote(g, root)) == [[]]
  {
    hide Denote, Ranked;
    DenoteStep(g, root);
  }

  // ----- a document on which it deletes something else -----

  function Items(texts: seq<string>): Tree {
    Tree(SequenceNode, TAG_SEQ, "", seq(|texts|, i requires 0 <= i < |texts| => Lookup.Text(texts[i])))
  }

  function ListAt(name: string, texts: seq<string>): Tree {
    Tree(MappingNode, TAG_MAP, "", [Lookup.Text(name), Items(texts)])
  }

  // s: [a, b, c]
  ghost predicate IsListDocument(g: Graph, root: Node, s: Node, list: Node, a: Node, b: Node, c: Node) {
    && g.Keys == {root, s, list, a, b, c} && AllDifferent([root, s, list, a, b, c])
    && g[root].kind == MappingNode && g[root].tag == TAG_MAP && g[root].value == "" && g[root].alias == null
    && g[list].kind == SequenceNode && g[list].tag == TAG_SEQ && g[list].value == "" && g[list].alias == null
    && g[root].content == [s, list] && g[list].content == [a, b, c]
    && IsText(g[s], "s") && IsText(g[a], "a") && IsText(g[b], "b") && IsText(g[c], "c")
  }

  lemma ListDocumentDiffers(g: Graph, root: Node, s: Node, list: Node, a: Node, b: Node, c: Node)
    requires IsListDocument(g, root, s, list, a, b, c)
    ensures root != s && root != list && root != a && root != b && root != c && s != list && s != a && s != b && s != c
    ensures list != a && list != b && list != c && a != b && a != c && b != c
  {
    var ns := [root, s, list, a, b, c];
    assert ns[0] != ns[1] && ns[0] != ns[2] && ns[0] != ns[3] && ns[0] != ns[4] && ns[0] != ns[5];
    assert ns[1] != ns[2] && ns[1] != ns[3] && ns[1] != ns[4] && ns[1] != ns[5] && ns[2] != ns[3];
    assert ns[2] != ns[4] && ns[2] != ns[5] && ns[3] != ns[4] && ns[3] != ns[5] && ns[4] != ns[5];
  }

  lemma ListDocumentShape(g: Graph, root: Node, s: Node, list: Node, a: Node, b: Node, c: Node)
    requires IsListDocument(g, root, s, list, a, b, c)
    ensures AliasFree(g, root)
  {
    ListDocumentDiffers(g, root, s, list, a, b, c);
  }

  lemma ListDocumentWell(g: Graph, root: Node, s: Node, list: Node, a: Node, b: Node, c: Node)
    requires IsListDocument(g, root, s, list, a, b, c)
    ensures WellFormed(g)
  {
    ListDocumentDiffers(g, root, s, list, a, b, c);
    var rank := map n | n in g :: if n == root then 2 else if n == list then 1 else 0;
    assert Ranked(g, rank) by {
      forall n | n in g ensures RankedAt(g, rank, n) {
      }
    }
  }

  lemma ListDocumentDenotes(g: Graph, root: Node, s: Node, list: Node, a: Node, b: Node, c: Node)
    requires IsListDocument(g, root, s, list, a, b, c) && WellFormed(g)
    ensures Denote(g, root) == ListAt("s", ["a", "b", "c"]) && Regular(Denote(g, root))
  {
    hide Ranked, Denote;
    LeafDenotes(g, s);
    LeafDenotes(g, a);
    LeafDenotes(g, b);
    LeafDenotes(g, c);
    DenoteStep(g, list);
    DenoteStep(g, root);
    assert Denote(g, list).kids == Items(["a", "b", "c"]).kids;
    assert Denote(g, root).kids == [Lookup.Text("s"), Items(["a", "b", "c"])];
    ListRegular("s", ["a", "b", "c"]);
  }

  lemma ListRegular(name: string, texts: seq<string>)
    requires name != MERGE_KEY
    ensures Regular(ListAt(name, texts))
  {
    var list := Items(texts);
    forall i | 0 <= i < |list.kids| ensures Regular(list.kids[i]) {
      assert list.kids[i] == Lookup.Text(texts[i]) && Regular(Lookup.Text(texts[i]));
    }
    assert Regular(list) && Regular(Lookup.Text(name));
  }

  lemma ItemLeaves(list: Tree)
    requires list == Items(["a", "b", "c"])
    ensures LeafPaths(list) == [[Index(0)], [Index(1)], [Index(2)]]
  {
    assert SlotValue(list, 0) == Lookup.Text("a") && SlotValue(list, 1) == Lookup.Text("b");
    assert SlotValue(list, 2) == Lookup.Text("c");
    forall i: nat ensures Prefixed(Index(i), [[]]) == [[Index(i)]] {
      assert [Index(i)] + [] == [Index(i)];
    }
    assert LeafPathsFrom(list, 3) == [];
    assert LeafPathsFrom(list, 2) == [[Index(2)]];
    assert LeafPathsFrom(list, 1) == [[Index(1)], [Index(2)]];
    assert LeafPathsFrom(list, 0) == [[Index(0)], [Index(1)], [Index(2)]];
  }

  lemma ListLeaves(t: Tree)
    requires t == ListAt("s", ["a", "b", "c"])
    ensures LeafPaths(t) == [[Name("s"), Index(0)], [Name("s"), Index(1)], [Name("s"), Index(2)]]
  {
    var below := [[Index(0)], [Index(1)], [Index(2)]];
    var all := Prefixed(Name("s"), below);
    ItemLeaves(SlotValue(t, 0));
    assert LeafPathsFrom(t, 0) == all + LeafPathsFrom(t, 1);
    assert LeafPathsFrom(t, 1) == [];
    assert forall i: nat :: [Name("s")] + [Index(i)] == [Name("s"), Index(i)];
    assert all == [all[0], all[1], all[2]];
  }

  lemma ListKeys()
    ensures forall i: nat | i < 3 :: ParseKey(Encode([Name("s"), Index(i)])) == Ok([Name("s"), Index(i)])
    ensures Encode([Name("s"), Index(0)]) != Encode([Name("s"), Index(2)])
    ensures Encode([Name("s"), Index(1)]) != Encode([Name("s"), Index(2)])
  {
    hide Encode, ParseKey;
    forall i: nat | i < 3 ensures ParseKey(Encode([Name("s"), Index(i)])) == Ok([Name("s"), Index(i)]) {
      RoundTrip([Name("s"), Index(i)]);
    }
  }

  lemma ListRemoved(name: string, texts: seq<string>, i: nat)
    requires name != MERGE_KEY && i < |texts|
    ensures Removed(ListAt(name, texts), [Name(name), Index(i)]) == ListAt(name, texts[..i] + texts[i + 1..])
  {
    var t, p, left := ListAt(name, texts), [Name(name), Index(i)], texts[..i] + texts[i + 1..];
    assert p[1..] == [Index(i)];
    assert Removed(Items(texts), [Index(i)]).kids == Items(left).kids;
    assert LocalStep(t, Name(name)) == Some(Items(texts));
    assert Removed(t, p).kids == [Lookup.Text(name), Items(left)];
  }

  // One after the other: the second deletion takes c instead of b.
  lemma ListDropped()
    ensures DropAll(ListAt("s", ["a", "b", "c"]), [[Name("s"), Index(0)], [Name("s"), Index(1)]]) == ListAt("s", ["b"])
  {
    hide Removed, ListAt;
    var t, p, q := ListAt("s", ["a", "b", "c"]), [Name("s"), Index(0)], [Name("s"), Index(1)];
    DropCons(t, p, [q]);
    DropCons(Removed(t, p), q, []);
    assert [p] + [q] == [p, q] && [q] + [] == [q];
    ListRemoved("s", ["a", "b", "c"], 0);
    assert ["a", "b", "c"][..0] + ["a", "b", "c"][1..] == ["b", "c"];
    ListRemoved("s", ["b", "c"], 1);
    assert ["b", "c"][..1] + ["b", "c"][2..] == ["b"];
  }

  lemma BelowEach(gone: seq<seq<Segment>>, below: seq<seq<Segment>>)
    requires gone == [[Name("s"), Index(0)], [Name("s"), Index(1)]] && below == [[Index(0)], [Index(1)]]
    ensures Below(gone, Name("s")) == below
    ensures Below(below, Index(0)) == [[]] && Below(below, Index(1)) == [[]] && Below(below, Index(2)) == []
  {
    TwoBelow(gone[0], gone[1], Name("s"));
    assert [Name("s"), Index(0)][1..] == [Index(0)] && [Name("s"), Index(1)][1..] == [Index(1)];
    forall i: nat | i < 3 ensures Below(below, Index(i)) == if i == 2 then [] else [[]] {
      TwoBelow(below[0], below[1], Index(i));
      assert [Index(0)][1..] == [] && [Index(1)][1..] == [];
    }
  }

  lemma TwoBelow(p: seq<Segment>, q: seq<Segment>, seg: Segment)
    requires p != [] && q != []
    ensures Below([p, q], seg) ==
      (if p[0] == seg then [p[1..]] else []) + (if q[0] == seg then [q[1..]] else [])
  {
    BelowCons(p, [q], seg);
    BelowCons(q, [], seg);
    assert [p] + [q] == [p, q] && [q] + [] == [q];
  }

  lemma ListPruned()
    ensures Pruned(ListAt("s", ["a", "b", "c"]), [[Name("s"), Index(0)], [Name("s"), Index(1)]]) == ListAt("s", ["c"])
  {
    hide Below;
    var t, list := ListAt("s", ["a", "b", "c"]), Items(["a", "b", "c"]);
    var gone, below := [[Name("s"), Index(0)], [Name("s"), Index(1)]], [[Index(0)], [Index(1)]];
    BelowEach(gone, below);
    assert PrunedFrom(list, below, 3) == [];
    assert PrunedFrom(list, below, 2) == [Lookup.Text("c")];
    assert PrunedFrom(list, below, 1) == [Lookup.Text("c")];
    assert PrunedFrom(list, below, 0) == [Lookup.Text("c")];
    assert Pruned(list, below) == Items(["c"]);
    assert PrunedFrom(t, gone, 1) == [];
  }

  // With s[2] as the only entry the save should leave c; it leaves b, and writes c two
  // places behind it.
  lemma StaleItemsShift(g: Graph, root: Node, s: Node, list: Node, a: Node, b: Node, c: Node, convert: Convert)
    requires IsListDocument(g, root, s, list, a, b, c) && convert("c", "string") == Leaf(TAG_STR, "c", 0)
    ensures var p, gone := [Name("s"), Index(2)], [[Name("s"), Index(0)], [Name("s"), Index(1)]];
      && Simple(g, root) && KeysParse(Denote(g, root)) && ParsedAll(Stale(LeafKeys(g, root, ""), {Encode(p)}), gone)
      && Pruned(Denote(g, root), gone) == ListAt("s", ["c"])
      && DropAll(Denote(g, root), gone) == ListAt("s", ["b"])
      && Applied(ListAt("s", ["b"]), p, Entry(Encode(p), "c", "string", "", ""), convert) ==
         Some(ListAt("s", ["b"]).(kids :=
           [Lookup.Text("s"), Items(["b"]).(kids := [Lookup.Text("b"), NullTree(), Lookup.Text("c")])]))
  {
    hide Denote, Ranked, Encode, ParseKey, LeafKeys, Pruned, DropAll, LeafPaths, Regular, Applied, AliasFree;
    var t, p := ListAt("s", ["a", "b", "c"]), [Name("s"), Index(2)];
    ListDocumentShape(g, root, s, list, a, b, c);
    ListDocumentWell(g, root, s, list, a, b, c);
    ListDocumentDenotes(g, root, s, list, a, b, c);
    assert NoAliases(g);
    EmptyKey();
    LeafKeysAre(g, root, []);
    ListLeaves(t);
    ListKeys();
    var keys := Keyed([], LeafPaths(t));
    assert forall q: seq<Segment> :: [] + q == q;
    assert keys == [Encode(LeafPaths(t)[0]), Encode(LeafPaths(t)[1]), Encode(LeafPaths(t)[2])];
    StaleOfThree(keys[0], keys[1], keys[2]);
    ListPruned();
    ListDropped();
    ListWritten(Entry(Encode(p), "c", "string", "", ""), convert);
  }

  lemma StaleOfThree(k: string, l: string, m: string)
    requires k != m && l != m
    ensures Stale([k, l, m], {m}) == [k, l]
  {
    assert [k, l, m][..2] == [k, l] && [k, l][..1] == [k] && [k][..0] == [];
    assert Stale([k], {m}) == [k];
    assert Stale([k, l], {m}) == [k, l];
  }

  lemma ListWritten(e: Entry, convert: Convert)
    requires e.value == "c" && e.typ == "string" && convert("c", "string") == Leaf(TAG_STR, "c", 0)
    ensures Applied(ListAt("s", ["b"]), [Name("s"), Index(2)], e, convert) ==
      Some(ListAt("s", ["b"]).(kids :=
        [Lookup.Text("s"), Items(["b"]).(kids := [Lookup.Text("b"), NullTree(), Lookup.Text("c")])]))
  {
    var t, p := ListAt("s", ["b"]), [Name("s"), Index(2)];
    ListRegular("s", ["b"]);
    RegularRead(t, p);
    var leaf, list := convert("c", "string"), Items(["b"]);
    assert p[1..] == [Index(2)] && list.kids == [Lookup.Text("b")];
    assert LocalStep(t, Name("s")) == Some(list) && LocalWalk(list, [Index(2)]) == None;
    assert ChildFor(t, p[0], p[1]) == list;
    var padded := Pad(list.kids, 2)[2 := LeafTree(leaf)];
    assert padded == [Lookup.Text("b"), NullTree(), Lookup.Text("c")];
    assert Upserted(list, [Index(2)], leaf) == Some(list.(kids := padded));
    assert Upserted(t, p, leaf).value.kids == [Lookup.Text("s"), list.(kids := padded)];
  }
}
