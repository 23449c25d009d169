/** A table that is loaded from a document and saved without an edit.

  The comment of a row is taken to be the best one of its key and value, as the comment
  parser records it. */
module Loading {
  import opened Prelude
  import opened KeyPath
  import opened YamlNode
  import opened Lookup
  import opened Reading
  import opened Walk
  import opened PatchTree
  import opened PhysicalLeaves
  import opened PatchPlan
  import opened Patch
  import opened Patching
  import opened FileOrder
  import opened FileListing
  import Flattening

  // ----- the leaves of a file -----

  // A scalar, or a container with nothing in it.
  ghost predicate LeafNode(g: Graph, m: Node) {
    m in g && (g[m].kind == ScalarNode ||
      ((g[m].kind == MappingNode || g[m].kind == SequenceNode) && g[m].content == []))
  }

  // p leads from n, past no alias, to a leaf whose key is k.
  ghost predicate LeadsToLeaf(g: Graph, n: Node, pre: seq<Segment>, k: string, p: seq<Segment>)
    requires WellFormed(g) && n in g
  {
    k == Encode(pre + p) && k != "" && Leads(g, n, p).Some? && LeafNode(g, Leads(g, n, p).value)
  }

  lemma StepLeads(g: Graph, n: Node, seg: Segment, c: Node, q: seq<Segment>)
    requires WellFormed(g) && n in g && c in g && g[n].kind != AliasNode
    requires ReadSlotStep(g, n, seg) && g[n].content[SlotIn(g, n, seg)] == c
    ensures Leads(g, n, [seg] + q) == Leads(g, c, q)
  {
    hide SlotIn;
    assert ([seg] + q)[1..] == q;
  }

  lemma StepsToLeaf(g: Graph, n: Node, pre: seq<Segment>, k: string, seg: Segment, c: Node, q: seq<Segment>)
    requires WellFormed(g) && n in g && c in g && g[n].kind != AliasNode
    requires ReadSlotStep(g, n, seg) && g[n].content[SlotIn(g, n, seg)] == c
    ensures LeadsToLeaf(g, n, pre, k, [seg] + q) <==> LeadsToLeaf(g, c, pre + [seg], k, q)
  {
    hide SlotIn, Encode, Leads, LeafNode;
    StepLeads(g, n, seg, c, q);
    assert pre + [seg] + q == pre + ([seg] + q);
  }

  // The entry at position i, by its name.
  lemma EntrySlot(g: Graph, n: Node, i: nat)
    requires WellFormed(g) && n in g && g[n].kind == MappingNode && DistinctKeys(Denote(g, n)) && KeyPosition(g[n], i)
    ensures g[n].content[i] in g && g[n].content[i + 1] in g && DistinctKeys(Denote(g, g[n].content[i + 1]))
    ensures Denote(g, g[n].content[i + 1]) < Denote(g, n)
    ensures var key := g[g[n].content[i]];
      !IsMergeNode(key) ==> ReadSlotStep(g, n, Name(key.value)) && SlotIn(g, n, Name(key.value)) == i + 1
  {
    hide Denote, Ranked, DistinctKeys;
    DenoteStep(g, n);
    DenoteKey(g, n, i);
    KidDistinct(Denote(g, n), i + 1);
    if !IsMergeNode(g[g[n].content[i]]) {
      KeyIsAt(Denote(g, n), i);
    }
  }

  lemma ItemSlot(g: Graph, n: Node, i: nat)
    requires WellFormed(g) && n in g && g[n].kind == SequenceNode && DistinctKeys(Denote(g, n)) && i < |g[n].content|
    ensures g[n].content[i] in g && DistinctKeys(Denote(g, g[n].content[i]))
    ensures Denote(g, g[n].content[i]) < Denote(g, n)
    ensures ReadSlotStep(g, n, Index(i)) && SlotIn(g, n, Index(i)) == i
  {
    hide Denote, Ranked, DistinctKeys;
    DenoteStep(g, n);
    KidDistinct(Denote(g, n), i);
  }

  // Every collected key is that of a leaf.
  lemma {:induction false} CollectedLeads(g: Graph, n: Node, pre: seq<Segment>, k: string) returns (p: seq<Segment>)
    requires WellFormed(g) && n in g && DistinctKeys(Denote(g, n)) && k in LeafKeys(g, n, Encode(pre))
    ensures LeadsToLeaf(g, n, pre, k, p)
    decreases Denote(g, n), |g[n].content| + 1
  {
    hide Denote, Ranked, Encode, DistinctKeys;
    if g[n].kind == MappingNode && g[n].content != [] {
      p := CollectedEntry(g, n, pre, k, 0);
    } else if g[n].kind == SequenceNode && g[n].content != [] {
      p := CollectedItem(g, n, pre, k, 0);
    } else {
      p := [];
      assert pre + p == pre;
    }
  }

  lemma {:induction false} CollectedEntry(g: Graph, n: Node, pre: seq<Segment>, k: string, i: nat)
    returns (p: seq<Segment>)
    requires WellFormed(g) && n in g && DistinctKeys(Denote(g, n)) && g[n].kind == MappingNode && i % 2 == 0
    requires k in EntryKeys(g, n, Encode(pre), i)
    ensures LeadsToLeaf(g, n, pre, k, p)
    decreases Denote(g, n), |g[n].content| - i
  {
    hide Denote, Ranked, Encode, DistinctKeys, LeafKeys, LeadsToLeaf, IsMergeNode, Extended, SlotIn;
    EntrySlot(g, n, i);
    if k in EntryKeys(g, n, Encode(pre), i + 2) {
      p := CollectedEntry(g, n, pre, k, i + 2);
    } else {
      var c, seg := g[n].content[i + 1], Name(g[g[n].content[i]].value);
      EncodeSnoc(pre, seg);
      var q := CollectedLeads(g, c, pre + [seg], k);
      StepsToLeaf(g, n, pre, k, seg, c, q);
      p := [seg] + q;
    }
  }

  lemma {:induction false} CollectedItem(g: Graph, n: Node, pre: seq<Segment>, k: string, i: nat)
    returns (p: seq<Segment>)
    requires WellFormed(g) && n in g && DistinctKeys(Denote(g, n)) && g[n].kind == SequenceNode
    requires k in ItemKeys(g, n, Encode(pre), i)
    ensures LeadsToLeaf(g, n, pre, k, p)
    decreases Denote(g, n), |g[n].content| - i
  {
    hide Denote, Ranked, Encode, DistinctKeys, LeafKeys, LeadsToLeaf, Extended, SlotIn;
    ItemSlot(g, n, i);
    if k in ItemKeys(g, n, Encode(pre), i + 1) {
      p := CollectedItem(g, n, pre, k, i + 1);
    } else {
      var c := g[n].content[i];
      EncodeSnoc(pre, Index(i));
      var q := CollectedLeads(g, c, pre + [Index(i)], k);
      StepsToLeaf(g, n, pre, k, Index(i), c, q);
      p := [Index(i)] + q;
    }
  }

  // And the key of every leaf is collected.
  lemma {:induction false} LeafCollected(g: Graph, n: Node, pre: seq<Segment>, k: string, p: seq<Segment>)
    requires WellFormed(g) && n in g && DistinctKeys(Denote(g, n)) && LeadsToLeaf(g, n, pre, k, p)
    ensures k in LeafKeys(g, n, Encode(pre))
    decreases |p|
  {
    hide Denote, Ranked, Encode, DistinctKeys, Extended, LocalStep, IsMergeNode;
    if p == [] {
      assert pre + p == pre;
    } else {
      DenoteStep(g, n);
      var c := g[n].content[SlotIn(g, n, p[0])];
      assert p == [p[0]] + p[1..];
      StepsToLeaf(g, n, pre, k, p[0], c, p[1..]);
      EncodeSnoc(pre, p[0]);
      if g[n].kind == SequenceNode {
        ItemOfStep(g, n, p[0]);
        ItemSlot(g, n, p[0].index);
        LeafCollected(g, c, pre + [p[0]], k, p[1..]);
        ItemKeysHas(g, n, Encode(pre), 0, p[0].index, k);
      } else {
        var i := EntryOfStep(g, n, p[0]);
        EntrySlot(g, n, i);
        LeafCollected(g, c, pre + [p[0]], k, p[1..]);
        EntryKeysHas(g, n, Encode(pre), 0, i, k);
      }
    }
  }

  lemma ItemOfStep(g: Graph, n: Node, seg: Segment)
    requires WellFormed(g) && n in g && g[n].kind == SequenceNode && ReadSlotStep(g, n, seg)
    ensures seg.Index? && SlotIn(g, n, seg) == seg.index < |g[n].content|
  {
    hide Denote, Ranked;
    DenoteStep(g, n);
  }

  lemma EntryOfStep(g: Graph, n: Node, seg: Segment) returns (i: nat)
    requires WellFormed(g) && n in g && g[n].kind != AliasNode && g[n].kind != SequenceNode && ReadSlotStep(g, n, seg)
    ensures g[n].kind == MappingNode && KeyPosition(g[n], i) && g[n].content[i] in g && i + 1 == SlotIn(g, n, seg)
    ensures seg == Name(g[g[n].content[i]].value) && !IsMergeNode(g[g[n].content[i]])
  {
    hide Denote, Ranked;
    DenoteStep(g, n);
    KeyIndexFinds(Denote(g, n).kids, seg.name, 0);
    i := KeyIndex(Denote(g, n), seg.name);
    DenoteKey(g, n, i);
  }

  lemma {:induction false} ItemKeysHas(g: Graph, n: Node, prefix: string, i: nat, j: nat, k: string)
    requires WellFormed(g) && n in g && i <= j < |g[n].content| && g[n].content[j] in g
    requires k in LeafKeys(g, g[n].content[j], Extended(prefix, Index(j)))
    ensures k in ItemKeys(g, n, prefix, i)
    decreases j - i
  {
    hide Ranked, LeafKeys, Extended;
    if i < j {
      ItemKeysHas(g, n, prefix, i + 1, j, k);
    }
  }

  lemma LeavesAreCollected(g: Graph, root: Node, k: string)
    requires WellFormed(g) && root in g && DistinctKeys(Denote(g, root))
    ensures k in LeafKeys(g, root, "") <==> exists p :: LeadsToLeaf(g, root, [], k, p)
  {
    hide Denote, Ranked, Encode, DistinctKeys, LeafKeys, LeadsToLeaf;
    EmptyKey();
    if k in LeafKeys(g, root, "") {
      var p := CollectedLeads(g, root, [], k);
    }
    if p :| LeadsToLeaf(g, root, [], k, p) {
      LeafCollected(g, root, [], k, p);
    }
  }

  lemma {:induction false} LeadsWalks(g: Graph, n: Node, p: seq<Segment>)
    requires WellFormed(g) && n in g && Leads(g, n, p).Some?
    ensures Leads(g, n, p).value in g
    ensures LocalWalk(Denote(g, n), p) == Some(Denote(g, Leads(g, n, p).value))
    decreases |p|
  {
    hide Denote, Ranked, SlotIn;
    if p != [] {
      var c := g[n].content[SlotIn(g, n, p[0])];
      StepDenotes(g, n, p[0]);
      LeadsWalks(g, c, p[1..]);
    }
  }

  lemma StepDenotes(g: Graph, n: Node, seg: Segment)
    requires WellFormed(g) && n in g && g[n].kind != AliasNode && ReadSlotStep(g, n, seg)
    ensures LocalStep(Denote(g, n), seg) == Some(Denote(g, g[n].content[SlotIn(g, n, seg)]))
  {
    hide Denote, Ranked;
    DenoteStep(g, n);
  }

  // What the lookup finds locally it finds.
  lemma {:induction false} LocalIsLazy(t: Tree, p: seq<Segment>)
    requires LocalWalk(t, p).Some?
    ensures LazyWalk(t, p) == LocalWalk(t, p)
    decreases |p|
  {
    if p != [] {
      LocalIsLazy(LocalStep(t, p[0]).value, p[1..]);
    }
  }

  // ----- the row of a path -----

  // bestComment: the inline comment, else the one above; behind an alias nothing is
  // recorded.
  ghost function RowComment(g: Graph, root: Node, p: seq<Segment>): string
    requires WellFormed(g) && root in g
  {
    var c := EffComments(g, root, p);
    if c.2 then "" else if c.1 != "" then c.1 else c.0
  }

  // p gets a row.
  ghost predicate Listed(t: Tree, p: seq<Segment>) {
    p != [] && Find(Expand(t), p).Some?
  }

  // What the row of p saves if nothing is edited.
  ghost function RowEntry(g: Graph, root: Node, p: seq<Segment>, render: Flattening.Render): Entry
    requires WellFormed(g) && root in g && Listed(Denote(g, root), p)
  {
    var e := Flattening.EntryFor(Encode(p), Find(Expand(Denote(g, root)), p).value, render);
    Entry(e.key, e.value, e.typ, RowComment(g, root, p), "")
  }

  // The row of p shows a container as such, and a scalar by a text that means the same.
  ghost predicate ShownRight(t: Tree, p: seq<Segment>, render: Flattening.Render) {
    match LazyWalk(t, p)
    case None => false
    case Some(u) =>
      var (text, typ) := render(Expand(u));
      IsContainer(u) || (u.kind == ScalarNode && SameMeaning(u.value, text, typ))
  }

  // A comment as it is loaded counts as unchanged.
  lemma LoadedCommentKept(g: Graph, root: Node, p: seq<Segment>)
    requires WellFormed(g) && root in g
    ensures CommentsUnchanged(g, root, p, Entry("", "", "", RowComment(g, root, p), ""))
  {
    hide EffComments;
  }

  // Saving the row of p unedited changes nothing exactly if it shows what is there.
  lemma RowUnedited(g: Graph, root: Node, p: seq<Segment>, render: Flattening.Render)
    requires WellFormed(g) && root in g && Listed(Denote(g, root), p) && ParseKey(Encode(p)) == Ok(p)
    requires MergesMappings(Denote(g, root)) && ReachedResolved(Denote(g, root))
    ensures Unedited(g, root, RowEntry(g, root, p, render)) <==> ShownRight(Denote(g, root), p, render)
  {
    hide Denote, Ranked, EffComments, ReachedResolved, MergesMappings, Encode, ParseKey, LazyWalk, Find;
    var t := Denote(g, root);
    ReachedWalkAgrees(t, p);
    LoadedCommentKept(g, root, p);
    var u := LazyWalk(t, p).value;
    assert u.kind == MappingNode || u.kind == SequenceNode ==> IsContainer(u);
  }

  // The same of a row that is set to null because it was null.
  lemma NullRowUnedited(g: Graph, root: Node, p: seq<Segment>, render: Flattening.Render)
    requires WellFormed(g) && root in g && Listed(Denote(g, root), p) && ParseKey(Encode(p)) == Ok(p)
    requires MergesMappings(Denote(g, root)) && ReachedResolved(Denote(g, root)) && Typed(render)
    requires RowEntry(g, root, p, render).typ == "null"
    ensures Unedited(g, root, RowEntry(g, root, p, render).(value := "~")) <==>
      ShownRight(Denote(g, root), p, render)
  {
    hide Denote, Ranked, EffComments, ReachedResolved, MergesMappings, Encode, ParseKey, LazyWalk, Find;
    var t := Denote(g, root);
    ReachedWalkAgrees(t, p);
    LoadedCommentKept(g, root, p);
    var u := LazyWalk(t, p).value;
    assert u.kind == MappingNode || u.kind == SequenceNode ==> IsContainer(u);
  }

  // The text of a null is one way to spell it, and only containers are tagged as such.
  ghost predicate Typed(render: Flattening.Render) {
    && (forall v {:trigger render(v)} | render(v).1 == "null" :: render(v).0 in ["", "~", "null"])
    && (forall v {:trigger render(v)} :: render(v).1 != "map" && render(v).1 != "list")
  }

  // ----- the whole table -----

  // e is what the row of p saves, a null perhaps as one.
  ghost predicate Saves(g: Graph, root: Node, p: seq<Segment>, e: Entry, render: Flattening.Render)
    requires WellFormed(g) && root in g
  {
    Listed(Denote(g, root), p) &&
    var r := RowEntry(g, root, p, render);
    e == r || (r.typ == "null" && e == r.(value := "~"))
  }

  // The entries are those of rows, and the row of every value that is no section has one.
  ghost predicate SavesTable(g: Graph, root: Node, entries: seq<Entry>, render: Flattening.Render)
    requires WellFormed(g) && root in g
  {
    && (forall e | e in entries :: exists p :: Saves(g, root, p, e, render))
    && forall p {:trigger Listed(Denote(g, root), p)} |
         Listed(Denote(g, root), p) && !Flattening.IsSection(Find(Expand(Denote(g, root)), p).value) ::
         exists e :: e in entries && e.key == Encode(p)
  }

  // A document that has a table: its merge keys are resolved and its keys distinct, and
  // every path of its value survives the flat form.
  ghost predicate HasTable(t: Tree) {
    && t.kind == MappingNode && MergesMappings(t) && ReachedResolved(t) && DistinctKeys(t)
    && forall p {:trigger Listed(t, p)} | Listed(t, p) :: ParseKey(Encode(p)) == Ok(p)
  }

  lemma SavesUnedited(g: Graph, root: Node, p: seq<Segment>, e: Entry, render: Flattening.Render)
    requires WellFormed(g) && root in g && HasTable(Denote(g, root)) && Typed(render)
    requires Saves(g, root, p, e, render)
    ensures Unedited(g, root, e) <==> ShownRight(Denote(g, root), p, render)
    ensures e.key == Encode(p)
  {
    hide Denote, Ranked, Encode, ParseKey, Unedited, ShownRight;
    if e == RowEntry(g, root, p, render) {
      RowUnedited(g, root, p, render);
    } else {
      NullRowUnedited(g, root, p, render);
    }
  }

  // Every leaf of the file gets a row that is no section.
  lemma LeafListed(g: Graph, root: Node, k: string) returns (p: seq<Segment>)
    requires WellFormed(g) && root in g && HasTable(Denote(g, root)) && k in LeafKeys(g, root, "")
    ensures Listed(Denote(g, root), p) && !Flattening.IsSection(Find(Expand(Denote(g, root)), p).value)
    ensures k == Encode(p)
  {
    hide Denote, Ranked, Encode, ParseKey, LeafKeys, ReachedResolved, DistinctKeys, MergesMappings, Leads;
    var t := Denote(g, root);
    EmptyKey();
    p := CollectedLeads(g, root, [], k);
    assert [] + p == p;
    LeadsWalks(g, root, p);
    LocalIsLazy(t, p);
    ReachedWalkAgrees(t, p);
    DenoteStep(g, Leads(g, root, p).value);
    LeafIsNoSection(Denote(g, Leads(g, root, p).value));
  }

  lemma LeafIsNoSection(u: Tree)
    requires u.kind == ScalarNode || u.kids == []
    ensures !Flattening.IsSection(Expand(u))
  {
    if u.kids == [] {
      assert Locals(u, 0) == map[] && Inherited(u, 0) == map[];
    }
  }

  lemma SectionShown(t: Tree, p: seq<Segment>, render: Flattening.Render)
    requires MergesMappings(t) && ReachedResolved(t) && Listed(t, p) && Flattening.IsSection(Find(Expand(t), p).value)
    ensures ShownRight(t, p, render)
  {
    hide ReachedResolved, MergesMappings, LazyWalk, Find;
    ReachedWalkAgrees(t, p);
  }

  // A table that is saved as it was loaded agrees with its document, so that saving it
  // copies the document, exactly if every row shows what is there.
  lemma TableAgrees(g: Graph, root: Node, entries: seq<Entry>, render: Flattening.Render)
    requires WellFormed(g) && root in g && HasTable(Denote(g, root)) && Typed(render)
    requires SavesTable(g, root, entries, render)
    ensures Agrees(g, root, entries) <==>
      forall p {:trigger Listed(Denote(g, root), p)} | Listed(Denote(g, root), p) ::
        ShownRight(Denote(g, root), p, render)
  {
    hide Denote, Ranked, Encode, ParseKey, Unedited, ShownRight, LeafKeys, Saves, ReachedResolved,
         MergesMappings, DistinctKeys;
    var t := Denote(g, root);
    if Agrees(g, root, entries) {
      forall p {:trigger Listed(t, p)} | Listed(t, p) ensures ShownRight(t, p, render) {
        if Flattening.IsSection(Find(Expand(t), p).value) {
          SectionShown(t, p, render);
        } else {
          var e :| e in entries && e.key == Encode(p);
          var q :| Saves(g, root, q, e, render);
          SavesUnedited(g, root, q, e, render);
          SavesListed(g, root, q, e, render);
          assert ParseKey(Encode(p)) == Ok(p) && ParseKey(Encode(q)) == Ok(q);
        }
      }
    }
    if forall p {:trigger Listed(t, p)} | Listed(t, p) :: ShownRight(t, p, render) {
      forall e | e in entries ensures Unedited(g, root, e) {
        var p :| Saves(g, root, p, e, render);
        SavesListed(g, root, p, e, render);
        SavesUnedited(g, root, p, e, render);
      }
      forall k | k in LeafKeys(g, root, "") ensures exists i :: 0 <= i < |entries| && entries[i].key == k {
        var p := LeafListed(g, root, k);
        var e :| e in entries && e.key == Encode(p);
        var i :| 0 <= i < |entries| && entries[i] == e;
      }
    }
  }

  lemma SavesListed(g: Graph, root: Node, p: seq<Segment>, e: Entry, render: Flattening.Render)
    requires WellFormed(g) && root in g && Saves(g, root, p, e, render)
    ensures Listed(Denote(g, root), p)
  {
  }

  // ----- a number written in another way -----

  lemma OneEntry(u: Tree, p: seq<Segment>)
    requires u.kind == ScalarNode && u.kids == [] && Find(Expand(Mapping(Lookup.Text("a"), u)), p).Some?
    ensures p == [] || p == [Name("a")]
  {
    OneKey(Lookup.Text("a"), u, "a");
    if p != [] {
      assert Find(Scalar(u.tag, u.value), p[1..]).Some?;
      assert p[1..] == [] && p == [p[0]] + p[1..];
    }
  }

  lemma OneEntryTable(u: Tree)
    requires u.kind == ScalarNode && u.kids == []
    ensures var t := Mapping(Lookup.Text("a"), u);
      HasTable(t) && Listed(t, [Name("a")]) && LazyWalk(t, [Name("a")]) == Some(u)
  {
    var t := Mapping(Lookup.Text("a"), u);
    OneKey(Lookup.Text("a"), u, "a");
    assert [Name("a")][1..] == [];
    assert ValueWithMerge(t, "a") == Some(u);
    assert KeysResolved(u) && KeysResolved(Lookup.Text("a")) && MergesMappings(u) && MergesMappings(Lookup.Text("a"));
    assert KeysResolved(t) && MergesMappings(t);
    ResolvedReached(t);
    forall p {:trigger Listed(t, p)} | Listed(t, p) ensures ParseKey(Encode(p)) == Ok(p) {
      OneEntry(u, p);
      RoundTrip(p);
    }
  }

  // With `a: 0x10`, which is decoded to sixteen, the row does not show what is there, and
  // saving it unedited writes 16.
  lemma OtherSpelling(render: Flattening.Render)
    requires render(Scalar("!!int", "0x10")) == ("16", "number")
    ensures var t := Mapping(Lookup.Text("a"), Tree(ScalarNode, "!!int", "0x10", []));
      HasTable(t) && Listed(t, [Name("a")]) && !ShownRight(t, [Name("a")], render)
  {
    var u := Tree(ScalarNode, "!!int", "0x10", []);
    OneEntryTable(u);
    assert Expand(u) == Scalar("!!int", "0x10");
    assert "0x10"[0] != "16"[0];
  }
}
