/** The two loops of PatchNodeTree, and what a save does as a whole. */
module Patching {
  import opened Prelude
  import opened FlatKey
  import opened KeyPath
  import opened YamlNode
  import opened DeepCopy
  import opened Lookup
  import opened Walk
  import opened Upsert
  import opened UpsertNodes
  import opened UpsertTrail
  import opened Upserting
  import opened PatchTree
  import opened PhysicalLeaves
  import opened CopyReads
  import opened Deletion
  import opened PatchPlan
  import opened Patch

  // ----- deleting stale leaves -----

  function Stale(keys: seq<string>, want: set<string>): seq<string> {
    if keys == [] then []
    else
      var rest, k := Stale(keys[..|keys| - 1], want), keys[|keys| - 1];
      if k in want then rest else rest + [k]
  }

  lemma {:induction false} StaleMembers(keys: seq<string>, want: set<string>)
    ensures forall k :: k in Stale(keys, want) <==> k in keys && k !in want
  {
    if keys != [] {
      StaleMembers(keys[..|keys| - 1], want);
      assert keys == keys[..|keys| - 1] + [keys[|keys| - 1]];
    }
  }

  ghost predicate ParsedAll(keys: seq<string>, paths: seq<seq<Segment>>) {
    |keys| == |paths| && forall i | 0 <= i < |keys| :: ParseKey(keys[i]) == Ok(paths[i])
  }

  ghost predicate Dropped(g: Graph, h: Graph, root: Node, gone: seq<seq<Segment>>) {
    && WellFormed(g) && WellFormed(h) && root in g && root in h
    && (gone == [] ==> h == g)
    && (Simple(g, root) ==> Simple(h, root) && Denote(h, root) == DropAll(Denote(g, root), gone))
  }

  lemma DroppedStep(g: Graph, h: Graph, mid: Graph, k: Graph, root: Node, gone: seq<seq<Segment>>, segs: seq<Segment>,
                    ok: bool, ns: seq<Node>)
    requires Dropped(g, h, root, gone) && Expands(h, mid)
    requires ok <==> segs != [] && LocalWalk(Denote(h, root), segs).Some?
    requires !ok ==> k == mid
    requires ok ==> Walked(h, mid, root, segs[..|segs| - 1], ns) && Deleted(mid, k, segs, ns)
    ensures Dropped(g, k, root, gone + [segs])
  {
    hide Denote, Ranked, Expands, Simple, LocalWalk, Walked, Deleted, Removed;
    assert (gone + [segs])[..|gone|] == gone;
    DeletionKeeps(h, mid, k, root, segs, ok, ns);
    if Simple(h, root) {
      SimpleDeletion(h, mid, k, root, segs, ok, ns);
    }
  }

  lemma DeletionKeeps(h: Graph, mid: Graph, k: Graph, root: Node, segs: seq<Segment>, ok: bool, ns: seq<Node>)
    requires Expands(h, mid) && root in h
    requires !ok ==> k == mid
    requires ok ==> segs != [] && Walked(h, mid, root, segs[..|segs| - 1], ns) && Deleted(mid, k, segs, ns)
    ensures WellFormed(k) && root in k
  {
    hide Denote, Ranked, Expands, Edit, Trail, LocalStep, LocalWalk;
    ExpandsFacts(h, mid);
    if ok {
      EditFacts(mid, k, {ns[|segs| - 1]});
    }
  }

  lemma SimpleDeletion(h: Graph, mid: Graph, k: Graph, root: Node, segs: seq<Segment>, ok: bool, ns: seq<Node>)
    requires Simple(h, root) && Expands(h, mid)
    requires ok <==> segs != [] && LocalWalk(Denote(h, root), segs).Some?
    requires !ok ==> k == mid
    requires ok ==> Walked(h, mid, root, segs[..|segs| - 1], ns) && Deleted(mid, k, segs, ns)
    ensures Simple(k, root) && Denote(k, root) == Removed(Denote(h, root), segs)
  {
    hide Denote, Ranked, Expands, AliasFree, Deleted, LocalWalk, Regular;
    SimpleExpands(h, mid, root);
    RemovedRegular(Denote(h, root), segs);
    if ok {
      WalkedFacts(h, mid, root, segs[..|segs| - 1], ns);
      DeletedRemoves(mid, k, segs, ns);
    } else {
      NotThere(Denote(h, root), segs);
    }
  }

  method DropStale(root: Node, keys: seq<string>, want: set<string>, ghost nodes: set<Node>)
    returns (ok: bool, ghost gone: seq<seq<Segment>>, ghost all: set<Node>)
    requires root in nodes && WellFormed(Snapshot(nodes))
    modifies nodes
    ensures nodes <= all && fresh(all - nodes)
    ensures ok <==> forall k | k in Stale(keys, want) :: ParseKey(k).Ok?
    ensures Dropped(old(Snapshot(nodes)), Snapshot(all), root, gone)
    ensures ok ==> ParsedAll(Stale(keys, want), gone)
  {
    hide Denote, Ranked, Dropped, Expands, Walked, Deleted, LocalWalk;
    ghost var g := Snapshot(nodes);
    all, gone := nodes, [];
    NothingDropped(g, root);
    StaleMembers(keys, want);
    for i := 0 to |keys|
      invariant nodes <= all && fresh(all - nodes)
      invariant Dropped(g, Snapshot(all), root, gone) && ParsedAll(Stale(keys[..i], want), gone)
      invariant forall k | k in Stale(keys[..i], want) :: ParseKey(k).Ok?
    {
      assert keys[..i + 1][..i] == keys[..i];
      if keys[i] in want {
        continue;
      }
      var parsed := ParseKeySegments(keys[i]);
      if parsed.Err? {
        assert keys[i] in Stale(keys, want);
        return false, gone, all;
      }
      ghost var h, ns, mid := Snapshot(all), [], g;
      DroppedFacts(g, h, root, gone);
      var deleted;
      deleted, ns, mid, all := DeletePath(root, parsed.value, all);
      DroppedStep(g, h, mid, Snapshot(all), root, gone, parsed.value, deleted, ns);
      gone := gone + [parsed.value];
    }
    assert keys[..|keys|] == keys;
    ok := true;
  }

  lemma NothingDropped(g: Graph, root: Node)
    requires WellFormed(g) && root in g
    ensures Dropped(g, g, root, [])
  {
  }

  lemma DroppedFacts(g: Graph, h: Graph, root: Node, gone: seq<seq<Segment>>)
    requires Dropped(g, h, root, gone)
    ensures WellFormed(g) && WellFormed(h) && root in g && root in h && (gone == [] ==> h == g)
    ensures Simple(g, root) ==> Simple(h, root) && Denote(h, root) == DropAll(Denote(g, root), gone)
  {
  }

  // ----- writing the entries -----

  function KeyPaths(entries: seq<Entry>): (r: seq<seq<Segment>>)
    ensures |r| == |entries|
  {
    seq(|entries|, i requires 0 <= i < |entries| => match ParseKey(entries[i].key) case Ok(p) => p case Err => [])
  }

  ghost predicate AllParse(entries: seq<Entry>) {
    forall i | 0 <= i < |entries| :: ParseKey(entries[i].key).Ok? && NoMergeNames(ParseKey(entries[i].key).value)
  }

  ghost predicate EntriesDone(g: Graph, h: Graph, root: Node, entries: seq<Entry>, convert: Convert, ok: bool) {
    && WellFormed(g) && WellFormed(h) && root in g && root in h
    && (MergesMappings(Denote(g, root)) && (forall e | e in entries :: Unedited(g, root, e)) ==> ok && h == g)
    && (Simple(g, root) && AllParse(entries) ==>
          && (ok <==> ApplyAll(Denote(g, root), KeyPaths(entries), entries, convert).Some?)
          && (ok ==>
                Simple(h, root) &&
                Some(Denote(h, root)) == ApplyAll(Denote(g, root), KeyPaths(entries), entries, convert)))
  }

  lemma {:induction false} ApplyAllFails(t: Tree, paths: seq<seq<Segment>>, entries: seq<Entry>, convert: Convert,
                                         n: nat)
    requires |paths| == |entries| && n <= |paths| && ApplyAll(t, paths[..n], entries[..n], convert).None?
    ensures ApplyAll(t, paths, entries, convert).None?
    decreases |paths|
  {
    if n < |paths| {
      var m := |paths| - 1;
      assert paths[..m][..n] == paths[..n] && entries[..m][..n] == entries[..n];
      ApplyAllFails(t, paths[..m], entries[..m], convert, n);
    } else {
      assert paths[..n] == paths && entries[..n] == entries;
    }
  }

  lemma EntriesStep(g: Graph, h: Graph, k: Graph, root: Node, entries: seq<Entry>, i: nat, convert: Convert, ok: bool)
    requires i < |entries| && EntriesDone(g, h, root, entries[..i], convert, true)
    requires EntryDone(h, k, root, entries[i], convert, ok)
    ensures EntriesDone(g, k, root, entries[..i + 1], convert, ok)
    ensures !ok ==> EntriesDone(g, k, root, entries, convert, false)
  {
    hide Denote, Ranked, MergesMappings, Simple, Applied, Unedited, NoMergeNames, ParseKey;
    var next := entries[..i + 1];
    assert next[..i] == entries[..i] && next[i] == entries[i] && KeyPaths(next)[..i] == KeyPaths(entries[..i]);
    assert forall e :: e in next <==> e in entries[..i] || e == entries[i];
    assert AllParse(next) ==> AllParse(entries[..i]) by {
      assert forall j | 0 <= j < i :: entries[..i][j] == next[j];
    }
    if !ok {
      assert forall e | e in next :: e in entries;
      assert AllParse(entries) ==> AllParse(next);
      assert KeyPaths(entries)[..i + 1] == KeyPaths(next);
      if Simple(g, root) && AllParse(entries) {
        ApplyAllFails(Denote(g, root), KeyPaths(entries), entries, convert, i + 1);
      }
    }
  }

  method ApplyEntries(root: Node, entries: seq<Entry>, convert: Convert, ghost nodes: set<Node>)
    returns (ok: bool, ghost all: set<Node>)
    requires root in nodes && WellFormed(Snapshot(nodes))
    modifies nodes
    ensures nodes <= all && fresh(all - nodes)
    ensures EntriesDone(old(Snapshot(nodes)), Snapshot(all), root, entries, convert, ok)
  {
    hide Denote, Ranked, EntriesDone, EntryDone;
    ghost var g := Snapshot(nodes);
    all := nodes;
    NoEntriesDone(g, root, convert);
    for i := 0 to |entries|
      invariant nodes <= all && fresh(all - nodes)
      invariant EntriesDone(g, Snapshot(all), root, entries[..i], convert, true)
    {
      ghost var h := Snapshot(all);
      EntriesFacts(g, h, root, entries[..i], convert, true);
      ok, all := PatchEntry(root, entries[i], convert, all);
      EntriesStep(g, h, Snapshot(all), root, entries, i, convert, ok);
      if !ok {
        return;
      }
    }
    assert entries[..|entries|] == entries;
    ok := true;
  }

  lemma NoEntriesDone(g: Graph, root: Node, convert: Convert)
    requires WellFormed(g) && root in g
    ensures forall es: seq<Entry> | es == [] :: EntriesDone(g, g, root, es, convert, true)
  {
  }

  lemma EntriesFacts(g: Graph, h: Graph, root: Node, entries: seq<Entry>, convert: Convert, ok: bool)
    requires EntriesDone(g, h, root, entries, convert, ok)
    ensures WellFormed(g) && WellFormed(h) && root in g && root in h
  {
  }

  // ----- nothing edited -----

  // The entries name every leaf of the file and agree with it.
  ghost predicate Agrees(g: Graph, root: Node, entries: seq<Entry>)
    requires WellFormed(g) && root in g
  {
    && MergesMappings(Denote(g, root))
    && (forall k | k in LeafKeys(g, root, "") :: exists i :: 0 <= i < |entries| && entries[i].key == k)
    && (forall e | e in entries :: Unedited(g, root, e))
  }

  lemma CopySlotComments(g: Graph, d: Graph, copies: map<Node, Node>, parent: Node, slot: nat, via: bool)
    requires CopiedTo(g, d, copies) && parent in copies
    ensures SlotComments(d, copies[parent], slot, via) == SlotComments(g, parent, slot, via)
  {
    hide CopiedTo, WellFormed;
    CopiedHere(g, d, copies, parent);
    if slot < |g[parent].content| {
      CopiedHere(g, d, copies, g[parent].content[slot]);
      if slot > 0 {
        CopiedHere(g, d, copies, g[parent].content[slot - 1]);
      }
    }
  }

  lemma CopyUnedited(g: Graph, d: Graph, copies: map<Node, Node>, root: Node, e: Entry)
    requires CopiedTo(g, d, copies) && WellFormed(d) && root in copies && root in g && copies[root] in d
    ensures Unedited(d, copies[root], e) <==> Unedited(g, root, e)
  {
    hide Denote, Ranked, CopiedTo, WellFormed, ReadSlot, SlotComments;
    CopyDenote(g, d, copies, root);
    CopiedHere(g, d, copies, root);
    if ParseKey(e.key).Ok? && ParseKey(e.key).value != [] {
      var segs := ParseKey(e.key).value;
      CopyReadSlot(g, d, copies, root, segs);
      if ReadSlot(g, root, segs).Some? {
        var r := ReadSlot(g, root, segs).value;
        CopySlotComments(g, d, copies, r.0, r.1, r.2);
      }
    }
  }

  lemma CopyAgrees(g: Graph, d: Graph, copies: map<Node, Node>, root: Node, entries: seq<Entry>)
    requires CopiedTo(g, d, copies) && root in copies
    ensures WellFormed(g) && WellFormed(d) && root in g && copies[root] in d
    ensures Agrees(d, copies[root], entries) <==> Agrees(g, root, entries)
  {
    hide Denote, Ranked, CopiedTo, WellFormed, Unedited, MergesMappings;
    CopyDenote(g, d, copies, root);
    CopiedHere(g, d, copies, root);
    CopyLeafKeys(g, d, copies, root, "");
    forall e | e in entries ensures Unedited(d, copies[root], e) <==> Unedited(g, root, e) {
      CopyUnedited(g, d, copies, root, e);
    }
  }

  // ----- exactly the entries -----

  // A document of nested mappings, none of whose top-level names is empty.
  ghost predicate NamedTree(t: Tree) {
    Plain(t) && t.kind == MappingNode && KeyIndex(t, "") < 0
  }

  // Entries for scalars at paths of names, each under the key of its path.
  ghost predicate NamedEntries(entries: seq<Entry>) {
    && AllParse(entries) && ScalarWrites(KeyPaths(entries), entries) && NameWrites(KeyPaths(entries))
    && forall i | 0 <= i < |entries| :: entries[i].key == Encode(KeyPaths(entries)[i])
  }

  lemma NamesRepresentable(p: seq<Segment>)
    requires AllNames(p) && (p != [] ==> p[0] != Name(""))
    ensures Representable(p) && Within(p) && ParseKey(Encode(p)) == Ok(p)
  {
    forall i | 0 <= i < |p| - 1 && p[i] == Name("") ensures p[i + 1].Name? {
      assert p[i + 1] in p;
    }
    RoundTrip(p);
  }

  // Keys that are not wanted are those of other paths.
  lemma WantedPaths(entries: seq<Entry>, q: seq<Segment>)
    requires NamedEntries(entries) && Representable(q)
    ensures (exists i :: 0 <= i < |entries| && entries[i].key == Encode(q)) <==> q in KeyPaths(entries)
  {
    var paths := KeyPaths(entries);
    if i :| 0 <= i < |entries| && entries[i].key == Encode(q) {
      RoundTripOf(paths[i]);
      EncodeInjective(paths[i], q);
      assert paths[i] == q;
    }
    if q in paths {
      var i :| 0 <= i < |paths| && paths[i] == q;
      assert entries[i].key == Encode(q);
    }
  }

  lemma RoundTripOf(p: seq<Segment>)
    requires ParseKey(Encode(p)) == Ok(p)
    ensures Representable(p)
  {
    RoundTrip(p);
  }

  lemma LeafKeyParses(g: Graph, root: Node, k: string) returns (p: seq<Segment>)
    requires Simple(g, root) && NamedTree(Denote(g, root)) && k in LeafKeys(g, root, "")
    ensures ParseKey(k) == Ok(p) && Representable(p) && k == Encode(p)
    ensures p != [] && NoMergeNames(p) && LocalWalk(Denote(g, root), p).Some?
    ensures LocalWalk(Denote(g, root), p).value.kind == ScalarNode || LocalWalk(Denote(g, root), p).value.kids == []
  {
    hide Denote, Ranked, LeafKeys, Encode, Plain;
    assert Encode([]) == "" by { EmptyKey(); }
    p := LeafKeyIsPath(g, root, [], k);
    assert [] + p == p;
    assert p != [];
    NamesRepresentable(p);
  }

  lemma GoneAreLeaves(g: Graph, root: Node, entries: seq<Entry>, want: set<string>, gone: seq<seq<Segment>>)
    requires Simple(g, root) && NamedTree(Denote(g, root)) && NamedEntries(entries)
    requires forall k :: k in want <==> exists i :: 0 <= i < |entries| && entries[i].key == k
    requires ParsedAll(Stale(LeafKeys(g, root, ""), want), gone)
    ensures LeavesOf(Denote(g, root), gone)
    ensures forall q {:trigger Read(Denote(g, root), q)} | Read(Denote(g, root), q).Some? ::
      q in gone <==> q !in KeyPaths(entries)
  {
    hide Denote, Ranked, LeafKeys, Encode, NamedTree, NamedEntries, AliasFree, Regular, Read, KeyPaths;
    var t, keys := Denote(g, root), LeafKeys(g, root, "");
    var stale := Stale(keys, want);
    StaleMembers(keys, want);
    forall p | p in gone
      ensures p != [] && NoMergeNames(p) && LocalWalk(t, p).Some? &&
        (LocalWalk(t, p).value.kind == ScalarNode || LocalWalk(t, p).value.kids == [])
      ensures Representable(p) && Encode(p) in stale
    {
      var i :| 0 <= i < |gone| && gone[i] == p;
      assert stale[i] in stale;
      var p' := LeafKeyParses(g, root, stale[i]);
    }
    forall q | Read(t, q).Some? ensures q in gone <==> q !in KeyPaths(entries) {
      ScalarKey(g, root, q);
      WantedPaths(entries, q);
      if Encode(q) in stale {
        var i :| 0 <= i < |stale| && stale[i] == Encode(q);
        assert gone[i] in gone;
        assert gone[i] == q;
      }
      if q in gone {
        assert Encode(q) in stale;
      }
    }
  }

  lemma ScalarKey(g: Graph, root: Node, q: seq<Segment>)
    requires Simple(g, root) && NamedTree(Denote(g, root)) && Read(Denote(g, root), q).Some?
    ensures Representable(q) && ParseKey(Encode(q)) == Ok(q) && Encode(q) in LeafKeys(g, root, "")
  {
    hide Denote, Ranked, LeafKeys, Encode, Plain;
    EmptyKey();
    var t := Denote(g, root);
    assert q != [] && LocalStep(t, q[0]).Some?;
    assert [] + q == q;
    ReadNames(t, q);
    assert q[0] in q;
    NamesRepresentable(q);
    RootedPrefix(q, 0);
    ScalarHasKey(g, root, [], q);
  }

  lemma {:induction false} ReadNames(t: Tree, q: seq<Segment>)
    requires Plain(t) && LocalWalk(t, q).Some?
    ensures AllNames(q)
    decreases |q|
  {
    if q != [] {
      StepFits(t, q[0]);
      StepRegular(t, q[0]);
      ReadNames(LocalStep(t, q[0]).value, q[1..]);
      assert q == [q[0]] + q[1..];
    }
  }

  // ----- the whole save -----

  // A save that succeeds stores every scalar entry.
  ghost predicate EntriesStored(u: Tree, entries: seq<Entry>, convert: Convert) {
    forall i | 0 <= i < |entries| ::
      var r := Read(u, KeyPaths(entries)[i]);
      r.Some? && StandsFor(r.value, entries[i], convert)
  }

  // What the loops do to the working copy.
  ghost predicate Patched(d: Graph, h: Graph, w: Node, entries: seq<Entry>, convert: Convert, ok: bool)
    requires WellFormed(d) && w in d
  {
    && WellFormed(h) && w in h
    && (Agrees(d, w, entries) ==> ok && h == d)
    && (Simple(d, w) && AllParse(entries) && ScalarWrites(KeyPaths(entries), entries) && ok ==>
          EntriesStored(Denote(h, w), entries, convert))
    && (Simple(d, w) && NamedTree(Denote(d, w)) && NamedEntries(entries) ==>
          ok && ExactlyEntries(Denote(d, w), Denote(h, w), KeyPaths(entries), entries, convert))
  }

  // The result of a save: w stands for the source's root in the new graph.  Saving
  // what nobody edited copies the source, node for node and field for field; a save
  // that succeeds stores every scalar entry; and on nested mappings it stores
  // nothing else.
  ghost predicate Saved(g: Graph, h: Graph, root: Node, w: Node, copies: map<Node, Node>, entries: seq<Entry>,
                        convert: Convert, ok: bool)
    requires WellFormed(g) && root in g
  {
    && WellFormed(h) && w in h && root in copies && w == copies[root]
    && (Agrees(g, root, entries) ==> ok && CopiedTo(g, h, copies))
    && (Simple(g, root) && AllParse(entries) && ScalarWrites(KeyPaths(entries), entries) && ok ==>
          EntriesStored(Denote(h, w), entries, convert))
    && (Simple(g, root) && NamedTree(Denote(g, root)) && NamedEntries(entries) ==>
          ok && ExactlyEntries(Denote(g, root), Denote(h, w), KeyPaths(entries), entries, convert))
  }

  // PatchNodeTree.  It has no modifies clause: the source tree stays as it is.  A
  // root that is no mapping is left to FlatEntriesToYAML.
  method PatchNodeTree(root: Node, entries: seq<Entry>, convert: Convert, ghost nodes: set<Node>)
    returns (handled: bool, ok: bool, working: Node, ghost copies: map<Node, Node>, ghost all: set<Node>)
    requires root in nodes && WellFormed(Snapshot(nodes))
    ensures handled <==> root.kind == MappingNode
    ensures handled ==> fresh(all) && Saved(Snapshot(nodes), Snapshot(all), root, working, copies, entries, convert, ok)
  {
    hide Denote, Ranked, WellFormed, Saved, Patched, CopiedTo;
    ghost var g := Snapshot(nodes);
    handled, ok, working, copies, all := root.kind == MappingNode, false, root, map[], {};
    if !handled {
      return;
    }
    working, copies, all := CopyTree(root, nodes);
    ghost var d := Snapshot(all);
    ok, all := PatchLoops(working, entries, convert, all);
    SavedFromCopy(g, d, Snapshot(all), root, copies, entries, convert, ok);
  }

  // deepCopyYAMLNode, with its result as a graph.
  method CopyTree(root: Node, ghost nodes: set<Node>)
    returns (working: Node, ghost copies: map<Node, Node>, ghost all: set<Node>)
    requires root in nodes && WellFormed(Snapshot(nodes))
    ensures root in copies && working == copies[root] && working in all && fresh(all)
    ensures CopiedTo(Snapshot(nodes), Snapshot(all), copies) && WellFormed(Snapshot(all))
  {
    hide Denote, Ranked, Isomorphism;
    ghost var g, d := Snapshot(nodes), map[];
    WellFormedClosed(g);
    working, copies, d := DeepCopyYAMLNode(root, g);
    all := copies.Values;
    assert d == Snapshot(all);
    CopyWellFormed(g, d, copies);
  }

  // Its two loops.
  method PatchLoops(working: Node, entries: seq<Entry>, convert: Convert, ghost nodes: set<Node>)
    returns (ok: bool, ghost all: set<Node>)
    requires working in nodes && WellFormed(Snapshot(nodes))
    modifies nodes
    ensures nodes <= all && fresh(all - nodes)
    ensures Patched(old(Snapshot(nodes)), Snapshot(all), working, entries, convert, ok)
  {
    hide Denote, Ranked, WellFormed, Patched, Dropped, EntriesDone, LeafKeys;
    ghost var d := Snapshot(nodes);
    assert Shows(d);
    var want := set i | 0 <= i < |entries| :: entries[i].key;
    var keys := WalkPhysicalLeaves(working, "", d);
    ghost var gone;
    ok, gone, all := DropStale(working, keys, want, nodes);
    ghost var m := Snapshot(all);
    DroppedFacts(d, m, working, gone);
    if !ok {
      PatchFails(d, m, working, entries, convert, want, gone);
      return;
    }
    ok, all := ApplyEntries(working, entries, convert, all);
    PatchDone(d, m, Snapshot(all), working, entries, convert, want, gone, ok);
  }

  lemma PatchFails(d: Graph, m: Graph, w: Node, entries: seq<Entry>, convert: Convert, want: set<string>,
                   gone: seq<seq<Segment>>)
    requires want == set i | 0 <= i < |entries| :: entries[i].key
    requires Dropped(d, m, w, gone)
    requires !(forall k | k in Stale(LeafKeys(d, w, ""), want) :: ParseKey(k).Ok?)
    ensures Patched(d, m, w, entries, convert, false)
  {
    hide Denote, Ranked, NamedTree, NamedEntries, LeafKeys, Unedited, MergesMappings, EntriesStored, ExactlyEntries,
         AliasFree, Regular;
    StaleMembers(LeafKeys(d, w, ""), want);
    DroppedFacts(d, m, w, gone);
    if Simple(d, w) && NamedTree(Denote(d, w)) {
      forall k | k in LeafKeys(d, w, "") ensures ParseKey(k).Ok? {
        var p := LeafKeyParses(d, w, k);
      }
    }
  }

  lemma PatchDone(d: Graph, m: Graph, h: Graph, w: Node, entries: seq<Entry>, convert: Convert,
                  want: set<string>, gone: seq<seq<Segment>>, ok: bool)
    requires want == set i | 0 <= i < |entries| :: entries[i].key
    requires Dropped(d, m, w, gone) && ParsedAll(Stale(LeafKeys(d, w, ""), want), gone)
    requires EntriesDone(m, h, w, entries, convert, ok)
    ensures Patched(d, h, w, entries, convert, ok)
  {
    hide Denote, Ranked, NamedTree, NamedEntries, LeafKeys, Unedited, MergesMappings, EntriesStored, ExactlyEntries,
         Agrees, ParsedAll, Dropped, EntriesDone, Simple;
    DroppedFacts(d, m, w, gone);
    EntriesFacts(m, h, w, entries, convert, ok);
    PatchAgrees(d, m, h, w, entries, convert, want, gone, ok);
    NamedParse(entries);
    if Simple(d, w) && AllParse(entries) && ScalarWrites(KeyPaths(entries), entries) {
      if ok {
        PatchStores(d, m, h, w, entries, convert, gone);
      }
      if NamedTree(Denote(d, w)) && NamedEntries(entries) {
        GoneAreLeaves(d, w, entries, want, gone);
        PatchExact(d, m, h, w, entries, convert, gone, ok);
      }
    }
  }

  lemma NamedParse(entries: seq<Entry>)
    ensures NamedEntries(entries) ==> AllParse(entries) && ScalarWrites(KeyPaths(entries), entries)
  {
  }

  lemma PatchAgrees(d: Graph, m: Graph, h: Graph, w: Node, entries: seq<Entry>, convert: Convert,
                    want: set<string>, gone: seq<seq<Segment>>, ok: bool)
    requires want == set i | 0 <= i < |entries| :: entries[i].key
    requires Dropped(d, m, w, gone) && ParsedAll(Stale(LeafKeys(d, w, ""), want), gone)
    requires EntriesDone(m, h, w, entries, convert, ok)
    ensures WellFormed(d) && w in d
    ensures Agrees(d, w, entries) ==> ok && h == d
  {
    hide Denote, Ranked, Simple, LeafKeys, Unedited, MergesMappings, ParsedAll, Dropped, AllParse;
    DroppedFacts(d, m, w, gone);
    if Agrees(d, w, entries) {
      NothingStale(LeafKeys(d, w, ""), want);
      NoKeysNoPaths(Stale(LeafKeys(d, w, ""), want), gone);
    }
  }

  lemma {:induction false} NothingStale(keys: seq<string>, want: set<string>)
    requires forall k | k in keys :: k in want
    ensures Stale(keys, want) == []
  {
    if keys != [] {
      assert forall k | k in keys[..|keys| - 1] :: k in keys;
      NothingStale(keys[..|keys| - 1], want);
    }
  }

  lemma NoKeysNoPaths(keys: seq<string>, paths: seq<seq<Segment>>)
    requires ParsedAll(keys, paths) && keys == []
    ensures paths == []
  {
  }

  lemma PatchStores(d: Graph, m: Graph, h: Graph, w: Node, entries: seq<Entry>, convert: Convert,
                    gone: seq<seq<Segment>>)
    requires Dropped(d, m, w, gone) && EntriesDone(m, h, w, entries, convert, true)
    requires Simple(d, w) && AllParse(entries) && ScalarWrites(KeyPaths(entries), entries)
    ensures WellFormed(h) && w in h && EntriesStored(Denote(h, w), entries, convert)
  {
    hide Denote, Ranked, WellFormed, AllParse, ScalarWrites, KeyPaths, MergesMappings, Unedited, AliasFree, Regular;
    forall i | 0 <= i < |entries|
      ensures var r := Read(Denote(h, w), KeyPaths(entries)[i]);
        r.Some? && StandsFor(r.value, entries[i], convert)
    {
      EntriesReadBack(Denote(m, w), KeyPaths(entries), entries, convert, i);
    }
  }

  lemma PatchExact(d: Graph, m: Graph, h: Graph, w: Node, entries: seq<Entry>, convert: Convert,
                   gone: seq<seq<Segment>>, ok: bool)
    requires Dropped(d, m, w, gone) && EntriesDone(m, h, w, entries, convert, ok)
    requires Simple(d, w) && NamedTree(Denote(d, w)) && NamedEntries(entries) && LeavesOf(Denote(d, w), gone)
    requires forall q {:trigger Read(Denote(d, w), q)} | Read(Denote(d, w), q).Some? ::
      q in gone <==> q !in KeyPaths(entries)
    ensures ok && WellFormed(h) && w in h &&
      ExactlyEntries(Denote(d, w), Denote(h, w), KeyPaths(entries), entries, convert)
  {
    hide Denote, Ranked, WellFormed, ScalarWrites, KeyPaths, MergesMappings, Unedited, AliasFree, Regular, LeavesOf,
         Read, ExactlyEntries, Plain;
    StoresExactly(Denote(d, w), gone, KeyPaths(entries), entries, convert);
  }

  lemma CopySimple(g: Graph, d: Graph, copies: map<Node, Node>, root: Node)
    requires CopiedTo(g, d, copies) && root in copies && Simple(g, root)
    ensures Simple(d, copies[root]) && Denote(d, copies[root]) == Denote(g, root)
  {
    hide Denote, Ranked, CopiedTo, WellFormed, Shape, NoParent;
    CopyDenote(g, d, copies, root);
    CopyShape(g, d, copies, root);
  }

  // The copy agrees with the entries, and is simple, when the source is.
  lemma SavedFromCopy(g: Graph, d: Graph, h: Graph, root: Node, copies: map<Node, Node>, entries: seq<Entry>,
                      convert: Convert, ok: bool)
    requires CopiedTo(g, d, copies) && root in copies && WellFormed(d) && copies[root] in d
    requires Patched(d, h, copies[root], entries, convert, ok)
    ensures WellFormed(g) && root in g && Saved(g, h, root, copies[root], copies, entries, convert, ok)
  {
    hide Denote, Ranked, CopiedTo, NamedTree, NamedEntries, EntriesStored, ExactlyEntries, Agrees, AllParse,
         ScalarWrites, Simple, WellFormed;
    CopyAgrees(g, d, copies, root, entries);
    CopyDenote(g, d, copies, root);
    if Simple(g, root) {
      CopySimple(g, d, copies, root);
    }
  }
}
