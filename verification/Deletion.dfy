/** deletePath on the node graph. */
module Deletion {
  import opened Prelude
  import opened KeyPath
  import opened YamlNode
  import opened Anchors
  import opened Lookup
  import opened Reading
  import opened Walk
  import opened Upsert
  import opened UpsertNodes
  import opened UpsertTrail
  import opened Upserting
  import opened PatchTree

  // ----- taking children out of a container -----

  function Shortened<T>(s: seq<T>, at: nat, gap: nat): seq<T>
    requires at + gap <= |s|
  {
    s[..at] + s[at + gap..]
  }

  ghost function Cut(g: Graph, n: Node, at: nat, gap: nat): Graph
    requires n in g && at + gap <= |g[n].content|
  {
    g[n := g[n].(content := Shortened(g[n].content, at, gap))]
  }

  // A whole entry of a mapping, or one item.
  ghost predicate CutAt(g: Graph, n: Node, at: nat, gap: nat) {
    && n in g && g[n].kind != AliasNode && at + gap <= |g[n].content|
    && (g[n].kind == MappingNode ==> gap == 2 && at % 2 == 0)
  }

  // Where a child of the shortened container was.
  lemma CutChild(g: Graph, n: Node, at: nat, gap: nat, i: nat)
    requires CutAt(g, n, at, gap) && i < |Cut(g, n, at, gap)[n].content|
    ensures var h, j := Cut(g, n, at, gap), if i < at then i else i + gap;
      && j < |g[n].content| && h[n].content[i] == g[n].content[j]
      && (KeyPosition(h[n], i) ==> KeyPosition(g[n], j))
  {
  }

  lemma CutRankAt(g: Graph, rank: map<Node, nat>, n: Node, at: nat, gap: nat, x: Node)
    requires Ranked(g, rank) && CutAt(g, n, at, gap) && x in g
    ensures rank.Keys == g.Keys && RankedAt(Cut(g, n, at, gap), rank, x)
  {
    hide Ranked;
    var h := Cut(g, n, at, gap);
    RankedHere(g, rank, x);
    if x == n {
      forall i | 0 <= i < |h[n].content|
        ensures h[n].content[i] in h && rank[h[n].content[i]] < rank[n]
        ensures KeyPosition(h[n], i) ==> h[h[n].content[i]].kind != AliasNode
      {
        CutChild(g, n, at, gap, i);
      }
      assert |h[n].content| == |g[n].content| - gap;
    }
  }

  lemma CutWellFormed(g: Graph, n: Node, at: nat, gap: nat)
    requires WellFormed(g) && CutAt(g, n, at, gap)
    ensures WellFormed(Cut(g, n, at, gap))
  {
    hide Ranked, RankedAt;
    var h, rank := Cut(g, n, at, gap), SomeRank(g);
    forall x | x in h ensures rank.Keys == h.Keys && RankedAt(h, rank, x) {
      CutRankAt(g, rank, n, at, gap, x);
    }
    assert n in h;
    assert Ranked(h, rank) by { RankedIntro(h, rank); }
  }

  lemma CutEditedAt(g: Graph, n: Node, at: nat, gap: nat, x: Node)
    requires WellFormed(g) && CutAt(g, n, at, gap) && x in g
    ensures EditedAt(g, Cut(g, n, at, gap), {n}, x)
  {
    hide Ranked;
    RankedHere(g, SomeRank(g), x);
  }

  lemma CutEdit(g: Graph, n: Node, at: nat, gap: nat)
    requires WellFormed(g) && CutAt(g, n, at, gap)
    ensures Edit(g, Cut(g, n, at, gap), {n})
  {
    hide Ranked, Shape, EditedAt, WellFormed;
    var h := Cut(g, n, at, gap);
    CutWellFormed(g, n, at, gap);
    forall x | x in g ensures EditedAt(g, h, {n}, x) {
      CutEditedAt(g, n, at, gap, x);
    }
    if Shape(g) {
      CutShape(g, n, at, gap);
    }
  }

  lemma CutShape(g: Graph, n: Node, at: nat, gap: nat)
    requires CutAt(g, n, at, gap) && Shape(g)
    ensures Shape(Cut(g, n, at, gap))
  {
    var h := Cut(g, n, at, gap);
    forall x, y, i, j |
      && x in h && y in h && 0 <= i < |h[x].content| && 0 <= j < |h[y].content|
      && h[x].content[i] == h[y].content[j]
      ensures x == y && i == j
    {
      var i' := if x == n && i >= at then i + gap else i;
      var j' := if y == n && j >= at then j + gap else j;
      assert g[x].content[i'] == h[x].content[i] && g[y].content[j'] == h[y].content[j];
    }
  }

  // The container loses those children and nothing else.
  lemma CutDenote(g: Graph, n: Node, at: nat, gap: nat)
    requires WellFormed(g) && CutAt(g, n, at, gap)
    ensures var h, t := Cut(g, n, at, gap), Denote(g, n);
      && WellFormed(h) && at + gap <= |t.kids|
      && Denote(h, n) == t.(kids := Shortened(t.kids, at, gap))
  {
    hide Ranked, Denote, Edit, Avoids;
    var h := Cut(g, n, at, gap);
    CutEdit(g, n, at, gap);
    EditFacts(g, h, {n});
    DenoteStep(g, n);
    DenoteStep(h, n);
    RankedHere(g, SomeRank(g), n);
    forall i | 0 <= i < |g[n].content|
      ensures g[n].content[i] in h && Denote(h, g[n].content[i]) == Denote(g, g[n].content[i])
    {
      LowerRankAvoids(g, SomeRank(g), g[n].content[i], {n});
      UntouchedDenote(g, h, {n}, g[n].content[i]);
    }
    assert Denote(h, n).kids == Shortened(Denote(g, n).kids, at, gap);
  }

  // ----- deletePath -----

  // h is g without what stands at the path; ns leads to the container.
  ghost predicate Deleted(g: Graph, h: Graph, segs: seq<Segment>, ns: seq<Node>) {
    && segs != [] && Trail(g, ns, segs[..|segs| - 1]) && |ns| == |segs|
    && Edit(g, h, {ns[|segs| - 1]}) && ns[|segs| - 1] in h
    && LocalStep(Denote(g, ns[|segs| - 1]), segs[|segs| - 1]).Some?
    && Denote(h, ns[|segs| - 1]) == Without(Denote(g, ns[|segs| - 1]), segs[|segs| - 1])
  }

  // `mid` is the graph once the aliases on the way are broken.
  method DeletePath(root: Node, segs: seq<Segment>, ghost nodes: set<Node>)
    returns (ok: bool, ghost ns: seq<Node>, ghost mid: Graph, ghost all: set<Node>)
    requires root in nodes && WellFormed(Snapshot(nodes))
    modifies nodes
    ensures nodes <= all && fresh(all - nodes)
    ensures Expands(old(Snapshot(nodes)), mid)
    ensures ok <==> segs != [] && LocalWalk(old(Denote(Snapshot(nodes), root)), segs).Some?
    ensures !ok ==> Snapshot(all) == mid
    ensures ok ==>
      Walked(old(Snapshot(nodes)), mid, root, segs[..|segs| - 1], ns) && Deleted(mid, Snapshot(all), segs, ns)
  {
    hide Denote, Ranked, LocalWalk, Expands, Trail, Walked, SlotFound, Deleted;
    ghost var g := Snapshot(nodes);
    var parent, slot;
    parent, slot, ns, all := FindParentSlot(root, segs, nodes);
    mid := Snapshot(all);
    if slot < 0 {
      return false, ns, mid, all;
    }
    SlotTrail(g, mid, root, segs, ns, parent, slot);
    ghost var at, gap := CutSlot(parent, slot, segs[|segs| - 1], all);
    DeletedIs(g, mid, root, segs, ns, parent, slot, at, gap);
    ok := true;
  }

  // The switch at its end.
  method CutSlot(parent: Node, slot: int, ghost last: Segment, ghost nodes: set<Node>)
    returns (ghost at: nat, ghost gap: nat)
    requires parent in nodes && WellFormed(Snapshot(nodes)) && SlotFor(Snapshot(nodes), parent, slot, last)
    modifies parent`content
    ensures var g := old(Snapshot(nodes));
      && CutAt(g, parent, at, gap) && Snapshot(nodes) == Cut(g, parent, at, gap)
      && LocalStep(Denote(g, parent), last).Some? && at + gap <= |Denote(g, parent).kids|
      && Without(Denote(g, parent), last) == Denote(g, parent).(kids := Shortened(Denote(g, parent).kids, at, gap))
  {
    hide Denote, Ranked, SlotFor, LocalStep, Without;
    ghost var g := Snapshot(nodes);
    assert parent.Snap() == g[parent];
    at, gap := CutPlace(g, parent, slot, last);
    if parent.kind == SequenceNode {
      parent.content := parent.content[..slot] + parent.content[slot + 1..];
    } else {
      parent.content := parent.content[..slot - 1] + parent.content[slot + 1..];
    }
    ghost var h := Snapshot(nodes);
    forall x | x in g && x != parent ensures h[x] == g[x] {
      assert x.Snap() == g[x];
    }
    assert parent.Snap() == g[parent].(content := parent.content);
    assert h == Cut(g, parent, at, gap);
  }

  // Which children go.
  lemma CutPlace(g: Graph, parent: Node, slot: int, last: Segment) returns (at: nat, gap: nat)
    requires WellFormed(g) && parent in g && SlotFor(g, parent, slot, last)
    ensures CutAt(g, parent, at, gap)
    ensures g[parent].kind == SequenceNode || g[parent].kind == MappingNode
    ensures if g[parent].kind == SequenceNode then at == slot && gap == 1 else at == slot - 1 && gap == 2
    ensures LocalStep(Denote(g, parent), last).Some?
    ensures at + gap <= |Denote(g, parent).kids|
    ensures Without(Denote(g, parent), last) == Denote(g, parent).(kids := Shortened(Denote(g, parent).kids, at, gap))
  {
    hide Denote, Ranked;
    DenoteStep(g, parent);
    if last.Index? {
      at, gap := slot, 1;
    } else {
      at, gap := slot - 1, 2;
      KeyIndexEven(Denote(g, parent).kids, last.name, 0);
    }
  }

  lemma DeletedIs(g: Graph, mid: Graph, root: Node, segs: seq<Segment>, ns: seq<Node>, parent: Node, slot: int, at: nat,
                  gap: nat)
    requires SlotFound(g, mid, root, segs, ns, parent, slot)
    requires CutAt(mid, parent, at, gap) && WellFormed(mid) && parent in mid
    requires LocalStep(Denote(mid, parent), segs[|segs| - 1]).Some?
    requires at + gap <= |Denote(mid, parent).kids|
    requires Without(Denote(mid, parent), segs[|segs| - 1]) ==
      Denote(mid, parent).(kids := Shortened(Denote(mid, parent).kids, at, gap))
    ensures Walked(g, mid, root, segs[..|segs| - 1], ns) && Deleted(mid, Cut(mid, parent, at, gap), segs, ns)
  {
    hide Denote, Ranked, LocalWalk, LocalStep, Expands, SlotFor, At, Edit;
    CutEdit(mid, parent, at, gap);
    CutDenote(mid, parent, at, gap);
    WalkedFacts(g, mid, root, segs[..|segs| - 1], ns);
  }

  // ----- what a deletion is on alias-free trees -----

  lemma {:induction false} TrailNoMerge(g: Graph, ns: seq<Node>, p: seq<Segment>)
    requires Trail(g, ns, p)
    ensures NoMergeNames(p)
  {
    hide Denote, Ranked, At;
    forall s | s in p ensures s != Name(MERGE_KEY) {
      var j :| 0 <= j < |p| && p[j] == s;
      AtStep(g, ns[j], p[j], ns[j + 1]);
      MergeIsNoKey(Denote(g, ns[j]).kids, 0);
    }
  }

  lemma {:induction false} RemovedAsPlug(t: Tree, p: seq<Segment>, last: Segment)
    requires OpenPath(t, p) && LocalWalk(t, p).Some? && LocalStep(LocalWalk(t, p).value, last).Some?
    ensures Removed(t, p + [last]) == Plug(t, p, Without(LocalWalk(t, p).value, last))
    decreases |p|
  {
    if p == [] {
      assert p + [last] == [last];
    } else {
      assert (p + [last])[1..] == p[1..] + [last];
      RemovedAsPlug(LocalStep(t, p[0]).value, p[1..], last);
    }
  }

  // Without aliases the whole document changes in that one place.
  lemma DeletedRemoves(g: Graph, h: Graph, segs: seq<Segment>, ns: seq<Node>)
    requires Deleted(g, h, segs, ns) && AliasFree(g, ns[0])
    ensures WellFormed(g) && WellFormed(h) && ns[0] in g && ns[0] in h
    ensures Denote(h, ns[0]) == Removed(Denote(g, ns[0]), segs) && AliasFree(h, ns[0])
  {
    hide Denote, Ranked, At, Edit, LocalStep, Shape, NoParent;
    var p, last := segs[..|segs| - 1], segs[|segs| - 1];
    assert p + [last] == segs;
    TrailNoMerge(g, ns, p);
    SomeFits(Denote(g, ns[|p|]), last);
    EditPlugs(g, h, {ns[|p|]}, ns, p);
    RemovedAsPlug(Denote(g, ns[0]), p, last);
  }

  lemma SomeFits(t: Tree, seg: Segment)
    requires LocalStep(t, seg).Some?
    ensures IsContainer(t)
  {
  }

  lemma {:induction false} NotThere(t: Tree, segs: seq<Segment>)
    requires segs == [] || LocalWalk(t, segs).None?
    requires Regular(t)
    ensures Removed(t, segs) == t
    decreases |segs|
  {
    if segs != [] && LocalStep(t, segs[0]).Some? && |segs| > 1 {
      StepRegular(t, segs[0]);
      StepFits(t, segs[0]);
      NotThere(LocalStep(t, segs[0]).value, segs[1..]);
      PutSame(t, segs[0]);
    } else if |segs| == 1 {
      assert LocalWalk(t, segs) == LocalStep(t, segs[0]) by { assert segs[1..] == []; }
    }
  }

  lemma PutSame(t: Tree, seg: Segment)
    requires LocalStep(t, seg).Some?
    ensures Fits(t, seg) && Put(t, seg, LocalStep(t, seg).value) == t
  {
    var u := LocalStep(t, seg).value;
    if seg.Index? {
      assert Pad(t.kids, seg.index)[seg.index := u] == t.kids;
    } else {
      assert t.kids[KeyIndex(t, seg.name) + 1 := u] == t.kids;
    }
  }
}
