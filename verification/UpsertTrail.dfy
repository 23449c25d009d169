/** The nodes along a written path, and how an edit at its end shows at the
  root. */
module UpsertTrail {
  import opened Prelude
  import opened KeyPath
  import opened YamlNode
  import opened Lookup
  import opened Walk
  import opened Upsert
  import opened UpsertNodes

  // ----- the whole path -----

  // The old nodes an upsert may write to.  Aliases are met at the root or below a
  // container; nothing behind one is ever in the set.
  ghost function Touched(g: Graph, n: Node, segs: seq<Segment>): set<Node>
    requires WellFormed(g) && n in g && segs != []
    decreases |segs|
  {
    if g[n].kind == AliasNode then {n}
    else if !Fits(Denote(g, n), segs[0]) then {}
    else if |segs| == 1 then {n}
    else if StepTouched(g, n, segs[0]) != {} then StepTouched(g, n, segs[0])
    else Touched(g, StepTo(g, n, segs[0]), segs[1..])
  }

  ghost function StepTo(g: Graph, n: Node, seg: Segment): (m: Node)
    requires WellFormed(g) && n in g && StepTouched(g, n, seg) == {}
    ensures m in g
  {
    g[n].content[SlotIn(g, n, seg)]
  }

  // An edit that leaves n alone leaves its steps alone: key texts are kept.
  lemma {:induction false} KeyIndexKept(g: Graph, h: Graph, changed: set<Node>, n: Node, name: string, i: nat)
    requires Edit(g, h, changed) && n in g && n !in changed && g[n].kind == MappingNode && i % 2 == 0
    ensures KeyIndexFrom(Denote(h, n).kids, name, i) == KeyIndexFrom(Denote(g, n).kids, name, i)
    decreases |g[n].content| - i
  {
    hide Denote, Ranked, Edit;
    EditFacts(g, h, changed);
    EditHere(g, h, changed, n);
    DenoteStep(g, n);
    DenoteStep(h, n);
    if i + 1 < |g[n].content| {
      DenoteKey(g, n, i);
      DenoteKey(h, n, i);
      EditHere(g, h, changed, g[n].content[i]);
      KeyIndexKept(g, h, changed, n, name, i + 2);
    }
  }

  lemma EditHere(g: Graph, h: Graph, changed: set<Node>, x: Node)
    requires Edit(g, h, changed) && x in g
    ensures x in h && EditedAt(g, h, changed, x)
  {
  }

  lemma AtKept(g: Graph, h: Graph, changed: set<Node>, n: Node, seg: Segment, m: Node)
    requires Edit(g, h, changed) && n in g && n !in changed && At(g, n, seg, m)
    ensures n in h && At(h, n, seg, m)
  {
    hide Denote, Ranked, Edit;
    EditFacts(g, h, changed);
    EditHere(g, h, changed, n);
    var slot: int :| SlotFor(g, n, slot, seg) && g[n].content[slot] == m;
    DenoteStep(g, n);
    DenoteStep(h, n);
    if seg.Name? {
      KeyIndexKept(g, h, changed, n, seg.name, 0);
    }
    assert SlotFor(h, n, slot, seg);
  }

  // One more step, taken by an edit below the end of the trail.
  lemma TrailGrows(g: Graph, h: Graph, changed: set<Node>, ns: seq<Node>, segs: seq<Segment>, seg: Segment, m: Node)
    requires Trail(g, ns, segs) && Edit(g, h, changed)
    requires forall x | x in changed :: x in g && (x == ns[|segs|] || Denote(g, x) < Denote(g, ns[|segs|]))
    requires ns[|segs|] in h && At(h, ns[|segs|], seg, m)
    ensures Trail(h, ns + [m], segs + [seg])
  {
    hide Denote, Ranked, Edit, At;
    EditFacts(g, h, changed);
    AtStep(h, ns[|segs|], seg, m);
    var ns', segs' := ns + [m], segs + [seg];
    forall j | 0 <= j < |segs'| ensures At(h, ns'[j], segs'[j], ns'[j + 1]) {
      if j < |segs| {
        TrailDescends(g, ns, segs, j);
        AtKept(g, h, changed, ns[j], segs[j], ns[j + 1]);
      }
    }
  }

  lemma StepTouchedBelow(g: Graph, n: Node, seg: Segment)
    requires WellFormed(g) && n in g && g[n].kind != AliasNode
    ensures forall x | x in StepTouched(g, n, seg) ::
      x in g && (x == n || (x in g[n].content && Denote(g, x) < Denote(g, n)))
  {
    hide Denote, Ranked;
    DenoteStep(g, n);
  }

  // ----- alias-free trees: an edit shows in one place -----

  ghost predicate NoParent(g: Graph, root: Node) {
    forall x, i {:trigger g[x].content[i]} | x in g && 0 <= i < |g[x].content| :: g[x].content[i] != root
  }

  // Off the trail nothing leads back onto it.
  lemma OffTrail(g: Graph, ns: seq<Node>, p: seq<Segment>)
    requires Trail(g, ns, p) && Shape(g) && NoParent(g, ns[0])
    ensures ClosedIn(g, g.Keys - set n | n in ns)
  {
    hide Denote, Ranked;
    WellFormedClosed(g);
    var s := g.Keys - set n | n in ns;
    forall x, i | x in s && 0 <= i < |g[x].content| ensures g[x].content[i] in s {
      var c := g[x].content[i];
      if c in ns {
        var m :| 0 <= m < |ns| && ns[m] == c;
        assert m > 0;
        OnTrail(g, ns, p, m - 1, x, i);
      }
    }
  }

  // The only place that holds a trail node is the slot of the node before it.
  lemma OnTrail(g: Graph, ns: seq<Node>, p: seq<Segment>, j: nat, x: Node, i: nat)
    requires Trail(g, ns, p) && Shape(g) && j < |p|
    requires x in g && i < |g[x].content| && g[x].content[i] == ns[j + 1]
    ensures x == ns[j] && SlotFor(g, ns[j], i, p[j])
  {
    hide Denote, Ranked;
    var slot: int :| SlotFor(g, ns[j], slot, p[j]) && g[ns[j]].content[slot] == ns[j + 1];
    assert g[x].content[i] == g[ns[j]].content[slot];
  }

  lemma TrailPrefix(g: Graph, ns: seq<Node>, p: seq<Segment>, m: nat)
    requires Trail(g, ns, p) && m <= |p|
    ensures Trail(g, ns[..m + 1], p[..m])
  {
  }

  lemma TrailDistinct(g: Graph, ns: seq<Node>, p: seq<Segment>, a: nat, b: nat)
    requires Trail(g, ns, p) && a < b < |ns|
    ensures ns[a] != ns[b]
  {
    hide Denote, Ranked, At;
    TrailPrefix(g, ns, p, b);
    TrailDescends(g, ns[..b + 1], p[..b], a);
  }

  lemma SiblingOffTrail(g: Graph, ns: seq<Node>, p: seq<Segment>, j: nat, s: nat)
    requires Trail(g, ns, p) && Shape(g) && NoParent(g, ns[0]) && j < |p|
    requires s < |g[ns[j]].content| && !SlotFor(g, ns[j], s, p[j])
    ensures g[ns[j]].content[s] !in ns
  {
    hide Denote, Ranked, SlotFor;
    var c := g[ns[j]].content[s];
    if c in ns {
      var m :| 0 <= m < |ns| && ns[m] == c;
      assert m > 0;
      OnTrail(g, ns, p, m - 1, ns[j], s);
      if m - 1 < j {
        TrailDistinct(g, ns, p, m - 1, j);
      } else if j < m - 1 {
        TrailDistinct(g, ns, p, j, m - 1);
      }
    }
  }

  // Changing only the node at the end of a trail changes the whole tree at one
  // place.
  lemma {:induction false} PlugDenote(g: Graph, h: Graph, changed: set<Node>, ns: seq<Node>, p: seq<Segment>, j: nat)
    requires Trail(g, ns, p) && Shape(g) && NoParent(g, ns[0]) && j <= |p|
    requires Edit(g, h, changed) && changed <= {ns[|p|]}
    ensures WellFormed(h) && ns[j] in h && ns[|p|] in h
    ensures Denote(h, ns[j]) == Plug(Denote(g, ns[j]), p[j..], Denote(h, ns[|p|]))
    decreases |p| - j
  {
    hide Denote, Ranked, Edit, Shape, NoParent;
    EditFacts(g, h, changed);
    if j < |p| {
      PlugDenote(g, h, changed, ns, p, j + 1);
      TrailDistinct(g, ns, p, j, |p|);
      PlugAt(g, h, changed, ns, p, j, Plug(Denote(g, ns[j + 1]), p[j + 1..], Denote(h, ns[|p|])));
      AtStep(g, ns[j], p[j], ns[j + 1]);
      assert p[j..][1..] == p[j + 1..];
    }
  }

  lemma PlugAt(g: Graph, h: Graph, changed: set<Node>, ns: seq<Node>, p: seq<Segment>, j: nat, u: Tree)
    requires Trail(g, ns, p) && Shape(g) && NoParent(g, ns[0]) && j < |p|
    requires Edit(g, h, changed) && changed <= {ns[|p|]} && ns[j] !in changed && WellFormed(h)
    requires ns[j + 1] in h && Denote(h, ns[j + 1]) == u
    ensures ns[j] in h && Fits(Denote(g, ns[j]), p[j]) && Denote(h, ns[j]) == Put(Denote(g, ns[j]), p[j], u)
  {
    hide Denote, Ranked, Edit, Shape, NoParent;
    var n := ns[j];
    EditFacts(g, h, changed);
    EditHere(g, h, changed, n);
    OffTrail(g, ns, p);
    DenoteStep(g, n);
    DenoteStep(h, n);
    AtStep(g, n, p[j], ns[j + 1]);
    var slot: int :| SlotFor(g, n, slot, p[j]) && g[n].content[slot] == ns[j + 1];
    forall s | 0 <= s < |g[n].content|
      ensures Denote(h, n).kids[s] == if s == slot then u else Denote(g, n).kids[s]
    {
      if s != slot {
        SiblingOffTrail(g, ns, p, j, s);
        UntouchedSibling(g, h, changed, ns, g[n].content[s]);
      }
    }
    assert Denote(h, n).kids == Denote(g, n).kids[slot := u];
    if p[j].Index? {
      assert Pad(Denote(g, n).kids, slot) == Denote(g, n).kids;
    }
  }

  lemma UntouchedSibling(g: Graph, h: Graph, changed: set<Node>, ns: seq<Node>, c: Node)
    requires ns != [] && Edit(g, h, changed) && changed <= {ns[|ns| - 1]} && WellFormed(g) && WellFormed(h)
    requires c in g && c !in ns && ClosedIn(g, g.Keys - set n | n in ns)
    ensures c in h && Denote(h, c) == Denote(g, c)
  {
    hide Denote, Ranked, Edit;
    EditFacts(g, h, changed);
    var s := g.Keys - set n | n in ns;
    assert c in s && s !! changed;
    assert Avoids(g, c, changed);
    forall x | x in g && x !in changed ensures h[x] == g[x] {
      EditHere(g, h, changed, x);
    }
    UnreachedDenote(g, h, c, changed);
  }

  lemma NoParentKept(g: Graph, h: Graph, changed: set<Node>, root: Node)
    requires Edit(g, h, changed) && root in g && NoParent(g, root)
    ensures NoParent(h, root)
  {
    hide Denote, Ranked;
    forall x, i | x in h && 0 <= i < |h[x].content| ensures h[x].content[i] != root {
      if x in g {
        assert EditedAt(g, h, changed, x);
      }
    }
  }

  // What a trail passes through are mappings and sequences.
  lemma {:induction false} TrailOpen(g: Graph, ns: seq<Node>, p: seq<Segment>)
    requires Trail(g, ns, p) && NoMergeNames(p) && IsContainer(Denote(g, ns[|p|]))
    ensures OpenPath(Denote(g, ns[0]), p)
    decreases |p|
  {
    hide Denote, Ranked, At;
    DenotePaired(g, ns[0]);
    if p != [] {
      AtStep(g, ns[0], p[0], ns[1]);
      StepFits(Denote(g, ns[0]), p[0]);
      NoMergeSlice(p, 1, |p|);
      assert p[0] in p && p[1..|p|] == p[1..];
      TrailOpen(g, ns[1..], p[1..]);
    }
  }

  lemma DenotePaired(g: Graph, n: Node)
    requires WellFormed(g) && n in g
    ensures Paired(Denote(g, n))
  {
    hide Denote;
    RankedHere(g, SomeRank(g), n);
    DenoteStep(g, n);
    if g[n].kind == AliasNode {
      RankedHere(g, SomeRank(g), g[n].alias);
      DenoteStep(g, g[n].alias);
    }
  }

  // An edit at the end of the trail of an upsert is an edit of the tree there.
  lemma EditPlugs(g: Graph, h: Graph, changed: set<Node>, ns: seq<Node>, p: seq<Segment>)
    requires Trail(g, ns, p) && Shape(g) && NoParent(g, ns[0]) && NoMergeNames(p)
    requires Edit(g, h, changed) && changed * g.Keys <= {ns[|p|]} && IsContainer(Denote(g, ns[|p|]))
    ensures WellFormed(h) && ns[0] in h && ns[|p|] in h
    ensures OpenPath(Denote(g, ns[0]), p) && LocalWalk(Denote(g, ns[0]), p) == Some(Denote(g, ns[|p|]))
    ensures Denote(h, ns[0]) == Plug(Denote(g, ns[0]), p, Denote(h, ns[|p|]))
    ensures Shape(h) && NoParent(h, ns[0])
  {
    hide Denote, Ranked, At, Shape, NoParent;
    var inside := changed * g.Keys;
    forall x | x in g ensures EditedAt(g, h, inside, x) {
      assert EditedAt(g, h, changed, x);
    }
    PlugDenote(g, h, inside, ns, p, 0);
    assert p[0..] == p;
    TrailOpen(g, ns, p);
    TrailReads(g, ns, p);
    NoParentKept(g, h, changed, ns[0]);
  }

  // Without aliases a step writes to nothing but its container.
  lemma StepTouchedShape(g: Graph, n: Node, seg: Segment)
    requires WellFormed(g) && n in g && Shape(g)
    ensures StepTouched(g, n, seg) <= {n}
  {
  }
}
