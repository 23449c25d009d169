/** upsertPath, the whole loop. */
module Upserting {
  import opened Prelude
  import opened KeyPath
  import opened YamlNode
  import opened Anchors
  import opened Lookup
  import opened Walk
  import opened Upsert
  import opened UpsertNodes
  import opened UpsertTrail

  // The loop of upsertPath after i steps: nothing is touched yet, or everything
  // below current is new.
  ghost predicate Walking(g: Graph, h: Graph, root: Node, segs: seq<Segment>, i: nat,
                          ns: seq<Node>, current: Node, touched: set<Node>) {
    && Edit(g, h, touched) && root in g && i < |segs|
    && current in h && h[current].kind != AliasNode
    && (PathFits(Denote(g, root), segs) <==> PathFits(Denote(h, current), segs[i..]))
    && ((h == g && Touched(g, current, segs[i..]) == touched) || Apart(g, h, current, touched))
    && (NoMergeNames(segs) ==> Trail(h, ns, segs[..i]) && ns[0] == root && ns[i] == current)
    && (NoMergeNames(segs) && AliasFree(g, root) ==> AliasFree(h, root) && SameOutcome(g, h, root, segs))
    && OldScalar(h, current, segs[i..]) == OldScalar(g, root, segs)
    && OnTheWay(g, h, root, segs, i, current)
  }

  // A slot that is there without an alias on the way is still ahead, and nothing has
  // changed.
  ghost predicate OnTheWay(g: Graph, h: Graph, root: Node, segs: seq<Segment>, i: nat, current: Node)
    requires WellFormed(g) && root in g && i < |segs|
  {
    match ReadSlot(g, root, segs)
    case None => true
    case Some(r) => r.2 || (h == g && current in g && ReadSlot(g, current, segs[i..]) == Some(r))
  }

  lemma OnTheWayStep(g: Graph, h: Graph, k: Graph, root: Node, segs: seq<Segment>, i: nat, current: Node,
                     child: Node)
    requires WellFormed(g) && root in g && i + 1 < |segs| && OnTheWay(g, h, root, segs, i, current)
    requires WellFormed(h) && current in h && h[current].kind != AliasNode
    requires Stepped(h, k, current, segs[i], segs[i + 1], child)
    ensures OnTheWay(g, k, root, segs, i + 1, child)
    ensures OldScalar(k, child, segs[i + 1..]) == OldScalar(h, current, segs[i..])
  {
    hide Denote, Ranked, At, LocalStep, Edit, OldScalar, SlotIn, Fits, EmptyFor;
    assert segs[i..][0] == segs[i] && segs[i..][1..] == segs[i + 1..] && segs[i..] == [segs[i]] + segs[i + 1..];
    var read := ReadSlot(g, root, segs);
    if read.Some? && !read.value.2 {
      SlotAhead(g, current, segs[i..]);
      SteppedTo(g, current, segs[i], segs[i + 1], child);
    }
  }

  // A step towards a slot that is there without an alias touches nothing.
  lemma SlotAhead(g: Graph, n: Node, segs: seq<Segment>)
    requires WellFormed(g) && n in g && g[n].kind != AliasNode && |segs| > 1
    requires ReadSlot(g, n, segs).Some? && !ReadSlot(g, n, segs).value.2
    ensures StepTouched(g, n, segs[0]) == {}
    ensures ReadSlot(g, StepTo(g, n, segs[0]), segs[1..]) == ReadSlot(g, n, segs)
  {
    hide Denote, Ranked, SlotIn;
    var c := g[n].content[SlotIn(g, n, segs[0])];
    DenoteStep(g, c);
    StepsIntoContainer(g, c, segs[1..]);
  }

  lemma StepsIntoContainer(g: Graph, n: Node, segs: seq<Segment>)
    requires WellFormed(g) && n in g && segs != [] && ReadSlot(g, n, segs).Some?
    ensures IsContainer(Denote(g, n))
  {
    hide Denote, Ranked;
    DenoteStep(g, n);
  }

  // A document without aliases, read from its root.
  ghost predicate AliasFree(g: Graph, root: Node) {
    Shape(g) && NoParent(g, root)
  }

  // What is left to do from h gives what was to be done from g.
  ghost predicate SameOutcome(g: Graph, h: Graph, root: Node, segs: seq<Segment>)
    requires WellFormed(g) && WellFormed(h) && root in g && root in h && segs != []
  {
    forall leaf :: Upserted(Denote(h, root), segs, leaf) == Upserted(Denote(g, root), segs, leaf)
  }

  // Everything that is left to do happens below an alias that was broken or in new nodes,
  // and every touched node has changed.
  ghost predicate Apart(g: Graph, h: Graph, current: Node, touched: set<Node>)
    requires current in h
  {
    && (current in g ==> current in touched && g[current].kind == AliasNode)
    && (forall c | c in h[current].content :: c !in g)
    && AllChanged(g, h, touched)
  }

  ghost predicate AllChanged(g: Graph, h: Graph, touched: set<Node>) {
    forall x {:trigger x in touched} | x in touched :: x in g && x in h && h[x] != g[x]
  }

  lemma ApartStep(g: Graph, h: Graph, k: Graph, segs: seq<Segment>, i: nat, current: Node, child: Node,
                  touched: set<Node>)
    requires Edit(g, h, touched) && i + 1 < |segs| && current in h && h[current].kind != AliasNode
    requires (h == g && Touched(g, current, segs[i..]) == touched) || Apart(g, h, current, touched)
    requires Stepped(h, k, current, segs[i], segs[i + 1], child)
    ensures StepTouched(h, current, segs[i]) * g.Keys <= touched && Edit(g, k, touched)
    ensures (k == g && Touched(g, child, segs[i + 1..]) == touched) || Apart(g, k, child, touched)
  {
    hide Denote, Ranked, At, LocalStep;
    var step := StepTouched(h, current, segs[i]);
    EditFacts(g, h, touched);
    StepTouchedBelow(h, current, segs[i]);
    assert segs[i..][0] == segs[i] && segs[i..][1..] == segs[i + 1..];
    if h == g && Touched(g, current, segs[i..]) == touched {
      if step == {} {
        SteppedTo(h, current, segs[i], segs[i + 1], child);
      }
    } else {
      EditHere(h, k, step, current);
      assert child !in g;
    }
    EditTransitive(g, h, k, touched, step);
    EditFacts(g, k, touched);
    if child !in g && child in k {
      assert NewClosed(g, k);
    }
    StepChanges(g, h, k, segs, i, current, child, touched);
  }

  // The nodes a step touches change, and those changed before stay so.
  lemma StepChanges(g: Graph, h: Graph, k: Graph, segs: seq<Segment>, i: nat, current: Node, child: Node,
                    touched: set<Node>)
    requires Edit(g, h, touched) && i + 1 < |segs| && current in h && h[current].kind != AliasNode
    requires (h == g && Touched(g, current, segs[i..]) == touched) || Apart(g, h, current, touched)
    requires Stepped(h, k, current, segs[i], segs[i + 1], child)
    ensures (k == g && Touched(g, child, segs[i + 1..]) == touched) || AllChanged(g, k, touched)
  {
    hide Denote, Ranked, At, LocalStep, Fits;
    var step := StepTouched(h, current, segs[i]);
    EditFacts(g, h, touched);
    StepTouchedBelow(h, current, segs[i]);
    assert segs[i..][0] == segs[i] && segs[i..][1..] == segs[i + 1..];
    if h == g && Touched(g, current, segs[i..]) == touched {
      if step == {} {
        SteppedTo(h, current, segs[i], segs[i + 1], child);
      } else {
        assert Fits(Denote(g, current), segs[i]);
        assert touched == step;
        forall x | x in step ensures x in k && k[x] != h[x] {
          StepChanged(h, k, current, segs[i], segs[i + 1], child, x);
        }
      }
    } else {
      forall x | x in touched ensures x in g && x in k && k[x] != g[x] {
        EditHere(h, k, step, x);
      }
    }
  }

  lemma StepChanged(h: Graph, k: Graph, current: Node, seg: Segment, next: Segment, child: Node, x: Node)
    requires WellFormed(h) && current in h && h[current].kind != AliasNode && Stepped(h, k, current, seg, next, child)
    requires x in StepTouched(h, current, seg)
    ensures x in h && x in k && k[x] != h[x]
  {
    hide Denote, Ranked, At, LocalStep, Edit;
    EditFacts(h, k, StepTouched(h, current, seg));
    if x == current {
      RankedHere(h, SomeRank(h), current);
    }
  }

  // A step that touches nothing goes to the child already there.
  lemma SteppedTo(g: Graph, n: Node, seg: Segment, next: Segment, child: Node)
    requires WellFormed(g) && n in g && g[n].kind != AliasNode
    requires StepTouched(g, n, seg) == {} && Stepped(g, g, n, seg, next, child)
    ensures child == StepTo(g, n, seg)
  {
    hide Denote, Ranked;
    MergeIsNoKey(Denote(g, n).kids, 0);
    var slot: int :| SlotFor(g, n, slot, seg) && g[n].content[slot] == child;
    DenoteStep(g, n);
  }

  lemma WalkingStep(g: Graph, h: Graph, k: Graph, root: Node, segs: seq<Segment>, i: nat,
                    ns: seq<Node>, current: Node, touched: set<Node>, child: Node)
    requires Walking(g, h, root, segs, i, ns, current, touched) && i + 1 < |segs|
    requires Stepped(h, k, current, segs[i], segs[i + 1], child)
    ensures Walking(g, k, root, segs, i + 1, ns + [child], child, touched)
  {
    hide Denote, Ranked, At, LocalStep, Edit, Touched, StepTouched;
    EditFacts(g, h, touched);
    EditFacts(h, k, StepTouched(h, current, segs[i]));
    ApartStep(g, h, k, segs, i, current, child, touched);
    OnTheWayStep(g, h, k, root, segs, i, current, child);
    assert segs[i..][1..] == segs[i + 1..] && segs[i..][0] == segs[i] && segs[i..][1] == segs[i + 1];
    assert PathFits(Denote(h, current), segs[i..]) <==> PathFits(Denote(k, child), segs[i + 1..]);
    if NoMergeNames(segs) {
      assert segs[i] in segs;
      StepTouchedBelow(h, current, segs[i]);
      TrailGrows(h, k, StepTouched(h, current, segs[i]), ns, segs[..i], segs[i], child);
      assert segs[..i] + [segs[i]] == segs[..i + 1];
      if AliasFree(g, root) {
        OutcomeStep(h, k, root, segs, i, ns, child);
      }
    }
  }

  // A step down creates at most what the upsert would create anyway.
  lemma OutcomeStep(h: Graph, k: Graph, root: Node, segs: seq<Segment>, i: nat, ns: seq<Node>, child: Node)
    requires i + 1 < |segs| && NoMergeNames(segs) && Trail(h, ns, segs[..i]) && ns[0] == root
    requires AliasFree(h, root) && Stepped(h, k, ns[i], segs[i], segs[i + 1], child)
    ensures WellFormed(k) && root in k && AliasFree(k, root) && SameOutcome(h, k, root, segs)
  {
    hide Denote, Ranked, At, LocalStep, Edit, StepTouched, Shape, NoParent;
    var p, q, t := segs[..i], segs[i..], Denote(h, ns[i]);
    assert p + q == segs && q[0] == segs[i] && q[1] == segs[i + 1] && segs[i] in segs;
    NoMergeSlice(segs, 0, i);
    assert segs[0..i] == p;
    StepTouchedShape(h, ns[i], segs[i]);
    EditPlugs(h, k, StepTouched(h, ns[i], segs[i]), ns, p);
    DenotePaired(h, ns[i]);
    DenotePaired(k, ns[i]);
    forall leaf ensures Upserted(Denote(k, root), segs, leaf) == Upserted(Denote(h, root), segs, leaf) {
      UpsertedAfterStep(t, q, leaf);
      UpsertedAfterPlug(Denote(h, root), p, q, Denote(k, ns[i]), leaf);
    }
  }

  // The leaf completes the upsert.
  lemma OutcomeEnd(h: Graph, k: Graph, root: Node, segs: seq<Segment>, ns: seq<Node>, leaf: Leaf, node: Node)
    requires segs != [] && NoMergeNames(segs) && Trail(h, ns, segs[..|segs| - 1]) && ns[0] == root
    requires AliasFree(h, root) && LeafSet(h, k, ns[|segs| - 1], segs[|segs| - 1], leaf, node)
    ensures WellFormed(k) && root in k && AliasFree(k, root)
    ensures Some(Denote(k, root)) == Upserted(Denote(h, root), segs, leaf)
  {
    hide Denote, Ranked, At, LocalStep, Edit, Shape, NoParent;
    var p, last := segs[..|segs| - 1], segs[|segs| - 1];
    assert p + [last] == segs && segs[0..|segs| - 1] == p;
    NoMergeSlice(segs, 0, |segs| - 1);
    EditPlugs(h, k, {ns[|p|]}, ns, p);
    UpsertedAsPlug(Denote(h, root), p, [last], leaf);
  }

  // The whole path is written: nothing else is touched, and every segment fitted.
  lemma WalkingEndEdit(g: Graph, h: Graph, k: Graph, root: Node, segs: seq<Segment>,
                       ns: seq<Node>, current: Node, touched: set<Node>)
    requires segs != [] && Walking(g, h, root, segs, |segs| - 1, ns, current, touched)
    requires Edit(h, k, {current}) && Fits(Denote(h, current), segs[|segs| - 1])
    ensures Edit(g, k, touched) && WellFormed(g) && root in g && PathFits(Denote(g, root), segs)
    ensures k[current].content != h[current].content ==> AllChanged(g, k, touched)
  {
    hide Denote, Ranked, At, LocalStep, Edit, StepTouched, Trail, Touched, Fits;
    EditFacts(g, h, touched);
    LeafEdit(g, h, k, segs, current, touched);
    LastFits(Denote(h, current), segs);
  }

  lemma LastFits(t: Tree, segs: seq<Segment>)
    requires segs != [] && Fits(t, segs[|segs| - 1])
    ensures PathFits(t, segs[|segs| - 1..])
  {
  }

  // The trail ends at the leaf.
  lemma WalkingEndTrail(g: Graph, h: Graph, k: Graph, root: Node, segs: seq<Segment>,
                        ns: seq<Node>, current: Node, touched: set<Node>, node: Node)
    requires segs != [] && Walking(g, h, root, segs, |segs| - 1, ns, current, touched)
    requires Edit(h, k, {current}) && current in k && WellFormed(k)
    requires NoMergeNames(segs) && At(k, current, segs[|segs| - 1], node)
    ensures ns != [] && ns[0] == root && Trail(k, ns + [node], segs)
  {
    hide Denote, Ranked, At, LocalStep, Edit, StepTouched, Trail, Touched, PathFits;
    TrailEnd(h, k, ns, segs, node);
  }

  lemma TrailEnd(h: Graph, k: Graph, ns: seq<Node>, segs: seq<Segment>, node: Node)
    requires segs != [] && Trail(h, ns, segs[..|segs| - 1])
    requires Edit(h, k, {ns[|segs| - 1]}) && ns[|segs| - 1] in k
    requires WellFormed(k) && At(k, ns[|segs| - 1], segs[|segs| - 1], node)
    ensures |ns| == |segs| && Trail(k, ns + [node], segs)
  {
    hide Denote, Ranked, At, Edit;
    TrailGrows(h, k, {ns[|segs| - 1]}, ns, segs[..|segs| - 1], segs[|segs| - 1], node);
    assert segs[..|segs| - 1] + [segs[|segs| - 1]] == segs;
  }

  lemma LastNoMerge(segs: seq<Segment>)
    requires segs != [] && NoMergeNames(segs)
    ensures segs[|segs| - 1] != Name(MERGE_KEY)
  {
    assert segs[|segs| - 1] in segs;
  }

  lemma LeafEdit(g: Graph, h: Graph, k: Graph, segs: seq<Segment>, current: Node, touched: set<Node>)
    requires segs != [] && Edit(g, h, touched) && current in h && h[current].kind != AliasNode
    requires (h == g && Touched(g, current, segs[|segs| - 1..]) == touched) || Apart(g, h, current, touched)
    requires Edit(h, k, {current}) && Fits(Denote(h, current), segs[|segs| - 1])
    ensures Edit(g, k, touched)
    ensures current in k && (k[current].content != h[current].content ==> AllChanged(g, k, touched))
  {
    hide Denote, Ranked, Edit, LocalStep, StepTouched;
    EditFacts(g, h, touched);
    assert segs[|segs| - 1..] == [segs[|segs| - 1]];
    EditTransitive(g, h, k, touched, {current});
    EditHere(h, k, {current}, current);
    forall x | x in touched && Apart(g, h, current, touched) ensures x in g && x in k && k[x] != g[x] {
      EditHere(h, k, {current}, x);
    }
  }

  // descendOrCreate
  method DescendOrCreate(current: Node, seg: Segment, next: Segment, ghost nodes: set<Node>)
    returns (child: Node?, ghost all: set<Node>)
    requires current in nodes && WellFormed(Snapshot(nodes)) && current.kind != AliasNode
    modifies nodes
    ensures nodes <= all && fresh(all - nodes)
    ensures child == null ==>
      all == nodes && Snapshot(nodes) == old(Snapshot(nodes)) && !Fits(old(Denote(Snapshot(nodes), current)), seg)
    ensures child != null ==> Stepped(old(Snapshot(nodes)), Snapshot(all), current, seg, next, child)
  {
    if seg.Index? {
      child, all := DescendSequence(current, seg, next, nodes);
    } else {
      child, all := DescendMapping(current, seg, next, nodes);
    }
  }

  // What a successful upsert achieves.  `ns` are the nodes along the written path.
  ghost predicate Written(g: Graph, h: Graph, root: Node, segs: seq<Segment>, leaf: Leaf, ns: seq<Node>)
    requires WellFormed(g) && root in g && segs != []
  {
    NoMergeNames(segs) ==>
      && Trail(h, ns, segs) && ns[0] == root
      && Denote(h, ns[|segs|]) == LeafTree(leaf)
      && EffectiveScalar(Denote(h, root), segs) == Some(leaf.value)
      && (AliasFree(g, root) ==> AliasFree(h, root) && Some(Denote(h, root)) == Upserted(Denote(g, root), segs, leaf))
      && Takes(h[ns[|segs|]], OldScalar(g, root, segs))
      && InPlace(g, h, root, segs, ns[|segs|])
  }

  // If the slot is there without an alias on the way, its container has a new child there
  // and the others it had.
  ghost predicate InPlace(g: Graph, h: Graph, root: Node, segs: seq<Segment>, node: Node)
    requires WellFormed(g) && root in g && segs != []
  {
    match ReadSlot(g, root, segs)
    case None => true
    case Some(r) => r.2 || Replaces(g, h, r.0, r.1, node)
  }

  lemma EndsInPlace(g: Graph, h: Graph, k: Graph, root: Node, segs: seq<Segment>, ns: seq<Node>, current: Node,
                    touched: set<Node>, leaf: Leaf, node: Node)
    requires segs != [] && Walking(g, h, root, segs, |segs| - 1, ns, current, touched)
    requires WellFormed(g) && WellFormed(h) && root in g && current in h && h[current].kind != AliasNode
    requires LeafSet(h, k, current, segs[|segs| - 1], leaf, node)
    ensures node in k && Takes(k[node], OldScalar(g, root, segs)) && InPlace(g, k, root, segs, node)
  {
    hide Denote, Ranked, At, LocalStep, Edit, OldScalar, SlotIn, Trail, Touched, StepTouched, PathFits, Fits,
         LeafTree, Put, AliasFree, SameOutcome, Takes;
    assert segs[|segs| - 1..] == [segs[|segs| - 1]];
  }

  // upsertPath
  method UpsertPath(root: Node, segs: seq<Segment>, leaf: Leaf, ghost nodes: set<Node>)
    returns (ok: bool, ghost ns: seq<Node>, ghost all: set<Node>)
    requires root in nodes && WellFormed(Snapshot(nodes))
    modifies nodes
    ensures nodes <= all && fresh(all - nodes)
    ensures segs == [] ==> ok && all == nodes && Snapshot(nodes) == old(Snapshot(nodes))
    ensures segs != [] ==> Edit(old(Snapshot(nodes)), Snapshot(all), old(Touched(Snapshot(nodes), root, segs)))
    ensures segs != [] ==> AllChanged(old(Snapshot(nodes)), Snapshot(all), old(Touched(Snapshot(nodes), root, segs)))
    ensures segs != [] ==> (ok <==> PathFits(old(Denote(Snapshot(nodes), root)), segs))
    ensures segs != [] && ok ==> Written(old(Snapshot(nodes)), Snapshot(all), root, segs, leaf, ns)
  {
    hide Denote, Ranked, At, LocalStep, Edit, Touched, StepTouched, Trail, PathFits, LeafSet, Walking, Written;
    ns, all := [root], nodes;
    if |segs| == 0 {
      return true, ns, all;
    }
    ghost var g := Snapshot(nodes);
    ghost var touched := Touched(g, root, segs);
    var current;
    current, ns, all := WalkDown(root, segs, nodes);
    if current == null {
      return false, ns, all;
    }
    ghost var h, container := Snapshot(all), current;
    WalkingFacts(g, h, root, segs, |segs| - 1, ns, container, touched);
    assert container.Snap() == h[container];
    var written;
    written, all := SetLeaf(current, segs[|segs| - 1], leaf, all);
    if written == null {
      WalkingStops(g, h, root, segs, |segs| - 1, ns, container, touched);
      return false, ns, all;
    }
    WroteLeaf(g, h, Snapshot(all), root, segs, ns, container, touched, leaf, written);
    ns := ns + [written];
    ok := true;
  }

  // Its loop, and the alias breaking before and after it; null stands for the error
  // return.
  method WalkDown(root: Node, segs: seq<Segment>, ghost nodes: set<Node>)
    returns (current: Node?, ghost ns: seq<Node>, ghost all: set<Node>)
    requires root in nodes && WellFormed(Snapshot(nodes)) && segs != []
    modifies nodes
    ensures nodes <= all && fresh(all - nodes)
    ensures current == null ==>
      && Edit(old(Snapshot(nodes)), Snapshot(all), old(Touched(Snapshot(nodes), root, segs)))
      && AllChanged(old(Snapshot(nodes)), Snapshot(all), old(Touched(Snapshot(nodes), root, segs)))
      && !PathFits(old(Denote(Snapshot(nodes), root)), segs)
    ensures current != null ==>
      Walking(old(Snapshot(nodes)), Snapshot(all), root, segs, |segs| - 1, ns, current,
        old(Touched(Snapshot(nodes), root, segs)))
  {
    hide Denote, Ranked, At, LocalStep, Edit, Touched, StepTouched, Trail, PathFits, Stepped, Walking, SameScalars,
         OldScalar, ReadSlot, SlotIn, Expands;
    ghost var g := Snapshot(nodes);
    ghost var touched := Touched(g, root, segs);
    ns := [root];
    var at := root;
    all := BreakChild(at, nodes);
    WalkingStart(g, Snapshot(all), root, segs);
    var i := 0;
    while i < |segs| - 1
      invariant 0 <= i < |segs|
      invariant nodes <= all && fresh(all - nodes)
      invariant at in all && at.kind != AliasNode && WellFormed(Snapshot(all))
      invariant Walking(g, Snapshot(all), root, segs, i, ns, at, touched)
    {
      ghost var h := Snapshot(all);
      var next;
      next, all := DescendOrCreate(at, segs[i], segs[i + 1], all);
      if next == null {
        WalkingStops(g, h, root, segs, i, ns, at, touched);
        return null, ns, all;
      }
      var child: Node := next;
      WalkingStep(g, h, Snapshot(all), root, segs, i, ns, at, touched, child);
      WalkingFacts(g, Snapshot(all), root, segs, i + 1, ns + [child], child, touched);
      assert child.Snap() == Snapshot(all)[child];
      ns := ns + [child];
      at := child;
      i := i + 1;
    }
    current := at;
  }

  lemma WalkingStart(g: Graph, h: Graph, root: Node, segs: seq<Segment>)
    requires WellFormed(g) && root in g && segs != []
    requires Edit(g, h, if g[root].kind == AliasNode then {root} else {}) && Expands(g, h)
    requires root in h && h[root].kind != AliasNode
    requires g[root].kind != AliasNode ==> h == g
    requires g[root].kind == AliasNode ==> forall c | c in h[root].content :: c !in g
    requires SameScalars(g, h, root, root)
    ensures WellFormed(h) && Walking(g, h, root, segs, 0, [root], root, Touched(g, root, segs))
  {
    hide Denote, Ranked, At, LocalStep, Edit;
    ExpandsFacts(g, h);
    assert segs[0..] == segs && segs[..0] == [];
    if g[root].kind != AliasNode {
      EditNothing(g, Touched(g, root, segs));
    }
  }

  lemma WalkingFacts(g: Graph, h: Graph, root: Node, segs: seq<Segment>, i: nat,
                     ns: seq<Node>, current: Node, touched: set<Node>)
    requires Walking(g, h, root, segs, i, ns, current, touched)
    ensures WellFormed(h) && current in h && h[current].kind != AliasNode
  {
  }

  lemma WalkingStops(g: Graph, h: Graph, root: Node, segs: seq<Segment>, i: nat,
                     ns: seq<Node>, current: Node, touched: set<Node>)
    requires Walking(g, h, root, segs, i, ns, current, touched)
    requires WellFormed(h) && current in h && !Fits(Denote(h, current), segs[i])
    ensures Edit(g, h, touched) && WellFormed(g) && root in g && !PathFits(Denote(g, root), segs)
    ensures AllChanged(g, h, touched)
  {
    hide Denote, Ranked, At, LocalStep, StepTouched, Trail, Edit;
    EditFacts(g, h, touched);
    assert segs[i..][0] == segs[i];
  }

  lemma WroteLeaf(g: Graph, h: Graph, k: Graph, root: Node, segs: seq<Segment>,
                  ns: seq<Node>, current: Node, touched: set<Node>, leaf: Leaf, node: Node)
    requires segs != [] && Walking(g, h, root, segs, |segs| - 1, ns, current, touched)
    requires LeafSet(h, k, current, segs[|segs| - 1], leaf, node)
    ensures Edit(g, k, touched) && WellFormed(g) && PathFits(Denote(g, root), segs) && WellFormed(k) && root in k
    ensures AllChanged(g, k, touched)
    ensures Written(g, k, root, segs, leaf, ns + [node])
  {
    hide Denote, Ranked, At, LocalStep, Edit, Touched, StepTouched, Walking, AliasFree, SameOutcome, OldScalar,
         InPlace, Takes;
    WalkingEndEdit(g, h, k, root, segs, ns, current, touched);
    EditFacts(g, k, touched);
    EditFacts(h, k, {current});
    WalkingFacts(g, h, root, segs, |segs| - 1, ns, current, touched);
    NewChild(h, k, current, node);
    EndsInPlace(g, h, k, root, segs, ns, current, touched, leaf, node);
    if NoMergeNames(segs) {
      LastNoMerge(segs);
      WalkingEndTrail(g, h, k, root, segs, ns, current, touched, node);
      TrailReads(k, ns + [node], segs);
      if AliasFree(g, root) {
        WalkingOutcome(g, h, root, segs, |segs| - 1, ns, current, touched, leaf);
        OutcomeEnd(h, k, root, segs, ns, leaf, node);
      }
    }
  }

  lemma NewChild(h: Graph, k: Graph, current: Node, node: Node)
    requires WellFormed(h) && current in h && current in k && node in k[current].content && node !in h
    ensures k[current].content != h[current].content
  {
    RankedHere(h, SomeRank(h), current);
  }

  lemma WalkingOutcome(g: Graph, h: Graph, root: Node, segs: seq<Segment>, i: nat,
                       ns: seq<Node>, current: Node, touched: set<Node>, leaf: Leaf)
    requires Walking(g, h, root, segs, i, ns, current, touched)
    requires NoMergeNames(segs) && AliasFree(g, root)
    ensures WellFormed(g) && WellFormed(h) && root in g && root in h && AliasFree(h, root)
    ensures Upserted(Denote(h, root), segs, leaf) == Upserted(Denote(g, root), segs, leaf)
    ensures Trail(h, ns, segs[..i]) && ns[0] == root && ns[i] == current
  {
    hide Denote, Ranked, At, LocalStep, Touched, StepTouched, Trail, Upserted, Shape, NoParent;
  }

  // ----- nothing leaks through an alias -----

  // Of the old nodes, exactly those of Touched change.
  lemma TouchedExactly(g: Graph, h: Graph, touched: set<Node>, x: Node)
    requires Edit(g, h, touched) && AllChanged(g, h, touched) && x in g
    ensures x in h && (h[x] != g[x] <==> x in touched)
  {
    EditHere(g, h, touched, x);
  }

  // If there is an alias among them, it is the root alone; or the alias alone if it shows
  // a container; or else the alias and the container around it.
  lemma {:induction false} TouchedShape(g: Graph, n: Node, segs: seq<Segment>)
    requires WellFormed(g) && n in g && segs != []
    ensures forall x | x in Touched(g, n, segs) :: x in g
    ensures forall a | a in Touched(g, n, segs) && g[a].kind == AliasNode ::
      if a == n || IsContainer(Denote(g, a)) then Touched(g, n, segs) == {a}
      else exists c {:trigger g[c].content} :: c in g && c != a && a in g[c].content && Touched(g, n, segs) == {a, c}
    decreases |segs|
  {
    hide Denote, Ranked;
    DenoteStep(g, n);
    if g[n].kind != AliasNode && Fits(Denote(g, n), segs[0]) && |segs| > 1 {
      StepTouchedBelow(g, n, segs[0]);
      if StepTouched(g, n, segs[0]) == {} {
        TouchedShape(g, StepTo(g, n, segs[0]), segs[1..]);
        TouchedBelow(g, n, segs);
      }
    }
  }

  // Below a node that is no alias, what is touched is not the node.
  lemma TouchedBelow(g: Graph, n: Node, segs: seq<Segment>)
    requires WellFormed(g) && n in g && g[n].kind != AliasNode && |segs| > 1 && Fits(Denote(g, n), segs[0])
    requires StepTouched(g, n, segs[0]) == {}
    ensures g[StepTo(g, n, segs[0])].kind != AliasNode
  {
    hide Denote, Ranked;
  }

  // An upsert through an alias on its way writes to no other old node if and only if the
  // alias shows a container.  Otherwise the container around it is given a new child.
  lemma AliasAlone(g: Graph, h: Graph, root: Node, segs: seq<Segment>, a: Node)
    requires WellFormed(g) && root in g && segs != []
    requires Edit(g, h, Touched(g, root, segs)) && AllChanged(g, h, Touched(g, root, segs))
    requires a in Touched(g, root, segs) && a in g && g[a].kind == AliasNode && a != root
    ensures g.Keys <= h.Keys
    ensures (forall x | x in g && x != a :: h[x] == g[x]) <==> IsContainer(Denote(g, a))
  {
    hide Denote, Ranked, Edit, Touched;
    var touched := Touched(g, root, segs);
    EditFacts(g, h, touched);
    TouchedShape(g, root, segs);
    if IsContainer(Denote(g, a)) {
      forall x | x in g && x != a ensures h[x] == g[x] {
        TouchedExactly(g, h, touched, x);
      }
    } else {
      var c: Node :| c in g && c != a && touched == {a, c};
      TouchedExactly(g, h, touched, c);
    }
  }

  // A document with an anchor x on the value of a, and an alias of it as that of b.
  ghost function AliasDocument(root: Node, ka: Node, x: Node, kb: Node, b: Node, one: string): Graph {
    var text := Fields(ScalarNode, 0, TAG_STR, "a", "", null, [], "", "", "", 1, 1);
    map[
      root := text.(kind := MappingNode, tag := TAG_MAP, value := "", content := [ka, x, kb, b]),
      ka := text, x := text.(value := one, anchor := "x"),
      kb := text.(value := "b"), b := text.(kind := AliasNode, tag := "", value := "x", alias := x)]
  }

  // Its nodes.
  ghost predicate IsAliasDocument(g: Graph, root: Node, ka: Node, x: Node, kb: Node, b: Node, one: string) {
    && g.Keys == {root, ka, x, kb, b}
    && g[root].kind == MappingNode && g[root].tag == TAG_MAP && g[root].value == "" && g[root].content == [ka, x, kb, b]
    && IsText(g[ka], "a") && IsText(g[x], one) && IsText(g[kb], "b")
    && g[b].kind == AliasNode && g[b].alias == x && g[b].content == [] && g[root].alias == null
  }

  lemma AliasDocumentIs(root: Node, ka: Node, x: Node, kb: Node, b: Node, one: string)
    requires AllDifferent([root, ka, x, kb, b])
    ensures IsAliasDocument(AliasDocument(root, ka, x, kb, b, one), root, ka, x, kb, b, one)
  {
    var ns := [root, ka, x, kb, b];
    assert ns[0] != ns[1] && ns[0] != ns[2] && ns[0] != ns[3] && ns[0] != ns[4] && ns[1] != ns[2];
    assert ns[1] != ns[3] && ns[1] != ns[4] && ns[2] != ns[3] && ns[2] != ns[4] && ns[3] != ns[4];
  }

  lemma AliasDocumentWell(g: Graph, root: Node, ka: Node, x: Node, kb: Node, b: Node, one: string)
    requires IsAliasDocument(g, root, ka, x, kb, b, one)
    ensures WellFormed(g)
  {
    var rank := map n | n in g :: if n == root then 2 else if n == b then 1 else 0;
    assert Ranked(g, rank) by {
      forall n | n in g ensures RankedAt(g, rank, n) {
      }
    }
  }

  lemma AliasDocumentDenotes(g: Graph, root: Node, ka: Node, x: Node, kb: Node, b: Node, one: string)
    requires IsAliasDocument(g, root, ka, x, kb, b, one)
    ensures WellFormed(g) && root in g && b in g && Denote(g, b) == Text(one)
    ensures Denote(g, root) == Tree(MappingNode, TAG_MAP, "", [Text("a"), Text(one), Text("b"), Text(one)])
  {
    hide Ranked;
    AliasDocumentWell(g, root, ka, x, kb, b, one);
    LeafDenotes(g, ka);
    LeafDenotes(g, x);
    LeafDenotes(g, kb);
    DenoteStep(g, b);
    DenoteStep(g, root);
  }

  // Writing below b writes to the alias and to the root.
  lemma ScalarAliasExample(root: Node, ka: Node, x: Node, kb: Node, b: Node, one: string)
    requires AllDifferent([root, ka, x, kb, b])
    ensures var g, segs := AliasDocument(root, ka, x, kb, b, one), [Name("b"), Name("c")];
      && WellFormed(g) && root in g && b in g && g[b].kind == AliasNode && PathFits(Denote(g, root), segs)
      && Touched(g, root, segs) == {root, b}
  {
    hide Ranked, Denote, AliasDocument;
    var g, segs := AliasDocument(root, ka, x, kb, b, one), [Name("b"), Name("c")];
    AliasDocumentIs(root, ka, x, kb, b, one);
    AliasDocumentDenotes(g, root, ka, x, kb, b, one);
    var t := Denote(g, root);
    RankedHere(g, SomeRank(g), root);
    assert KeyIndexFrom(t.kids, "b", 2) == 2;
    assert KeyIndex(t, "b") == 2;
    assert LocalStep(t, Name("b")) == Some(Text(one));
    assert StepTouched(g, root, Name("b")) == {b, root};
    assert segs[1..] == [Name("c")];
  }

  // What an alias on the path points at cannot see the write, so the anchor
  // denotes what it did.
  lemma AnchorUntouched(g: Graph, h: Graph, root: Node, segs: seq<Segment>, a: Node)
    requires WellFormed(g) && root in g && segs != [] && Edit(g, h, Touched(g, root, segs))
    requires a in Touched(g, root, segs) && a in g && g[a].kind == AliasNode
    ensures g[a].alias in g && g[a].alias in h && WellFormed(h)
    ensures h[g[a].alias] == g[g[a].alias] && Denote(h, g[a].alias) == Denote(g, g[a].alias)
  {
    hide Denote, Ranked, Edit, Touched, Avoids;
    var touched := Touched(g, root, segs);
    EditFacts(g, h, touched);
    TargetAvoids(g, root, segs, a);
    UntouchedDenote(g, h, touched, g[a].alias);
  }

  lemma TargetAvoids(g: Graph, root: Node, segs: seq<Segment>, a: Node)
    requires WellFormed(g) && root in g && segs != []
    requires a in Touched(g, root, segs) && a in g && g[a].kind == AliasNode
    ensures g[a].alias in g && Avoids(g, g[a].alias, Touched(g, root, segs))
  {
    hide Denote, Ranked, Touched, Avoids;
    var rank := SomeRank(g);
    TouchedShape(g, root, segs);
    RankedHere(g, rank, a);
    forall x | x in Touched(g, root, segs) && x != a ensures x in g && rank[a] < rank[x] {
      RankedHere(g, rank, x);
    }
    LowerRankAvoids(g, rank, g[a].alias, Touched(g, root, segs));
  }

  lemma UntouchedDenote(g: Graph, h: Graph, touched: set<Node>, n: Node)
    requires Edit(g, h, touched) && n in g && Avoids(g, n, touched)
    ensures WellFormed(g) && WellFormed(h) && n in h && h[n] == g[n] && Denote(h, n) == Denote(g, n)
  {
    hide Denote, Ranked, Edit;
    EditFacts(g, h, touched);
    forall x | x in g && x !in touched ensures h[x] == g[x] {
      EditHere(g, h, touched, x);
    }
    UnreachedDenote(g, h, n, touched);
  }

  // Every other alias of that anchor, too, still reads what it read.
  lemma OtherAliasUntouched(g: Graph, h: Graph, root: Node, segs: seq<Segment>, a: Node, b: Node)
    requires WellFormed(g) && root in g && segs != [] && Edit(g, h, Touched(g, root, segs))
    requires a in Touched(g, root, segs) && a in g && g[a].kind == AliasNode
    requires b in g && b !in Touched(g, root, segs) && g[b].kind == AliasNode && g[b].alias == g[a].alias
    ensures WellFormed(h) && b in h && Denote(h, b) == Denote(g, b)
  {
    hide Denote, Ranked, Edit, Touched;
    EditFacts(g, h, Touched(g, root, segs));
    AnchorUntouched(g, h, root, segs, a);
    EditHere(g, h, Touched(g, root, segs), b);
    DenoteStep(g, b);
    DenoteStep(h, b);
  }
}
