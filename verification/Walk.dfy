/** The physical walkers: they follow a path through local keys and indices,
  breaking the aliases they meet so that a later write stays local. */
module Walk {
  import opened Prelude
  import opened KeyPath
  import opened YamlNode
  import opened DeepCopy
  import opened Anchors
  import opened Lookup
  import opened Reading

  // ----- what a path means to a physical walker -----

  function LocalStep(t: Tree, seg: Segment): (r: Option<Tree>)
    ensures r.Some? ==> r.value < t
  {
    match seg
    case Index(i) => if t.kind == SequenceNode && i < |t.kids| then Some(t.kids[i]) else None
    case Name(n) => if KeyIndex(t, n) >= 0 then Some(t.kids[KeyIndex(t, n) + 1]) else None
  }

  function LocalWalk(t: Tree, segs: seq<Segment>): Option<Tree> {
    if segs == [] then Some(t)
    else match LocalStep(t, segs[0])
      case None => None
      case Some(u) => LocalWalk(u, segs[1..])
  }

  // ----- edits that only expand aliases -----

  ghost predicate NoAliases(g: Graph) {
    forall n {:trigger g[n]} | n in g :: g[n].kind != AliasNode
  }

  // h is g with some aliases turned into local copies: no node denotes anything
  // new, and no other node is touched.
  ghost predicate Expands(g: Graph, h: Graph) {
    && WellFormed(g) && WellFormed(h)
    && (NoAliases(g) ==> h == g)
    && forall n {:trigger Kept(g, h, n)} {:trigger Denote(h, n)} {:trigger h[n]} | n in g :: Kept(g, h, n)
  }

  ghost predicate Kept(g: Graph, h: Graph, n: Node)
    requires WellFormed(g) && WellFormed(h) && n in g
  {
    && n in h
    && (h[n] == g[n] || (g[n].kind == AliasNode && h[n].kind != AliasNode))
    && Denote(h, n) == Denote(g, n)
  }

  lemma ExpandsTransitive(g: Graph, h: Graph, k: Graph)
    requires Expands(g, h) && Expands(h, k)
    ensures Expands(g, k)
  {
    forall n | n in g ensures Kept(g, k, n) {
      assert Kept(g, h, n) && Kept(h, k, n);
    }
  }

  lemma ExpandsReflexive(g: Graph)
    requires WellFormed(g)
    ensures Expands(g, g)
  {
    forall n | n in g ensures Kept(g, g, n) {}
  }

  lemma ExpandsFacts(g: Graph, h: Graph)
    requires Expands(g, h)
    ensures WellFormed(g) && WellFormed(h)
    ensures forall n | n in g :: n in h && Denote(h, n) == Denote(g, n)
    ensures forall n | n in g && h[n] != g[n] :: g[n].kind == AliasNode && h[n].kind != AliasNode
  {
    forall n | n in g ensures n in h && Denote(h, n) == Denote(g, n) {
      assert Kept(g, h, n);
    }
  }

  // None but these nodes are written, and only to give them new children.
  ghost predicate Along(g: Graph, h: Graph, ns: seq<Node>) {
    && NewClosed(g, h)
    && forall n {:trigger h[n]} {:trigger n in h} | n in g ::
         n in h && (h[n] == g[n] || (n in ns && Renewed(g, h, h[n])))
  }

  ghost predicate Renewed(g: Graph, h: Graph, f: Fields) {
    f.alias == null && forall c | c in f.content :: c in h && c !in g
  }

  lemma AlongBoth(g: Graph, h: Graph, k: Graph, ns: seq<Node>)
    requires Along(g, h, ns) && Along(h, k, ns)
    ensures Along(g, k, ns)
  {
    forall n | n in g ensures n in k && (k[n] == g[n] || (n in ns && Renewed(g, k, k[n]))) {
      assert n in h;
    }
    forall x {:trigger k[x]} | x in k && x !in g
      ensures forall c | c in k[x].content :: c in k && c !in g
      ensures k[x].alias != null ==> k[x].alias in k && k[x].alias !in g
    {
      if x in h && k[x] == h[x] {
        assert h[x] == h[x];
      }
    }
  }

  lemma AlongMore(g: Graph, h: Graph, ns: seq<Node>, m: Node)
    requires Along(g, h, ns)
    ensures Along(g, h, ns + [m])
  {
  }

  lemma AlongOne(g: Graph, h: Graph, ns: seq<Node>, n: Node)
    requires Along(g, h, [n]) && n in ns
    ensures Along(g, h, ns)
  {
  }

  lemma AlongNothing(g: Graph, ns: seq<Node>)
    ensures Along(g, g, ns)
  {
  }

  // breakAliasInPlace as an expansion.  `all` is `nodes` and the copies made.
  method ExpandAlias(a: Node, ghost nodes: set<Node>) returns (ghost all: set<Node>)
    requires a in nodes && WellFormed(Snapshot(nodes))
    modifies if a.kind == AliasNode then {a} else {}
    ensures nodes <= all && fresh(all - nodes) && a.kind != AliasNode
    ensures Expands(old(Snapshot(nodes)), Snapshot(all))
    ensures Along(old(Snapshot(nodes)), Snapshot(all), [a])
    ensures old(a.kind) != AliasNode ==> all == nodes
    ensures NewClosed(old(Snapshot(nodes)), Snapshot(all))
    ensures old(a.kind) == AliasNode ==> a.alias == null && forall c | c in a.content :: c in all && c !in nodes
    ensures SameScalars(old(Snapshot(nodes)), Snapshot(all), a, a)
  {
    hide Ranked, Denote, IsCopy, Injective, CopyOf, SameScalars;
    ghost var g := Snapshot(nodes);
    if a.kind == AliasNode {
      ghost var made, copies := BreakAliasInPlace(a, nodes);
      all := nodes + made;
      BrokenMeaning(g, Snapshot(all), a, copies);
      BrokenKind(g, Snapshot(all), a, copies);
      BrokenBelow(g, Snapshot(all), a, copies);
      BrokenScalars(g, Snapshot(all), a, copies);
      assert a.Snap() == Snapshot(all)[a];
    } else {
      all := nodes;
      ScalarsStay(g, a);
    }
  }

  // stepPhysical
  method StepPhysical(current: Node, seg: Segment, ghost nodes: set<Node>) returns (next: Node?, ghost all: set<Node>)
    requires current in nodes && WellFormed(Snapshot(nodes))
    modifies if current.kind == AliasNode then {current} else {}
    ensures nodes <= all && fresh(all - nodes)
    ensures Expands(old(Snapshot(nodes)), Snapshot(all))
    ensures Along(old(Snapshot(nodes)), Snapshot(all), [current])
    ensures old(current.kind) != AliasNode ==> all == nodes
    ensures Finds(Snapshot(all), next, LocalStep(old(Denote(Snapshot(nodes), current)), seg))
    ensures next != null ==> At(Snapshot(all), current, seg, next)
  {
    hide Denote, Ranked, LocalStep, SlotFor;
    all := ExpandAlias(current, nodes);
    ghost var h := Snapshot(all);
    var slot := LastSlot(current, seg, h);
    if slot < 0 {
      return null, all;
    }
    assert current.Snap() == h[current];
    return current.content[slot], all;
  }

  // Where a path's last segment is stored: parent.content[slot].
  ghost predicate SlotFor(h: Graph, parent: Node, slot: int, last: Segment)
    requires WellFormed(h) && parent in h
  {
    && h[parent].kind != AliasNode && 0 <= slot < |h[parent].content| && h[parent].content[slot] in h
    && match last
       case Index(i) => h[parent].kind == SequenceNode && slot == i
       case Name(n) => h[parent].kind == MappingNode && slot == KeyIndex(Denote(h, parent), n) + 1 && slot > 0
  }

  lemma {:induction false} KeyIndexEven(kids: seq<Tree>, name: string, i: nat)
    ensures var idx := KeyIndexFrom(kids, name, i); idx < 0 || idx % 2 == i % 2
    decreases |kids| - i
  {
    if i + 1 < |kids| {
      KeyIndexEven(kids, name, i + 2);
    }
  }

  // A slot holds a value, never a key.
  lemma SlotIsNoKey(h: Graph, parent: Node, slot: int, last: Segment)
    requires WellFormed(h) && parent in h && SlotFor(h, parent, slot, last)
    ensures 0 <= slot < |h[parent].content| && h[parent].content[slot] in h && h[parent].kind != AliasNode
    ensures !KeyPosition(h[parent], slot)
  {
    if last.Name? {
      KeyIndexEven(Denote(h, parent).kids, last.name, 0);
    }
  }

  lemma {:induction false} LocalWalkSplit(t: Tree, segs: seq<Segment>, last: Segment)
    ensures LocalWalk(t, segs + [last]) ==
      match LocalWalk(t, segs) case None => None case Some(u) => LocalStep(u, last)
  {
    if segs == [] {
      assert ([] + [last])[1..] == [];
    } else {
      assert (segs + [last])[1..] == segs[1..] + [last];
      var step := LocalStep(t, segs[0]);
      if step.Some? {
        LocalWalkSplit(step.value, segs[1..], last);
      }
    }
  }

  // ----- the nodes along a path -----

  // seg leads physically from n to m.
  ghost predicate At(h: Graph, n: Node, seg: Segment, m: Node)
    requires WellFormed(h) && n in h
  {
    exists slot: int :: SlotFor(h, n, slot, seg) && h[n].content[slot] == m
  }

  // ns are the nodes along segs, each reached physically from the one before.
  ghost predicate Trail(h: Graph, ns: seq<Node>, segs: seq<Segment>) {
    && WellFormed(h)
    && |ns| == |segs| + 1
    && (forall j | 0 <= j < |ns| :: ns[j] in h)
    && (forall j | 0 <= j < |segs| :: At(h, ns[j], segs[j], ns[j + 1]))
  }

  lemma AtStep(h: Graph, n: Node, seg: Segment, m: Node)
    requires WellFormed(h) && n in h && At(h, n, seg, m)
    ensures m in h && LocalStep(Denote(h, n), seg) == Some(Denote(h, m))
    ensures LazyStep(Denote(h, n), seg) == Some(Denote(h, m))
  {
    hide Denote, Ranked;
    var slot: int :| SlotFor(h, n, slot, seg) && h[n].content[slot] == m;
    DenoteStep(h, n);
  }

  // The trail spells out what a lazy walk reads.
  lemma {:induction false} TrailReads(h: Graph, ns: seq<Node>, segs: seq<Segment>)
    requires Trail(h, ns, segs)
    ensures LazyWalk(Denote(h, ns[0]), segs) == Some(Denote(h, ns[|segs|]))
    ensures LocalWalk(Denote(h, ns[0]), segs) == Some(Denote(h, ns[|segs|]))
    decreases |segs|
  {
    hide Denote, Ranked, At;
    if segs != [] {
      AtStep(h, ns[0], segs[0], ns[1]);
      TrailReads(h, ns[1..], segs[1..]);
    }
  }

  // Denotations shrink along a trail, so it never returns to a node.
  lemma {:induction false} TrailDescends(h: Graph, ns: seq<Node>, segs: seq<Segment>, j: nat)
    requires Trail(h, ns, segs) && j < |segs|
    ensures Denote(h, ns[|segs|]) < Denote(h, ns[j])
    decreases |segs| - j
  {
    hide Denote, Ranked, At;
    AtStep(h, ns[j], segs[j], ns[j + 1]);
    if j + 1 < |segs| {
      TrailDescends(h, ns, segs, j + 1);
    }
  }

  lemma TrailSnoc(h: Graph, ns: seq<Node>, segs: seq<Segment>, seg: Segment, m: Node)
    requires Trail(h, ns, segs) && At(h, ns[|segs|], seg, m)
    ensures Trail(h, ns + [m], segs + [seg])
  {
    hide Denote, Ranked, At;
    AtStep(h, ns[|segs|], seg, m);
  }

  // Expanding aliases keeps a trail: only its last node can be an alias.
  lemma TrailExpands(g: Graph, h: Graph, ns: seq<Node>, segs: seq<Segment>)
    requires Trail(g, ns, segs) && Expands(g, h)
    ensures Trail(h, ns, segs)
  {
    hide Denote, Ranked, Expands;
    ExpandsFacts(g, h);
    forall j | 0 <= j < |segs| ensures At(h, ns[j], segs[j], ns[j + 1]) {
      var slot: int :| SlotFor(g, ns[j], slot, segs[j]) && g[ns[j]].content[slot] == ns[j + 1];
      assert SlotFor(h, ns[j], slot, segs[j]) && h[ns[j]].content[slot] == ns[j + 1];
    }
  }

  // The part that stepPhysical, findParentSlot and its read-only variant share:
  // the slot of one segment in an unaliased container.
  method LastSlot(current: Node, last: Segment, ghost h: Graph) returns (slot: int)
    requires Shows(h) && WellFormed(h) && current in h && current.kind != AliasNode
    ensures slot < 0 <==> LocalStep(Denote(h, current), last).None?
    ensures slot >= 0 ==> SlotFor(h, current, slot, last)
    ensures slot >= 0 ==> LocalStep(Denote(h, current), last) == Some(Denote(h, h[current].content[slot]))
  {
    assert current.Snap() == h[current];
    DenoteStep(h, current);
    if last.Index? {
      if current.kind != SequenceNode || last.index >= |current.content| {
        return -1;
      }
      return last.index;
    }
    if current.kind != MappingNode {
      return -1;
    }
    var idx := MappingKeyIndex(current, last.name, h);
    if idx < 0 {
      return -1;
    }
    return idx + 1;
  }

  // ns are the nodes along p, after expanding the aliases on the way.
  ghost predicate Walked(g: Graph, h: Graph, tree: Node, p: seq<Segment>, ns: seq<Node>) {
    && Expands(g, h) && tree in g
    && Trail(h, ns, p) && ns[0] == tree
    && LocalWalk(Denote(g, tree), p) == Some(Denote(h, ns[|p|]))
    && Along(g, h, ns)
  }

  lemma WalkedFacts(g: Graph, h: Graph, tree: Node, p: seq<Segment>, ns: seq<Node>)
    requires Walked(g, h, tree, p, ns)
    ensures Expands(g, h) && WellFormed(h) && |ns| == |p| + 1 && ns[|p|] in h && ns[0] == tree
    ensures Trail(h, ns, p) && LocalWalk(Denote(g, tree), p) == Some(Denote(h, ns[|p|])) && Along(g, h, ns)
  {
  }

  lemma WalkedStart(g: Graph, tree: Node, segs: seq<Segment>)
    requires WellFormed(g) && tree in g
    ensures Walked(g, g, tree, segs[..0], [tree])
  {
    AlongNothing(g, [tree]);
    ExpandsReflexive(g);
  }

  lemma WalkedExpands(g: Graph, h: Graph, k: Graph, tree: Node, p: seq<Segment>, ns: seq<Node>)
    requires Walked(g, h, tree, p, ns) && Expands(h, k) && Along(h, k, ns)
    ensures Walked(g, k, tree, p, ns)
  {
    hide Denote, Expands, Trail, LocalWalk, Along;
    AlongBoth(g, h, k, ns);
    WalkedFacts(g, h, tree, p, ns);
    ExpandsTransitive(g, h, k);
    ExpandsFacts(h, k);
    TrailExpands(h, k, ns, p);
    WalkedFacts(g, h, tree, p, ns);
  }

  // One turn of the walk: the next segment leads on, or nothing is at the path.
  lemma WalkedStep(g: Graph, h: Graph, k: Graph, tree: Node, segs: seq<Segment>, i: nat, ns: seq<Node>, next: Node?)
    requires i < |segs| && Walked(g, h, tree, segs[..i], ns) && Expands(h, k) && Along(h, k, ns)
    requires |ns| == i + 1 && WellFormed(h) && ns[i] in h && ns[i] in k && WellFormed(k)
    requires Finds(k, next, LocalStep(Denote(h, ns[i]), segs[i])) && (next != null ==> At(k, ns[i], segs[i], next))
    ensures next != null ==> Walked(g, k, tree, segs[..i + 1], ns + [next])
    ensures next == null ==> Expands(g, k) && LocalWalk(Denote(g, tree), segs).None?
  {
    hide Denote, Expands, Trail, LocalWalk, LocalStep, At, Along;
    WalkedExpands(g, h, k, tree, segs[..i], ns);
    WalkedFacts(g, h, tree, segs[..i], ns);
    WalkedFacts(g, k, tree, segs[..i], ns);
    var t := Denote(g, tree);
    LocalWalkSplit(t, segs[..i], segs[i]);
    assert segs[..i] + [segs[i]] == segs[..i + 1];
    if next != null {
      TrailSnoc(k, ns, segs[..i], segs[i], next);
      AlongMore(g, k, ns, next);
      assert (ns + [next])[0] == ns[0];
    } else {
      LocalWalkConcat(t, segs[..i + 1], segs[i + 1..]);
      assert segs[..i + 1] + segs[i + 1..] == segs;
    }
  }

  lemma {:induction false} LocalWalkConcat(t: Tree, p: seq<Segment>, q: seq<Segment>)
    ensures LocalWalk(t, p + q) == match LocalWalk(t, p) case None => None case Some(u) => LocalWalk(u, q)
    decreases |p|
  {
    if p == [] {
      assert p + q == q;
    } else {
      assert (p + q)[1..] == p[1..] + q;
      if LocalStep(t, p[0]).Some? {
        LocalWalkConcat(LocalStep(t, p[0]).value, p[1..], q);
      }
    }
  }

  // resolvePhysicalForMutation; null stands for the error return.
  method ResolvePhysicalForMutation(tree: Node, segs: seq<Segment>, ghost nodes: set<Node>)
    returns (leaf: Node?, ghost ns: seq<Node>, ghost all: set<Node>)
    requires tree in nodes && WellFormed(Snapshot(nodes))
    modifies nodes
    ensures nodes <= all && fresh(all - nodes)
    ensures leaf == null ==>
      Expands(old(Snapshot(nodes)), Snapshot(all)) && LocalWalk(old(Denote(Snapshot(nodes), tree)), segs).None?
    ensures leaf != null ==>
      Walked(old(Snapshot(nodes)), Snapshot(all), tree, segs, ns) && |ns| == |segs| + 1 && ns[|segs|] == leaf
  {
    hide Denote, LocalWalk, LocalStep, Ranked, Expands, At, Trail, Walked, Finds, Along;
    ghost var g := Snapshot(nodes);
    all := nodes;
    ns := [tree];
    WalkedStart(g, tree, segs);
    var current := tree;
    var i := 0;
    while i < |segs|
      invariant 0 <= i <= |segs|
      invariant nodes <= all && fresh(all - nodes)
      invariant Walked(g, Snapshot(all), tree, segs[..i], ns) && |ns| == i + 1 && ns[i] == current
    {
      ghost var before := Snapshot(all);
      WalkedFacts(g, before, tree, segs[..i], ns);
      var next;
      next, all := StepPhysical(current, segs[i], all);
      ExpandsFacts(before, Snapshot(all));
      AlongOne(before, Snapshot(all), ns, current);
      WalkedStep(g, before, Snapshot(all), tree, segs, i, ns, next);
      if next == null {
        return null, ns, all;
      }
      current := next;
      ns := ns + [next];
      i := i + 1;
    }
    assert segs[..i] == segs;
    leaf := current;
  }

  // What a found slot is.
  ghost predicate SlotFound(g: Graph, h: Graph, tree: Node, segs: seq<Segment>, ns: seq<Node>, parent: Node,
                            slot: int)
  {
    && segs != [] && Walked(g, h, tree, segs[..|segs| - 1], ns)
    && WellFormed(h) && |ns| == |segs| && parent == ns[|segs| - 1] && parent in h
    && SlotFor(h, parent, slot, segs[|segs| - 1])
    && LocalWalk(Denote(g, tree), segs) == Some(Denote(h, h[parent].content[slot]))
  }

  // findParentSlot; slot < 0 stands for the error return.  The walk to the parent
  // is the loop of resolvePhysicalForMutation on all segments but the last.
  method FindParentSlot(tree: Node, segs: seq<Segment>, ghost nodes: set<Node>)
    returns (parent: Node, slot: int, ghost ns: seq<Node>, ghost all: set<Node>)
    requires tree in nodes && WellFormed(Snapshot(nodes))
    modifies nodes
    ensures nodes <= all && fresh(all - nodes) && parent in all
    ensures Expands(old(Snapshot(nodes)), Snapshot(all))
    ensures slot < 0 ==> segs == [] || LocalWalk(old(Denote(Snapshot(nodes), tree)), segs).None?
    ensures slot >= 0 ==> SlotFound(old(Snapshot(nodes)), Snapshot(all), tree, segs, ns, parent, slot)
  {
    hide Denote, LocalWalk, LocalStep, Ranked, SlotFor, Expands, At, Trail, Walked, SlotFound, Along, NewClosed;
    ghost var g := Snapshot(nodes);
    if |segs| == 0 {
      ExpandsReflexive(g);
      return tree, -1, [], nodes;
    }
    ghost var init, last := segs[..|segs| - 1], segs[|segs| - 1];
    assert segs == init + [last];
    LocalWalkSplit(Denote(g, tree), init, last);
    var current: Node?;
    current, ns, all := ResolvePhysicalForMutation(tree, segs[..|segs| - 1], nodes);
    if current == null {
      return tree, -1, ns, all;
    }
    ghost var before := Snapshot(all);
    WalkedFacts(g, before, tree, init, ns);
    all := ExpandAlias(current, all);
    ghost var h := Snapshot(all);
    AlongOne(before, h, ns, current);
    WalkedExpands(g, before, h, tree, init, ns);
    WalkedFacts(g, h, tree, init, ns);
    slot := LastSlot(current, segs[|segs| - 1], h);
    parent := current;
    if slot >= 0 {
      assert SlotFound(g, h, tree, segs, ns, parent, slot) by { SlotFoundIs(g, h, tree, segs, ns, parent, slot); }
    }
  }

  lemma SlotFoundIs(g: Graph, h: Graph, tree: Node, segs: seq<Segment>, ns: seq<Node>, parent: Node, slot: int)
    requires segs != [] && Walked(g, h, tree, segs[..|segs| - 1], ns)
    requires WellFormed(h) && |ns| == |segs| && parent == ns[|segs| - 1] && parent in h
    requires SlotFor(h, parent, slot, segs[|segs| - 1])
    requires LocalStep(Denote(h, parent), segs[|segs| - 1]) == Some(Denote(h, h[parent].content[slot]))
    ensures SlotFound(g, h, tree, segs, ns, parent, slot)
  {
    hide Denote, LocalWalk, LocalStep, SlotFor;
    assert segs == segs[..|segs| - 1] + [segs[|segs| - 1]];
    LocalWalkSplit(Denote(g, tree), segs[..|segs| - 1], segs[|segs| - 1]);
  }

  lemma SlotAlong(g: Graph, h: Graph, tree: Node, segs: seq<Segment>, ns: seq<Node>, parent: Node, slot: int)
    requires SlotFound(g, h, tree, segs, ns, parent, slot)
    ensures Along(g, h, ns)
  {
    WalkedFacts(g, h, tree, segs[..|segs| - 1], ns);
  }

  lemma SlotIsAt(h: Graph, parent: Node, slot: int, last: Segment)
    requires WellFormed(h) && parent in h && SlotFor(h, parent, slot, last)
    ensures 0 <= slot < |h[parent].content| && At(h, parent, last, h[parent].content[slot])
  {
  }

  // The trail to a slot, taken one step further.
  lemma SlotTrail(g: Graph, h: Graph, tree: Node, segs: seq<Segment>, ns: seq<Node>, parent: Node, slot: int)
    requires SlotFound(g, h, tree, segs, ns, parent, slot)
    ensures segs != [] && |ns| == |segs| && parent == ns[|segs| - 1]
    ensures Expands(g, h) && WellFormed(h) && Trail(h, ns, segs[..|segs| - 1]) && ns[0] == tree && tree in g
    ensures SlotFor(h, parent, slot, segs[|segs| - 1]) && LocalWalk(Denote(g, tree), segs).Some?
    ensures parent in h && 0 <= slot < |h[parent].content| && !KeyPosition(h[parent], slot) &&
      h[parent].kind != AliasNode
    ensures Walked(g, h, tree, segs, ns + [h[parent].content[slot]])
  {
    hide Denote, Ranked, LocalWalk, Expands, Along, Trail, SlotFor, At;
    SlotIsNoKey(h, parent, slot, segs[|segs| - 1]);
    var p, last, m := segs[..|segs| - 1], segs[|segs| - 1], h[parent].content[slot];
    SlotIsAt(h, parent, slot, last);
    WalkedFacts(g, h, tree, p, ns);
    TrailSnoc(h, ns, p, last, m);
    AlongMore(g, h, ns, m);
    assert p + [last] == segs;
  }

  // ----- the read-only walk -----

  // Where seg leads from n, or -1.
  ghost function SlotIn(g: Graph, n: Node, seg: Segment): int
    requires WellFormed(g) && n in g
  {
    if LocalStep(Denote(g, n), seg).None? then -1
    else match seg
      case Index(i) => i
      case Name(name) => KeyIndex(Denote(g, n), name) + 1
  }

  lemma SlotInIs(g: Graph, n: Node, seg: Segment, slot: int)
    requires WellFormed(g) && n in g && SlotFor(g, n, slot, seg)
    ensures SlotIn(g, n, seg) == slot
  {
    hide Denote, Ranked;
    DenoteStep(g, n);
  }

  lemma SlotReached(h: Graph, n: Node, seg: Segment, slot: int)
    requires WellFormed(h) && n in h && SlotFor(h, n, slot, seg)
    ensures h[n].kind != AliasNode && SlotIn(h, n, seg) == slot
    ensures 0 <= slot < |h[n].content| && h[n].content[slot] in h
  {
    hide Denote, Ranked;
    SlotInIs(h, n, seg, slot);
  }

  lemma AtWitness(h: Graph, n: Node, seg: Segment, m: Node) returns (s: nat)
    requires WellFormed(h) && n in h && At(h, n, seg, m)
    ensures SlotFor(h, n, s, seg) && SlotIn(h, n, seg) == s && h[n].kind != AliasNode
    ensures s < |h[n].content| && h[n].content[s] == m && m in h
  {
    hide Denote, Ranked;
    var slot: int :| SlotFor(h, n, slot, seg) && h[n].content[slot] == m;
    SlotReached(h, n, seg, slot);
    s := slot;
  }

  lemma TrailTail(h: Graph, ns: seq<Node>, p: seq<Segment>)
    requires Trail(h, ns, p) && p != []
    ensures Trail(h, ns[1..], p[1..])
  {
    hide Denote, Ranked;
    forall j | 0 <= j < |p[1..]| ensures At(h, ns[1..][j], p[1..][j], ns[1..][j + 1]) {
      assert At(h, ns[j + 1], p[j + 1], ns[j + 2]);
    }
  }

  lemma TrailFacts(h: Graph, ns: seq<Node>, p: seq<Segment>)
    requires Trail(h, ns, p)
    ensures WellFormed(h) && |ns| == |p| + 1 && forall j | 0 <= j < |ns| :: ns[j] in h
  {
  }

  // The parent and slot of a path when aliases are looked through, and whether one
  // was met on the way.
  ghost function ReadSlot(g: Graph, n: Node, segs: seq<Segment>): Option<(Node, nat, bool)>
    requires WellFormed(g) && n in g && segs != []
    decreases |segs|
  {
    var p, via := Target(g, n), g[n].kind == AliasNode;
    var slot := SlotIn(g, p, segs[0]);
    if !(0 <= slot < |g[p].content|) || g[p].content[slot] !in g then None
    else if |segs| == 1 then Some((p, slot, via))
    else match ReadSlot(g, g[p].content[slot], segs[1..])
      case None => None
      case Some(r) => Some((r.0, r.1, via || r.2))
  }

  // The node that q leads to from n without meeting an alias.
  ghost function Leads(g: Graph, n: Node, q: seq<Segment>): Option<Node>
    requires WellFormed(g) && n in g
    decreases |q|
  {
    if q == [] then Some(n)
    else if g[n].kind == AliasNode || !ReadSlotStep(g, n, q[0]) then None
    else Leads(g, g[n].content[SlotIn(g, n, q[0])], q[1..])
  }

  // The scalar in that slot, without what is below it; an alias there counts as none.
  ghost function OldScalar(g: Graph, n: Node, segs: seq<Segment>): Option<Fields>
    requires WellFormed(g) && n in g && segs != []
  {
    match ReadSlot(g, n, segs)
    case None => None
    case Some(r) => ScalarAt(g, r.0, r.1)
  }

  ghost function ScalarAt(g: Graph, p: Node, slot: nat): Option<Fields> {
    if p in g && slot < |g[p].content| && g[p].content[slot] in g && g[g[p].content[slot]].kind == ScalarNode
    then Some(g[g[p].content[slot]].(alias := null, content := []))
    else None
  }

  // The paths below n in g and m in h end in scalars with the same fields.
  ghost predicate SameScalars(g: Graph, h: Graph, n: Node, m: Node) {
    && WellFormed(g) && WellFormed(h) && n in g && m in h
    && forall segs {:trigger OldScalar(h, m, segs)} | segs != [] :: OldScalar(h, m, segs) == OldScalar(g, n, segs)
  }

  lemma ScalarsStay(g: Graph, n: Node)
    requires WellFormed(g) && n in g
    ensures SameScalars(g, g, n, n)
  {
  }

  lemma OldScalarStep(g: Graph, n: Node, segs: seq<Segment>)
    requires WellFormed(g) && n in g && segs != []
    ensures var p := Target(g, n);
      p in g && var slot := SlotIn(g, p, segs[0]);
      OldScalar(g, n, segs) ==
        if !(0 <= slot < |g[p].content|) || g[p].content[slot] !in g then None
        else if |segs| == 1 then ScalarAt(g, p, slot)
        else OldScalar(g, g[p].content[slot], segs[1..])
  {
    hide Denote, Ranked, SlotIn;
    DenoteStep(g, n);
  }

  // Copies end in the scalars that their originals end in.
  lemma {:induction false} CopyScalar(g: Graph, h: Graph, a: Node, copies: map<Node, Node>, x: Node,
                                      segs: seq<Segment>)
    requires WellFormed(g) && BreaksAlias(g, h, a, copies) && x in copies && x != g[a].alias && segs != []
    ensures WellFormed(h) && x in g && copies[x] in h
    ensures OldScalar(h, copies[x], segs) == OldScalar(g, x, segs)
    decreases |segs|
  {
    hide Denote, Ranked, SlotIn, BreaksAlias, OldScalar;
    var y := CopiedTarget(g, h, a, copies, x);
    BrokenMeaning(g, h, a, copies);
    OldScalarStep(g, x, segs);
    OldScalarStep(h, copies[x], segs);
    SameSlotIn(g, h, y, copies[y], segs[0]);
    var slot := SlotIn(g, y, segs[0]);
    CopiedKid(g, h, a, copies, y, copies[y], slot);
    if 0 <= slot < |g[y].content| && |segs| > 1 {
      CopyScalar(g, h, a, copies, g[y].content[slot], segs[1..]);
    }
  }

  lemma SameSlotIn(g: Graph, h: Graph, x: Node, y: Node, seg: Segment)
    requires WellFormed(g) && WellFormed(h) && x in g && y in h && Denote(h, y) == Denote(g, x)
    ensures SlotIn(h, y, seg) == SlotIn(g, x, seg)
  {
    hide Denote, LocalStep;
  }

  // The target of a copy is the copy of the target.
  lemma CopiedTarget(g: Graph, h: Graph, a: Node, copies: map<Node, Node>, x: Node) returns (y: Node)
    requires WellFormed(g) && BreaksAlias(g, h, a, copies) && x in copies && x != g[a].alias
    ensures WellFormed(h) && x in g && copies[x] in h && y == Target(g, x) && y in g && y in copies && y != g[a].alias
    ensures copies[y] in h && Target(h, copies[x]) == copies[y]
  {
    hide Ranked, Denote;
    BrokenMeaning(g, h, a, copies);
    CopiedRank(g, SomeRank(g), g[a].alias, x, copies.Keys);
    RankedHere(g, SomeRank(g), x);
    assert CopyOf(g[x], h[copies[x]], copies);
    y := Target(g, x);
  }

  // m holds copies of the children of y, which have their fields.
  lemma CopiedKid(g: Graph, h: Graph, a: Node, copies: map<Node, Node>, y: Node, m: Node, slot: int)
    requires WellFormed(g) && BreaksAlias(g, h, a, copies) && y in copies && y in g && m in h
    requires (y != g[a].alias && m == copies[y]) || (y == g[a].alias && m == a)
    ensures |h[m].content| == |g[y].content|
    ensures 0 <= slot < |g[y].content| ==>
      var c := g[y].content[slot];
      && c in g && c in copies && c != g[a].alias && h[m].content[slot] == copies[c] && copies[c] in h
      && ScalarAt(h, m, slot) == ScalarAt(g, y, slot)
  {
    hide Ranked, Denote;
    var t := g[a].alias;
    CopiedRank(g, SomeRank(g), t, y, copies.Keys);
    RankedHere(g, SomeRank(g), y);
    if y != t {
      assert CopyOf(g[y], h[copies[y]], copies);
    }
    if 0 <= slot < |g[y].content| {
      var c := g[y].content[slot];
      CopiedRank(g, SomeRank(g), t, c, copies.Keys);
      assert CopyOf(g[c], h[copies[c]], copies);
    }
  }

  // Breaking an alias keeps the scalars below it.
  lemma BrokenScalars(g: Graph, h: Graph, a: Node, copies: map<Node, Node>)
    requires WellFormed(g) && BreaksAlias(g, h, a, copies)
    ensures SameScalars(g, h, a, a)
  {
    hide Denote, Ranked, SlotIn, OldScalar;
    BrokenMeaning(g, h, a, copies);
    BrokenKind(g, h, a, copies);
    var t := g[a].alias;
    RankedHere(g, SomeRank(g), a);
    forall segs: seq<Segment> | segs != [] ensures OldScalar(h, a, segs) == OldScalar(g, a, segs) {
      OldScalarStep(g, a, segs);
      OldScalarStep(h, a, segs);
      DenoteStep(g, a);
      SameSlotIn(g, h, t, a, segs[0]);
      var slot := SlotIn(g, t, segs[0]);
      CopiedKid(g, h, a, copies, t, a, slot);
      if 0 <= slot < |g[t].content| && |segs| > 1 {
        CopyScalar(g, h, a, copies, g[t].content[slot], segs[1..]);
      }
    }
  }

  // It finds what the path denotes.
  lemma {:induction false} ReadSlotWalks(g: Graph, n: Node, segs: seq<Segment>)
    requires WellFormed(g) && n in g && segs != []
    ensures ReadSlot(g, n, segs).None? <==> LocalWalk(Denote(g, n), segs).None?
    ensures match ReadSlot(g, n, segs)
      case None => true
      case Some(r) =>
        && r.0 in g && SlotFor(g, r.0, r.1, segs[|segs| - 1])
        && LocalWalk(Denote(g, n), segs) == Some(Denote(g, g[r.0].content[r.1]))
    decreases |segs|
  {
    hide Denote, Ranked;
    DenoteStep(g, n);
    var p := Target(g, n);
    DenoteStep(g, p);
    if |segs| > 1 && ReadSlotStep(g, p, segs[0]) {
      ReadSlotWalks(g, g[p].content[SlotIn(g, p, segs[0])], segs[1..]);
    }
  }

  ghost predicate ReadSlotStep(g: Graph, p: Node, seg: Segment)
    requires WellFormed(g) && p in g
  {
    0 <= SlotIn(g, p, seg) < |g[p].content| && g[p].content[SlotIn(g, p, seg)] in g
  }

  // findParentSlotReadOnly; slot < 0 stands for the error return.  It has no
  // modifies clause: every step starts from a resolved node, so stepPhysical's
  // alias-breaking branch is never taken.
  method FindParentSlotReadOnly(tree: Node, segs: seq<Segment>, ghost g: Graph)
    returns (parent: Node, slot: int, viaAlias: bool)
    requires Shows(g) && Snapshot(g.Keys) == g && WellFormed(g) && tree in g
    ensures segs == [] ==> slot < 0
    ensures segs != [] ==>
      if slot < 0 then ReadSlot(g, tree, segs) == None
      else ReadSlot(g, tree, segs) == Some((parent, slot as nat, viaAlias))
  {
    hide Denote, LocalStep, Ranked, ReadSlot, SlotIn, SlotFor;
    viaAlias := false;
    if |segs| == 0 {
      return tree, -1, viaAlias;
    }
    var current := tree;
    var i := 0;
    assert segs[0..] == segs;
    ViaFalse(ReadSlot(g, tree, segs));
    while i < |segs| - 1
      invariant 0 <= i <= |segs| - 1
      invariant current in g && ReadSlot(g, tree, segs) == Via(viaAlias, ReadSlot(g, current, segs[i..]))
    {
      ReadSlotNext(g, current, segs, i);
      var p, via := Resolved(current, g);
      viaAlias := viaAlias || via;
      var next := StepResolved(p, segs[i], g);
      if next == null {
        return p, -1, false;
      }
      current := next;
      i := i + 1;
    }
    ReadSlotNext(g, current, segs, i);
    var p, via := Resolved(current, g);
    viaAlias := viaAlias || via;
    slot := LastSlot(p, segs[|segs| - 1], g);
    parent := p;
    if slot < 0 {
      viaAlias := false;
    } else {
      SlotInIs(g, p, segs[i], slot);
      SlotIsNoKey(g, p, slot, segs[i]);
    }
  }

  lemma ViaFalse(r: Option<(Node, nat, bool)>)
    ensures Via(false, r) == r
  {
  }

  method Resolved(n: Node, ghost g: Graph) returns (p: Node, via: bool)
    requires Shows(g) && WellFormed(g) && n in g
    ensures p in g && g[p].kind != AliasNode && p == Target(g, n) && (via <==> g[n].kind == AliasNode)
  {
    hide Denote, Ranked;
    DenoteStep(g, n);
    assert n.Snap() == g[n];
    via := n.kind == AliasNode;
    p := ResolveAlias(n, g);
  }

  // stepPhysical where it cannot change anything.
  method StepResolved(current: Node, seg: Segment, ghost g: Graph) returns (next: Node?)
    requires Shows(g) && Snapshot(g.Keys) == g && WellFormed(g) && current in g && g[current].kind != AliasNode
    ensures next == null ==> LocalStep(Denote(g, current), seg) == None
    ensures next != null ==>
      0 <= SlotIn(g, current, seg) < |g[current].content| && g[current].content[SlotIn(g, current, seg)] == next &&
        next in g
  {
    hide Denote, LocalStep, Ranked, SlotIn, SlotFor, At;
    assert current.Snap() == g[current];
    ghost var all;
    next, all := StepPhysical(current, seg, g.Keys);
    if next != null {
      AtSlot(g, current, seg, next);
    }
  }

  ghost function Via(via: bool, r: Option<(Node, nat, bool)>): Option<(Node, nat, bool)> {
    match r case None => None case Some(s) => Some((s.0, s.1, via || s.2))
  }

  lemma AtSlot(g: Graph, n: Node, seg: Segment, m: Node)
    requires WellFormed(g) && n in g && At(g, n, seg, m)
    ensures 0 <= SlotIn(g, n, seg) < |g[n].content| && g[n].content[SlotIn(g, n, seg)] == m && m in g
  {
    hide Denote, Ranked, SlotIn;
    var slot: int :| SlotFor(g, n, slot, seg) && g[n].content[slot] == m;
    SlotInIs(g, n, seg, slot);
  }

  // One turn of the read-only walk.
  lemma ReadSlotNext(g: Graph, n: Node, segs: seq<Segment>, i: nat)
    requires WellFormed(g) && n in g && i < |segs|
    ensures Target(g, n) in g && g[Target(g, n)].kind != AliasNode
    ensures LocalStep(Denote(g, Target(g, n)), segs[i]).None? ==> ReadSlot(g, n, segs[i..]) == None
    ensures var p, via := Target(g, n), g[n].kind == AliasNode;
      var slot := SlotIn(g, p, segs[i]);
      0 <= slot < |g[p].content| && g[p].content[slot] in g ==>
        ReadSlot(g, n, segs[i..]) ==
          if i == |segs| - 1 then Some((p, slot, via)) else Via(via, ReadSlot(g, g[p].content[slot], segs[i + 1..]))
  {
    hide Denote, Ranked;
    DenoteStep(g, n);
    assert segs[i..][1..] == segs[i + 1..];
  }
}
