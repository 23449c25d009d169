/** Where a physical walk leaves the document as it was: the first alias on its
  path, which it breaks, or the container at its end. */
module Gates {
  import opened Prelude
  import opened KeyPath
  import opened YamlNode
  import opened Anchors
  import opened Lookup
  import opened Walk

  // The first alias on the way to the container of the last segment, or that container.
  ghost function Gate(g: Graph, n: Node, segs: seq<Segment>): (gate: Node)
    requires WellFormed(g) && n in g && segs != []
    ensures gate in g
    decreases |segs|
  {
    var slot := SlotIn(g, n, segs[0]);
    if g[n].kind == AliasNode || |segs| == 1 then n
    else if !(0 <= slot < |g[n].content|) || g[n].content[slot] !in g then n
    else Gate(g, g[n].content[slot], segs[1..])
  }

  // The node at a path that no alias is on, or null.
  ghost function PhysicalAt(g: Graph, n: Node, segs: seq<Segment>): Node?
    requires WellFormed(g) && n in g
    decreases |segs|
  {
    if segs == [] then n
    else
      var slot := SlotIn(g, n, segs[0]);
      if g[n].kind == AliasNode || !(0 <= slot < |g[n].content|) || g[n].content[slot] !in g then null
      else PhysicalAt(g, g[n].content[slot], segs[1..])
  }

  // h is g after a walk to the container of the last segment; ns are the nodes on the way.
  ghost predicate Came(g: Graph, h: Graph, ns: seq<Node>, segs: seq<Segment>) {
    && segs != [] && Expands(g, h) && Along(g, h, ns) && Trail(h, ns, segs[..|segs| - 1]) && ns[0] in g
  }

  // The gate is on the way: before it are unchanged nodes, and if the walk goes on after
  // it, the gate is an alias and what follows is new.
  ghost predicate GateAt(g: Graph, h: Graph, ns: seq<Node>, segs: seq<Segment>, j: nat)
    requires WellFormed(g) && ns != [] && ns[0] in g && segs != []
  {
    && j < |ns| && ns[j] == Gate(g, ns[0], segs)
    && (forall i | 0 <= i < j :: ns[i] in g && g[ns[i]].kind != AliasNode)
    && (forall i | j < i < |ns| :: ns[i] !in g)
    && (j < |ns| - 1 ==> g[ns[j]].kind == AliasNode)
  }

  lemma SameUnlessAlias(g: Graph, h: Graph, n: Node)
    requires Expands(g, h) && n in g && g[n].kind != AliasNode
    ensures WellFormed(g) && WellFormed(h) && n in h && h[n] == g[n] &&
      forall seg :: SlotIn(h, n, seg) == SlotIn(g, n, seg)
  {
    hide Denote, Ranked;
    ExpandsFacts(g, h);
  }

  // `way` is the rest of the nodes on the way.
  lemma {:induction false} GateOnTheWay(g: Graph, h: Graph, ns: seq<Node>, way: seq<Node>, segs: seq<Segment>)
    returns (j: nat)
    requires segs != [] && Expands(g, h) && Along(g, h, ns) && Trail(h, way, segs[..|segs| - 1]) && way[0] in g
    ensures WellFormed(g) && GateAt(g, h, way, segs, j)
    decreases |segs|
  {
    hide Denote, Ranked, At, SlotIn;
    ExpandsFacts(g, h);
    j := 0;
    if |segs| > 1 {
      var init := segs[..|segs| - 1];
      assert At(h, way[0], init[0], way[1]);
      var s := AtWitness(h, way[0], init[0], way[1]);
      TrailTail(h, way, init);
      if g[way[0]].kind == AliasNode {
        AllNew(g, h, ns, way[1..], init[1..]);
        assert forall i | 0 < i < |way| :: way[i] == way[1..][i - 1];
      } else {
        SameUnlessAlias(g, h, way[0]);
        assert segs[1..][..|segs| - 2] == init[1..];
        RankedHere(g, SomeRank(g), way[0]);
        j := GateOnTheWay(g, h, ns, way[1..], segs[1..]);
        GateAtNext(g, h, way, segs, j);
        j := j + 1;
      }
    }
  }

  lemma GateAtNext(g: Graph, h: Graph, way: seq<Node>, segs: seq<Segment>, j: nat)
    requires WellFormed(g) && |way| > 1 && |segs| > 1 && way[0] in g && way[1] in g && g[way[0]].kind != AliasNode
    requires 0 <= SlotIn(g, way[0], segs[0]) < |g[way[0]].content|
    requires g[way[0]].content[SlotIn(g, way[0], segs[0])] == way[1]
    requires GateAt(g, h, way[1..], segs[1..], j)
    ensures GateAt(g, h, way, segs, j + 1)
  {
    hide Denote, Ranked, SlotIn;
    assert forall i | 0 < i < |way| :: way[i] == way[1..][i - 1];
  }

  // A walk in new nodes stays in new nodes.
  lemma {:induction false} AllNew(g: Graph, h: Graph, ns: seq<Node>, way: seq<Node>, p: seq<Segment>)
    requires Along(g, h, ns) && Trail(h, way, p) && way[0] !in g
    ensures forall i | 0 <= i < |way| :: way[i] !in g
    decreases |p|
  {
    hide Denote, Ranked, At;
    if p != [] {
      assert At(h, way[0], p[0], way[1]);
      var s := AtWitness(h, way[0], p[0], way[1]);
      assert way[1] in h[way[0]].content;
      TrailTail(h, way, p);
      AllNew(g, h, ns, way[1..], p[1..]);
      assert forall i | 0 < i < |way| :: way[i] == way[1..][i - 1];
    }
  }

  // Only the gate can have changed.
  lemma OthersSame(g: Graph, h: Graph, ns: seq<Node>, segs: seq<Segment>, n: Node)
    requires Came(g, h, ns, segs) && n in g && WellFormed(g) && n != Gate(g, ns[0], segs)
    ensures n in h && h[n] == g[n]
  {
    hide Denote, Ranked, Trail;
    ExpandsFacts(g, h);
    var j := GateOnTheWay(g, h, ns, ns, segs);
    forall i | 0 <= i < |ns| && ns[i] == n ensures h[n] == g[n] {
      SameUnlessAlias(g, h, n);
    }
  }

  lemma {:induction false} ClosedAlong(h: Graph, ns: seq<Node>, p: seq<Segment>, s: set<Node>, j: nat)
    requires Trail(h, ns, p) && ClosedIn(h, s) && j < |ns| && ns[j] in s
    ensures ns[|p|] in s
    decreases |p| - j
  {
    hide Denote, Ranked, At;
    if j < |p| {
      assert At(h, ns[j], p[j], ns[j + 1]);
      var slot := AtWitness(h, ns[j], p[j], ns[j + 1]);
      ClosedAlong(h, ns, p, s, j + 1);
    }
  }

  // An old node reaches the container after the walk exactly if it reached the gate
  // before.
  lemma ReachesContainer(g: Graph, h: Graph, ns: seq<Node>, segs: seq<Segment>, target: Node)
    requires Came(g, h, ns, segs) && target in g && WellFormed(g)
    ensures |ns| == |segs| && (Avoids(h, target, {ns[|segs| - 1]}) <==> Avoids(g, target, {Gate(g, ns[0], segs)}))
  {
    hide Denote, Ranked, At, Expands, Along;
    var gate, p, parent := Gate(g, ns[0], segs), segs[..|segs| - 1], ns[|segs| - 1];
    var j := GateOnTheWay(g, h, ns, ns, segs);
    forall n | n in g && n != gate ensures n in h && h[n] == g[n] {
      OthersSame(g, h, ns, segs, n);
    }
    if Avoids(g, target, {gate}) {
      var s: set<Node> :| target in s && ClosedIn(g, s) && s !! {gate};
      assert ClosedIn(h, s) && parent !in s;
    }
    if Avoids(h, target, {parent}) {
      var s: set<Node> :| target in s && ClosedIn(h, s) && s !! {parent};
      if gate in s {
        ClosedAlong(h, ns, p, s, j);
        assert false;
      }
      WellFormedClosed(g);
      assert ClosedIn(g, s * g.Keys);
    }
  }

  // What stands in the container's slot after the walk is an old node exactly if no alias
  // was on the path.
  lemma {:induction false} SlotAfterWalk(g: Graph, h: Graph, ns: seq<Node>, way: seq<Node>, segs: seq<Segment>,
                                         slot: nat, target: Node)
    requires segs != [] && Expands(g, h) && Along(g, h, ns) && Trail(h, way, segs[..|segs| - 1]) && way[0] in g &&
      target in g
    requires WellFormed(g) && WellFormed(h) && SlotFor(h, way[|segs| - 1], slot, segs[|segs| - 1])
    ensures slot < |h[way[|segs| - 1]].content|
    ensures h[way[|segs| - 1]].content[slot] == target <==> PhysicalAt(g, way[0], segs) == target
    decreases |segs|
  {
    hide Denote, Ranked, At, SlotIn, SlotFor;
    var init, parent := segs[..|segs| - 1], way[|segs| - 1];
    SlotReached(h, parent, segs[|segs| - 1], slot);
    if g[way[0]].kind == AliasNode {
      if |segs| > 1 {
        assert At(h, way[0], init[0], way[1]);
        var s := AtWitness(h, way[0], init[0], way[1]);
        TrailTail(h, way, init);
        AllNew(g, h, ns, way[1..], init[1..]);
        assert parent == way[1..][|segs| - 2];
      }
    } else {
      SameUnlessAlias(g, h, way[0]);
      RankedHere(g, SomeRank(g), way[0]);
      if |segs| > 1 {
        assert At(h, way[0], init[0], way[1]);
        var s := AtWitness(h, way[0], init[0], way[1]);
        TrailTail(h, way, init);
        assert segs[1..][..|segs| - 2] == init[1..];
        SlotAfterWalk(g, h, ns, way[1..], segs[1..], slot, target);
      } else {
        assert segs[1..] == [];
      }
    }
  }
}
