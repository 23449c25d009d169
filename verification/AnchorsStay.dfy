/** Writing a scalar over another keeps the anchors of the document. */
module AnchorsStay {
  import opened Prelude
  import opened KeyPath
  import opened YamlNode
  import opened Lookup
  import opened Walk
  import opened Upsert
  import opened UpsertNodes
  import opened UpsertTrail
  import opened Upserting

  // The document defines the anchor called name at the path q.
  ghost predicate Defines(g: Graph, root: Node, q: seq<Segment>, name: string)
    requires WellFormed(g) && root in g
  {
    var m := Leads(g, root, q);
    name != "" && m.Some? && m.value in g && g[m.value].kind != AliasNode && g[m.value].anchor == name
  }

  // An upsert of what is there writes to its container, or to the first alias on the way.
  lemma {:induction false} TouchedIs(g: Graph, n: Node, segs: seq<Segment>)
    requires WellFormed(g) && n in g && segs != [] && ReadSlot(g, n, segs).Some?
    ensures var r := ReadSlot(g, n, segs).value;
      if r.2 then forall x | x in Touched(g, n, segs) :: x in g && g[x].kind == AliasNode
      else Touched(g, n, segs) == {r.0} && r.0 in g && g[r.0].kind != AliasNode
    decreases |segs|
  {
    hide Denote, Ranked, SlotIn;
    DenoteStep(g, n);
    if g[n].kind != AliasNode {
      StepsIntoFits(g, n, segs);
      if |segs| > 1 {
        var c := g[n].content[SlotIn(g, n, segs[0])];
        DenoteStep(g, c);
        StepsIntoContainer(g, c, segs[1..]);
        if g[c].kind != AliasNode {
          TouchedIs(g, c, segs[1..]);
        }
      }
    }
  }

  lemma StepsIntoFits(g: Graph, n: Node, segs: seq<Segment>)
    requires WellFormed(g) && n in g && g[n].kind != AliasNode && segs != [] && ReadSlot(g, n, segs).Some?
    ensures Fits(Denote(g, n), segs[0])
  {
    hide Denote, Ranked;
  }

  // Replacing a value leaves the keys where they are.
  lemma {:induction false} KeysStay(g: Graph, h: Graph, changed: set<Node>, n: Node, slot: int, node: Node,
                                    name: string, i: nat)
    requires Edit(g, h, changed) && n in g && g[n].kind == MappingNode && i % 2 == 0
    requires forall x | x in changed && x in g :: g[x].kind == MappingNode || g[x].kind == SequenceNode
    requires !KeyPosition(g[n], slot) && 0 <= slot < |g[n].content| && Replaces(g, h, n, slot, node)
    ensures KeyIndexFrom(Denote(h, n).kids, name, i) == KeyIndexFrom(Denote(g, n).kids, name, i)
    decreases |g[n].content| - i
  {
    hide Denote, Ranked, Edit;
    EditFacts(g, h, changed);
    EditHere(g, h, changed, n);
    DenoteStep(g, n);
    DenoteStep(h, n);
    if i + 1 < |g[n].content| {
      DenoteKey(g, n, i);
      DenoteKey(h, n, i);
      EditHere(g, h, changed, g[n].content[i]);
      KeysStay(g, h, changed, n, slot, node, name, i + 2);
    }
  }

  // A step from the container goes where it went, or to the new node.
  lemma StepStays(g: Graph, h: Graph, n: Node, slot: int, node: Node, seg: Segment, m: Node)
    requires Edit(g, h, {n}) && n in g && (g[n].kind == MappingNode || g[n].kind == SequenceNode)
    requires !KeyPosition(g[n], slot) && 0 <= slot < |g[n].content| && Replaces(g, h, n, slot, node) && node in h
    requires At(g, n, seg, m)
    ensures WellFormed(h) && n in h
    ensures At(h, n, seg, m) || (At(h, n, seg, node) && m == g[n].content[slot])
  {
    hide Denote, Ranked, Edit;
    EditFacts(g, h, {n});
    EditHere(g, h, {n}, n);
    var s: int :| SlotFor(g, n, s, seg) && g[n].content[s] == m;
    DenoteStep(g, n);
    DenoteStep(h, n);
    if seg.Name? {
      KeysStay(g, h, {n}, n, slot, node, seg.name, 0);
    }
    EditHere(g, h, {n}, m);
    assert SlotFor(h, n, s, seg);
  }

  // What an upsert of a scalar does to the graph: aliases are broken, or one value of one
  // container is replaced.
  ghost predicate OneValue(g: Graph, h: Graph, changed: set<Node>, p: Node, slot: nat, node: Node) {
    && Edit(g, h, changed) && p in g && node in h
    && ((forall x | x in changed :: x in g && g[x].kind == AliasNode) ||
        (changed == {p} && (g[p].kind == MappingNode || g[p].kind == SequenceNode)
           && slot < |g[p].content| && !KeyPosition(g[p], slot) && Replaces(g, h, p, slot, node)))
    && slot < |g[p].content| && g[p].content[slot] in g && g[g[p].content[slot]].kind == ScalarNode
  }

  // A path leads where it led, or from the old scalar's place to the new one.
  lemma {:induction false} LeadsStay(g: Graph, h: Graph, changed: set<Node>, p: Node, slot: nat, node: Node, n: Node,
                                     q: seq<Segment>)
    requires OneValue(g, h, changed, p, slot, node) && WellFormed(g) && n in g && Leads(g, n, q).Some?
    ensures WellFormed(h) && n in h
    ensures Leads(h, n, q) == Leads(g, n, q) ||
      (Leads(h, n, q) == Some(node) && Leads(g, n, q) == Some(g[p].content[slot]))
    decreases |q|
  {
    hide Denote, Ranked, Edit, SlotIn, At;
    EditFacts(g, h, changed);
    EditHere(g, h, changed, n);
    if q != [] {
      var s := SlotIn(g, n, q[0]);
      var m := g[n].content[s];
      StepIsAt(g, n, q[0]);
      if n in changed {
        StepStays(g, h, n, slot, node, q[0], m);
      } else {
        AtKept(g, h, changed, n, q[0], m);
      }
      if At(h, n, q[0], m) {
        AtSlot(h, n, q[0], m);
        NotAlias(h, n, q[0], m);
        LeadsStay(g, h, changed, p, slot, node, m, q[1..]);
      } else {
        AtSlot(h, n, q[0], node);
        NotAlias(h, n, q[0], node);
        ScalarEnds(g, m, q[1..]);
      }
    }
  }

  lemma StepIsAt(g: Graph, n: Node, seg: Segment)
    requires WellFormed(g) && n in g && g[n].kind != AliasNode && ReadSlotStep(g, n, seg)
    ensures At(g, n, seg, g[n].content[SlotIn(g, n, seg)])
  {
    hide Denote, Ranked;
    DenoteStep(g, n);
    assert SlotFor(g, n, SlotIn(g, n, seg), seg);
  }

  lemma NotAlias(g: Graph, n: Node, seg: Segment, m: Node)
    requires WellFormed(g) && n in g && At(g, n, seg, m)
    ensures g[n].kind != AliasNode
  {
  }

  lemma ScalarEnds(g: Graph, n: Node, q: seq<Segment>)
    requires WellFormed(g) && n in g && g[n].kind == ScalarNode && Leads(g, n, q).Some?
    ensures q == []
  {
    hide Denote, Ranked;
    DenoteStep(g, n);
  }

  lemma UpsertIsOneValue(g: Graph, h: Graph, root: Node, segs: seq<Segment>, leaf: Leaf, ns: seq<Node>)
    returns (p: Node, slot: nat)
    requires WellFormed(g) && root in g && segs != [] && NoMergeNames(segs) && OldScalar(g, root, segs).Some?
    requires Edit(g, h, Touched(g, root, segs)) && Written(g, h, root, segs, leaf, ns)
    ensures |ns| == |segs| + 1 && OneValue(g, h, Touched(g, root, segs), p, slot, ns[|segs|])
    ensures OldScalar(g, root, segs) == Some(g[g[p].content[slot]].(alias := null, content := []))
  {
    hide Denote, Ranked, Edit, Touched, Takes;
    var r := ReadSlot(g, root, segs).value;
    p, slot := r.0, r.1;
    TouchedIs(g, root, segs);
    ReadSlotWalks(g, root, segs);
    SlotIsNoKey(g, p, slot, segs[|segs| - 1]);
    TrailFacts(h, ns, segs);
  }

  // An upsert of a scalar that is there keeps every anchor of the document at its path.
  lemma ScalarKeepsAnchors(g: Graph, h: Graph, root: Node, segs: seq<Segment>, leaf: Leaf, ns: seq<Node>,
                           q: seq<Segment>, name: string)
    requires WellFormed(g) && root in g && segs != [] && NoMergeNames(segs) && OldScalar(g, root, segs).Some?
    requires Edit(g, h, Touched(g, root, segs)) && Written(g, h, root, segs, leaf, ns)
    requires Defines(g, root, q, name)
    ensures WellFormed(h) && root in h && Defines(h, root, q, name)
  {
    hide Denote, Ranked, Edit, Touched, Leads, OneValue;
    var p, slot := UpsertIsOneValue(g, h, root, segs, leaf, ns);
    LeadsStay(g, h, Touched(g, root, segs), p, slot, ns[|segs|], root, q);
    EditFacts(g, h, Touched(g, root, segs));
    EditHere(g, h, Touched(g, root, segs), Leads(g, root, q).value);
    TrailFacts(h, ns, segs);
  }
}
