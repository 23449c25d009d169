/** What writing and deleting paths does to every other path, on documents
  without merge keys. */
module PatchTree {
  import opened Prelude
  import opened KeyPath
  import opened YamlNode
  import opened Lookup
  import opened Walk
  import opened Upsert

  // ----- documents without merge keys -----

  predicate KeyAt(kids: seq<Tree>, i: int) {
    0 <= i && i + 1 < |kids| && i % 2 == 0
  }

  ghost predicate RegularKeys(kids: seq<Tree>) {
    && |kids| % 2 == 0
    && (forall i {:trigger KeyAt(kids, i)} | KeyAt(kids, i) :: !IsMergeKey(kids[i]))
    && (forall i, j {:trigger KeyAt(kids, i), KeyAt(kids, j)} | KeyAt(kids, i) && KeyAt(kids, j) && i < j ::
          kids[i].value != kids[j].value)
  }

  // Scalars, sequences, and mappings with distinct ordinary keys.
  ghost predicate Regular(t: Tree) {
    && (t.kind == ScalarNode || t.kind == SequenceNode || (t.kind == MappingNode && RegularKeys(t.kids)))
    && (forall i {:trigger t.kids[i]} | 0 <= i < |t.kids| :: Regular(t.kids[i]))
  }

  // Not even sequences.
  ghost predicate Plain(t: Tree) {
    && (t.kind == ScalarNode || (t.kind == MappingNode && RegularKeys(t.kids)))
    && (forall i {:trigger t.kids[i]} | 0 <= i < |t.kids| :: Plain(t.kids[i]))
  }

  lemma {:induction false} PlainIsRegular(t: Tree)
    requires Plain(t)
    ensures Regular(t) && Paired(t)
  {
    forall i | 0 <= i < |t.kids| ensures Regular(t.kids[i]) {
      PlainIsRegular(t.kids[i]);
    }
  }

  // The scalar at a path.
  function Read(t: Tree, q: seq<Segment>): Option<string> {
    match LocalWalk(t, q)
    case Some(u) => if u.kind == ScalarNode then Some(u.value) else None
    case None => None
  }

  lemma {:induction false} NothingMerged(t: Tree, name: string, i: nat)
    requires t.kind == MappingNode && RegularKeys(t.kids) && i % 2 == 0
    ensures MergedFrom(t, name, i) == None
    decreases |t.kids| - i
  {
    if i + 1 < |t.kids| {
      assert KeyAt(t.kids, i);
      NothingMerged(t, name, i + 2);
    }
  }

  // Without merge keys, reading looks no further than the local entries.
  lemma {:induction false} RegularRead(t: Tree, q: seq<Segment>)
    requires Regular(t)
    ensures LazyWalk(t, q) == LocalWalk(t, q) && EffectiveScalar(t, q) == Read(t, q)
    decreases |q|
  {
    if q != [] {
      if q[0].Name? && t.kind == MappingNode {
        NothingMerged(t, q[0].name, 0);
      }
      assert LazyStep(t, q[0]) == LocalStep(t, q[0]);
      if LocalStep(t, q[0]).Some? {
        StepRegular(t, q[0]);
        RegularRead(LocalStep(t, q[0]).value, q[1..]);
      }
    }
  }

  lemma StepRegular(t: Tree, seg: Segment)
    requires LocalStep(t, seg).Some?
    ensures Regular(t) ==> Regular(LocalStep(t, seg).value)
    ensures Plain(t) ==> Plain(LocalStep(t, seg).value)
  {
    if seg.Name? {
      assert t.kids[KeyIndex(t, seg.name) + 1] == LocalStep(t, seg).value;
    }
  }

  // ----- the index of a key -----

  lemma {:induction false} KeyIndexFinds(kids: seq<Tree>, name: string, i: nat)
    requires i % 2 == 0
    ensures var r := KeyIndexFrom(kids, name, i);
      && (r >= 0 ==> KeyAt(kids, r) && !IsMergeKey(kids[r]) && kids[r].value == name)
      && (r < 0 ==> forall j {:trigger KeyAt(kids, j)} | i <= j && KeyAt(kids, j) ::
            IsMergeKey(kids[j]) || kids[j].value != name)
    decreases |kids| - i
  {
    if i + 1 < |kids| && (IsMergeKey(kids[i]) || kids[i].value != name) {
      KeyIndexFinds(kids, name, i + 2);
      forall j | i <= j && KeyAt(kids, j) && KeyIndexFrom(kids, name, i) < 0
        ensures IsMergeKey(kids[j]) || kids[j].value != name
      {
        assert j != i + 1;
      }
    }
  }

  // Distinct keys leave one place to look.
  lemma KeyIndexIs(t: Tree, name: string, i: nat)
    requires t.kind == MappingNode && RegularKeys(t.kids) && KeyAt(t.kids, i) && t.kids[i].value == name
    ensures KeyIndex(t, name) == i
  {
    KeyIndexFinds(t.kids, name, 0);
  }

  lemma KeyIndexIsNot(t: Tree, name: string)
    requires t.kind == MappingNode
    requires forall i {:trigger KeyAt(t.kids, i)} | KeyAt(t.kids, i) :: t.kids[i].value != name
    ensures KeyIndex(t, name) < 0
  {
    KeyIndexFinds(t.kids, name, 0);
  }

  // ----- one level -----

  // Put leaves the other children alone; only padding can add to a sequence.
  lemma PutElsewhere(t: Tree, seg: Segment, u: Tree, other: Segment)
    requires Fits(t, seg) && Paired(t) && seg != Name(MERGE_KEY) && other != seg
    ensures LocalStep(t, other).Some? || seg.Name? ==> LocalStep(Put(t, seg, u), other) == LocalStep(t, other)
  {
    if seg.Name? && other.Name? {
      KeyIndexEven(t.kids, seg.name, 0);
      KeyIndexEven(t.kids, other.name, 0);
      KeyIndexFinds(t.kids, other.name, 0);
      KeyIndexFinds(t.kids, seg.name, 0);
      if KeyIndex(t, seg.name) < 0 {
        KeyIndexAppend(t.kids, Text(seg.name), u, other.name, 0);
      } else {
        KeyIndexReplace(t.kids, KeyIndex(t, seg.name) + 1, u, other.name, 0);
      }
    }
  }

  lemma PutRegularKeys(t: Tree, name: string, u: Tree)
    requires t.kind == MappingNode && RegularKeys(t.kids) && name != MERGE_KEY
    ensures RegularKeys(Put(t, Name(name), u).kids)
  {
    var kids := Put(t, Name(name), u).kids;
    KeyIndexFinds(t.kids, name, 0);
    if KeyIndex(t, name) < 0 {
      forall i | KeyAt(kids, i)
        ensures !IsMergeKey(kids[i]) &&
          (i < |t.kids| ==> KeyAt(t.kids, i) && kids[i] == t.kids[i] && kids[i].value != name)
      {
        assert i < |t.kids| ==> KeyAt(t.kids, i);
      }
    } else {
      forall i | KeyAt(kids, i) ensures KeyAt(t.kids, i) && kids[i] == t.kids[i] {}
    }
  }

  lemma PutRegular(t: Tree, seg: Segment, u: Tree)
    requires Fits(t, seg) && seg != Name(MERGE_KEY)
    ensures Regular(t) && Regular(u) ==> Regular(Put(t, seg, u))
    ensures Plain(t) && Plain(u) ==> Plain(Put(t, seg, u))
  {
    hide RegularKeys;
    var kids := Put(t, seg, u).kids;
    if seg.Name? && RegularKeys(t.kids) {
      PutRegularKeys(t, seg.name, u);
    }
    assert Regular(NullTree()) && Plain(Text("")) && Regular(Text(""));
    assert seg.Name? ==> Regular(Text(seg.name)) && Plain(Text(seg.name));
    forall i | 0 <= i < |kids|
      ensures kids[i] == u || kids[i] == NullTree() || (seg.Name? && kids[i] == Text(seg.name)) ||
        (i < |t.kids| && kids[i] == t.kids[i])
    {
    }
  }

  lemma ChildRegular(t: Tree, seg: Segment, next: Segment)
    ensures Regular(t) ==> Regular(ChildFor(t, seg, next))
    ensures Plain(t) && next.Name? ==> Plain(ChildFor(t, seg, next))
  {
    if LocalStep(t, seg).Some? {
      StepRegular(t, seg);
    }
  }

  lemma RegularPaired(t: Tree)
    requires Regular(t)
    ensures Paired(t)
  {
  }

  // ----- an upsert -----

  predicate AllNames(p: seq<Segment>) {
    forall s | s in p :: s.Name?
  }

  lemma {:induction false} UpsertedRegular(t: Tree, segs: seq<Segment>, leaf: Leaf)
    requires segs != [] && NoMergeNames(segs) && Upserted(t, segs, leaf).Some?
    ensures Regular(t) ==> Regular(Upserted(t, segs, leaf).value)
    ensures Plain(t) && AllNames(segs) ==> Plain(Upserted(t, segs, leaf).value)
    decreases |segs|
  {
    assert segs[0] in segs;
    if |segs| == 1 {
      PutRegular(t, segs[0], LeafTree(leaf));
    } else {
      assert segs[1] in segs && segs[1..|segs|] == segs[1..];
      NoMergeSlice(segs, 1, |segs|);
      assert AllNames(segs) ==> AllNames(segs[1..]);
      ChildRegular(t, segs[0], segs[1]);
      UpsertedRegular(ChildFor(t, segs[0], segs[1]), segs[1..], leaf);
      PutRegular(t, segs[0], Upserted(ChildFor(t, segs[0], segs[1]), segs[1..], leaf).value);
    }
  }

  // Scalars at paths that neither lead to the written one nor lie below it stay;
  // along names no others appear.
  lemma {:induction false} UpsertElsewhere(t: Tree, segs: seq<Segment>, leaf: Leaf, q: seq<Segment>)
    requires Regular(t) && segs != [] && NoMergeNames(segs) && Upserted(t, segs, leaf).Some?
    requires !Comparable(segs, q)
    ensures Read(t, q).Some? || AllNames(segs) ==> Read(Upserted(t, segs, leaf).value, q) == Read(t, q)
    decreases |segs|
  {
    assert segs[0] in segs;
    RegularPaired(t);
    if segs[0] != q[0] {
      var u := if |segs| == 1 then LeafTree(leaf) else Upserted(ChildFor(t, segs[0], segs[1]), segs[1..], leaf).value;
      PutElsewhere(t, segs[0], u, q[0]);
    } else {
      assert |segs| > 1 && |q| > 1 by {
        assert |segs| == 1 ==> segs <= q;
        assert |q| == 1 ==> q <= segs;
      }
      var c := ChildFor(t, segs[0], segs[1]);
      var u := Upserted(c, segs[1..], leaf).value;
      NoMergeSlice(segs, 1, |segs|);
      assert segs[1..|segs|] == segs[1..];
      assert AllNames(segs) ==> AllNames(segs[1..]);
      TailsIncomparable(segs, q);
      ChildRegular(t, segs[0], segs[1]);
      UpsertElsewhere(c, segs[1..], leaf, q[1..]);
      PutReads(t, segs[0], u);
      ChildReads(t, segs[0], segs[1], q);
    }
  }

  lemma TailsIncomparable(p: seq<Segment>, q: seq<Segment>)
    requires |p| > 1 && |q| > 1 && p[0] == q[0] && !Comparable(p, q)
    ensures !Comparable(p[1..], q[1..])
  {
    assert p == [p[0]] + p[1..] && q == [q[0]] + q[1..];
  }

  // Below the child the walk goes on from, the same scalars are read as before.
  lemma ChildReads(t: Tree, seg: Segment, next: Segment, q: seq<Segment>)
    requires |q| > 1 && q[0] == seg
    ensures Read(t, q) == Read(ChildFor(t, seg, next), q[1..])
  {
    var c := LocalStep(t, seg);
    assert q[1..] != [] && q[1..][0] == q[1];
    if c.None? || !IsContainer(c.value) {
      assert LocalStep(EmptyFor(next), q[1]) == None;
      assert LocalWalk(ChildFor(t, seg, next), q[1..]) == None;
      assert c.Some? ==> LocalWalk(c.value, q[1..]) == None;
      assert LocalWalk(t, q) == None;
    }
  }

  lemma {:induction false} UpsertAt(t: Tree, segs: seq<Segment>, leaf: Leaf)
    requires Regular(t) && segs != [] && NoMergeNames(segs) && Upserted(t, segs, leaf).Some?
    ensures LocalWalk(Upserted(t, segs, leaf).value, segs) == Some(LeafTree(leaf))
    decreases |segs|
  {
    assert segs[0] in segs;
    RegularPaired(t);
    if |segs| == 1 {
      PutReads(t, segs[0], LeafTree(leaf));
    } else {
      var c := ChildFor(t, segs[0], segs[1]);
      NoMergeSlice(segs, 1, |segs|);
      assert segs[1..|segs|] == segs[1..];
      ChildRegular(t, segs[0], segs[1]);
      UpsertAt(c, segs[1..], leaf);
      PutReads(t, segs[0], Upserted(c, segs[1..], leaf).value);
    }
  }

  // On the way to the leaf there are containers.
  lemma {:induction false} UpsertAbove(t: Tree, segs: seq<Segment>, leaf: Leaf, q: seq<Segment>)
    requires Regular(t) && segs != [] && NoMergeNames(segs) && Upserted(t, segs, leaf).Some? && q < segs
    ensures Read(Upserted(t, segs, leaf).value, q) == None
    decreases |segs|
  {
    assert segs[0] in segs;
    RegularPaired(t);
    if q != [] {
      var c := ChildFor(t, segs[0], segs[1]);
      NoMergeSlice(segs, 1, |segs|);
      assert segs[1..|segs|] == segs[1..];
      ChildRegular(t, segs[0], segs[1]);
      UpsertAbove(c, segs[1..], leaf, q[1..]);
      PutReads(t, segs[0], Upserted(c, segs[1..], leaf).value);
    }
  }

  // A scalar has nothing below it.
  lemma ReadBelow(t: Tree, p: seq<Segment>, q: seq<Segment>)
    requires p < q && LocalWalk(t, p).Some? && LocalWalk(t, p).value.kind == ScalarNode
    ensures Read(t, q) == None
  {
    assert q == p + q[|p|..];
    LocalWalkConcat(t, p, q[|p|..]);
  }

  // The whole effect of writing along names.
  lemma UpsertEffect(t: Tree, segs: seq<Segment>, leaf: Leaf, q: seq<Segment>)
    requires Regular(t) && segs != [] && NoMergeNames(segs) && AllNames(segs) && Upserted(t, segs, leaf).Some?
    ensures Read(Upserted(t, segs, leaf).value, q) ==
      if q == segs then Some(leaf.value) else if Comparable(segs, q) then None else Read(t, q)
  {
    UpsertAt(t, segs, leaf);
    if q < segs {
      UpsertAbove(t, segs, leaf, q);
    } else if segs < q {
      ReadBelow(Upserted(t, segs, leaf).value, segs, q);
    } else if !Comparable(segs, q) {
      UpsertElsewhere(t, segs, leaf, q);
    }
  }

  // On a mapping, a path of names can always be written.
  lemma {:induction false} NamesFit(t: Tree, segs: seq<Segment>)
    requires Plain(t) && t.kind == MappingNode && segs != [] && AllNames(segs)
    ensures PathFits(t, segs)
    decreases |segs|
  {
    assert segs[0] in segs;
    if |segs| > 1 {
      assert segs[1] in segs && AllNames(segs[1..]);
      ChildRegular(t, segs[0], segs[1]);
      NamesFit(ChildFor(t, segs[0], segs[1]), segs[1..]);
    }
  }

  // ----- a deletion -----

  // t without its child at seg.
  function Without(t: Tree, seg: Segment): Tree
    requires LocalStep(t, seg).Some?
  {
    match seg
    case Index(i) => t.(kids := t.kids[..i] + t.kids[i + 1..])
    case Name(n) => t.(kids := t.kids[..KeyIndex(t, n)] + t.kids[KeyIndex(t, n) + 2..])
  }

  // deletePath: nothing happens if the path is not there.
  function Removed(t: Tree, segs: seq<Segment>): Tree
    decreases |segs|
  {
    if segs == [] || LocalStep(t, segs[0]).None? then t
    else if |segs| == 1 then Without(t, segs[0])
    else Put(t, segs[0], Removed(LocalStep(t, segs[0]).value, segs[1..]))
  }

  lemma WithoutKeys(t: Tree, n: string, i: int)
    requires t.kind == MappingNode && RegularKeys(t.kids) && KeyIndex(t, n) >= 0
    ensures var at, kids := KeyIndex(t, n), Without(t, Name(n)).kids;
      && KeyAt(t.kids, at) && |kids| == |t.kids| - 2
      && (KeyAt(kids, i) ==>
            KeyAt(t.kids, if i < at then i else i + 2) && kids[i] == t.kids[if i < at then i else i + 2])
      && (KeyAt(kids, i) ==> kids[i + 1] == t.kids[if i < at then i + 1 else i + 3])
  {
    KeyIndexFinds(t.kids, n, 0);
  }

  lemma WithoutRegular(t: Tree, n: string)
    requires t.kind == MappingNode && RegularKeys(t.kids) && KeyIndex(t, n) >= 0
    ensures RegularKeys(Without(t, Name(n)).kids)
  {
    hide KeyIndex, Without;
    var kids := Without(t, Name(n)).kids;
    forall i | KeyAt(kids, i) ensures !IsMergeKey(kids[i]) {
      WithoutKeys(t, n, i);
    }
    forall i, j | KeyAt(kids, i) && KeyAt(kids, j) && i < j ensures kids[i].value != kids[j].value {
      WithoutKeys(t, n, i);
      WithoutKeys(t, n, j);
    }
    WithoutKeys(t, n, 0);
  }

  lemma WithoutPlain(t: Tree, n: string)
    requires Plain(t) && t.kind == MappingNode && KeyIndex(t, n) >= 0
    ensures Plain(Without(t, Name(n)))
  {
    hide RegularKeys;
    WithoutRegular(t, n);
    var kids := Without(t, Name(n)).kids;
    forall i | 0 <= i < |kids| ensures kids[i] == if i < KeyIndex(t, n) then t.kids[i] else t.kids[i + 2] {}
  }

  // Deleting a key takes that key away and no other.
  lemma WithoutReads(t: Tree, n: string, other: Segment)
    requires t.kind == MappingNode && RegularKeys(t.kids) && KeyIndex(t, n) >= 0
    ensures LocalStep(Without(t, Name(n)), other) == if other == Name(n) then None else LocalStep(t, other)
  {
    if other.Name? {
      hide RegularKeys, Without;
      WithoutRegular(t, n);
      var m, u := other.name, Without(t, Name(n));
      if KeyIndex(u, m) >= 0 {
        FoundBefore(t, n, m);
      } else if KeyIndex(t, m) >= 0 && m != n {
        FoundAfter(t, n, m);
      }
      WithoutOwn(t, n);
    }
  }

  lemma FoundBefore(t: Tree, n: string, m: string)
    requires t.kind == MappingNode && RegularKeys(t.kids) && KeyIndex(t, n) >= 0
    requires KeyIndex(Without(t, Name(n)), m) >= 0
    ensures var u, at := Without(t, Name(n)), KeyIndex(t, n);
      && KeyIndex(t, m) >= 0 && m != n && u.kind == MappingNode
      && u.kids[KeyIndex(u, m) + 1] == t.kids[KeyIndex(t, m) + 1]
  {
    var u, at := Without(t, Name(n)), KeyIndex(t, n);
    KeyIndexFinds(u.kids, m, 0);
    KeyIndexFinds(t.kids, n, 0);
    var r := KeyIndex(u, m);
    WithoutKeys(t, n, r);
    KeyIndexIs(t, m, if r < at then r else r + 2);
  }

  lemma FoundAfter(t: Tree, n: string, m: string)
    requires t.kind == MappingNode && RegularKeys(t.kids) && KeyIndex(t, n) >= 0
    requires KeyIndex(t, m) >= 0 && m != n
    ensures KeyIndex(Without(t, Name(n)), m) >= 0
  {
    var u, at := Without(t, Name(n)), KeyIndex(t, n);
    KeyIndexFinds(t.kids, m, 0);
    KeyIndexFinds(t.kids, n, 0);
    KeyIndexFinds(u.kids, m, 0);
    var s := KeyIndex(t, m);
    var s' := if s < at then s else s - 2;
    WithoutKeys(t, n, s');
    assert KeyAt(u.kids, s');
  }

  lemma WithoutOwn(t: Tree, n: string)
    requires t.kind == MappingNode && RegularKeys(t.kids) && KeyIndex(t, n) >= 0
    ensures Without(t, Name(n)).kind == MappingNode && KeyIndex(Without(t, Name(n)), n) < 0
  {
    var u := Without(t, Name(n));
    KeyIndexFinds(t.kids, n, 0);
    forall i | KeyAt(u.kids, i) ensures u.kids[i].value != n {
      WithoutKeys(t, n, i);
    }
    KeyIndexIsNot(u, n);
  }

  lemma {:induction false} RemovedPlain(t: Tree, segs: seq<Segment>)
    requires Plain(t) && NoMergeNames(segs)
    ensures Plain(Removed(t, segs)) && Removed(t, segs).kind == t.kind
    decreases |segs|
  {
    if segs != [] && LocalStep(t, segs[0]).Some? {
      assert segs[0] in segs;
      StepFits(t, segs[0]);
      StepRegular(t, segs[0]);
      if |segs| == 1 {
        WithoutPlain(t, segs[0].name);
      } else {
        NoMergeSlice(segs, 1, |segs|);
        assert segs[1..|segs|] == segs[1..];
        RemovedPlain(LocalStep(t, segs[0]).value, segs[1..]);
        PutRegular(t, segs[0], Removed(LocalStep(t, segs[0]).value, segs[1..]));
      }
    }
  }

  // The whole effect of deleting a path.
  lemma {:induction false} RemoveEffect(t: Tree, segs: seq<Segment>, q: seq<Segment>)
    requires Plain(t) && segs != [] && NoMergeNames(segs)
    ensures Read(Removed(t, segs), q) == if segs <= q then None else Read(t, q)
    decreases |segs|
  {
    assert segs[0] in segs;
    if LocalStep(t, segs[0]).None? {
    } else if |segs| == 1 {
      StepFits(t, segs[0]);
      if q != [] {
        WithoutReads(t, segs[0].name, q[0]);
        assert segs <= q <==> segs[0] == q[0];
      }
    } else {
      var c := LocalStep(t, segs[0]).value;
      var u := Removed(c, segs[1..]);
      StepFits(t, segs[0]);
      StepRegular(t, segs[0]);
      PlainIsRegular(t);
      NoMergeSlice(segs, 1, |segs|);
      assert segs[1..|segs|] == segs[1..];
      PutReads(t, segs[0], u);
      if q != [] {
        if q[0] == segs[0] {
          RemoveEffect(c, segs[1..], q[1..]);
          assert segs == [segs[0]] + segs[1..] && q == [q[0]] + q[1..];
        } else {
          PutElsewhere(t, segs[0], u, q[0]);
        }
      }
    }
  }
}
