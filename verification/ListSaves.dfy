/** Saves of documents with sequences: when the scalars of the result are the entries. */
module ListSaves {
  import opened Prelude
  import opened KeyPath
  import opened YamlNode
  import opened Lookup
  import opened Reading
  import opened Walk
  import opened Upsert
  import opened PatchTree
  import opened PhysicalLeaves
  import opened PatchPlan
  import opened Patch
  import opened Patching
  import opened Pruning
  import opened StaleLeaves

  // ----- deletions that move nothing -----

  // No path to delete is an item with a leaf after it in its sequence: items go from the
  // end of a sequence, one at a time.
  ghost predicate Settled(t: Tree, gone: seq<seq<Segment>>) {
    forall p, q | p in gone && q in LeafPaths(t) :: !Shifts(p, q)
  }

  lemma SettledStill(t: Tree, gone: seq<seq<Segment>>)
    requires Settled(t, gone) && forall p | p in gone :: p in LeafPaths(t)
    ensures Still(gone)
  {
    hide Shifts, LeafPaths;
    forall a, b | 0 <= a < b < |gone| ensures !Shifts(gone[a], gone[b]) {
      assert gone[a] in gone && gone[b] in gone;
    }
  }

  lemma {:induction false} SomeLeaf(t: Tree) returns (p: seq<Segment>)
    requires Regular(t)
    ensures p in LeafPaths(t)
    decreases t
  {
    if Leafy(t) {
      p := [];
    } else {
      RegularKinds(t);
      RegularPaired(t);
      SlotStep(t, 0);
      p := SomeLeaf(SlotValue(t, 0));
      LeafBelow(t, 0, p);
      p := [SlotSeg(t, 0)] + p;
    }
  }

  lemma LeafBelow(t: Tree, k: nat, p: seq<Segment>)
    requires k < Width(t) && p in LeafPaths(SlotValue(t, k)) && !Leafy(t)
    ensures [SlotSeg(t, k)] + p in LeafPaths(t)
  {
    LeafBelowFrom(t, 0, k, p);
  }

  lemma {:induction false} LeafBelowFrom(t: Tree, i: nat, k: nat, p: seq<Segment>)
    requires i <= k < Width(t) && p in LeafPaths(SlotValue(t, k))
    ensures [SlotSeg(t, k)] + p in LeafPathsFrom(t, i)
    decreases k - i
  {
    hide LeafPaths;
    if i == k {
      var below := LeafPaths(SlotValue(t, k));
      var j :| 0 <= j < |below| && below[j] == p;
      assert Prefixed(SlotSeg(t, k), below)[j] == [SlotSeg(t, k)] + p;
    } else {
      LeafBelowFrom(t, i + 1, k, p);
    }
  }

  lemma SettledBelow(t: Tree, gone: seq<seq<Segment>>, k: nat)
    requires Settled(t, gone) && k < Width(t) && !Leafy(t)
    ensures Settled(SlotValue(t, k), Below(gone, SlotSeg(t, k)))
  {
    hide LeafPaths;
    var seg := SlotSeg(t, k);
    forall p, q | p in Below(gone, seg) && q in LeafPaths(SlotValue(t, k)) ensures !Shifts(p, q) {
      BelowMember(gone, seg, p);
      LeafBelow(t, k, q);
      assert ([seg] + p)[1..] == p && ([seg] + q)[1..] == q;
    }
  }

  // Only the last item of a sequence goes.
  lemma OnlyTheLast(t: Tree, gone: seq<seq<Segment>>, i: nat)
    requires Regular(t) && t.kind == SequenceNode && Settled(t, gone) && i < |t.kids| && [] in Below(gone, Index(i))
    ensures i == |t.kids| - 1
  {
    hide LeafPaths;
    BelowMember(gone, Index(i), []);
    assert [Index(i)] + [] == [Index(i)];
    if i + 1 < |t.kids| {
      SlotStep(t, i + 1);
      var q := SomeLeaf(SlotValue(t, i + 1));
      LeafBelow(t, i + 1, q);
      assert Shifts([Index(i)], [Index(i + 1)] + q);
    }
  }

  // ----- what is read after such deletions -----

  // The at-th child of t, kept, is a child of u under the same name, and in a sequence at
  // the same place.
  lemma {:induction false} KeptChild(t: Tree, gone: seq<seq<Segment>>, k: nat, u: Tree, j: nat, at: nat)
    returns (k': nat)
    requires IsContainer(t) && Paired(t) && u.kind == t.kind && Paired(u) && j <= Width(u)
    requires RestFrom(u, j) == PrunedFrom(t, gone, k) && k <= at < Width(t) && [] !in Below(gone, SlotSeg(t, at))
    requires t.kind == SequenceNode ==> j == k && forall i: nat | i < at :: [] !in Below(gone, SlotSeg(t, i))
    ensures k' < Width(u) && SlotSeg(u, k') == SlotSeg(t, at)
    ensures SlotValue(u, k') == Pruned(SlotValue(t, at), Below(gone, SlotSeg(t, at)))
    decreases at - k
  {
    hide Below, Pruned, PrunedFrom, RestFrom, Paired;
    PrunedStep(t, gone, k);
    if [] in Below(gone, SlotSeg(t, k)) {
      k' := KeptChild(t, gone, k + 1, u, j, at);
    } else {
      RestSplits(t, gone, k, u, j);
      RestNames(t, gone, k, u, j);
      if k == at {
        k' := j;
      } else {
        k' := KeptChild(t, gone, k + 1, u, j + 1, at);
      }
    }
  }

  lemma RestNames(t: Tree, gone: seq<seq<Segment>>, k: nat, u: Tree, j: nat)
    requires IsContainer(t) && u.kind == t.kind && Paired(u) && j < Width(u) && k < Width(t)
    requires [] !in Below(gone, SlotSeg(t, k)) && RestFrom(u, j) == PrunedFrom(t, gone, k)
    ensures t.kind == MappingNode ==> SlotSeg(u, j) == SlotSeg(t, k)
  {
    hide Below, Pruned, PrunedFrom;
    PrunedStep(t, gone, k);
    RestStep(u, j);
    if t.kind == MappingNode {
      assert PrunedFrom(t, gone, k)[0] == t.kids[2 * k];
      assert RestFrom(u, j)[0] == u.kids[2 * j];
    }
  }

  // And every child of u is one of t that is kept.
  lemma {:induction false} ChildKept(t: Tree, gone: seq<seq<Segment>>, k: nat, u: Tree, j: nat, k': nat)
    returns (at: nat)
    requires t.kind == MappingNode && Paired(t) && u.kind == t.kind && Paired(u) && j <= k' < Width(u)
    requires RestFrom(u, j) == PrunedFrom(t, gone, k) && k <= Width(t)
    ensures at < Width(t) && SlotSeg(u, k') == SlotSeg(t, at) && [] !in Below(gone, SlotSeg(t, at))
    decreases Width(t) - k
  {
    hide Below, Pruned, PrunedFrom, RestFrom, Paired;
    if k == Width(t) {
      PrunedPast(t, gone, k);
      RestStep(u, j);
      assert false;
    }
    PrunedStep(t, gone, k);
    if [] in Below(gone, SlotSeg(t, k)) {
      at := ChildKept(t, gone, k + 1, u, j, k');
    } else {
      RestSplits(t, gone, k, u, j);
      RestNames(t, gone, k, u, j);
      if k' == j {
        at := k;
      } else {
        at := ChildKept(t, gone, k + 1, u, j + 1, k');
      }
    }
  }

  lemma {:induction false} FewerItems(t: Tree, gone: seq<seq<Segment>>, k: nat, at: nat)
    requires t.kind == SequenceNode && k <= |t.kids|
    ensures |PrunedFrom(t, gone, k)| <= |t.kids| - k
    ensures k <= at < |t.kids| && [] in Below(gone, Index(at)) ==> |PrunedFrom(t, gone, k)| < |t.kids| - k
    decreases |t.kids| - k
  {
    hide Below, Pruned, PrunedFrom;
    if k < |t.kids| {
      PrunedStep(t, gone, k);
      FewerItems(t, gone, k + 1, at);
    } else {
      PrunedPast(t, gone, k);
    }
  }

  lemma ItemsStay(t: Tree, gone: seq<seq<Segment>>, i: nat)
    requires Regular(t) && t.kind == SequenceNode && Settled(t, gone)
    ensures LocalStep(Pruned(t, gone), Index(i)) ==
      if i >= |t.kids| || [] in Below(gone, Index(i)) then None else Some(Pruned(t.kids[i], Below(gone, Index(i))))
  {
    hide Below, PrunedFrom, Regular, Settled;
    var u := Pruned(t, gone);
    FewerItems(t, gone, 0, i);
    if i < |t.kids| {
      if [] in Below(gone, Index(i)) {
        OnlyTheLast(t, gone, i);
      } else {
        forall j: nat | j < i ensures [] !in Below(gone, SlotSeg(t, j)) {
          if [] in Below(gone, Index(j)) {
            OnlyTheLast(t, gone, j);
          }
        }
        assert RestFrom(u, 0) == PrunedFrom(t, gone, 0);
        var k' := KeptChild(t, gone, 0, u, 0, i);
      }
    }
  }

  // One step below the root.
  lemma PrunedStepReads(t: Tree, gone: seq<seq<Segment>>, seg: Segment)
    requires Regular(t) && IsContainer(t) && Settled(t, gone) && Regular(Pruned(t, gone))
    ensures LocalStep(Pruned(t, gone), seg) ==
      match LocalStep(t, seg)
      case None => None
      case Some(c) => if [] in Below(gone, seg) then None else Some(Pruned(c, Below(gone, seg)))
  {
    hide Below, PrunedFrom, Regular, RegularKeys, Settled;
    var u := Pruned(t, gone);
    RegularPaired(t);
    RegularPaired(u);
    assert RestFrom(u, 0) == PrunedFrom(t, gone, 0);
    if t.kind == SequenceNode {
      if seg.Index? {
        ItemsStay(t, gone, seg.index);
      }
    } else if LocalStep(t, seg).Some? {
      var at := StepSlot(t, seg);
      SlotStep(t, at);
      if [] !in Below(gone, seg) {
        var k' := KeptChild(t, gone, 0, u, 0, at);
        SlotStep(u, k');
      } else if LocalStep(u, seg).Some? {
        var k' := StepSlot(u, seg);
        var from := ChildKept(t, gone, 0, u, 0, k');
        if from != at {
          SlotsDiffer(t, at, from);
        }
        assert false;
      }
    } else if LocalStep(u, seg).Some? {
      var k' := StepSlot(u, seg);
      var from := ChildKept(t, gone, 0, u, 0, k');
      SlotStep(t, from);
      assert false;
    }
  }

  lemma {:induction false} LeafOfChild(t: Tree, i: nat, k: nat, p: seq<Segment>)
    requires Regular(t) && k < Width(t) && [SlotSeg(t, k)] + p in LeafPathsFrom(t, i)
    ensures p in LeafPaths(SlotValue(t, k))
    decreases Width(t) - i
  {
    hide LeafPaths, Regular;
    var own := Prefixed(SlotSeg(t, i), LeafPaths(SlotValue(t, i)));
    var q := [SlotSeg(t, k)] + p;
    if q in own {
      var j :| 0 <= j < |own| && own[j] == q;
      assert q[0] == SlotSeg(t, k) && q[1..] == p;
      if i != k {
        SlotsDiffer(t, i, k);
      }
      assert LeafPaths(SlotValue(t, i))[j] == own[j][1..];
    } else {
      LeafOfChild(t, i + 1, k, p);
    }
  }

  // The paths are leaves of t in its order, and deleting them moves nothing.
  ghost predicate Ends(t: Tree, gone: seq<seq<Segment>>) {
    && LeavesIn(t, gone) && Ordered(gone) && Settled(t, gone)
    && forall p | p in gone :: p in LeafPaths(t)
  }

  lemma EndsBelow(t: Tree, gone: seq<seq<Segment>>, k: nat)
    requires Regular(t) && !Leafy(t) && Ends(t, gone) && k < Width(t) && [] !in Below(gone, SlotSeg(t, k))
    ensures Ends(SlotValue(t, k), Below(gone, SlotSeg(t, k)))
  {
    hide LeafPaths, Regular, LeavesIn, Ordered, Settled;
    var seg := SlotSeg(t, k);
    LeavesBelow(t, gone, k);
    BelowOrdered(gone, seg);
    SettledBelow(t, gone, k);
    forall p | p in Below(gone, seg) ensures p in LeafPaths(SlotValue(t, k)) {
      BelowMember(gone, seg, p);
      InnerPaths(t);
      LeafOfChild(t, 0, k, p);
    }
  }

  lemma InnerPaths(t: Tree)
    requires !Leafy(t)
    ensures LeafPaths(t) == LeafPathsFrom(t, 0)
  {
  }

  lemma NoRootPath(t: Tree, gone: seq<seq<Segment>>)
    requires LeavesIn(t, gone)
    ensures [] !in gone && (!IsContainer(t) || t.kids == [] ==> gone == [])
  {
    if gone != [] {
      assert gone[0] in gone && LocalStep(t, gone[0][0]).Some?;
      StepFits(t, gone[0][0]);
    }
  }

  // The scalars that are not deleted are read as before, and nothing else is.
  lemma {:induction false} PrunedReads(t: Tree, gone: seq<seq<Segment>>, q: seq<Segment>)
    requires Regular(t) && Ends(t, gone) && Regular(Pruned(t, gone))
    ensures Read(Pruned(t, gone), q) == if q in gone then None else Read(t, q)
    decreases |q|
  {
    hide Regular, LeavesIn, Ordered, Settled, LeafPaths, Below;
    NoRootPath(t, gone);
    if !IsContainer(t) || q == [] {
      PrunedKind(t, gone);
    } else {
      var u, below := Pruned(t, gone), Below(gone, q[0]);
      hide Pruned;
      PrunedStepReads(t, gone, q[0]);
      assert q == [q[0]] + q[1..];
      BelowMember(gone, q[0], q[1..]);
      if LocalStep(t, q[0]).Some? {
        var at := StepSlot(t, q[0]);
        SlotStep(t, at);
        if [] in below {
          LeafRead(t, gone, q);
        } else {
          StepRegular(u, q[0]);
          EndsBelow(t, gone, at);
          PrunedReads(SlotValue(t, at), below, q[1..]);
        }
      } else {
        NotGone(t, gone, q);
      }
    }
  }

  lemma NotGone(t: Tree, gone: seq<seq<Segment>>, q: seq<Segment>)
    requires LeavesIn(t, gone) && q != [] && LocalStep(t, q[0]).None?
    ensures q !in gone && Read(t, q) == None
  {
  }

  lemma LeafRead(t: Tree, gone: seq<seq<Segment>>, q: seq<Segment>)
    requires LeavesIn(t, gone) && q != [] && [] in Below(gone, q[0])
    ensures q in gone || Read(t, q) == None
  {
    BelowMember(gone, q[0], []);
    assert [q[0]] + [] == [q[0]];
    if |q| > 1 {
      LeafHasNothingBelow(t, [q[0]], q);
    } else {
      assert q == [q[0]];
    }
  }

  lemma SettledReads(t: Tree, gone: seq<seq<Segment>>, q: seq<Segment>)
    requires Regular(t) && Ends(t, gone)
    ensures Regular(DropAll(t, gone))
    ensures Read(DropAll(t, gone), q) == if q in gone then None else Read(t, q)
  {
    hide Regular, LeavesIn, Ordered, Settled, LeafPaths, DropAll, Pruned;
    NoRootPath(t, gone);
    SettledStill(t, gone);
    StillPrunes(t, gone);
    DropAllRegular(t, gone);
    PrunedReads(t, gone, q);
  }

  // ----- writing where there is a scalar -----

  lemma {:induction false} WriteThere(t: Tree, p: seq<Segment>, leaf: Leaf, q: seq<Segment>)
    requires Regular(t) && p != [] && NoMergeNames(p) && Read(t, p).Some?
    ensures var r := Upserted(t, p, leaf);
      r.Some? && Regular(r.value) && Read(r.value, q) == if q == p then Some(leaf.value) else Read(t, q)
    decreases |p|
  {
    hide Regular;
    assert p[0] in p;
    StepFits(t, p[0]);
    RegularPaired(t);
    var c := LocalStep(t, p[0]).value;
    if |p| > 1 {
      StepRegular(t, p[0]);
      NoMergeSlice(p, 1, |p|);
      assert p[1..|p|] == p[1..];
      assert Read(c, p[1..]).Some?;
      NotBelowScalar(c, p[1..]);
      assert ChildFor(t, p[0], p[1]) == c;
      WriteThere(c, p[1..], leaf, if q == [] then [] else q[1..]);
    }
    var w := if |p| == 1 then LeafTree(leaf) else Upserted(c, p[1..], leaf).value;
    LeafRegular(leaf);
    PutRegular(t, p[0], w);
    PutReads(t, p[0], w);
    if q != [] {
      if q[0] == p[0] {
        assert q == [q[0]] + q[1..] && p == [p[0]] + p[1..];
        assert Read(Put(t, p[0], w), q) == Read(w, q[1..]) && Read(t, q) == Read(c, q[1..]);
        if |p| == 1 && |q| > 1 {
          ReadBelow(t, p, q);
          assert LocalWalk(w, q[1..]) == None;
        }
      } else {
        PutOther(t, p[0], w, q[0]);
      }
    }
  }

  lemma LeafRegular(leaf: Leaf)
    ensures Regular(LeafTree(leaf))
  {
  }

  lemma NotBelowScalar(t: Tree, p: seq<Segment>)
    requires p != [] && Read(t, p).Some?
    ensures IsContainer(t)
  {
    StepFits(t, p[0]);
  }

  lemma PutOther(t: Tree, seg: Segment, u: Tree, other: Segment)
    requires Fits(t, seg) && Paired(t) && seg != Name(MERGE_KEY) && other != seg && LocalStep(t, seg).Some?
    ensures LocalStep(Put(t, seg, u), other) == LocalStep(t, other)
  {
    if LocalStep(t, other).Some? || seg.Name? {
      PutElsewhere(t, seg, u, other);
    }
  }

  // Entries for scalars that are there: each is stored, and nothing else changes.
  lemma {:induction false} ApplyThere(t: Tree, paths: seq<seq<Segment>>, entries: seq<Entry>, convert: Convert,
                                      q: seq<Segment>)
    requires Regular(t) && ScalarWrites(paths, entries) && forall i | 0 <= i < |paths| :: Read(t, paths[i]).Some?
    ensures ApplyAll(t, paths, entries, convert).Some?
    ensures var u := ApplyAll(t, paths, entries, convert).value;
      && Regular(u)
      && (forall i | 0 <= i < |paths| && paths[i] == q :: Read(u, q) == Some(NewText(Read(t, q), entries[i], convert)))
      && (q !in paths ==> Read(u, q) == Read(t, q))
    decreases |paths|
  {
    hide Regular, Read, NewText, Applied, Comparable;
    if paths != [] {
      var n := |paths| - 1;
      WritesPrefix(paths, entries, n);
      ApplyThere(t, paths[..n], entries[..n], convert, q);
      ApplyThere(t, paths[..n], entries[..n], convert, paths[n]);
      LastIsNew(paths, entries);
      OneThere(ApplyAll(t, paths[..n], entries[..n], convert).value, paths[n], entries[n], convert, q);
    }
  }

  lemma LastIsNew(paths: seq<seq<Segment>>, entries: seq<Entry>)
    requires ScalarWrites(paths, entries) && paths != []
    ensures paths[|paths| - 1] !in paths[..|paths| - 1]
    ensures forall q :: q in paths <==> q in paths[..|paths| - 1] || q == paths[|paths| - 1]
  {
    var n := |paths| - 1;
    assert paths == paths[..n] + [paths[n]];
    forall i | 0 <= i < n ensures paths[i] != paths[n] {
      assert !Comparable(paths[i], paths[n]);
    }
  }

  lemma OneThere(t: Tree, p: seq<Segment>, e: Entry, convert: Convert, q: seq<Segment>)
    requires Regular(t) && p != [] && NoMergeNames(p) && e.typ != TYPE_MAP && e.typ != TYPE_LIST && Read(t, p).Some?
    ensures var r := Applied(t, p, e, convert);
      && r.Some? && Regular(r.value)
      && Read(r.value, q) == if q == p then Some(NewText(Read(t, p), e, convert)) else Read(t, q)
  {
    hide Regular;
    RegularRead(t, p);
    WriteThere(t, p, convert(e.value, e.typ), q);
  }

  // ----- when something else is left -----

  ghost predicate HasScalar(t: Tree) {
    exists q :: Read(t, q).Some?
  }

  // Every item of a sequence has a scalar in it.
  ghost predicate ItemsHaveScalars(t: Tree) {
    && (t.kind == SequenceNode ==> forall i | 0 <= i < |t.kids| :: HasScalar(t.kids[i]))
    && (forall k: nat | k < Width(t) :: ItemsHaveScalars(SlotValue(t, k)))
  }

  lemma {:induction false} BelowSnoc(gone: seq<seq<Segment>>, p: seq<Segment>, seg: Segment)
    requires p != []
    ensures Below(gone + [p], seg) == if p[0] == seg then Below(gone, seg) + [p[1..]] else Below(gone, seg)
  {
    if gone == [] {
      BelowCons(p, [], seg);
      assert [] + [p] == [p] == [p] + [];
    } else {
      assert (gone + [p])[1..] == gone[1..] + [p];
      BelowSnoc(gone[1..], p, seg);
    }
  }

  // No path takes the child at seg or moves it.
  ghost predicate Spares(gone: seq<seq<Segment>>, seg: Segment) {
    forall p: seq<Segment> | p in gone :: p != [] &&
      (|p| == 1 ==> p[0] != seg && (p[0].Index? && seg.Index? ==> p[0].index > seg.index))
  }

  lemma SparesParts(gone: seq<seq<Segment>>, p: seq<Segment>, seg: Segment)
    requires Spares(gone + [p], seg)
    ensures Spares(gone, seg) && Spares([p], seg) && p != []
  {
    assert p in gone + [p] && forall q | q in gone :: q in gone + [p];
  }

  // So the child has the same place, without what is below it.
  lemma {:induction false} DropStep(t: Tree, gone: seq<seq<Segment>>, seg: Segment)
    requires Regular(t) && LocalStep(t, seg).Some? && Spares(gone, seg)
    ensures LocalStep(DropAll(t, gone), seg) == Some(DropAll(LocalStep(t, seg).value, Below(gone, seg)))
  {
    hide Regular, Below, Removed, LocalStep, Spares;
    if gone == [] {
      assert Below(gone, seg) == [] by { NothingBelow(seg); }
    } else {
      var n := |gone| - 1;
      var init, p := gone[..n], gone[n];
      assert gone == init + [p];
      SparesParts(init, p, seg);
      DropStep(t, init, seg);
      BelowSnoc(init, p, seg);
      DropAllRegular(t, init);
      OneStep(DropAll(t, init), p, seg);
      if p[0] == seg {
        DropSnoc(LocalStep(t, seg).value, Below(init, seg), p[1..]);
      }
    }
  }

  lemma NothingBelow(seg: Segment)
    ensures Below([], seg) == []
  {
  }

  lemma DropSnoc(t: Tree, gone: seq<seq<Segment>>, p: seq<Segment>)
    ensures DropAll(t, gone + [p]) == Removed(DropAll(t, gone), p)
  {
    hide Removed;
    assert (gone + [p])[..|gone|] == gone;
  }

  lemma OneStep(t: Tree, p: seq<Segment>, seg: Segment)
    requires Regular(t) && LocalStep(t, seg).Some? && Spares([p], seg)
    ensures LocalStep(Removed(t, p), seg) ==
      Some(if p[0] == seg then Removed(LocalStep(t, seg).value, p[1..]) else LocalStep(t, seg).value)
  {
    hide Regular, RegularKeys;
    assert p in [p];
    StepFits(t, seg);
    RegularPaired(t);
    NoMergeStep(t, seg);
    if LocalStep(t, p[0]).Some? {
      StepFits(t, p[0]);
      NoMergeStep(t, p[0]);
      if |p| == 1 {
        if p[0].Name? {
          RegularNames(t);
          WithoutReads(t, p[0].name, seg);
        }
      } else if p[0] == seg {
        PutReads(t, seg, Removed(LocalStep(t, seg).value, p[1..]));
      } else {
        PutOther(t, p[0], Removed(LocalStep(t, p[0]).value, p[1..]), seg);
      }
    }
  }

  lemma RegularNames(t: Tree)
    requires Regular(t) && t.kind == MappingNode
    ensures RegularKeys(t.kids)
  {
  }

  lemma NoMergeStep(t: Tree, seg: Segment)
    requires LocalStep(t, seg).Some?
    ensures seg != Name(MERGE_KEY)
  {
    if seg.Name? {
      KeyIndexFinds(t.kids, seg.name, 0);
    }
  }

  // The item behind the first to go takes its place and stays as it is.
  lemma NextTakesPlace(t: Tree, gone: seq<seq<Segment>>, a: nat)
    requires Regular(t) && Ordered(gone) && FirstGone(t, gone, a) && ItemOf(gone[a]) + 1 < |t.kids|
    ensures var i := ItemOf(gone[a]); i < |DropAll(t, gone).kids| && DropAll(t, gone).kids[i] == t.kids[i + 1]
    ensures DropAll(t, gone).kind == SequenceNode
  {
    hide Regular, DropAll, Ordered;
    var i, pre, rest := ItemOf(gone[a]), gone[..a + 1], gone[a + 1..];
    FirstRemoved(t, gone, a);
    var u, w := DropAll(t, pre), DropAll(t, gone);
    MovedUp(u.kids, t.kids, i, i + 1);
    forall r: seq<Segment> | r in rest ensures r != [] && r[0].Index? && i + 1 <= ItemOf(r) {
      var c :| 0 <= c < |rest| && rest[c] == r;
      LaterItem(gone, a, a + 1 + c);
    }
    FrontStays(u, rest, i + 1);
    DropConcat(t, pre, rest);
    assert pre + rest == gone;
    assert w.kids[i] == w.kids[..i + 1][i] == u.kids[..i + 1][i];
  }

  // An item goes that has a later leaf behind it: the next item is read in its place.
  lemma ItemShows(t: Tree, gone: seq<seq<Segment>>, p: seq<Segment>, q: seq<Segment>)
    returns (p': seq<Segment>, q': seq<Segment>)
    requires Regular(t) && LeavesIn(t, gone) && Ordered(gone) && ItemsHaveScalars(t)
    requires p in gone && |p| == 1 && Shifts(p, q) && LocalWalk(t, q).Some?
    ensures p' in gone && p' <= q' && Read(DropAll(t, gone), q').Some?
  {
    hide Regular, DropAll, LeavesIn, Ordered;
    assert q != [] && p[0] != q[0] by { assert p[1..] == []; }
    StepFits(t, q[0]);
    var x :| 0 <= x < |gone| && gone[x] == p;
    var a := FirstGoneIs(t, gone, x);
    NextTakesPlace(t, gone, a);
    var i := ItemOf(gone[a]);
    assert HasScalar(t.kids[i + 1]);
    var r: seq<Segment> :| Read(t.kids[i + 1], r).Some?;
    p', q' := gone[a], [Index(i)] + r;
    assert q'[1..] == r && gone[a] == [Index(i)];
  }

  lemma LaterItem(gone: seq<seq<Segment>>, a: nat, b: nat)
    requires Ordered(gone) && a < b < |gone| && |gone[a]| == 1 && gone[a][0].Index?
    requires gone[b] != [] && gone[b][0].Index?
    ensures ItemOf(gone[a]) < ItemOf(gone[b])
  {
    BeforeItem(gone[a], gone[b]);
  }

  // Two leaves, one of them an item before the other in some sequence; `below` says that
  // the sequence is not the root.
  lemma ShiftsBelow(t: Tree, gone: seq<seq<Segment>>, p: seq<Segment>, q: seq<Segment>) returns (at: nat)
    requires Regular(t) && LeavesIn(t, gone) && p in gone && q in LeafPaths(t) && Shifts(p, q) && p[0] == q[0]
    ensures !Leafy(t) && at < Width(t) && SlotSeg(t, at) == p[0] && [] !in Below(gone, p[0])
    ensures p[1..] in Below(gone, p[0]) && q[1..] in LeafPaths(SlotValue(t, at)) && Shifts(p[1..], q[1..])
  {
    hide Regular, LeafPaths;
    var seg := p[0];
    assert LocalStep(t, seg).Some?;
    StepFits(t, seg);
    at := StepSlot(t, seg);
    SlotStep(t, at);
    assert p == [seg] + p[1..] && q == [seg] + q[1..];
    BelowMember(gone, seg, p[1..]);
    InnerPaths(t);
    LeafOfChild(t, 0, at, q[1..]);
    BelowMember(gone, seg, []);
    assert [seg] + [] == [seg];
    if [] in Below(gone, seg) {
      LeafEnds(t, [seg], p);
    }
  }

  lemma LeafEnds(t: Tree, p: seq<Segment>, q: seq<Segment>)
    requires LocalWalk(t, p).Some? && Leafy(LocalWalk(t, p).value) && LocalWalk(t, q).Some? && p <= q
    ensures p == q
  {
    assert q == p + q[|p|..];
    LocalWalkConcat(t, p, q[|p|..]);
    if q[|p|..] != [] {
      StepFits(LocalWalk(t, p).value, q[|p|]);
    }
  }

  // Some scalar is read at or below a path that was to go.
  lemma {:induction false} ShiftShows(t: Tree, gone: seq<seq<Segment>>, p: seq<Segment>, q: seq<Segment>)
    returns (p': seq<Segment>, q': seq<Segment>)
    requires Regular(t) && LeavesIn(t, gone) && Ordered(gone) && ItemsHaveScalars(t)
    requires (forall r | r in gone :: r in LeafPaths(t)) && p in gone && q in LeafPaths(t) && Shifts(p, q)
    ensures p' in gone && p' <= q' && Read(DropAll(t, gone), q').Some?
    decreases |p|
  {
    hide Regular, DropAll, LeavesIn, Ordered, LeafPaths, Shifts;
    if r :| r in gone && |r| == 1 && RootShift(t, r) {
      var q1: seq<Segment> :| q1 in LeafPaths(t) && Shifts(r, q1);
      LeafPathsLead(t, q1);
      p', q' := ItemShows(t, gone, r, q1);
    } else {
      assert p[0] == q[0] by { NotAtRoot(t, gone, p, q); }
      var at := ShiftsBelow(t, gone, p, q);
      var seg := p[0];
      var below, c := Below(gone, seg), SlotValue(t, at);
      SlotStep(t, at);
      LeavesBelow(t, gone, at);
      BelowOrdered(gone, seg);
      forall r | r in below ensures r in LeafPaths(c) {
        BelowMember(gone, seg, r);
        InnerPaths(t);
        LeafOfChild(t, 0, at, r);
      }
      var r', s := ShiftShows(c, below, p[1..], q[1..]);
      SparesHere(t, gone, q);
      DropStep(t, gone, seg);
      BelowMember(gone, seg, r');
      p', q' := [seg] + r', [seg] + s;
      assert q'[1..] == s;
    }
  }

  ghost predicate RootShift(t: Tree, p: seq<Segment>) {
    exists q :: q in LeafPaths(t) && Shifts(p, q)
  }

  lemma NotAtRoot(t: Tree, gone: seq<seq<Segment>>, p: seq<Segment>, q: seq<Segment>)
    requires p in gone && q in LeafPaths(t) && Shifts(p, q) && forall r | r in gone && |r| == 1 :: !RootShift(t, r)
    ensures p != [] && q != [] && p[0] == q[0]
  {
    assert |p| == 1 ==> !RootShift(t, p);
  }

  lemma SparesHere(t: Tree, gone: seq<seq<Segment>>, q: seq<Segment>)
    requires LeavesIn(t, gone) && q in LeafPaths(t) && q != [] && [] !in Below(gone, q[0])
    requires forall r | r in gone && |r| == 1 :: !RootShift(t, r)
    ensures Spares(gone, q[0])
  {
    hide LeafPaths;
    forall p: seq<Segment> | p in gone && |p| == 1
      ensures p[0] != q[0] && (p[0].Index? && q[0].Index? ==> p[0].index > q[0].index)
    {
      BelowMember(gone, q[0], []);
      assert [q[0]] + [] == [q[0]] && p == [p[0]];
      assert !Shifts(p, q);
    }
  }

  // ----- a whole save -----

  // Entries for scalars of t; every other scalar is to go.
  ghost predicate Covers(t: Tree, gone: seq<seq<Segment>>, paths: seq<seq<Segment>>) {
    && (forall i | 0 <= i < |paths| :: Read(t, paths[i]).Some?)
    && forall q {:trigger Read(t, q)} | Read(t, q).Some? :: q in gone <==> q !in paths
  }

  lemma SettledStores(t: Tree, gone: seq<seq<Segment>>, paths: seq<seq<Segment>>, entries: seq<Entry>, convert: Convert)
    requires Regular(t) && Ends(t, gone) && ScalarWrites(paths, entries) && Covers(t, gone, paths)
    ensures ApplyAll(DropAll(t, gone), paths, entries, convert).Some?
    ensures ExactlyEntries(t, ApplyAll(DropAll(t, gone), paths, entries, convert).value, paths, entries, convert)
  {
    hide Regular, Ends, DropAll, ApplyAll, Read, NewText;
    var d := DropAll(t, gone);
    SettledReads(t, gone, []);
    forall i | 0 <= i < |paths| ensures Read(d, paths[i]) == Read(t, paths[i]) {
      SettledReads(t, gone, paths[i]);
      assert paths[i] in paths;
    }
    ApplyThere(d, paths, entries, convert, []);
    var u := ApplyAll(d, paths, entries, convert).value;
    forall q
      ensures if q in paths then
          exists i :: 0 <= i < |paths| && q == paths[i] && Stores(Read(t, q), Read(u, q), entries[i], convert)
        else Read(u, q) == None
    {
      SettledReads(t, gone, q);
      ApplyThere(d, paths, entries, convert, q);
      if q in paths {
        var i :| 0 <= i < |paths| && paths[i] == q;
      }
    }
  }

  // A scalar off the written paths stays.
  lemma {:induction false} ApplyKeeps(t: Tree, paths: seq<seq<Segment>>, entries: seq<Entry>, convert: Convert,
                                      q: seq<Segment>)
    requires Regular(t) && ScalarWrites(paths, entries) && ApplyAll(t, paths, entries, convert).Some?
    requires Read(t, q).Some? && forall i | 0 <= i < |paths| :: !Comparable(paths[i], q)
    ensures Read(ApplyAll(t, paths, entries, convert).value, q) == Read(t, q)
    decreases |paths|
  {
    hide Regular, Read, Applied;
    if paths != [] {
      var n := |paths| - 1;
      WritesPrefix(paths, entries, n);
      ApplyKeeps(t, paths[..n], entries[..n], convert, q);
      ApplyAllRegular(t, paths[..n], entries[..n], convert);
      AppliedElsewhere(ApplyAll(t, paths[..n], entries[..n], convert).value, paths[n], entries[n], convert, q);
    }
  }

  // What stands at or below a deleted leaf is no entry's, nor above or below one.
  lemma NoEntryThere(t: Tree, gone: seq<seq<Segment>>, paths: seq<seq<Segment>>, p: seq<Segment>, q: seq<Segment>)
    requires LeavesIn(t, gone) && Covers(t, gone, paths) && p in gone && p <= q
    ensures q !in paths && forall i | 0 <= i < |paths| :: !Comparable(paths[i], q)
  {
    forall i | 0 <= i < |paths| ensures !Comparable(paths[i], q) && paths[i] != q {
      var r := paths[i];
      assert r in paths && Read(t, r).Some?;
      if r <= q {
        if r <= p {
          LeafEnds(t, r, p);
        } else {
          assert p == q[..|p|] && r == q[..|r|] && p <= r;
          LeafEnds(t, p, r);
        }
      } else if q <= r {
        assert p <= r;
        LeafEnds(t, p, r);
      }
    }
  }

  // Where every item has a scalar, deleting an item before a later leaf leaves a scalar
  // that no entry has.
  lemma UnsettledStores(t: Tree, gone: seq<seq<Segment>>, paths: seq<seq<Segment>>, entries: seq<Entry>,
                        convert: Convert)
    requires Regular(t) && LeavesIn(t, gone) && Ordered(gone) && ItemsHaveScalars(t) && !Settled(t, gone)
    requires forall p | p in gone :: p in LeafPaths(t)
    requires ScalarWrites(paths, entries) && Covers(t, gone, paths)
    requires ApplyAll(DropAll(t, gone), paths, entries, convert).Some?
    ensures !ExactlyEntries(t, ApplyAll(DropAll(t, gone), paths, entries, convert).value, paths, entries, convert)
  {
    hide Regular, LeavesIn, Ordered, LeafPaths, Shifts, DropAll, ApplyAll, Read, Covers;
    var p0, q0 :| p0 in gone && q0 in LeafPaths(t) && Shifts(p0, q0);
    var p, q := ShiftShows(t, gone, p0, q0);
    NoEntryThere(t, gone, paths, p, q);
    DropAllRegular(t, gone);
    ApplyKeeps(DropAll(t, gone), paths, entries, convert, q);
  }

  // ----- the save of an edited table -----

  // No leaf without an entry is an item with a leaf after it in its sequence.
  ghost predicate SettledFor(t: Tree, want: set<string>) {
    forall p, q | p in LeafPaths(t) && Encode(p) !in want && q in LeafPaths(t) :: !Shifts(p, q)
  }

  // Entries for scalars of the document, each under the key of its path.
  ghost predicate EntriesOf(t: Tree, entries: seq<Entry>) {
    && AllParse(entries) && ScalarWrites(KeyPaths(entries), entries)
    && forall i | 0 <= i < |entries| ::
         Read(t, KeyPaths(entries)[i]).Some? && entries[i].key == Encode(KeyPaths(entries)[i])
  }

  lemma {:induction false} ScalarIsLeaf(t: Tree, q: seq<Segment>)
    requires Regular(t) && Read(t, q).Some?
    ensures q in LeafPaths(t)
    decreases |q|
  {
    if q != [] {
      StepFits(t, q[0]);
      var at := StepSlot(t, q[0]);
      SlotStep(t, at);
      ScalarIsLeaf(SlotValue(t, at), q[1..]);
      LeafBelow(t, at, q[1..]);
      assert q == [q[0]] + q[1..];
    }
  }

  lemma GoneCovers(t: Tree, entries: seq<Entry>, want: set<string>, gone: seq<seq<Segment>>)
    requires Regular(t) && KeysParse(t) && EntriesOf(t, entries)
    requires forall k :: k in want <==> exists i :: 0 <= i < |entries| && entries[i].key == k
    requires forall p :: p in gone <==> p != [] && p in LeafPaths(t) && Encode(p) !in want
    ensures Covers(t, gone, KeyPaths(entries))
  {
    hide Regular, LeafPaths, Encode, ParseKey, AllParse, ScalarWrites;
    var paths := KeyPaths(entries);
    forall q | Read(t, q).Some? ensures q in gone <==> q !in paths {
      ScalarIsLeaf(t, q);
      assert q != [];
      if q in paths {
        var i :| 0 <= i < |paths| && paths[i] == q;
        assert entries[i].key == Encode(q);
      }
      if Encode(q) in want {
        var i :| 0 <= i < |entries| && entries[i].key == Encode(q);
        ScalarIsLeaf(t, paths[i]);
        assert ParseKey(Encode(paths[i])) == Ok(paths[i]) && ParseKey(Encode(q)) == Ok(q);
      }
    }
  }

  lemma SettledGone(t: Tree, want: set<string>, gone: seq<seq<Segment>>)
    requires forall p :: p in gone <==> p != [] && p in LeafPaths(t) && Encode(p) !in want
    ensures Settled(t, gone) <==> SettledFor(t, want)
  {
    hide LeafPaths, Encode;
    if Settled(t, gone) {
      forall p, q | p in LeafPaths(t) && Encode(p) !in want && q in LeafPaths(t) ensures !Shifts(p, q) {
        assert p == [] || p in gone;
      }
    }
  }

  // The two loops of a save that changes scalars and deletes others: the scalars of the
  // result are the entries, no more and no less, if no leaf that goes is an item before
  // another leaf of its sequence, and, where every item has a scalar in it, only then.
  lemma SaveStoresExactly(g: Graph, m: Graph, h: Graph, root: Node, entries: seq<Entry>, convert: Convert,
                          want: set<string>, gone: seq<seq<Segment>>, ok: bool)
    requires Simple(g, root) && KeysParse(Denote(g, root)) && EntriesOf(Denote(g, root), entries)
    requires forall k :: k in want <==> exists i :: 0 <= i < |entries| && entries[i].key == k
    requires Dropped(g, m, root, gone) && ParsedAll(Stale(LeafKeys(g, root, ""), want), gone)
    requires EntriesDone(m, h, root, entries, convert, ok)
    ensures root in h && WellFormed(h)
    ensures SettledFor(Denote(g, root), want) ==>
      ok && ExactlyEntries(Denote(g, root), Denote(h, root), KeyPaths(entries), entries, convert)
    ensures ItemsHaveScalars(Denote(g, root)) ==>
      (ok && ExactlyEntries(Denote(g, root), Denote(h, root), KeyPaths(entries), entries, convert) ==>
         SettledFor(Denote(g, root), want))
  {
    hide Denote, Ranked, Regular, Encode, ParseKey, Simple, Dropped, EntriesDone, LeafPaths, LeafKeys,
         LeavesIn, Ordered, Settled, SettledFor, ExactlyEntries, ScalarWrites, AllParse, KeyPaths, Covers,
         ItemsHaveScalars, KeysParse;
    SimpleRegular(g, root);
    var t := Denote(g, root);
    DroppedFacts(g, m, root, gone);
    EntriesFacts(m, h, root, entries, convert, ok);
    PlanDone(m, h, root, entries, convert, ok);
    GoneInOrder(g, root, want, gone);
    GoneCovers(t, entries, want, gone);
    SettledGone(t, want, gone);
    if Settled(t, gone) {
      SettledStores(t, gone, KeyPaths(entries), entries, convert);
    } else if ok && ItemsHaveScalars(t) {
      UnsettledStores(t, gone, KeyPaths(entries), entries, convert);
    }
  }

  lemma PlanDone(m: Graph, h: Graph, root: Node, entries: seq<Entry>, convert: Convert, ok: bool)
    requires EntriesDone(m, h, root, entries, convert, ok) && Simple(m, root) && AllParse(entries)
    ensures WellFormed(m) && root in m && WellFormed(h) && root in h
    ensures ok <==> ApplyAll(Denote(m, root), KeyPaths(entries), entries, convert).Some?
    ensures ok ==> Some(Denote(h, root)) == ApplyAll(Denote(m, root), KeyPaths(entries), entries, convert)
  {
    hide Denote, Ranked, Simple, AllParse, ApplyAll, KeyPaths;
  }

  // s: [a, b, c] without b is saved as s: [a, c, c].
  lemma MiddleItemGoes(convert: Convert, a: Entry, c: Entry)
    requires a.value == "a" && a.typ == "string" && c.value == "c" && c.typ == "string"
    requires convert("c", "string") == Leaf(TAG_STR, "c", 0)
    ensures var t, gone := ListAt("s", ["a", "b", "c"]), [[Name("s"), Index(1)]];
      var paths := [[Name("s"), Index(0)], [Name("s"), Index(2)]];
      && !Settled(t, gone)
      && ApplyAll(DropAll(t, gone), paths, [a, c], convert) == Some(ListAt("s", ["a", "c", "c"]))
  {
    var t, p, q, r := ListAt("s", ["a", "b", "c"]), [Name("s"), Index(0)], [Name("s"), Index(1)], [Name("s"), Index(2)];
    var d := ListAt("s", ["a", "c"]);
    hide Settled, Removed, Applied, LeafPaths, ListAt;
    MiddleShifts(t, q, r);
    ListRemoved("s", ["a", "b", "c"], 1);
    assert ["a", "b", "c"][..1] + ["a", "b", "c"][2..] == ["a", "c"];
    DropSnoc(t, [], q);
    assert [] + [q] == [q];
    FirstUnchanged(d, a, convert);
    ThirdWritten(d, c, convert);
    TwoApplied(d, p, r, a, c, convert);
  }

  lemma MiddleShifts(t: Tree, q: seq<Segment>, r: seq<Segment>)
    requires t == ListAt("s", ["a", "b", "c"]) && q == [Name("s"), Index(1)] && r == [Name("s"), Index(2)]
    ensures !Settled(t, [q])
  {
    hide ListAt, LeafPaths;
    ListLeaves(t);
    assert q[1..] == [Index(1)] && r[1..] == [Index(2)];
    assert LeafPaths(t)[2] == r && Shifts([Index(1)], [Index(2)]);
    assert q in [q] && r in LeafPaths(t) && Shifts(q, r);
  }

  lemma TwoApplied(t: Tree, p: seq<Segment>, q: seq<Segment>, a: Entry, c: Entry, convert: Convert)
    requires Applied(t, p, a, convert).Some?
    ensures ApplyAll(t, [p, q], [a, c], convert) == Applied(Applied(t, p, a, convert).value, q, c, convert)
  {
    hide Applied;
    assert [p, q][..1] == [p] && [a, c][..1] == [a] && [p][..0] == [] && [a][..0] == [];
    assert ApplyAll(t, [], [], convert) == Some(t);
    assert ApplyAll(t, [p], [a], convert) == Applied(t, p, a, convert);
  }

  lemma FirstUnchanged(d: Tree, e: Entry, convert: Convert)
    requires d == ListAt("s", ["a", "c"]) && e.value == "a" && e.typ == "string"
    ensures Applied(d, [Name("s"), Index(0)], e, convert) == Some(d)
  {
    var p, list := [Name("s"), Index(0)], Items(["a", "c"]);
    ListRegular("s", ["a", "c"]);
    RegularRead(d, p);
    assert p[1..] == [Index(0)] && p[1..][1..] == [];
    assert LocalStep(d, Name("s")) == Some(list) && LocalStep(list, Index(0)) == Some(Lookup.Text("a"));
    assert Read(d, p) == Some("a");
  }

  lemma ThirdWritten(d: Tree, e: Entry, convert: Convert)
    requires d == ListAt("s", ["a", "c"]) && e.value == "c" && e.typ == "string"
    requires convert("c", "string") == Leaf(TAG_STR, "c", 0)
    ensures Applied(d, [Name("s"), Index(2)], e, convert) == Some(ListAt("s", ["a", "c", "c"]))
  {
    var p, leaf, list := [Name("s"), Index(2)], convert("c", "string"), Items(["a", "c"]);
    ListRegular("s", ["a", "c"]);
    RegularRead(d, p);
    assert p[1..] == [Index(2)] && list.kids == [Lookup.Text("a"), Lookup.Text("c")];
    assert LocalStep(d, Name("s")) == Some(list) && LocalWalk(list, [Index(2)]) == None;
    assert ChildFor(d, p[0], p[1]) == list;
    var more := Pad(list.kids, 2)[2 := LeafTree(leaf)];
    assert more == Items(["a", "c", "c"]).kids;
    assert Upserted(list, [Index(2)], leaf) == Some(list.(kids := more));
    assert Upserted(d, p, leaf).value.kids == [Lookup.Text("s"), Items(["a", "c", "c"])];
  }
}
