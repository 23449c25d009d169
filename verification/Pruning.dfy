/** What deleting the stale leaves is meant to do, stated as one simultaneous removal,
  and when deleting them one after the other does the same.

  PatchNodeTree collects the paths first and then deletes them in document order, so an
  item that goes moves every later item of its sequence away from its path. */
module Pruning {
  import opened Prelude
  import opened KeyPath
  import opened YamlNode
  import opened Lookup
  import opened Walk
  import opened Upsert
  import opened PatchTree
  import opened PhysicalLeaves
  import opened PatchPlan

  // ----- the children of a container -----

  function Width(t: Tree): nat {
    match t.kind
    case MappingNode => |t.kids| / 2
    case SequenceNode => |t.kids|
    case _ => 0
  }

  function SlotSeg(t: Tree, k: nat): Segment
    requires k < Width(t)
  {
    if t.kind == MappingNode then Name(t.kids[2 * k].value) else Index(k)
  }

  function SlotValue(t: Tree, k: nat): (c: Tree)
    requires k < Width(t)
    ensures c < t
  {
    if t.kind == MappingNode then t.kids[2 * k + 1] else t.kids[k]
  }

  // What a child and its key, if it has one, become when the child becomes c.
  function Slot(t: Tree, k: nat, c: Tree): seq<Tree>
    requires k < Width(t)
  {
    if t.kind == MappingNode then [t.kids[2 * k], c] else [c]
  }

  // The paths that start with seg, without it.
  function Below(gone: seq<seq<Segment>>, seg: Segment): seq<seq<Segment>> {
    if gone == [] then []
    else (if gone[0] != [] && gone[0][0] == seg then [gone[0][1..]] else []) + Below(gone[1..], seg)
  }

  // t without what stands at the paths, all removed at once.
  function Pruned(t: Tree, gone: seq<seq<Segment>>): Tree
    decreases t, |t.kids| + 1
  {
    if IsContainer(t) then t.(kids := PrunedFrom(t, gone, 0)) else t
  }

  function PrunedFrom(t: Tree, gone: seq<seq<Segment>>, k: nat): seq<Tree>
    decreases t, |t.kids| - k
  {
    if k >= Width(t) then []
    else
      var below := Below(gone, SlotSeg(t, k));
      (if [] in below then [] else Slot(t, k, Pruned(SlotValue(t, k), below))) + PrunedFrom(t, gone, k + 1)
  }

  // ----- lists of paths -----

  // p comes before q in the document, and neither is on the other's way.
  predicate Before(p: seq<Segment>, q: seq<Segment>)
    decreases |p|
  {
    && p != [] && q != []
    && if p[0] == q[0] then Before(p[1..], q[1..])
       else p[0].Index? && q[0].Index? ==> p[0].index < q[0].index
  }

  ghost predicate Ordered(gone: seq<seq<Segment>>) {
    forall a, b | 0 <= a < b < |gone| :: Before(gone[a], gone[b])
  }

  // p is an item, and q leads to or through a later item of the same sequence.
  predicate Shifts(p: seq<Segment>, q: seq<Segment>)
    decreases |p|
  {
    && p != [] && q != []
    && if p[0] == q[0] then Shifts(p[1..], q[1..])
       else |p| == 1 && p[0].Index? && q[0].Index? && p[0].index < q[0].index
  }

  // No deletion moves what a later one is meant for.
  ghost predicate Still(gone: seq<seq<Segment>>) {
    forall a, b | 0 <= a < b < |gone| :: !Shifts(gone[a], gone[b])
  }

  // The same for the sequence at the root alone.
  ghost predicate Calm(gone: seq<seq<Segment>>) {
    forall a, b | 0 <= a < b < |gone| :: !Unsettles(gone[a], gone[b])
  }

  predicate Unsettles(p: seq<Segment>, q: seq<Segment>) {
    |p| == 1 && q != [] && (p[0] == q[0] || (p[0].Index? && q[0].Index?))
  }

  lemma {:induction false} BelowMember(gone: seq<seq<Segment>>, seg: Segment, q: seq<Segment>)
    ensures q in Below(gone, seg) <==> [seg] + q in gone
  {
    if gone != [] {
      BelowMember(gone[1..], seg, q);
      assert gone == [gone[0]] + gone[1..];
      assert gone[0] == [seg] + q ==> gone[0][1..] == q;
      assert gone[0] != [] && gone[0][0] == seg && gone[0][1..] == q ==> gone[0] == [seg] + q;
    }
  }

  lemma BelowCons(p: seq<Segment>, rest: seq<seq<Segment>>, seg: Segment)
    requires p != []
    ensures Below([p] + rest, seg) == if p[0] == seg then [p[1..]] + Below(rest, seg) else Below(rest, seg)
  {
    assert ([p] + rest)[1..] == rest;
    assert [] + Below(rest, seg) == Below(rest, seg);
  }

  // Below keeps the order of the list.
  lemma {:induction false} BelowPair(gone: seq<seq<Segment>>, seg: Segment, a: nat, b: nat) returns (a': nat, b': nat)
    requires a < b < |Below(gone, seg)|
    ensures a' < b' < |gone| && gone[a'] == [seg] + Below(gone, seg)[a] && gone[b'] == [seg] + Below(gone, seg)[b]
  {
    var rest := Below(gone[1..], seg);
    if gone[0] != [] && gone[0][0] == seg {
      if a == 0 {
        assert rest[b - 1] in rest;
        BelowMember(gone[1..], seg, rest[b - 1]);
        var c :| 0 <= c < |gone[1..]| && gone[1..][c] == [seg] + rest[b - 1];
        a', b' := 0, c + 1;
      } else {
        a', b' := BelowPair(gone[1..], seg, a - 1, b - 1);
        a', b' := a' + 1, b' + 1;
      }
    } else {
      a', b' := BelowPair(gone[1..], seg, a, b);
      a', b' := a' + 1, b' + 1;
    }
  }

  lemma {:induction false} PairBelow(gone: seq<seq<Segment>>, seg: Segment, a: nat, b: nat) returns (a': nat, b': nat)
    requires a < b < |gone| && gone[a] != [] && gone[b] != [] && gone[a][0] == seg == gone[b][0]
    ensures a' < b' < |Below(gone, seg)| && Below(gone, seg)[a'] == gone[a][1..] && Below(gone, seg)[b'] == gone[b][1..]
  {
    var rest := Below(gone[1..], seg);
    if a == 0 {
      assert gone[b] == [seg] + gone[b][1..] && gone[1..][b - 1] == gone[b];
      BelowMember(gone[1..], seg, gone[b][1..]);
      var c :| 0 <= c < |rest| && rest[c] == gone[b][1..];
      a', b' := 0, c + 1;
    } else {
      a', b' := PairBelow(gone[1..], seg, a - 1, b - 1);
      if gone[0] != [] && gone[0][0] == seg {
        a', b' := a' + 1, b' + 1;
      }
    }
  }

  lemma BelowOrdered(gone: seq<seq<Segment>>, seg: Segment)
    requires Ordered(gone)
    ensures Ordered(Below(gone, seg))
  {
    var below := Below(gone, seg);
    forall a, b | 0 <= a < b < |below| ensures Before(below[a], below[b]) {
      var a', b' := BelowPair(gone, seg, a, b);
      assert ([seg] + below[a])[1..] == below[a] && ([seg] + below[b])[1..] == below[b];
    }
  }

  lemma UnsettlesShifts(p: seq<Segment>, q: seq<Segment>)
    requires Before(p, q)
    ensures p != [] && q != []
    ensures Shifts(p, q) <==> Unsettles(p, q) || (p[0] == q[0] && Shifts(p[1..], q[1..]))
  {
    assert |p| == 1 ==> p[1..] == [];
  }

  lemma StillDown(gone: seq<seq<Segment>>, seg: Segment)
    requires Ordered(gone) && Still(gone)
    ensures Calm(gone) && Still(Below(gone, seg))
  {
    hide Before, Shifts, Unsettles, Below;
    forall a, b | 0 <= a < b < |gone| ensures !Unsettles(gone[a], gone[b]) {
      UnsettlesShifts(gone[a], gone[b]);
      assert !Shifts(gone[a], gone[b]);
    }
    var below := Below(gone, seg);
    forall a, b | 0 <= a < b < |below| ensures !Shifts(below[a], below[b]) {
      var a', b' := BelowPair(gone, seg, a, b);
      assert ([seg] + below[a])[1..] == below[a] && ([seg] + below[b])[1..] == below[b];
      UnsettlesShifts(gone[a'], gone[b']);
      assert !Shifts(gone[a'], gone[b']);
    }
  }

  lemma StillUp(gone: seq<seq<Segment>>)
    requires Ordered(gone) && Calm(gone) && forall seg :: Still(Below(gone, seg))
    ensures Still(gone)
  {
    hide Before, Shifts, Unsettles, Below;
    forall a, b | 0 <= a < b < |gone| ensures !Shifts(gone[a], gone[b]) {
      UnsettlesShifts(gone[a], gone[b]);
      assert !Unsettles(gone[a], gone[b]);
      if gone[a][0] == gone[b][0] {
        var a', b' := PairBelow(gone, gone[a][0], a, b);
        assert Still(Below(gone, gone[a][0]));
      }
    }
  }

  // ----- one removal after another -----

  lemma {:induction false} DropCons(t: Tree, p: seq<Segment>, rest: seq<seq<Segment>>)
    ensures DropAll(t, [p] + rest) == DropAll(Removed(t, p), rest)
  {
    var gone := [p] + rest;
    if rest == [] {
      assert gone[..0] == [];
      assert DropAll(t, gone[..0]) == t;
    } else {
      DropCons(t, p, rest[..|rest| - 1]);
      assert gone[..|gone| - 1] == [p] + rest[..|rest| - 1];
    }
  }

  lemma {:induction false} DropNothing(t: Tree, gone: seq<seq<Segment>>)
    requires !IsContainer(t)
    ensures DropAll(t, gone) == t
  {
    if gone != [] {
      DropNothing(t, gone[..|gone| - 1]);
    }
  }

  // The children from the k-th on, each without what is below it, removed path by path.
  function Spread(t: Tree, gone: seq<seq<Segment>>, k: nat): seq<Tree>
    decreases Width(t) - k
  {
    if k >= Width(t) then []
    else
      var below := Below(gone, SlotSeg(t, k));
      (if [] in below then [] else Slot(t, k, DropAll(SlotValue(t, k), below))) + Spread(t, gone, k + 1)
  }

  lemma SlotsDiffer(t: Tree, j: nat, k: nat)
    requires Regular(t) && j < Width(t) && k < Width(t) && j != k
    ensures SlotSeg(t, j) != SlotSeg(t, k)
  {
    if t.kind == MappingNode {
      assert KeyAt(t.kids, 2 * j) && KeyAt(t.kids, 2 * k);
    }
  }

  lemma SlotStep(t: Tree, k: nat)
    requires Regular(t) && k < Width(t)
    ensures LocalStep(t, SlotSeg(t, k)) == Some(SlotValue(t, k)) && Regular(SlotValue(t, k))
    ensures t.kind == MappingNode ==> KeyIndex(t, t.kids[2 * k].value) == 2 * k
  {
    if t.kind == MappingNode {
      assert KeyAt(t.kids, 2 * k);
      KeyIndexIs(t, t.kids[2 * k].value, 2 * k);
    }
    StepRegular(t, SlotSeg(t, k));
  }

  lemma StepSlot(t: Tree, seg: Segment) returns (k: nat)
    requires LocalStep(t, seg).Some?
    ensures k < Width(t) && SlotSeg(t, k) == seg
  {
    if seg.Name? {
      KeyIndexFinds(t.kids, seg.name, 0);
      k := KeyIndex(t, seg.name) / 2;
    } else {
      k := seg.index;
    }
  }

  // The j-th child of t fares under gone as the j'-th of u under gone'.
  ghost predicate Alike(t: Tree, gone: seq<seq<Segment>>, j: nat, u: Tree, gone': seq<seq<Segment>>, j': nat)
    requires j < Width(t) && j' < Width(u)
  {
    var below, below' := Below(gone, SlotSeg(t, j)), Below(gone', SlotSeg(u, j'));
    && ([] in below <==> [] in below')
    && ([] !in below ==> Slot(t, j, DropAll(SlotValue(t, j), below)) == Slot(u, j', DropAll(SlotValue(u, j'), below')))
  }

  lemma AlikeStep(t: Tree, gone: seq<seq<Segment>>, k: nat, u: Tree, gone': seq<seq<Segment>>, k': nat)
    requires k < Width(t) && k' < Width(u) && Alike(t, gone, k, u, gone', k')
    requires Spread(t, gone, k + 1) == Spread(u, gone', k' + 1)
    ensures Spread(t, gone, k) == Spread(u, gone', k')
  {
    hide DropAll, Below;
  }

  lemma {:induction false} SpreadAlike(t: Tree, gone: seq<seq<Segment>>, k: nat, u: Tree, gone': seq<seq<Segment>>,
                                       k': nat)
    requires Width(t) - k == Width(u) - k'
    requires forall j: nat, j': nat | k <= j < Width(t) && j' < Width(u) && j - k == j' - k' ::
      Alike(t, gone, j, u, gone', j')
    ensures Spread(t, gone, k) == Spread(u, gone', k')
    decreases Width(t) - k
  {
    hide DropAll, Below, Alike, Slot;
    if k < Width(t) {
      SpreadAlike(t, gone, k + 1, u, gone', k' + 1);
      AlikeStep(t, gone, k, u, gone', k');
    }
  }

  lemma {:induction false} SpreadNothing(t: Tree, gone: seq<seq<Segment>>, k: nat)
    requires Regular(t) && IsContainer(t) && k <= Width(t)
    requires forall j: nat {:trigger SlotSeg(t, j)} | k <= j < Width(t) :: Below(gone, SlotSeg(t, j)) == []
    ensures Paired(t) && Spread(t, gone, k) == RestFrom(t, k)
    decreases Width(t) - k
  {
    hide Regular, Below, RestFrom, Slot, SlotValue;
    RegularPaired(t);
    if k < Width(t) {
      assert Below(gone, SlotSeg(t, k)) == [];
      SpreadNothing(t, gone, k + 1);
      RestStep(t, k);
    } else {
      NothingLeft(t, k);
    }
  }

  // What t has from the k-th child on.
  function RestFrom(t: Tree, k: nat): seq<Tree>
    requires IsContainer(t) && Paired(t) && k <= Width(t)
  {
    if t.kind == MappingNode then t.kids[2 * k..] else t.kids[k..]
  }

  lemma RestStep(t: Tree, k: nat)
    requires IsContainer(t) && Paired(t) && k < Width(t)
    ensures RestFrom(t, k) == Slot(t, k, SlotValue(t, k)) + RestFrom(t, k + 1)
  {
  }

  lemma NothingLeft(t: Tree, k: nat)
    requires IsContainer(t) && Paired(t) && k == Width(t)
    ensures RestFrom(t, k) == []
  {
  }

  // Which child of u is which child of t: all but the values are the same.
  ghost predicate SameSlot(t: Tree, j: nat, u: Tree, j': nat)
    requires j < Width(t) && j' < Width(u)
  {
    t.kind == u.kind && (t.kind == MappingNode ==> t.kids[2 * j] == u.kids[2 * j'])
  }

  lemma SlotsAfterPut(t: Tree, p: seq<Segment>, at: nat)
    requires Regular(t) && |p| > 1 && at < Width(t) && SlotSeg(t, at) == p[0]
    ensures var u, c := Removed(t, p), Removed(SlotValue(t, at), p[1..]);
      && u.kind == t.kind && Width(u) == Width(t)
      && forall i: nat | i < Width(t) ::
        SameSlot(t, i, u, i) && SlotValue(u, i) == if i == at then c else SlotValue(t, i)
  {
    SlotStep(t, at);
    hide Regular, RegularKeys;
    var c := Removed(SlotValue(t, at), p[1..]);
    assert Removed(t, p) == Put(t, p[0], c);
  }

  lemma WithoutWidth(t: Tree, p: seq<Segment>, at: nat)
    requires Regular(t) && |p| == 1 && at < Width(t) && SlotSeg(t, at) == p[0]
    ensures Removed(t, p).kind == t.kind && Width(Removed(t, p)) == Width(t) - 1
  {
    SlotStep(t, at);
    hide Regular, RegularKeys;
    assert Removed(t, p) == Without(t, p[0]);
  }

  lemma CutOut<T>(s: seq<T>, at: nat, gap: nat, i: nat)
    requires at + gap <= |s| && i < |s| - gap
    ensures (s[..at] + s[at + gap..])[i] == s[if i < at then i else i + gap]
  {
  }

  lemma SlotAfterWithout(t: Tree, p: seq<Segment>, at: nat, i: nat)
    requires Regular(t) && |p| == 1 && at < Width(t) && SlotSeg(t, at) == p[0] && i < Width(t) - 1
    ensures var u, j := Removed(t, p), if i < at then i else i + 1;
      && u.kind == t.kind && Width(u) == Width(t) - 1
      && SameSlot(t, j, u, i) && SlotValue(u, i) == SlotValue(t, j)
  {
    hide Regular, RegularKeys, KeyIndex, Removed, Width;
    WithoutWidth(t, p, at);
    WithoutIs(t, p, at);
    WidthIs(t);
    WidthIs(Removed(t, p));
    if t.kind == MappingNode {
      CutOut(t.kids, 2 * at, 2, 2 * i);
      CutOut(t.kids, 2 * at, 2, 2 * i + 1);
    } else {
      CutOut(t.kids, at, 1, i);
    }
  }

  lemma WidthIs(t: Tree)
    ensures t.kind == MappingNode ==> 2 * Width(t) <= |t.kids|
    ensures t.kind != MappingNode ==> Width(t) <= |t.kids|
  {
  }

  lemma WithoutIs(t: Tree, p: seq<Segment>, at: nat)
    requires Regular(t) && |p| == 1 && at < Width(t) && SlotSeg(t, at) == p[0]
    ensures Removed(t, p).kids ==
      if t.kind == MappingNode then t.kids[..2 * at] + t.kids[2 * at + 2..] else t.kids[..at] + t.kids[at + 1..]
  {
    SlotStep(t, at);
    hide Regular, RegularKeys, KeyIndex;
    assert Removed(t, p) == Without(t, p[0]);
  }

  lemma SlotAfterPut(t: Tree, p: seq<Segment>, rest: seq<seq<Segment>>, at: nat, i: nat)
    requires Regular(t) && |p| > 1 && at < Width(t) && SlotSeg(t, at) == p[0] && i < Width(t)
    ensures Width(Removed(t, p)) == Width(t) && Removed(t, p).kind == t.kind
    ensures Alike(Removed(t, p), rest, i, t, [p] + rest, i)
  {
    hide Regular, Removed, DropAll, Below;
    var u, seg := Removed(t, p), SlotSeg(t, i);
    SlotsAfterPut(t, p, at);
    assert SameSlot(t, i, u, i);
    BelowCons(p, rest, seg);
    if i == at {
      DropCons(SlotValue(t, at), p[1..], Below(rest, seg));
      assert |p[1..]| > 0;
    } else {
      SlotsDiffer(t, i, at);
    }
  }

  lemma {:induction false} SpreadWithout(t: Tree, p: seq<Segment>, rest: seq<seq<Segment>>, at: nat, k: nat)
    requires Regular(t) && |p| == 1 && Calm([p] + rest) && [] !in rest
    requires k <= at < Width(t) && SlotSeg(t, at) == p[0]
    ensures Removed(t, p).kind == t.kind && Spread(Removed(t, p), rest, k) == Spread(t, [p] + rest, k)
    decreases at - k
  {
    hide Regular, Removed, DropAll, Below, Calm, Slot, SlotValue, SlotSeg, Alike, Spread, Width;
    var gone, u := [p] + rest, Removed(t, p);
    WithoutWidth(t, p, at);
    if k == at {
      forall i: nat, j: nat | at <= i < Width(u) && j == i + 1 ensures Alike(u, rest, i, t, gone, j) {
        SlotBehind(t, p, rest, at, j);
      }
      SpreadAlike(u, rest, at, t, gone, at + 1);
      SpreadSkips(t, p, rest, at);
    } else {
      SpreadWithout(t, p, rest, at, k + 1);
      SlotBefore(t, p, rest, at, k);
      AlikeStep(u, rest, k, t, gone, k);
    }
  }

  lemma SpreadSkips(t: Tree, p: seq<Segment>, rest: seq<seq<Segment>>, at: nat)
    requires |p| == 1 && at < Width(t) && SlotSeg(t, at) == p[0]
    ensures Spread(t, [p] + rest, at) == Spread(t, [p] + rest, at + 1)
  {
    hide DropAll, Below;
    BelowCons(p, rest, p[0]);
    assert p[1..] == [];
    assert [] + Spread(t, [p] + rest, at + 1) == Spread(t, [p] + rest, at + 1);
  }

  lemma SlotBefore(t: Tree, p: seq<Segment>, rest: seq<seq<Segment>>, at: nat, k: nat)
    requires Regular(t) && |p| == 1 && k < at < Width(t) && SlotSeg(t, at) == p[0]
    ensures Width(Removed(t, p)) == Width(t) - 1 && Alike(Removed(t, p), rest, k, t, [p] + rest, k)
  {
    hide Regular, Removed, DropAll, Below;
    SlotAfterWithout(t, p, at, k);
    SlotsDiffer(t, k, at);
    BelowCons(p, rest, SlotSeg(t, k));
  }

  // What stood behind the removed child has moved up by one; no later path is meant for
  // an item of this sequence.
  lemma SlotBehind(t: Tree, p: seq<Segment>, rest: seq<seq<Segment>>, at: nat, j: nat)
    requires Regular(t) && |p| == 1 && Calm([p] + rest) && [] !in rest
    requires at < j < Width(t) && SlotSeg(t, at) == p[0]
    ensures Width(Removed(t, p)) == Width(t) - 1
    ensures Alike(Removed(t, p), rest, j - 1, t, [p] + rest, j)
  {
    hide Regular, Removed, DropAll, Below, Calm;
    SlotAfterWithout(t, p, at, j - 1);
    SlotsDiffer(t, at, j);
    BelowCons(p, rest, SlotSeg(t, j));
    if t.kind == SequenceNode {
      NoItems(p, rest, j - 1);
      NoItems(p, rest, j);
    }
  }

  lemma NoItems(p: seq<Segment>, rest: seq<seq<Segment>>, i: nat)
    requires |p| == 1 && p[0].Index? && Calm([p] + rest) && [] !in rest
    ensures Below(rest, Index(i)) == []
  {
    hide Unsettles;
    var gone, below := [p] + rest, Below(rest, Index(i));
    assert below != [] ==> below[0] in below;
    forall q ensures q !in below {
      BelowMember(rest, Index(i), q);
      forall b | 0 <= b < |rest| ensures rest[b] != [Index(i)] + q {
        assert !Unsettles(gone[0], gone[b + 1]);
        NotAnItem(p, rest[b]);
      }
    }
  }

  lemma NotAnItem(p: seq<Segment>, q: seq<Segment>)
    requires |p| == 1 && p[0].Index? && !Unsettles(p, q)
    ensures q == [] || q[0].Name?
  {
  }

  // The first path is done first.
  lemma SpreadCons(t: Tree, p: seq<Segment>, rest: seq<seq<Segment>>)
    requires Regular(t) && p != [] && Calm([p] + rest) && [] !in rest
    ensures Removed(t, p).kind == t.kind && Spread(Removed(t, p), rest, 0) == Spread(t, [p] + rest, 0)
  {
    hide Regular, DropAll, Below, Calm, Alike, Slot, Spread, Put, Without;
    var gone, u := [p] + rest, Removed(t, p);
    if LocalStep(t, p[0]).None? {
      forall i: nat, j: nat | i < Width(t) && i == j ensures Alike(u, rest, i, t, gone, j) {
        SlotStep(t, i);
        SlotUntouched(t, p, rest, i);
      }
      SpreadAlike(u, rest, 0, t, gone, 0);
    } else {
      var at := StepSlot(t, p[0]);
      SlotStep(t, at);
      if |p| == 1 {
        SpreadWithout(t, p, rest, at, 0);
      } else {
        SlotAfterPut(t, p, rest, at, at);
        forall i: nat, j: nat | i < Width(t) && i == j ensures Alike(u, rest, i, t, gone, j) {
          SlotAfterPut(t, p, rest, at, i);
        }
        SpreadAlike(u, rest, 0, t, gone, 0);
      }
    }
  }

  lemma SlotUntouched(t: Tree, p: seq<Segment>, rest: seq<seq<Segment>>, i: nat)
    requires p != [] && i < Width(t) && SlotSeg(t, i) != p[0]
    ensures Alike(t, rest, i, t, [p] + rest, i)
  {
    hide DropAll, Below;
    BelowCons(p, rest, SlotSeg(t, i));
  }

  // A calm list is worked off child by child.
  lemma {:induction false} DropSpreads(t: Tree, gone: seq<seq<Segment>>)
    requires Regular(t) && IsContainer(t) && Calm(gone) && [] !in gone
    ensures DropAll(t, gone) == t.(kids := Spread(t, gone, 0))
    decreases |gone|
  {
    if gone == [] {
      SpreadNothing(t, gone, 0);
    } else {
      var p, rest := gone[0], gone[1..];
      assert gone == [p] + rest && p in gone;
      assert Calm(rest) by {
        forall a, b | 0 <= a < b < |rest| ensures !Unsettles(rest[a], rest[b]) {
          assert rest[a] == gone[a + 1] && rest[b] == gone[b + 1];
        }
      }
      DropCons(t, p, rest);
      RemovedRegular(t, p);
      SpreadCons(t, p, rest);
      RemovedKids(t, p);
      DropSpreads(Removed(t, p), rest);
    }
  }

  lemma RemovedKids(t: Tree, p: seq<Segment>)
    requires p != []
    ensures Removed(t, p) == t.(kids := Removed(t, p).kids)
  {
  }

  // ----- when they agree -----

  lemma {:induction false} StillPrunes(t: Tree, gone: seq<seq<Segment>>)
    requires Regular(t) && Ordered(gone) && [] !in gone && Still(gone)
    ensures DropAll(t, gone) == Pruned(t, gone)
    decreases t, |t.kids| + 1
  {
    if IsContainer(t) {
      StillDown(gone, Index(0));
      DropSpreads(t, gone);
      StillPrunesFrom(t, gone, 0);
    } else {
      DropNothing(t, gone);
    }
  }

  lemma {:induction false} StillPrunesFrom(t: Tree, gone: seq<seq<Segment>>, k: nat)
    requires Regular(t) && Ordered(gone) && Still(gone)
    ensures Spread(t, gone, k) == PrunedFrom(t, gone, k)
    decreases t, |t.kids| - k
  {
    if k < Width(t) {
      StillPrunesFrom(t, gone, k + 1);
      var seg := SlotSeg(t, k);
      SlotStep(t, k);
      BelowOrdered(gone, seg);
      if [] !in Below(gone, seg) {
        StillDown(gone, seg);
        StillPrunes(SlotValue(t, k), Below(gone, seg));
      }
    }
  }

  // ----- when they do not -----

  // Leaves of t, none of them t itself.
  ghost predicate LeavesIn(t: Tree, gone: seq<seq<Segment>>) {
    forall p | p in gone :: p != [] && LocalWalk(t, p).Some? && Leafy(LocalWalk(t, p).value)
  }

  // The items of every sequence differ, and none is an empty container.
  ghost predicate Distinct(t: Tree) {
    && (t.kind == SequenceNode ==>
          && (forall i, j | 0 <= i < j < |t.kids| :: t.kids[i] != t.kids[j])
          && (forall i | 0 <= i < |t.kids| :: IsContainer(t.kids[i]) ==> t.kids[i].kids != []))
    && (forall k: nat | k < Width(t) :: Distinct(SlotValue(t, k)))
  }

  lemma LeavesBelow(t: Tree, gone: seq<seq<Segment>>, k: nat)
    requires Regular(t) && LeavesIn(t, gone) && k < Width(t) && [] !in Below(gone, SlotSeg(t, k))
    ensures LeavesIn(SlotValue(t, k), Below(gone, SlotSeg(t, k)))
  {
    var seg := SlotSeg(t, k);
    SlotStep(t, k);
    forall q | q in Below(gone, seg)
      ensures LocalWalk(SlotValue(t, k), q).Some? && Leafy(LocalWalk(SlotValue(t, k), q).value)
    {
      BelowMember(gone, seg, q);
      assert ([seg] + q)[1..] == q && LocalWalk(t, [seg] + q).Some?;
    }
  }

  // A list of two or more paths in order does not hold the empty one.
  lemma OrderedNonempty(gone: seq<seq<Segment>>)
    requires Ordered(gone) && !Still(gone)
    ensures |gone| > 1 && [] !in gone
  {
    hide Shifts;
    forall a | 0 <= a < |gone| ensures gone[a] != [] {
      var b := if a == 0 then 1 else 0;
      assert if a < b then Before(gone[a], gone[b]) else Before(gone[b], gone[a]);
    }
  }

  // What the k-th child becomes.
  function Pared(t: Tree, gone: seq<seq<Segment>>, k: nat): seq<Tree>
    requires k < Width(t)
  {
    var below := Below(gone, SlotSeg(t, k));
    if [] in below then [] else Slot(t, k, Pruned(SlotValue(t, k), below))
  }

  lemma PrunedStep(t: Tree, gone: seq<seq<Segment>>, k: nat)
    requires k < Width(t)
    ensures PrunedFrom(t, gone, k) == Pared(t, gone, k) + PrunedFrom(t, gone, k + 1)
    ensures [] in Below(gone, SlotSeg(t, k)) ==> PrunedFrom(t, gone, k) == PrunedFrom(t, gone, k + 1)
  {
    hide Below, Pruned;
    assert [] + PrunedFrom(t, gone, k + 1) == PrunedFrom(t, gone, k + 1);
  }

  lemma {:induction false} PrunedShrinks(t: Tree, gone: seq<seq<Segment>>, k: nat, at: nat)
    requires IsContainer(t) && Paired(t) && k <= Width(t)
    ensures |PrunedFrom(t, gone, k)| <= |RestFrom(t, k)|
    ensures k <= at < Width(t) && PrunedFrom(t, gone, k) == RestFrom(t, k) ==>
      var below := Below(gone, SlotSeg(t, at));
      [] !in below && Pruned(SlotValue(t, at), below) == SlotValue(t, at)
    decreases Width(t) - k
  {
    hide Below, Pruned, PrunedFrom, RestFrom, Paired;
    if k < Width(t) {
      PrunedShrinks(t, gone, k + 1, at);
      PrunedStep(t, gone, k);
      RestStep(t, k);
      var own, next, was, rest := Pared(t, gone, k), PrunedFrom(t, gone, k + 1), Slot(t, k, SlotValue(t, k)),
        RestFrom(t, k + 1);
      if own + next == was + rest {
        SplitSame(own, next, was, rest);
      }
    } else {
      PrunedPast(t, gone, k);
    }
  }

  lemma PrunedPast(t: Tree, gone: seq<seq<Segment>>, k: nat)
    requires k >= Width(t)
    ensures PrunedFrom(t, gone, k) == []
  {
  }

  lemma SplitSame<T>(a: seq<T>, b: seq<T>, c: seq<T>, d: seq<T>)
    requires a + b == c + d && |a| <= |c| && |b| <= |d|
    ensures a == c && b == d
  {
    assert a == (a + b)[..|a|] && c == (c + d)[..|a|];
  }

  // Where there is something to remove, pruning changes the tree.
  lemma {:induction false} PrunedChanges(t: Tree, gone: seq<seq<Segment>>, p: seq<Segment>)
    requires Regular(t) && p in gone && p != [] && LocalWalk(t, p).Some?
    ensures Pruned(t, gone) != t
    decreases |p|
  {
    var at := StepSlot(t, p[0]);
    SlotStep(t, at);
    RegularPaired(t);
    var below := Below(gone, p[0]);
    assert p == [p[0]] + p[1..];
    BelowMember(gone, p[0], p[1..]);
    PrunedShrinks(t, gone, 0, at);
    if p[1..] != [] {
      PrunedChanges(SlotValue(t, at), below, p[1..]);
    }
  }

  lemma {:induction false} SpreadDiffers(t: Tree, gone: seq<seq<Segment>>, k: nat, at: nat)
    requires k <= at < Width(t) && [] !in Below(gone, SlotSeg(t, at))
    requires DropAll(SlotValue(t, at), Below(gone, SlotSeg(t, at))) !=
      Pruned(SlotValue(t, at), Below(gone, SlotSeg(t, at)))
    ensures Spread(t, gone, k) != PrunedFrom(t, gone, k)
    decreases at - k
  {
    hide Below, Pruned, DropAll;
    var below := Below(gone, SlotSeg(t, k));
    var own := if [] in below then [] else Slot(t, k, DropAll(SlotValue(t, k), below));
    var own' := if [] in below then [] else Slot(t, k, Pruned(SlotValue(t, k), below));
    var next, next' := Spread(t, gone, k + 1), PrunedFrom(t, gone, k + 1);
    assert own == (own + next)[..|own|] && next == (own + next)[|own|..];
    assert own' == (own' + next')[..|own|] && next' == (own' + next')[|own|..];
    if k < at {
      SpreadDiffers(t, gone, k + 1, at);
    } else {
      assert own[|own| - 1] != own'[|own| - 1];
    }
  }

  // ----- an item that goes before another -----

  function ItemOf(p: seq<Segment>): nat
    requires p != [] && p[0].Index?
  {
    p[0].index
  }

  // The paths lead into a sequence, item by item, and the first to remove a whole item is
  // the a-th.
  ghost predicate FirstGone(t: Tree, gone: seq<seq<Segment>>, a: nat) {
    && t.kind == SequenceNode && a < |gone| && |gone[a]| == 1
    && (forall c | 0 <= c < |gone| :: gone[c] != [] && gone[c][0].Index? && ItemOf(gone[c]) < |t.kids|)
    && (forall c, d | 0 <= c < d < |gone| :: ItemOf(gone[c]) <= ItemOf(gone[d]))
    && (forall c | 0 <= c < a :: |gone[c]| > 1)
  }

  // And it is not the last.
  ghost predicate FirstItem(t: Tree, gone: seq<seq<Segment>>, a: nat) {
    FirstGone(t, gone, a) && a + 1 < |gone| && ItemOf(gone[a]) < ItemOf(gone[a + 1])
  }

  lemma BeforeItem(p: seq<Segment>, q: seq<Segment>)
    requires Before(p, q) && |p| == 1
    ensures q != [] && p[0] != q[0]
    ensures p[0].Index? && q[0].Index? ==> ItemOf(p) < ItemOf(q)
  {
    assert p[1..] == [];
  }

  lemma {:induction false} FirstGoneIs(t: Tree, gone: seq<seq<Segment>>, a: nat) returns (first: nat)
    requires LeavesIn(t, gone) && Ordered(gone) && t.kind == SequenceNode && a < |gone| && |gone[a]| == 1
    ensures FirstGone(t, gone, first) && first <= a
  {
    forall c | 0 <= c < |gone| ensures gone[c] != [] && gone[c][0].Index? && ItemOf(gone[c]) < |t.kids| {
      assert gone[c] in gone;
      StepFits(t, gone[c][0]);
    }
    forall c, d | 0 <= c < d < |gone| ensures ItemOf(gone[c]) <= ItemOf(gone[d]) {
      assert Before(gone[c], gone[d]);
    }
    if c :| 0 <= c < a && |gone[c]| == 1 {
      first := FirstGoneIs(t, gone, c);
    } else {
      first := a;
    }
  }

  lemma FirstItemIs(t: Tree, gone: seq<seq<Segment>>, a: nat, b: nat) returns (first: nat)
    requires LeavesIn(t, gone) && Ordered(gone) && a < b < |gone| && Unsettles(gone[a], gone[b])
    ensures FirstItem(t, gone, first)
  {
    assert gone[a] in gone;
    BeforeItem(gone[a], gone[b]);
    StepFits(t, gone[a][0]);
    first := FirstGoneIs(t, gone, a);
    BeforeItem(gone[first], gone[first + 1]);
  }

  lemma ItemNotBelow(gone: seq<seq<Segment>>, i: nat)
    requires forall c | 0 <= c < |gone| :: gone[c] != [] && gone[c][0] != Index(i)
    ensures Below(gone, Index(i)) == []
  {
    var below := Below(gone, Index(i));
    if below != [] {
      BelowMember(gone, Index(i), below[0]);
    }
  }

  lemma WholeItem(gone: seq<seq<Segment>>, i: nat)
    ensures [] in Below(gone, Index(i)) <==> [Index(i)] in gone
  {
    BelowMember(gone, Index(i), []);
    assert [Index(i)] + [] == [Index(i)];
  }

  // Which items go up to the first, and up to the next path after it.
  lemma FirstAlone(t: Tree, gone: seq<seq<Segment>>, a: nat, k: nat)
    requires FirstGone(t, gone, a)
    ensures k <= ItemOf(gone[a]) ==> ([Index(k)] in gone[..a + 1] <==> k == ItemOf(gone[a]))
    ensures FirstItem(t, gone, a) && k < ItemOf(gone[a + 1]) ==> ([Index(k)] in gone <==> k == ItemOf(gone[a]))
  {
    assert gone[a] == [Index(ItemOf(gone[a]))] && gone[..a + 1][a] == gone[a];
    forall c | 0 <= c < |gone| && gone[c] == [Index(k)]
      ensures c >= a && (FirstItem(t, gone, a) && k < ItemOf(gone[a + 1]) ==> c == a)
    {
      assert ItemOf(gone[c]) == k;
    }
  }

  lemma SpreadStep(t: Tree, gone: seq<seq<Segment>>, k: nat)
    requires k < Width(t)
    ensures Spread(t, gone, k) ==
      if [] in Below(gone, SlotSeg(t, k)) then Spread(t, gone, k + 1)
      else Slot(t, k, DropAll(SlotValue(t, k), Below(gone, SlotSeg(t, k)))) + Spread(t, gone, k + 1)
  {
    hide Below, DropAll;
    assert [] + Spread(t, gone, k + 1) == Spread(t, gone, k + 1);
  }

  // Up to the first item removed, the children keep their places; those behind it move
  // up, and are otherwise untouched.
  lemma {:induction false} SpreadToFirst(t: Tree, gone: seq<seq<Segment>>, a: nat, k: nat)
    requires Regular(t) && FirstGone(t, gone, a) && k <= ItemOf(gone[a])
    ensures var i, s := ItemOf(gone[a]), Spread(t, gone[..a + 1], k);
      |s| == |t.kids| - k - 1 && s[i - k..] == t.kids[i + 1..]
    decreases ItemOf(gone[a]) - k
  {
    hide Regular, DropAll, Below, Spread;
    var pre, i := gone[..a + 1], ItemOf(gone[a]);
    SpreadStep(t, pre, k);
    WholeItem(pre, k);
    FirstAlone(t, gone, a, k);
    if k == i {
      forall j: nat | i + 1 <= j < Width(t) ensures Below(pre, SlotSeg(t, j)) == [] {
        ItemNotBelow(pre, j);
      }
      SpreadNothing(t, pre, i + 1);
    } else {
      SpreadToFirst(t, gone, a, k + 1);
    }
  }

  lemma {:induction false} PrunedToNext(t: Tree, gone: seq<seq<Segment>>, a: nat, k: nat) returns (front: seq<Tree>)
    requires FirstItem(t, gone, a) && k <= ItemOf(gone[a + 1])
    ensures PrunedFrom(t, gone, k) == front + PrunedFrom(t, gone, ItemOf(gone[a + 1]))
    ensures |front| == ItemOf(gone[a + 1]) - k - if k <= ItemOf(gone[a]) then 1 else 0
    decreases ItemOf(gone[a + 1]) - k
  {
    hide Pruned, Below, PrunedFrom;
    var i, j := ItemOf(gone[a]), ItemOf(gone[a + 1]);
    if k == j {
      return [];
    }
    PrunedStep(t, gone, k);
    WholeItem(gone, k);
    FirstAlone(t, gone, a, k);
    front := PrunedToNext(t, gone, a, k + 1);
    if k != i {
      front := Pared(t, gone, k) + front;
    }
  }

  // Removals from the j-th item on leave the earlier ones.
  lemma {:induction false} FrontStays(u: Tree, rest: seq<seq<Segment>>, j: nat)
    requires u.kind == SequenceNode && j <= |u.kids|
    requires forall p: seq<Segment> | p in rest :: p != [] && p[0].Index? && j <= ItemOf(p)
    ensures var w := DropAll(u, rest); w.kind == SequenceNode && j <= |w.kids| && w.kids[..j] == u.kids[..j]
  {
    if rest != [] {
      var n := |rest| - 1;
      assert rest[n] in rest && forall p | p in rest[..n] :: p in rest;
      FrontStays(u, rest[..n], j);
    }
  }

  lemma {:induction false} DropConcat(t: Tree, a: seq<seq<Segment>>, b: seq<seq<Segment>>)
    ensures DropAll(t, a + b) == DropAll(DropAll(t, a), b)
  {
    if b == [] {
      assert a + b == a;
    } else {
      var n := |b| - 1;
      DropConcat(t, a, b[..n]);
      assert (a + b)[..|a + b| - 1] == a + b[..n];
    }
  }

  // Pruning cannot put a removed scalar back, nor leave a changed item as it was.
  lemma PrunedHead(t: Tree, gone: seq<seq<Segment>>, p: seq<Segment>)
    requires Regular(t) && Distinct(t) && LeavesIn(t, gone) && t.kind == SequenceNode
    requires p in gone && p[0].Index? && ItemOf(p) < |t.kids|
    ensures var s := PrunedFrom(t, gone, ItemOf(p)); s == [] || s[0] != t.kids[ItemOf(p)]
  {
    hide Regular, Below, Pruned, PrunedFrom, Distinct;
    var j := ItemOf(p);
    var below := Below(gone, Index(j));
    assert p == [Index(j)] + p[1..];
    BelowMember(gone, Index(j), p[1..]);
    BelowMember(gone, Index(j), []);
    PrunedStep(t, gone, j);
    if [] in below {
      assert [Index(j)] + [] == [Index(j)];
      ItemIsScalar(t, gone, j);
      HeadIsItem(t, gone, j + 1, t.kids[j]);
    } else {
      SlotStep(t, j);
      PathBelow(t, p, j);
      PrunedChanges(t.kids[j], below, p[1..]);
    }
  }

  lemma PathBelow(t: Tree, p: seq<Segment>, j: nat)
    requires t.kind == SequenceNode && p != [] && p[0] == Index(j) && j < |t.kids| && LocalWalk(t, p).Some?
    ensures LocalWalk(t.kids[j], p[1..]).Some?
  {
  }

  lemma ItemIsScalar(t: Tree, gone: seq<seq<Segment>>, j: nat)
    requires Distinct(t) && LeavesIn(t, gone) && t.kind == SequenceNode && [Index(j)] in gone && j < |t.kids|
    ensures !IsContainer(t.kids[j]) && forall m | j + 1 <= m < |t.kids| :: t.kids[m] != t.kids[j]
  {
    assert [Index(j)][1..] == [];
    assert LocalWalk(t, [Index(j)]) == Some(t.kids[j]);
  }

  lemma {:induction false} HeadIsItem(t: Tree, gone: seq<seq<Segment>>, k: nat, c: Tree)
    requires t.kind == SequenceNode && !IsContainer(c) && forall m | k <= m < |t.kids| :: t.kids[m] != c
    ensures var s := PrunedFrom(t, gone, k); s == [] || s[0] != c
    decreases |t.kids| - k
  {
    hide Below, PrunedFrom, Pruned;
    if k < |t.kids| {
      PrunedStep(t, gone, k);
      HeadIsItem(t, gone, k + 1, c);
      PrunedKind(SlotValue(t, k), Below(gone, SlotSeg(t, k)));
    } else {
      PrunedPast(t, gone, k);
    }
  }

  lemma PrunedKind(t: Tree, gone: seq<seq<Segment>>)
    ensures Pruned(t, gone).kind == t.kind
    ensures !IsContainer(t) ==> Pruned(t, gone) == t
  {
  }

  // The next path meant for a later item finds that item moved, and leaves it be.
  lemma ItemMoved(t: Tree, gone: seq<seq<Segment>>, a: nat)
    requires Regular(t) && FirstItem(t, gone, a)
    ensures var w, j := DropAll(t, gone), ItemOf(gone[a + 1]); j <= |w.kids| && w.kids[j - 1] == t.kids[j]
  {
    hide Regular, DropAll;
    FirstRemoved(t, gone, a);
    var i, j, pre, rest := ItemOf(gone[a]), ItemOf(gone[a + 1]), gone[..a + 1], gone[a + 1..];
    var u, w := DropAll(t, pre), DropAll(t, gone);
    MovedUp(u.kids, t.kids, i, j);
    forall p: seq<Segment> | p in rest ensures p != [] && p[0].Index? && j <= ItemOf(p) {
      var c :| 0 <= c < |rest| && rest[c] == p;
      assert p == gone[a + 1 + c];
    }
    FrontStays(u, rest, j);
    DropConcat(t, pre, rest);
    assert pre + rest == gone;
    assert w.kids[j - 1] == w.kids[..j][j - 1] == u.kids[..j][j - 1];
  }

  lemma ItemsShift(t: Tree, gone: seq<seq<Segment>>)
    requires Regular(t) && Distinct(t) && LeavesIn(t, gone) && Ordered(gone) && !Calm(gone)
    ensures DropAll(t, gone) != Pruned(t, gone)
  {
    hide Regular, Distinct, Pruned, DropAll, PrunedFrom, Unsettles, LeavesIn;
    var x, y :| 0 <= x < y < |gone| && Unsettles(gone[x], gone[y]);
    var a := FirstItemIs(t, gone, x, y);
    var j := ItemOf(gone[a + 1]);
    ItemMoved(t, gone, a);
    var front := PrunedToNext(t, gone, a, 0);
    PrunedHead(t, gone, gone[a + 1]);
    SequencePruned(t, gone);
    HeadsDiffer(DropAll(t, gone).kids, front, PrunedFrom(t, gone, j), t.kids[j]);
  }

  lemma MovedUp(u: seq<Tree>, was: seq<Tree>, i: nat, j: nat)
    requires i < j < |was| && i <= |u| && u[i..] == was[i + 1..]
    ensures j <= |u| && u[j - 1] == was[j]
  {
    assert u[i..][j - 1 - i] == was[i + 1..][j - 1 - i];
  }

  lemma HeadsDiffer(w: seq<Tree>, front: seq<Tree>, rest: seq<Tree>, x: Tree)
    requires |front| < |w| && w[|front|] == x && (rest == [] || rest[0] != x)
    ensures w != front + rest
  {
  }

  lemma SequencePruned(t: Tree, gone: seq<seq<Segment>>)
    requires t.kind == SequenceNode
    ensures Pruned(t, gone).kids == PrunedFrom(t, gone, 0)
  {
  }

  lemma FirstRemoved(t: Tree, gone: seq<seq<Segment>>, a: nat)
    requires Regular(t) && FirstGone(t, gone, a)
    ensures var u, i := DropAll(t, gone[..a + 1]), ItemOf(gone[a]);
      u.kind == SequenceNode && |u.kids| == |t.kids| - 1 && u.kids[i..] == t.kids[i + 1..]
  {
    hide Regular, DropAll, Spread;
    var pre := gone[..a + 1];
    forall p | p in pre ensures p != [] {
      var c :| 0 <= c < |pre| && pre[c] == p;
      assert p == gone[c];
    }
    DropSpreads(t, pre);
    SpreadToFirst(t, gone, a, 0);
  }

  lemma {:induction false} ShiftChanges(t: Tree, gone: seq<seq<Segment>>)
    requires Regular(t) && Distinct(t) && LeavesIn(t, gone) && Ordered(gone) && !Still(gone)
    ensures DropAll(t, gone) != Pruned(t, gone)
    decreases t
  {
    OrderedNonempty(gone);
    assert gone[0] in gone && LocalStep(t, gone[0][0]).Some?;
    if Calm(gone) {
      DropSpreads(t, gone);
      if forall seg :: Still(Below(gone, seg)) {
        StillUp(gone);
      }
      var seg: Segment :| !Still(Below(gone, seg));
      var below := Below(gone, seg);
      BelowOrdered(gone, seg);
      OrderedNonempty(below);
      BelowMember(gone, seg, below[0]);
      assert below[0] in below && LocalWalk(t, [seg] + below[0]).Some? && ([seg] + below[0])[0] == seg;
      var at := StepSlot(t, seg);
      SlotStep(t, at);
      LeavesBelow(t, gone, at);
      ShiftChanges(SlotValue(t, at), below);
      SpreadDiffers(t, gone, 0, at);
    } else {
      ItemsShift(t, gone);
    }
  }
}
