/** What the positions of a file number, and that its rows stand in its order. */
module FileListing {
  import opened Prelude
  import opened KeyPath
  import opened YamlNode
  import opened Lookup
  import opened Walk
  import opened PatchTree
  import opened Ordering
  import opened Rows
  import opened FileOrder

  // ----- every path of the file, and no other -----

  // p leads somewhere below t.
  ghost predicate Present(t: Tree, p: seq<Segment>) {
    p != [] && LocalWalk(t, p).Some?
  }

  // l lists the paths below t, whose own path is pre.
  ghost predicate Lists(t: Tree, pre: seq<Segment>, l: seq<seq<Segment>>) {
    && AllBelow(l, pre)
    && forall p {:trigger Present(t, p)} :: pre + p in l <==> Present(t, p)
  }

  lemma KeyIsAt(t: Tree, i: nat)
    requires t.kind == MappingNode && DistinctKeys(t) && i % 2 == 0 && i + 1 < |t.kids| && !IsMergeKey(t.kids[i])
    ensures KeyIndex(t, t.kids[i].value) == i
  {
    KeyIsFrom(t, 0, i);
  }

  lemma {:induction false} KeyIsFrom(t: Tree, from: nat, i: nat)
    requires t.kind == MappingNode && DistinctKeys(t) && i % 2 == 0 && i + 1 < |t.kids| && !IsMergeKey(t.kids[i])
    requires from % 2 == 0 && from <= i
    ensures KeyIndexFrom(t.kids, t.kids[i].value, from) == i
    decreases i - from
  {
    if from < i {
      assert t.kids[from] == t.kids[from] && t.kids[i] == t.kids[i];
      KeyIsFrom(t, from + 2, i);
    }
  }

  lemma KidDistinct(t: Tree, i: nat)
    requires DistinctKeys(t) && i < |t.kids|
    ensures DistinctKeys(t.kids[i])
  {
  }

  // Where a segment's child stands in a container.
  function Place(t: Tree, seg: Segment): int {
    match seg case Index(i) => i case Name(n) => KeyIndex(t, n)
  }

  // p starts with the segment of a child from i on.
  ghost predicate From(t: Tree, i: nat, p: seq<Segment>) {
    Present(t, p) && Place(t, p[0]) >= i
  }

  ghost predicate ListsFrom(t: Tree, pre: seq<Segment>, i: nat, l: seq<seq<Segment>>) {
    && AllBelow(l, pre)
    && forall p {:trigger From(t, i, p)} :: pre + p in l <==> From(t, i, p)
  }

  lemma {:induction false} BlockLists(c: Tree, w: seq<Segment>, p: seq<Segment>)
    requires DistinctKeys(c)
    ensures w + p in Block(c, w) <==> LocalWalk(c, p).Some?
    decreases c, 2, 0
  {
    hide DistinctKeys;
    if IsContainer(c) {
      PathsListed(c, w);
    }
    assert Present(c, p) || !Present(c, p);
    assert w + p == w <==> p == [];
    if p != [] && !IsContainer(c) {
      assert LocalStep(c, p[0]).None?;
    }
  }

  // The paths numbered are those of the file.
  lemma {:induction false} PathsListed(t: Tree, pre: seq<Segment>)
    requires DistinctKeys(t)
    ensures Lists(t, pre, PrePaths(t, pre))
    decreases t, 1, 0
  {
    PrePathsOrdered(t, pre);
    if t.kind == MappingNode {
      EntriesListed(t, pre, 0);
      forall p ensures pre + p in PrePaths(t, pre) <==> Present(t, p) {
        assert From(t, 0, p) <==> Present(t, p);
      }
    } else if t.kind == SequenceNode {
      ItemsListed(t, pre, 0);
      forall p ensures pre + p in PrePaths(t, pre) <==> Present(t, p) {
        assert From(t, 0, p) <==> Present(t, p);
      }
    } else {
      forall p ensures !Present(t, p) {
        assert p != [] ==> LocalStep(t, p[0]).None?;
      }
    }
  }

  lemma {:induction false} EntriesListed(t: Tree, pre: seq<Segment>, i: nat)
    requires DistinctKeys(t) && t.kind == MappingNode && i % 2 == 0
    ensures ListsFrom(t, pre, i, EntryPaths(t, pre, i))
    decreases t, 0, |t.kids| - i
  {
    hide DistinctKeys, LocalWalk, Block;
    EntriesOrdered(t, pre, i);
    if i + 1 < |t.kids| {
      EntriesListed(t, pre, i + 2);
      forall p ensures pre + p in EntryPaths(t, pre, i) <==> From(t, i, p) {
        if !IsMergeKey(t.kids[i]) {
          KidDistinct(t, i + 1);
          EntryListed(t, pre, i, p);
        }
        NextPlace(t, i, p);
      }
    } else {
      forall p ensures !From(t, i, p) {
        NextPlace(t, i, p);
      }
    }
  }

  // Places of names are even, and those of no merge key.
  lemma NextPlace(t: Tree, i: nat, p: seq<Segment>)
    requires t.kind == MappingNode && i % 2 == 0
    ensures From(t, i, p) ==> i + 1 < |t.kids|
    ensures From(t, i, p) && (Place(t, p[0]) != i || IsMergeKey(t.kids[i])) ==> From(t, i + 2, p)
    ensures From(t, i + 2, p) ==> From(t, i, p)
  {
    if From(t, i, p) {
      assert LocalStep(t, p[0]).Some?;
      KeyIndexEven(t.kids, p[0].name, 0);
      KeyIndexFinds(t.kids, p[0].name, 0);
    }
  }

  // What is under a segment starts with it.
  lemma UnderSegment(l: seq<seq<Segment>>, pre: seq<Segment>, seg: Segment, p: seq<Segment>)
    requires forall j | 0 <= j < |l| :: pre + [seg] <= l[j]
    ensures pre + p in l ==> p != [] && p[0] == seg
  {
    if pre + p in l {
      assert (pre + p)[|pre|] == (pre + [seg])[|pre|];
    }
  }

  lemma {:induction false} EntryListed(t: Tree, pre: seq<Segment>, i: nat, p: seq<Segment>)
    requires DistinctKeys(t) && t.kind == MappingNode && i % 2 == 0 && i + 1 < |t.kids| && !IsMergeKey(t.kids[i])
    ensures pre + p in Block(t.kids[i + 1], pre + [Name(t.kids[i].value)]) <==>
      Present(t, p) && Place(t, p[0]) == i
    decreases t, 0, |t.kids| - i, 0
  {
    hide DistinctKeys, Block;
    var seg := Name(t.kids[i].value);
    KeyIsAt(t, i);
    KidDistinct(t, i + 1);
    BlockOrdered(t.kids[i + 1], pre + [seg]);
    UnderSegment(Block(t.kids[i + 1], pre + [seg]), pre, seg, p);
    if p != [] && p[0] == seg {
      assert pre + p == (pre + [seg]) + p[1..];
      BlockLists(t.kids[i + 1], pre + [seg], p[1..]);
    } else {
      if p != [] && LocalStep(t, p[0]).Some? {
        KeyIndexFinds(t.kids, p[0].name, 0);
      }
    }
  }

  lemma {:induction false} ItemsListed(t: Tree, pre: seq<Segment>, i: nat)
    requires DistinctKeys(t) && t.kind == SequenceNode
    ensures ListsFrom(t, pre, i, ItemPaths(t, pre, i))
    decreases t, 0, |t.kids| - i
  {
    hide DistinctKeys, LocalWalk, Block;
    ItemsOrdered(t, pre, i);
    if i < |t.kids| {
      ItemsListed(t, pre, i + 1);
      KidDistinct(t, i);
      forall p ensures pre + p in ItemPaths(t, pre, i) <==> From(t, i, p) {
        ItemListed(t, pre, i, p);
        assert From(t, i + 1, p) ==> From(t, i, p);
      }
    } else {
      forall p ensures !From(t, i, p) {
        if Present(t, p) {
          StepOf(t, p);
        }
      }
    }
  }

  lemma StepOf(t: Tree, p: seq<Segment>)
    requires Present(t, p)
    ensures LocalStep(t, p[0]).Some?
  {
  }

  lemma {:induction false} ItemListed(t: Tree, pre: seq<Segment>, i: nat, p: seq<Segment>)
    requires DistinctKeys(t) && t.kind == SequenceNode && i < |t.kids|
    ensures pre + p in Block(t.kids[i], pre + [Index(i)]) <==> Present(t, p) && Place(t, p[0]) == i
    decreases t, 0, |t.kids| - i, 0
  {
    hide DistinctKeys, Block;
    var seg := Index(i);
    KidDistinct(t, i);
    BlockOrdered(t.kids[i], pre + [seg]);
    UnderSegment(Block(t.kids[i], pre + [seg]), pre, seg, p);
    if p != [] && p[0] == seg {
      assert pre + p == (pre + [seg]) + p[1..];
      BlockLists(t.kids[i], pre + [seg], p[1..]);
    }
  }

  // ----- in the order they stand -----

  // p comes before q in the file: q is below p, or they part at a container and p goes
  // through an earlier child.
  ghost predicate Ahead(t: Tree, p: seq<Segment>, q: seq<Segment>)
    decreases |p|
  {
    q != [] &&
    (p == [] ||
     if p[0] == q[0] then LocalStep(t, p[0]).Some? && Ahead(LocalStep(t, p[0]).value, p[1..], q[1..])
     else Place(t, p[0]) < Place(t, q[0]))
  }

  ghost predicate Follows(t: Tree, pre: seq<Segment>, l: seq<seq<Segment>>) {
    forall i, j | 0 <= i < j < |l| :: pre <= l[i] && pre <= l[j] && Ahead(t, l[i][|pre|..], l[j][|pre|..])
  }

  // Every path of l goes through a child from i on.
  ghost predicate AllFrom(t: Tree, pre: seq<Segment>, i: nat, l: seq<seq<Segment>>) {
    forall j | 0 <= j < |l| :: pre < l[j] && Place(t, l[j][|pre|]) >= i
  }

  // The block of one child, and then the later ones.
  lemma FollowsConcat(t: Tree, pre: seq<Segment>, seg: Segment, i: nat, block: seq<seq<Segment>>,
                      rest: seq<seq<Segment>>)
    requires LocalStep(t, seg).Some? && Place(t, seg) == i
    requires Follows(LocalStep(t, seg).value, pre + [seg], block)
    requires forall j | 0 <= j < |block| :: pre + [seg] <= block[j]
    requires Follows(t, pre, rest) && AllFrom(t, pre, i + 1, rest)
    ensures Follows(t, pre, block + rest) && AllFrom(t, pre, i, block + rest)
  {
    hide Ahead;
    var l := block + rest;
    forall j | 0 <= j < |block| ensures pre < block[j] && block[j][|pre|] == seg {
      assert block[j][|pre|] == (pre + [seg])[|pre|];
    }
    forall a, b | 0 <= a < b < |l| ensures pre <= l[a] && pre <= l[b] && Ahead(t, l[a][|pre|..], l[b][|pre|..]) {
      if b < |block| {
        AheadBelow(t, pre, seg, block[a], block[b]);
      } else if a < |block| {
        AheadAcross(t, pre, block[a], rest[b - |block|]);
      } else {
        assert l[a] == rest[a - |block|] && l[b] == rest[b - |block|];
      }
    }
  }

  lemma AheadBelow(t: Tree, pre: seq<Segment>, seg: Segment, x: seq<Segment>, y: seq<Segment>)
    requires LocalStep(t, seg).Some? && pre + [seg] <= x && pre + [seg] <= y
    requires Ahead(LocalStep(t, seg).value, x[|pre| + 1..], y[|pre| + 1..])
    ensures Ahead(t, x[|pre|..], y[|pre|..])
  {
    assert x[|pre|] == (pre + [seg])[|pre|] && y[|pre|] == (pre + [seg])[|pre|];
    assert x[|pre|..][1..] == x[|pre| + 1..] && y[|pre|..][1..] == y[|pre| + 1..];
  }

  lemma AheadAcross(t: Tree, pre: seq<Segment>, x: seq<Segment>, y: seq<Segment>)
    requires pre < x && pre < y && Place(t, x[|pre|]) < Place(t, y[|pre|])
    ensures Ahead(t, x[|pre|..], y[|pre|..])
  {
  }

  lemma {:induction false} BlockFollows(c: Tree, w: seq<Segment>)
    requires DistinctKeys(c)
    ensures Follows(c, w, Block(c, w))
    decreases c, 2, 0
  {
    hide DistinctKeys, Preorder;
    if IsContainer(c) {
      PathsInOrder(c, w);
      PrePathsOrdered(c, w);
      FollowsCons(c, w, PrePaths(c, w));
    }
  }

  lemma FollowsCons(c: Tree, w: seq<Segment>, l: seq<seq<Segment>>)
    requires Follows(c, w, l) && AllBelow(l, w)
    ensures Follows(c, w, [w] + l)
  {
    forall j | 0 <= j < |l| ensures Ahead(c, w[|w|..], l[j][|w|..]) {
    }
  }

  // The paths are numbered in the order they stand in the file.
  lemma {:induction false} PathsInOrder(t: Tree, pre: seq<Segment>)
    requires DistinctKeys(t)
    ensures Follows(t, pre, PrePaths(t, pre))
    decreases t, 1, 0
  {
    if t.kind == MappingNode {
      EntriesInOrder(t, pre, 0);
    } else if t.kind == SequenceNode {
      ItemsInOrder(t, pre, 0);
    }
  }

  lemma {:induction false} EntriesInOrder(t: Tree, pre: seq<Segment>, i: nat)
    requires DistinctKeys(t) && t.kind == MappingNode && i % 2 == 0
    ensures Follows(t, pre, EntryPaths(t, pre, i)) && AllFrom(t, pre, i, EntryPaths(t, pre, i))
    decreases t, 0, |t.kids| - i
  {
    hide DistinctKeys, Block, Follows, Preorder;
    NothingFollows(t, pre, i);
    if i + 1 < |t.kids| {
      EntriesInOrder(t, pre, i + 2);
      var rest := EntryPaths(t, pre, i + 2);
      if IsMergeKey(t.kids[i]) {
        assert [] + rest == rest;
      } else {
        var seg := Name(t.kids[i].value);
        KeyIsAt(t, i);
        KidDistinct(t, i + 1);
        BlockFollows(t.kids[i + 1], pre + [seg]);
        BlockOrdered(t.kids[i + 1], pre + [seg]);
        FollowsConcat(t, pre, seg, i, Block(t.kids[i + 1], pre + [seg]), rest);
      }
    }
  }

  lemma {:induction false} ItemsInOrder(t: Tree, pre: seq<Segment>, i: nat)
    requires DistinctKeys(t) && t.kind == SequenceNode
    ensures Follows(t, pre, ItemPaths(t, pre, i)) && AllFrom(t, pre, i, ItemPaths(t, pre, i))
    decreases t, 0, |t.kids| - i
  {
    hide DistinctKeys, Block, Follows, Preorder;
    NothingFollows(t, pre, i);
    if i < |t.kids| {
      ItemsInOrder(t, pre, i + 1);
      KidDistinct(t, i);
      BlockFollows(t.kids[i], pre + [Index(i)]);
      BlockOrdered(t.kids[i], pre + [Index(i)]);
      FollowsConcat(t, pre, Index(i), i, Block(t.kids[i], pre + [Index(i)]), ItemPaths(t, pre, i + 1));
    }
  }

  lemma NothingFollows(t: Tree, pre: seq<Segment>, i: nat)
    ensures Follows(t, pre, []) && AllFrom(t, pre, i, [])
  {
  }

  // One of two paths is ahead, and not the other.
  lemma {:induction false} OneAhead(t: Tree, p: seq<Segment>, q: seq<Segment>)
    requires LocalWalk(t, p).Some? && LocalWalk(t, q).Some? && p != q
    ensures Ahead(t, p, q) <==> !Ahead(t, q, p)
    decreases |p|
  {
    if p != [] && q != [] {
      if p[0] == q[0] {
        assert p == [p[0]] + p[1..] && q == [q[0]] + q[1..];
        OneAhead(LocalStep(t, p[0]).value, p[1..], q[1..]);
      } else if p[0].Name? && q[0].Name? {
        KeyIndexFinds(t.kids, p[0].name, 0);
        KeyIndexFinds(t.kids, q[0].name, 0);
      }
    }
  }

  // In every table sorted by the positions of a file, the rows of the file stand in the
  // order of the file.
  lemma RowsInFileOrder(rows: seq<Row>, positions: map<string, nat>, t: Tree, paths: seq<seq<Segment>>, i: nat, j: nat)
    requires t.kind == MappingNode && DistinctKeys(t) && KeyIndex(t, "") < 0
    requires Numbers(positions, AppendAll([], KeysOf(PrePaths(t, [])))) && InOrder(rows, positions)
    requires |paths| == |rows| && i < |rows| && j < |rows| && paths[i] != paths[j]
    requires forall k | 0 <= k < |rows| :: rows[k].key == Encode(paths[k])
    requires Present(t, paths[i]) && Present(t, paths[j])
    ensures i < j <==> Ahead(t, paths[i], paths[j])
  {
    hide Encode, Preorder, PrePaths, Numbers, LocalWalk, InOrder, Lists, Ahead;
    OneAhead(t, paths[i], paths[j]);
    if i < j {
      AheadFirst(rows, positions, t, paths, i, j);
    } else {
      AheadFirst(rows, positions, t, paths, j, i);
    }
  }

  lemma AheadFirst(rows: seq<Row>, positions: map<string, nat>, t: Tree, paths: seq<seq<Segment>>, i: nat, j: nat)
    requires t.kind == MappingNode && DistinctKeys(t) && KeyIndex(t, "") < 0
    requires Numbers(positions, AppendAll([], KeysOf(PrePaths(t, [])))) && InOrder(rows, positions)
    requires |paths| == |rows| && i < j < |rows| && paths[i] != paths[j]
    requires forall k | 0 <= k < |rows| :: rows[k].key == Encode(paths[k])
    requires Present(t, paths[i]) && Present(t, paths[j])
    ensures Ahead(t, paths[i], paths[j])
  {
    hide Encode, Preorder, PrePaths, Numbers, LocalWalk, Ahead, Less, DistinctKeys, KeysOf;
    var l := PrePaths(t, []);
    NamedPositions(t, positions);
    PathsListed(t, []);
    PathsInOrder(t, []);
    assert [] + paths[i] == paths[i] && [] + paths[j] == paths[j];
    var a :| 0 <= a < |l| && l[a] == paths[i];
    var b :| 0 <= b < |l| && l[b] == paths[j];
    PositionOf(positions, l, a);
    PositionOf(positions, l, b);
    assert !Before(rows[j].key, rows[i].key, positions);
    assert a < b;
    assert l[a][0..] == l[a] && l[b][0..] == l[b];
  }

  lemma PositionOf(positions: map<string, nat>, l: seq<seq<Segment>>, a: nat)
    requires Positioned(positions, l) && a < |l|
    ensures EffPos(Encode(l[a]), positions, |positions|) == a
  {
    hide Encode, Preorder;
    KeyHasPosition(positions, l, l[a]);
  }
}
