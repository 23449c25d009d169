/** Rows in the order of the source file: buildFlatKeyPositions and
  SortByFilePositions (service/values_service.go). */
module FileOrder {
  import opened Prelude
  import opened FlatKey
  import opened KeyPath
  import opened YamlNode
  import opened Lookup
  import opened Reading
  import opened Ordering
  import opened Rows

  // ----- the keys of a file, in the order they stand -----

  // The paths below t, whose own path is pre: each before those under it.
  function PrePaths(t: Tree, pre: seq<Segment>): seq<seq<Segment>>
    decreases t, 1, 0
  {
    if t.kind == MappingNode then EntryPaths(t, pre, 0)
    else if t.kind == SequenceNode then ItemPaths(t, pre, 0)
    else []
  }

  function Block(c: Tree, p: seq<Segment>): seq<seq<Segment>>
    decreases c, 2, 0
  {
    [p] + if IsContainer(c) then PrePaths(c, p) else []
  }

  function EntryPaths(t: Tree, pre: seq<Segment>, i: nat): seq<seq<Segment>>
    decreases t, 0, |t.kids| - i
  {
    if i + 1 >= |t.kids| then []
    else
      (if IsMergeKey(t.kids[i]) then [] else Block(t.kids[i + 1], pre + [Name(t.kids[i].value)])) +
      EntryPaths(t, pre, i + 2)
  }

  function ItemPaths(t: Tree, pre: seq<Segment>, i: nat): seq<seq<Segment>>
    decreases t, 0, |t.kids| - i
  {
    if i >= |t.kids| then [] else Block(t.kids[i], pre + [Index(i)]) + ItemPaths(t, pre, i + 1)
  }

  // ----- preorder -----

  // Distinct paths, each section before what is below it, and everything below a
  // section together.
  ghost predicate Preorder(l: seq<seq<Segment>>) {
    && (forall i, j | 0 <= i < j < |l| :: l[i] != l[j])
    && (forall i, j | 0 <= i < |l| && 0 <= j < |l| && l[i] < l[j] :: i < j)
    && (forall i, j, k | 0 <= i < j < k < |l| && l[i] <= l[k] :: l[i] <= l[j])
  }

  ghost predicate AllBelow(l: seq<seq<Segment>>, pre: seq<Segment>) {
    forall i | 0 <= i < |l| :: pre < l[i]
  }

  lemma PreorderCons(p: seq<Segment>, l: seq<seq<Segment>>)
    requires Preorder(l) && AllBelow(l, p)
    ensures Preorder([p] + l)
  {
    var m := [p] + l;
    forall i, j | 0 <= i < |m| && 0 <= j < |m| && m[i] < m[j] ensures i < j {
      if i > 0 && j > 0 {
        assert l[i - 1] < l[j - 1];
      }
    }
  }

  lemma PreorderConcat(a: seq<seq<Segment>>, b: seq<seq<Segment>>)
    requires Preorder(a) && Preorder(b)
    requires forall i, j | 0 <= i < |a| && 0 <= j < |b| :: !(a[i] <= b[j]) && !(b[j] <= a[i])
    ensures Preorder(a + b)
  {
    var m := a + b;
    forall i, j | 0 <= i < |m| && 0 <= j < |m| && m[i] < m[j] ensures i < j {
      if i >= |a| && j >= |a| {
        assert b[i - |a|] < b[j - |a|];
      }
    }
    forall i, j, k | 0 <= i < j < k < |m| && m[i] <= m[k] ensures m[i] <= m[j] {
      if i >= |a| {
        assert b[i - |a|] <= b[k - |a|];
      }
    }
  }

  // Keys that differ, at every level.
  ghost predicate DistinctKeys(t: Tree) {
    && (t.kind == MappingNode ==>
          forall i, j {:trigger t.kids[i], t.kids[j]} |
            0 <= i < j && j + 1 < |t.kids| && i % 2 == 0 && j % 2 == 0 && !IsMergeKey(t.kids[i]) &&
              !IsMergeKey(t.kids[j]) ::
            t.kids[i].value != t.kids[j].value)
    && (forall i {:trigger t.kids[i]} | 0 <= i < |t.kids| :: DistinctKeys(t.kids[i]))
  }

  // Blocks under different segments.
  lemma BlocksApart(a: seq<seq<Segment>>, b: seq<seq<Segment>>, pre: seq<Segment>, seg: Segment)
    requires forall i | 0 <= i < |a| :: pre + [seg] <= a[i]
    requires forall j | 0 <= j < |b| :: pre < b[j] && b[j][|pre|] != seg
    ensures forall i, j | 0 <= i < |a| && 0 <= j < |b| :: !(a[i] <= b[j]) && !(b[j] <= a[i])
  {
    forall i, j | 0 <= i < |a| && 0 <= j < |b| ensures !(a[i] <= b[j]) && !(b[j] <= a[i]) {
      assert a[i][|pre|] == (pre + [seg])[|pre|] == seg;
    }
  }

  lemma {:induction false} PrePathsOrdered(t: Tree, pre: seq<Segment>)
    requires DistinctKeys(t)
    ensures Preorder(PrePaths(t, pre)) && AllBelow(PrePaths(t, pre), pre)
    decreases t, 1, 0
  {
    if t.kind == MappingNode {
      EntriesOrdered(t, pre, 0);
    } else if t.kind == SequenceNode {
      ItemsOrdered(t, pre, 0);
    }
  }

  lemma {:induction false} BlockOrdered(c: Tree, p: seq<Segment>)
    requires DistinctKeys(c)
    ensures Preorder(Block(c, p)) && forall i | 0 <= i < |Block(c, p)| :: p <= Block(c, p)[i]
    decreases c, 2, 0
  {
    hide Preorder;
    if IsContainer(c) {
      PrePathsOrdered(c, p);
      PreorderCons(p, PrePaths(c, p));
    } else {
      PreorderOne(p);
    }
  }

  lemma PreorderOne(p: seq<Segment>)
    ensures Preorder([p] + []) && Preorder([])
  {
  }

  lemma {:induction false} EntriesOrdered(t: Tree, pre: seq<Segment>, i: nat)
    requires DistinctKeys(t) && t.kind == MappingNode && i % 2 == 0
    ensures Preorder(EntryPaths(t, pre, i)) && AllBelow(EntryPaths(t, pre, i), pre)
    ensures forall j | 0 <= j < |EntryPaths(t, pre, i)| :: NamedFrom(t, i, EntryPaths(t, pre, i)[j][|pre|])
    decreases t, 0, |t.kids| - i
  {
    hide Preorder, Block, NamedFrom;
    PreorderOne(pre);
    if i + 1 < |t.kids| {
      EntriesOrdered(t, pre, i + 2);
      var rest := EntryPaths(t, pre, i + 2);
      if IsMergeKey(t.kids[i]) {
        assert [] + rest == rest;
        NamedEarlier(t, pre, i, rest);
      } else {
        BlockOrdered(t.kids[i + 1], pre + [Name(t.kids[i].value)]);
        EntryOrdered(t, i, Block(t.kids[i + 1], pre + [Name(t.kids[i].value)]), rest, pre, Name(t.kids[i].value));
      }
    }
  }

  lemma NamedEarlier(t: Tree, pre: seq<Segment>, i: nat, rest: seq<seq<Segment>>)
    requires AllBelow(rest, pre) && forall j | 0 <= j < |rest| :: NamedFrom(t, i + 2, rest[j][|pre|])
    ensures forall j | 0 <= j < |rest| :: NamedFrom(t, i, rest[j][|pre|])
  {
    forall j | 0 <= j < |rest| ensures NamedFrom(t, i, rest[j][|pre|]) {
      assert NamedFrom(t, i + 2, rest[j][|pre|]);
    }
  }

  lemma EntryOrdered(t: Tree, i: nat, block: seq<seq<Segment>>, rest: seq<seq<Segment>>, pre: seq<Segment>,
                     seg: Segment)
    requires DistinctKeys(t) && t.kind == MappingNode
    requires i + 1 < |t.kids| && i % 2 == 0 && !IsMergeKey(t.kids[i]) && seg == Name(t.kids[i].value)
    requires Preorder(block) && forall j | 0 <= j < |block| :: pre + [seg] <= block[j]
    requires Preorder(rest) && AllBelow(rest, pre) && forall j | 0 <= j < |rest| :: NamedFrom(t, i + 2, rest[j][|pre|])
    ensures Preorder(block + rest) && AllBelow(block + rest, pre)
    ensures forall j | 0 <= j < |block + rest| :: NamedFrom(t, i, (block + rest)[j][|pre|])
  {
    hide Preorder;
    forall j | 0 <= j < |rest| ensures rest[j][|pre|] != seg {
      assert NamedFrom(t, i + 2, rest[j][|pre|]);
    }
    BlocksApart(block, rest, pre, seg);
    PreorderConcat(block, rest);
    EntryNames(t, i, block, rest, pre, seg);
  }

  // seg is the name of an ordinary key at position i or later.
  ghost predicate NamedFrom(t: Tree, i: nat, seg: Segment) {
    exists j :: i <= j && j + 1 < |t.kids| && j % 2 == 0 && !IsMergeKey(t.kids[j]) && seg == Name(t.kids[j].value)
  }

  lemma EntryNames(t: Tree, i: nat, block: seq<seq<Segment>>, rest: seq<seq<Segment>>, pre: seq<Segment>, seg: Segment)
    requires i + 1 < |t.kids| && i % 2 == 0 && !IsMergeKey(t.kids[i]) && seg == Name(t.kids[i].value)
    requires forall j | 0 <= j < |block| :: pre + [seg] <= block[j]
    requires AllBelow(rest, pre) && forall j | 0 <= j < |rest| :: NamedFrom(t, i + 2, rest[j][|pre|])
    ensures AllBelow(block + rest, pre)
    ensures forall j | 0 <= j < |block + rest| :: NamedFrom(t, i, (block + rest)[j][|pre|])
  {
    forall j | 0 <= j < |block + rest| ensures pre < (block + rest)[j] && NamedFrom(t, i, (block + rest)[j][|pre|]) {
      if j < |block| {
        assert block[j][|pre|] == (pre + [seg])[|pre|];
        assert NamedFrom(t, i, seg);
      } else {
        assert NamedFrom(t, i + 2, rest[j - |block|][|pre|]);
      }
    }
  }

  lemma {:induction false} ItemsOrdered(t: Tree, pre: seq<Segment>, i: nat)
    requires DistinctKeys(t) && t.kind == SequenceNode
    ensures Preorder(ItemPaths(t, pre, i)) && AllBelow(ItemPaths(t, pre, i), pre)
    ensures forall j | 0 <= j < |ItemPaths(t, pre, i)| ::
      var s: Segment := ItemPaths(t, pre, i)[j][|pre|]; s.Index? && s.index >= i
    decreases t, 0, |t.kids| - i
  {
    hide Preorder, Block;
    PreorderOne(pre);
    if i < |t.kids| {
      ItemsOrdered(t, pre, i + 1);
      var rest, block := ItemPaths(t, pre, i + 1), Block(t.kids[i], pre + [Index(i)]);
      BlockOrdered(t.kids[i], pre + [Index(i)]);
      BlocksApart(block, rest, pre, Index(i));
      PreorderConcat(block, rest);
      forall j | 0 <= j < |block + rest|
        ensures pre < (block + rest)[j] && var s: Segment := (block + rest)[j][|pre|]; s.Index? && s.index >= i
      {
        if j < |block| {
          assert block[j][|pre|] == (pre + [Index(i)])[|pre|];
        }
      }
    }
  }

  // ----- positions -----

  // positions numbers the distinct keys in the order they came.
  ghost predicate Numbers(positions: map<string, nat>, order: seq<string>) {
    && (forall k :: k in positions <==> k in order)
    && (forall i | 0 <= i < |order| :: order[i] in positions && positions[order[i]] == i)
  }

  function Append(order: seq<string>, key: string): seq<string> {
    if key in order then order else order + [key]
  }

  function AppendAll(order: seq<string>, keys: seq<string>): seq<string>
    decreases |keys|
  {
    if keys == [] then order else AppendAll(Append(order, keys[0]), keys[1..])
  }

  lemma {:induction false} AppendAllConcat(order: seq<string>, a: seq<string>, b: seq<string>)
    ensures AppendAll(order, a + b) == AppendAll(AppendAll(order, a), b)
    decreases |a|
  {
    if a == [] {
      assert a + b == b;
    } else {
      assert (a + b)[1..] == a[1..] + b;
      AppendAllConcat(Append(order, a[0]), a[1..], b);
    }
  }

  lemma {:induction false} AppendDistinct(order: seq<string>, keys: seq<string>)
    requires forall i, j | 0 <= i < j < |order + keys| :: (order + keys)[i] != (order + keys)[j]
    ensures AppendAll(order, keys) == order + keys
    decreases |keys|
  {
    if keys == [] {
      assert order + keys == order;
    } else {
      forall i | 0 <= i < |order| ensures order[i] != keys[0] {
        assert (order + keys)[i] != (order + keys)[|order|];
      }
      assert order + keys == (order + [keys[0]]) + keys[1..];
      AppendDistinct(order + [keys[0]], keys[1..]);
    }
  }

  function KeysOf(paths: seq<seq<Segment>>): (r: seq<string>)
    ensures |r| == |paths|
  {
    seq(|paths|, i requires 0 <= i < |paths| => Encode(paths[i]))
  }

  lemma KeysOfConcat(a: seq<seq<Segment>>, b: seq<seq<Segment>>)
    ensures KeysOf(a + b) == KeysOf(a) + KeysOf(b)
  {
  }

  method Number(positions: map<string, nat>, key: string, ghost order: seq<string>) returns (r: map<string, nat>)
    requires Numbers(positions, order) && |positions| == |order|
    ensures Numbers(r, Append(order, key)) && |r| == |Append(order, key)|
  {
    if key in positions {
      return positions;
    }
    r := positions[key := |positions|];
    assert r.Keys == positions.Keys + {key};
    assert |r.Keys| == |positions.Keys| + 1 && |r| == |r.Keys| && |positions| == |positions.Keys|;
  }

  // The walk of buildFlatKeyPositions.  The counter is always the size of the map.
  method Walk(node: Node, prefix: string, positions: map<string, nat>, ghost pre: seq<Segment>,
              ghost order: seq<string>, ghost g: Graph)
    returns (r: map<string, nat>)
    requires Shows(g) && WellFormed(g) && node in g && g[node].kind != AliasNode
    requires prefix == Encode(pre) && Numbers(positions, order) && |positions| == |order|
    ensures var order' := AppendAll(order, KeysOf(PrePaths(Denote(g, node), pre)));
      Numbers(r, order') && |r| == |order'|
    decreases Denote(g, node), 1, 0
  {
    hide Denote, Ranked, Numbers, Encode, Extended, Itoa;
    ghost var t := Denote(g, node);
    assert node.Snap() == g[node];
    DenoteStep(g, node);
    r := positions;
    if node.kind == MappingNode {
      var i := 0;
      ghost var now := order;
      while i + 1 < |node.content|
        invariant 0 <= i && i % 2 == 0
        invariant Numbers(r, now) && |r| == |now|
        invariant AppendAll(order, KeysOf(PrePaths(t, pre))) == AppendAll(now, KeysOf(EntryPaths(t, pre, i)))
      {
        var k := node.content[i];
        assert k.Snap() == g[k] && KeyPosition(g[node], i);
        DenoteKey(g, node, i);
        EntryStep(t, pre, i, now);
        if k.tag != MERGE_TAG && k.value != MERGE_KEY {
          var key := BuildKey(prefix, k.value);
          ghost var p := pre + [Name(k.value)];
          EncodeSnoc(pre, Name(k.value));
          r := WalkChild(node.content[i + 1], key, r, p, now, g);
          now := AppendAll(now, KeysOf(Block(t.kids[i + 1], p)));
        }
        i := i + 2;
      }
      NoMore(t, pre, i, now);
    } else if node.kind == SequenceNode {
      var i := 0;
      ghost var now := order;
      while i < |node.content|
        invariant 0 <= i <= |node.content|
        invariant Numbers(r, now) && |r| == |now|
        invariant AppendAll(order, KeysOf(PrePaths(t, pre))) == AppendAll(now, KeysOf(ItemPaths(t, pre, i)))
      {
        ItemStep(t, pre, i, now);
        var key := prefix + "[" + Itoa(i) + "]";
        ghost var p := pre + [Index(i)];
        EncodeSnoc(pre, Index(i));
        BracketedSuffix(prefix, i);
        r := WalkChild(node.content[i], key, r, p, now, g);
        now := AppendAll(now, KeysOf(Block(t.kids[i], p)));
        i := i + 1;
      }
      NoMore(t, pre, i, now);
    }
  }

  // A child is numbered and, if it is a container once an alias is followed, walked.
  method WalkChild(v: Node, key: string, positions: map<string, nat>, ghost p: seq<Segment>, ghost order: seq<string>,
                   ghost g: Graph)
    returns (r: map<string, nat>)
    requires Shows(g) && WellFormed(g) && v in g && key == Encode(p) && Numbers(positions, order) &&
      |positions| == |order|
    ensures var order' := AppendAll(order, KeysOf(Block(Denote(g, v), p))); Numbers(r, order') && |r| == |order'|
    decreases Denote(g, v), 2, 0
  {
    hide Denote, Ranked, Numbers, Encode, PrePaths;
    r := Number(positions, key, order);
    var target := ResolveAlias(v, g);
    assert target.Snap() == g[target];
    DenoteStep(g, target);
    BlockKeys(Denote(g, v), p, order);
    if target.kind == MappingNode || target.kind == SequenceNode {
      r := Walk(target, key, r, p, Append(order, key), g);
    }
  }

  lemma BlockKeys(c: Tree, p: seq<Segment>, order: seq<string>)
    ensures AppendAll(order, KeysOf(Block(c, p))) ==
      if IsContainer(c) then AppendAll(Append(order, Encode(p)), KeysOf(PrePaths(c, p))) else Append(order, Encode(p))
  {
    hide Encode, PrePaths;
    var rest := if IsContainer(c) then PrePaths(c, p) else [];
    assert KeysOf([p] + rest)[1..] == KeysOf(rest);
  }

  lemma EntryStep(t: Tree, pre: seq<Segment>, i: nat, order: seq<string>)
    requires i + 1 < |t.kids|
    ensures AppendAll(order, KeysOf(EntryPaths(t, pre, i))) ==
      if IsMergeKey(t.kids[i]) then AppendAll(order, KeysOf(EntryPaths(t, pre, i + 2)))
      else AppendAll(AppendAll(order, KeysOf(Block(t.kids[i + 1], pre + [Name(t.kids[i].value)]))),
        KeysOf(EntryPaths(t, pre, i + 2)))
  {
    hide Encode, Block;
    var rest := EntryPaths(t, pre, i + 2);
    if IsMergeKey(t.kids[i]) {
      assert [] + rest == rest;
    } else {
      var block := Block(t.kids[i + 1], pre + [Name(t.kids[i].value)]);
      KeysOfConcat(block, rest);
      AppendAllConcat(order, KeysOf(block), KeysOf(rest));
    }
  }

  lemma ItemStep(t: Tree, pre: seq<Segment>, i: nat, order: seq<string>)
    requires i < |t.kids|
    ensures AppendAll(order, KeysOf(ItemPaths(t, pre, i))) ==
      AppendAll(AppendAll(order, KeysOf(Block(t.kids[i], pre + [Index(i)]))), KeysOf(ItemPaths(t, pre, i + 1)))
  {
    hide Encode, Block;
    var block, rest := Block(t.kids[i], pre + [Index(i)]), ItemPaths(t, pre, i + 1);
    KeysOfConcat(block, rest);
    AppendAllConcat(order, KeysOf(block), KeysOf(rest));
  }

  lemma NoMore(t: Tree, pre: seq<Segment>, i: nat, order: seq<string>)
    ensures i + 1 >= |t.kids| ==> AppendAll(order, KeysOf(EntryPaths(t, pre, i))) == order
    ensures i >= |t.kids| ==> AppendAll(order, KeysOf(ItemPaths(t, pre, i))) == order
  {
    assert KeysOf([]) == [];
  }

  // buildFlatKeyPositions
  method BuildFlatKeyPositions(root: Node, ghost g: Graph) returns (r: map<string, nat>)
    requires Shows(g) && WellFormed(g) && root in g
    ensures var n := if g[root].kind == DocumentNode && g[root].content != [] then g[root].content[0] else root;
      && n in g
      && if g[n].kind == MappingNode then Numbers(r, AppendAll([], KeysOf(PrePaths(Denote(g, n), [])))) else r == map[]
  {
    hide Denote, Ranked, PrePaths, KeysOf, AppendAll;
    assert root.Snap() == g[root];
    DenoteStep(g, root);
    var n := root;
    if root.kind == DocumentNode && |root.content| > 0 {
      n := root.content[0];
    }
    assert n.Snap() == g[n];
    if n.kind != MappingNode {
      return map[];
    }
    assert Encode([]) == "";
    r := Walk(n, "", map[], [], [], g);
  }

  // ----- sorting -----

  // effectivePosition: a key's own position, else that of the nearest container that
  // has one, else the end.
  function EffPos(key: string, positions: map<string, nat>, end: nat): nat
    decreases |key|
  {
    if key in positions then positions[key]
    else if key == "" || ParentOf(key) == "" then end
    else EffPos(ParentOf(key), positions, end)
  }

  method EffectivePosition(key: string, positions: map<string, nat>, end: nat) returns (p: nat)
    ensures p == EffPos(key, positions, end)
  {
    if key in positions {
      return positions[key];
    }
    var parent := Parent(key);
    if key == "" {
      return end;
    }
    while parent != ""
      invariant EffPos(key, positions, end) == if parent == "" then end else EffPos(parent, positions, end)
      decreases |parent|
    {
      if parent in positions {
        return positions[parent];
      }
      parent := Parent(parent);
    }
    p := end;
  }

  predicate Before(a: string, b: string, positions: map<string, nat>) {
    var p, q := EffPos(a, positions, |positions|), EffPos(b, positions, |positions|);
    p < q || (p == q && Less(a, b))
  }

  predicate InOrder(rows: seq<Row>, positions: map<string, nat>) {
    forall i, j | 0 <= i < j < |rows| :: !Before(rows[j].key, rows[i].key, positions)
  }

  // The rows with one key, in their order.
  function WithKey(rows: seq<Row>, k: string): seq<Row> {
    if rows == [] then []
    else WithKey(rows[..|rows| - 1], k) + if rows[|rows| - 1].key == k then [rows[|rows| - 1]] else []
  }

  lemma BeforeTransitive(a: string, b: string, c: string, positions: map<string, nat>)
    requires !Before(b, a, positions) && !Before(c, b, positions)
    ensures !Before(c, a, positions)
  {
    hide Less, EffPos;
    LessTotal(a, b);
    LessTotal(b, c);
    if Less(c, a) {
      if Less(a, b) {
        LessTransitive(c, a, b);
      }
      LessTotal(c, a);
      if Less(b, c) {
        LessTransitive(b, c, a);
      }
    }
  }

  // SortByFilePositions
  method SortByFilePositions(rows: array<Row>, positions: map<string, nat>)
    modifies rows
    ensures multiset(rows[..]) == multiset(old(rows[..])) &&
      forall k :: WithKey(rows[..], k) == WithKey(old(rows[..]), k)
    ensures if |positions| == 0 then rows[..] == old(rows[..]) else InOrder(rows[..], positions)
  {
    if |positions| == 0 || rows.Length == 0 {
      return;
    }
    var s := SortRows(rows[..], positions);
    assert |s| == |multiset(s)| == |multiset(rows[..])| == rows.Length;
    forall i | 0 <= i < rows.Length {
      rows[i] := s[i];
    }
    assert rows[..] == s;
  }

  // The stable sort, by insertion.
  method SortRows(s: seq<Row>, positions: map<string, nat>) returns (r: seq<Row>)
    ensures InOrder(r, positions) && multiset(r) == multiset(s)
    ensures forall k :: WithKey(r, k) == WithKey(s, k)
  {
    hide InOrder;
    r := [];
    NothingInOrder(positions);
    for i := 0 to |s|
      invariant InOrder(r, positions) && multiset(r) == multiset(s[..i])
      invariant forall k :: WithKey(r, k) == WithKey(s[..i], k)
    {
      r := InsertRow(r, s[i], positions);
      assert s[..i + 1] == s[..i] + [s[i]];
      assert s[..i + 1][..i] == s[..i];
    }
    assert s[..|s|] == s;
  }

  lemma NothingInOrder(positions: map<string, nat>)
    ensures InOrder([], positions)
  {
  }

  method InsertRow(s: seq<Row>, e: Row, positions: map<string, nat>) returns (r: seq<Row>)
    requires InOrder(s, positions)
    ensures InOrder(r, positions) && multiset(r) == multiset(s) + multiset{e}
    ensures forall k :: WithKey(r, k) == WithKey(s, k) + (if e.key == k then [e] else [])
  {
    hide Before;
    var i := |s|;
    while i > 0 && Before(e.key, s[i - 1].key, positions)
      invariant 0 <= i <= |s|
      invariant i < |s| ==> Before(e.key, s[i].key, positions)
    {
      i := i - 1;
    }
    RowInserted(s, i, e, positions);
    r := s[..i] + [e] + s[i..];
    assert s == s[..i] + s[i..];
    forall k ensures WithKey(r, k) == WithKey(s, k) + (if e.key == k then [e] else []) {
      KeyInserted(s, i, e, positions, k);
    }
  }

  lemma KeyInserted(s: seq<Row>, i: nat, e: Row, positions: map<string, nat>, k: string)
    requires InOrder(s, positions) && i <= |s| && (i < |s| ==> Before(e.key, s[i].key, positions))
    ensures WithKey(s[..i] + [e] + s[i..], k) == WithKey(s, k) + if e.key == k then [e] else []
  {
    hide Before;
    var a, b := s[..i], s[i..];
    assert s == a + b && (a + [e])[..|a|] == a;
    WithKeyConcat(a + [e], b, k);
    WithKeyConcat(a, b, k);
    if e.key == k {
      forall j | 0 <= j < |b| ensures b[j].key != k {
        assert b[j] == s[i + j];
        BeforeAsymmetric(e.key, s[i].key, positions);
      }
      NoneWithKey(b, k);
    }
  }

  lemma {:induction false} NoneWithKey(rows: seq<Row>, k: string)
    requires forall j | 0 <= j < |rows| :: rows[j].key != k
    ensures WithKey(rows, k) == []
  {
    if rows != [] {
      NoneWithKey(rows[..|rows| - 1], k);
    }
  }

  lemma {:induction false} WithKeyConcat(a: seq<Row>, b: seq<Row>, k: string)
    ensures WithKey(a + b, k) == WithKey(a, k) + WithKey(b, k)
  {
    if b == [] {
      assert a + b == a;
    } else {
      assert (a + b)[..|a + b| - 1] == a + b[..|b| - 1];
      WithKeyConcat(a, b[..|b| - 1], k);
    }
  }

  lemma RowInserted(s: seq<Row>, i: nat, e: Row, positions: map<string, nat>)
    requires InOrder(s, positions) && i <= |s|
    requires i < |s| ==> Before(e.key, s[i].key, positions)
    requires i > 0 ==> !Before(e.key, s[i - 1].key, positions)
    ensures InOrder(s[..i] + [e] + s[i..], positions)
  {
    hide Before;
    forall j | 0 <= j < i ensures !Before(e.key, s[j].key, positions) {
      if j < i - 1 {
        BeforeTransitive(s[j].key, s[i - 1].key, e.key, positions);
      }
    }
    forall j | i <= j < |s| ensures !Before(s[j].key, e.key, positions) {
      BeforeAsymmetric(e.key, s[i].key, positions);
      if j > i {
        BeforeTransitive(e.key, s[i].key, s[j].key, positions);
      }
    }
  }

  lemma BeforeAsymmetric(a: string, b: string, positions: map<string, nat>)
    requires Before(a, b, positions)
    ensures !Before(b, a, positions)
  {
    if Less(a, b) && Less(b, a) {
      LessTransitive(a, b, a);
      LessTotal(a, a);
    }
  }

  // ----- nesting is respected -----

  // positions numbers the keys of the paths in l.
  ghost predicate Positioned(positions: map<string, nat>, l: seq<seq<Segment>>) {
    && Preorder(l) && (forall i | 0 <= i < |l| :: l[i] != [] && Rooted(l[i]))
    && Numbers(positions, KeysOf(l)) && |positions| == |l|
  }

  // What EffPos is on paths: where the longest prefix in l stands.
  ghost function Nearest(l: seq<seq<Segment>>, p: seq<Segment>): (r: nat)
    ensures r <= |l| && (r < |l| ==> l[r] <= p)
    decreases |p|
  {
    if i :| 0 <= i < |l| && l[i] == p then i
    else if p == [] then |l|
    else Nearest(l, p[..|p| - 1])
  }

  lemma {:induction false} NearestIsLongest(l: seq<seq<Segment>>, p: seq<Segment>, i: nat)
    requires i < |l| && l[i] <= p
    ensures Nearest(l, p) < |l| && l[i] <= l[Nearest(l, p)]
    decreases |p|
  {
    if exists j :: 0 <= j < |l| && l[j] == p {
    } else {
      assert l[i] != p;
      assert l[i] <= p[..|p| - 1];
      NearestIsLongest(l, p[..|p| - 1], i);
    }
  }

  lemma {:induction false} EffPosOfPath(positions: map<string, nat>, l: seq<seq<Segment>>, p: seq<Segment>)
    requires Positioned(positions, l) && Rooted(p)
    ensures EffPos(Encode(p), positions, |l|) == Nearest(l, p)
    decreases |p|
  {
    hide Encode, Preorder;
    KeyHasPosition(positions, l, p);
    if p == [] {
      EmptyKey();
    } else if Encode(p) !in positions {
      var init := p[..|p| - 1];
      assert p == init + [p[|p| - 1]];
      ParentEncode(init, p[|p| - 1]);
      RootedPrefix(p, |p| - 1);
      RootedPrefix(init, 0);
      EffPosOfPath(positions, l, init);
      EmptyKey();
    }
  }

  lemma KeyHasPosition(positions: map<string, nat>, l: seq<seq<Segment>>, p: seq<Segment>)
    requires Positioned(positions, l) && Rooted(p)
    ensures Encode(p) in positions <==> exists i :: 0 <= i < |l| && l[i] == p
    ensures forall i | 0 <= i < |l| && l[i] == p :: Encode(p) in positions && positions[Encode(p)] == i
  {
    hide Encode, Preorder;
    var order := KeysOf(l);
    if Encode(p) in order {
      var i :| 0 <= i < |order| && order[i] == Encode(p);
      EncodeInjective(l[i], p);
    }
    forall i | 0 <= i < |l| && l[i] == p ensures Encode(p) in positions && positions[Encode(p)] == i {
      assert order[i] == Encode(p);
    }
  }

  lemma Together(l: seq<seq<Segment>>, i: nat, j: nat, k: nat)
    requires Preorder(l) && i <= j <= k < |l| && l[i] <= l[k]
    ensures l[i] <= l[j]
  {
  }

  lemma Following(l: seq<seq<Segment>>, i: nat, j: nat)
    requires Preorder(l) && i < |l| && j < |l| && l[i] <= l[j]
    ensures i <= j
  {
  }

  // A section's row comes before every row below it, overlay-only rows included.
  lemma SectionFirst(positions: map<string, nat>, l: seq<seq<Segment>>, s: seq<Segment>, p: seq<Segment>)
    requires Positioned(positions, l) && s in l && s < p && Rooted(p)
    ensures Before(Encode(s), Encode(p), positions)
  {
    hide Encode, EffPos, Less, Preorder, Nearest, Numbers, KeysOf, Rooted;
    var i :| 0 <= i < |l| && l[i] == s;
    PrefixRooted(s, p);
    EffPosOfPath(positions, l, s);
    EffPosOfPath(positions, l, p);
    NearestIsLongest(l, p, i);
    NearestIsLongest(l, s, i);
    var a := Nearest(l, p);
    Following(l, Nearest(l, s), i);
    Following(l, i, a);
    KeyExtends(s, p);
    LessExtension(Encode(s), Encode(p));
  }

  lemma PrefixRooted(s: seq<Segment>, p: seq<Segment>)
    requires s < p && Rooted(p)
    ensures Rooted(s)
  {
  }

  lemma KeyExtends(s: seq<Segment>, p: seq<Segment>)
    requires s < p && Rooted(p) && s != []
    ensures Encode(s) < Encode(p)
  {
    assert s == p[..|s|];
    PrefixIsDescendant(p, |s|);
    RootedPrefix(p, |s|);
    if Encode(s) == Encode(p) {
      EncodeInjective(s, p);
    }
  }

  // Rows under a section stay together: between two of them is nothing else.
  lemma SectionTogether(positions: map<string, nat>, l: seq<seq<Segment>>, s: seq<Segment>,
                        x: seq<Segment>, y: seq<Segment>, z: seq<Segment>)
    requires Positioned(positions, l) && s in l && s <= x && s <= y
    requires Rooted(x) && Rooted(y) && Rooted(z)
    requires !Before(Encode(z), Encode(x), positions) && !Before(Encode(y), Encode(z), positions)
    ensures s <= z
  {
    hide Encode, EffPos, Less, Preorder, Nearest, Numbers, KeysOf, Rooted;
    var i :| 0 <= i < |l| && l[i] == s;
    EffPosOfPath(positions, l, x);
    EffPosOfPath(positions, l, y);
    EffPosOfPath(positions, l, z);
    NearestIsLongest(l, x, i);
    NearestIsLongest(l, y, i);
    var a, b, c := Nearest(l, x), Nearest(l, y), Nearest(l, z);
    Following(l, i, a);
    Together(l, i, c, b);
    assert s <= l[c] <= z;
  }

  // In every sorted table a section stands before all rows below it, and its rows
  // stand together.
  lemma NestingRespected(rows: seq<Row>, positions: map<string, nat>, l: seq<seq<Segment>>, s: seq<Segment>,
                         paths: seq<seq<Segment>>)
    requires InOrder(rows, positions) && Positioned(positions, l) && s in l && |paths| == |rows|
    requires forall i | 0 <= i < |rows| :: Rooted(paths[i]) && rows[i].key == Encode(paths[i])
    ensures forall i, k | 0 <= i < k < |rows| && paths[k] == s :: !(s < paths[i])
    ensures forall i, j, k | 0 <= i < j < k < |rows| && s <= paths[i] && s <= paths[k] :: s <= paths[j]
  {
    hide Encode, Before;
    forall i, k | 0 <= i < k < |rows| && paths[k] == s ensures !(s < paths[i]) {
      if s < paths[i] {
        SectionFirst(positions, l, s, paths[i]);
      }
    }
    forall i, j, k | 0 <= i < j < k < |rows| && s <= paths[i] && s <= paths[k] ensures s <= paths[j] {
      SectionTogether(positions, l, s, paths[i], paths[k], paths[j]);
    }
  }

  // The positions built from a file with distinct keys are such a numbering exactly if
  // none at its root is empty: that one would share its key with the root.
  lemma BuiltPositions(t: Tree, positions: map<string, nat>)
    requires t.kind == MappingNode && DistinctKeys(t)
    requires Numbers(positions, AppendAll([], KeysOf(PrePaths(t, []))))
    ensures Positioned(positions, PrePaths(t, [])) <==> KeyIndex(t, "") < 0
  {
    hide Encode, Preorder, PrePaths, Numbers;
    if KeyIndex(t, "") < 0 {
      NamedPositions(t, positions);
    } else {
      EmptyNameListed(t, 0);
      assert EntryPaths(t, [], 0) == PrePaths(t, []) by { EntriesOfMapping(t); }
    }
  }

  lemma EntriesOfMapping(t: Tree)
    requires t.kind == MappingNode
    ensures PrePaths(t, []) == EntryPaths(t, [], 0)
  {
  }

  lemma {:induction false} EmptyNameListed(t: Tree, i: nat)
    requires t.kind == MappingNode && KeyIndexFrom(t.kids, "", i) >= 0
    ensures [Name("")] in EntryPaths(t, [], i)
    decreases |t.kids| - i
  {
    var rest := EntryPaths(t, [], i + 2);
    if IsMergeKey(t.kids[i]) || t.kids[i].value != "" {
      EmptyNameListed(t, i + 2);
    } else {
      assert [] + [Name("")] == [Name("")];
      assert Block(t.kids[i + 1], [Name("")])[0] == [Name("")];
    }
  }

  lemma NamedPositions(t: Tree, positions: map<string, nat>)
    requires t.kind == MappingNode && DistinctKeys(t) && KeyIndex(t, "") < 0
    requires Numbers(positions, AppendAll([], KeysOf(PrePaths(t, []))))
    ensures Positioned(positions, PrePaths(t, []))
  {
    hide Encode, Preorder, PrePaths;
    var l := PrePaths(t, []);
    PrePathsOrdered(t, []);
    PathsRooted(t);
    var order := KeysOf(l);
    forall i, j | 0 <= i < j < |[] + order| ensures ([] + order)[i] != ([] + order)[j] {
      PathsDiffer(l, i, j);
      if Encode(l[i]) == Encode(l[j]) {
        EncodeInjective(l[i], l[j]);
      }
    }
    AppendDistinct([], order);
    assert [] + order == order;
    SizeOf(positions, order);
  }

  lemma PathsDiffer(l: seq<seq<Segment>>, i: nat, j: nat)
    requires Preorder(l) && i < j < |l|
    ensures l[i] != l[j]
  {
  }

  lemma PathsRooted(t: Tree)
    requires t.kind == MappingNode && DistinctKeys(t) && KeyIndex(t, "") < 0
    ensures forall i | 0 <= i < |PrePaths(t, [])| :: PrePaths(t, [])[i] != [] && Rooted(PrePaths(t, [])[i])
  {
    hide Preorder;
    EntriesOrdered(t, [], 0);
    NoKey(t.kids, "", 0);
    forall i | 0 <= i < |PrePaths(t, [])| ensures PrePaths(t, [])[i] != [] && Rooted(PrePaths(t, [])[i]) {
      assert NamedFrom(t, 0, EntryPaths(t, [], 0)[i][0]);
    }
  }

  lemma {:induction false} NoKey(kids: seq<Tree>, name: string, i: nat)
    requires KeyIndexFrom(kids, name, i) < 0 && i % 2 == 0
    ensures forall j {:trigger kids[j]} | i <= j && j + 1 < |kids| && j % 2 == 0 && !IsMergeKey(kids[j]) ::
      kids[j].value != name
    decreases |kids| - i
  {
    if i + 1 < |kids| {
      NoKey(kids, name, i + 2);
      forall j {:trigger kids[j]} | i <= j && j + 1 < |kids| && j % 2 == 0 && !IsMergeKey(kids[j])
        ensures kids[j].value != name
      {
        assert j != i + 1;
      }
    }
  }

  lemma {:induction false} SizeOf(positions: map<string, nat>, order: seq<string>)
    requires Numbers(positions, order)
    ensures |positions| == |order|
  {
    var image := set i | 0 <= i < |order| :: order[i];
    assert positions.Keys == image by {
      forall k | k in order ensures k in image {
        var i :| 0 <= i < |order| && order[i] == k;
      }
    }
    ImageSize(order, |order|);
    assert |positions| == |positions.Keys|;
  }

  lemma {:induction false} ImageSize(order: seq<string>, n: nat)
    requires n <= |order| && forall i, j | 0 <= i < j < |order| :: order[i] != order[j]
    ensures |set i | 0 <= i < n :: order[i]| == n
  {
    var image := set i | 0 <= i < n :: order[i];
    if n == 0 {
      assert image == {};
    } else {
      ImageSize(order, n - 1);
      var rest := set i | 0 <= i < n - 1 :: order[i];
      assert image == rest + {order[n - 1]} && order[n - 1] !in rest;
    }
  }
}
