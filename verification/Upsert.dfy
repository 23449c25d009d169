/** upsertPath: writing one scalar at a path, as a function of the denoted tree
  and as edits of the node graph. */
module Upsert {
  import opened Prelude
  import opened KeyPath
  import opened YamlNode
  import opened Anchors
  import opened Lookup
  import opened Reading
  import opened Walk

  // The scalar that encoding a converted override value yields.
  datatype Leaf = Leaf(tag: string, value: string, style: int)

  // ----- upsert on trees -----

  function LeafTree(leaf: Leaf): Tree {
    Tree(ScalarNode, leaf.tag, leaf.value, [])
  }

  function NullTree(): Tree {
    Tree(ScalarNode, TAG_NULL, TYPE_NULL, [])
  }

  // containerForNextSegment
  function EmptyFor(next: Segment): Tree {
    if next.Index? then Tree(SequenceNode, TAG_SEQ, "", []) else Tree(MappingNode, TAG_MAP, "", [])
  }

  // A sequence is padded with nulls up to an index beyond its end.
  function Pad(kids: seq<Tree>, i: nat): (r: seq<Tree>)
    ensures |r| == if i < |kids| then |kids| else i + 1
    ensures forall j | 0 <= j < |r| :: r[j] == if j < |kids| then kids[j] else NullTree()
  {
    if i < |kids| then kids else kids + Nulls(i + 1 - |kids|)
  }

  function Nulls(n: nat): seq<Tree> {
    seq(n, _ => NullTree())
  }

  lemma NullsSnoc(n: nat)
    ensures Nulls(n) + [NullTree()] == Nulls(n + 1)
  {
  }

  predicate Fits(t: Tree, seg: Segment) {
    t.kind == if seg.Index? then SequenceNode else MappingNode
  }

  // The child that the walk goes on from: the one present if it is a container,
  // else a new one of the shape the next segment wants.
  function ChildFor(t: Tree, seg: Segment, next: Segment): Tree {
    match LocalStep(t, seg)
    case Some(u) => if IsContainer(u) then u else EmptyFor(next)
    case None => EmptyFor(next)
  }

  // t with u at seg.
  function Put(t: Tree, seg: Segment, u: Tree): Tree
    requires Fits(t, seg)
  {
    match seg
    case Index(i) => t.(kids := Pad(t.kids, i)[i := u])
    case Name(n) =>
      var idx := KeyIndex(t, n);
      if idx < 0 then t.(kids := t.kids + [Text(n), u]) else t.(kids := t.kids[idx + 1 := u])
  }

  function Upserted(t: Tree, segs: seq<Segment>, leaf: Leaf): Option<Tree>
    requires segs != []
    decreases |segs|
  {
    if !Fits(t, segs[0]) then None
    else if |segs| == 1 then Some(Put(t, segs[0], LeafTree(leaf)))
    else match Upserted(ChildFor(t, segs[0], segs[1]), segs[1..], leaf)
      case None => None
      case Some(u) => Some(Put(t, segs[0], u))
  }

  // Whether every container already on the path has the shape its segment needs.
  predicate PathFits(t: Tree, segs: seq<Segment>)
    requires segs != []
    decreases |segs|
  {
    && Fits(t, segs[0])
    && (|segs| > 1 ==> PathFits(ChildFor(t, segs[0], segs[1]), segs[1..]))
  }

  lemma {:induction false} UpsertSucceeds(t: Tree, segs: seq<Segment>, leaf: Leaf)
    requires segs != []
    ensures Upserted(t, segs, leaf).Some? <==> PathFits(t, segs)
    decreases |segs|
  {
    if |segs| > 1 && Fits(t, segs[0]) {
      UpsertSucceeds(ChildFor(t, segs[0], segs[1]), segs[1..], leaf);
    }
  }

  // ----- what an upsert does to reads -----

  predicate NoMergeNames(segs: seq<Segment>) {
    forall s | s in segs :: s != Name(MERGE_KEY)
  }

  lemma NoMergeSlice(segs: seq<Segment>, a: nat, b: nat)
    requires NoMergeNames(segs) && a <= b <= |segs|
    ensures NoMergeNames(segs[a..b])
  {
    forall s | s in segs[a..b] ensures s in segs {}
  }

  lemma {:induction false} KeyIndexAppend(kids: seq<Tree>, key: Tree, u: Tree, name: string, i: nat)
    requires |kids| % 2 == 0 && i % 2 == 0 && i <= |kids|
    ensures KeyIndexFrom(kids + [key, u], name, i) ==
      if KeyIndexFrom(kids, name, i) >= 0 then KeyIndexFrom(kids, name, i)
      else if !IsMergeKey(key) && key.value == name then |kids| else -1
    decreases |kids| - i
  {
    if i + 1 < |kids| {
      KeyIndexAppend(kids, key, u, name, i + 2);
    } else {
      assert KeyIndexFrom(kids + [key, u], name, |kids| + 2) == -1;
    }
  }

  lemma {:induction false} KeyIndexReplace(kids: seq<Tree>, at: nat, u: Tree, name: string, i: nat)
    requires at < |kids| && at % 2 == 1 && i % 2 == 0
    ensures KeyIndexFrom(kids[at := u], name, i) == KeyIndexFrom(kids, name, i)
    decreases |kids| - i
  {
    if i + 1 < |kids| {
      KeyIndexReplace(kids, at, u, name, i + 2);
    }
  }

  // Mappings pair every key with a value.
  predicate Paired(t: Tree) {
    t.kind == MappingNode ==> |t.kids| % 2 == 0
  }

  lemma PutReads(t: Tree, seg: Segment, u: Tree)
    requires Fits(t, seg) && Paired(t) && seg != Name(MERGE_KEY)
    ensures LocalStep(Put(t, seg, u), seg) == Some(u)
    ensures Paired(Put(t, seg, u))
  {
    if seg.Name? {
      KeyIndexEven(t.kids, seg.name, 0);
      if KeyIndex(t, seg.name) < 0 {
        KeyIndexAppend(t.kids, Text(seg.name), u, seg.name, 0);
      } else {
        KeyIndexReplace(t.kids, KeyIndex(t, seg.name) + 1, u, seg.name, 0);
      }
    }
  }

  // Where Put stores its child.
  lemma PutIndex(t: Tree, name: string, u: Tree)
    requires t.kind == MappingNode && Paired(t) && name != MERGE_KEY
    ensures KeyIndex(Put(t, Name(name), u), name) == if KeyIndex(t, name) < 0 then |t.kids| else KeyIndex(t, name)
  {
    KeyIndexEven(t.kids, name, 0);
    if KeyIndex(t, name) < 0 {
      KeyIndexAppend(t.kids, Text(name), u, name, 0);
    } else {
      KeyIndexReplace(t.kids, KeyIndex(t, name) + 1, u, name, 0);
    }
  }

  // ----- an upsert as a change of one subtree -----

  // t with u in place of the subtree that p leads to.
  function Plug(t: Tree, p: seq<Segment>, u: Tree): Tree
    decreases |p|
  {
    if p == [] then u
    else match LocalStep(t, p[0])
      case None => t
      case Some(c) => Put(t, p[0], Plug(c, p[1..], u))
  }

  // Every subtree on the way along p is a container with paired keys.
  ghost predicate OpenPath(t: Tree, p: seq<Segment>)
    decreases |p|
  {
    && IsContainer(t) && Paired(t)
    && (p != [] ==> LocalStep(t, p[0]).Some? && p[0] != Name(MERGE_KEY) && OpenPath(LocalStep(t, p[0]).value, p[1..]))
  }

  lemma StepFits(t: Tree, seg: Segment)
    requires LocalStep(t, seg).Some?
    ensures Fits(t, seg)
  {
  }

  // Writing twice at one place keeps the second.
  lemma PutPut(t: Tree, seg: Segment, u: Tree, w: Tree)
    requires Fits(t, seg) && Paired(t) && seg != Name(MERGE_KEY)
    ensures Fits(Put(t, seg, u), seg) && Put(Put(t, seg, u), seg, w) == Put(t, seg, w)
  {
    if seg.Name? {
      PutIndex(t, seg.name, u);
      KeyIndexEven(t.kids, seg.name, 0);
      var idx := KeyIndex(t, seg.name);
      if idx < 0 {
        assert (t.kids + [Text(seg.name), u])[|t.kids| + 1 := w] == t.kids + [Text(seg.name), w];
      } else {
        assert t.kids[idx + 1 := u][idx + 1 := w] == t.kids[idx + 1 := w];
      }
    } else {
      assert Pad(Pad(t.kids, seg.index)[seg.index := u], seg.index)[seg.index := w] ==
        Pad(t.kids, seg.index)[seg.index := w];
    }
  }

  lemma {:induction false} PlugReads(t: Tree, p: seq<Segment>, u: Tree)
    requires OpenPath(t, p)
    requires IsContainer(u) && Paired(u)
    ensures OpenPath(Plug(t, p, u), p) && LocalWalk(Plug(t, p, u), p) == Some(u)
    decreases |p|
  {
    if p != [] {
      var c := LocalStep(t, p[0]).value;
      StepFits(t, p[0]);
      PlugReads(c, p[1..], u);
      PutReads(t, p[0], Plug(c, p[1..], u));
    }
  }

  lemma {:induction false} PlugPlug(t: Tree, p: seq<Segment>, u: Tree, w: Tree)
    requires OpenPath(t, p)
    ensures Plug(Plug(t, p, u), p, w) == Plug(t, p, w)
    decreases |p|
  {
    if p != [] {
      var c := LocalStep(t, p[0]).value;
      StepFits(t, p[0]);
      PlugPlug(c, p[1..], u, w);
      PutReads(t, p[0], Plug(c, p[1..], u));
      PutPut(t, p[0], Plug(c, p[1..], u), Plug(c, p[1..], w));
    }
  }

  // Upserting through open containers is upserting below and plugging in.
  lemma {:induction false} UpsertedAsPlug(t: Tree, p: seq<Segment>, q: seq<Segment>, leaf: Leaf)
    requires OpenPath(t, p) && q != []
    ensures LocalWalk(t, p).Some?
    ensures Upserted(t, p + q, leaf) ==
      match Upserted(LocalWalk(t, p).value, q, leaf)
      case None => None
      case Some(w) => Some(Plug(t, p, w))
    decreases |p|
  {
    if p == [] {
      assert p + q == q;
    } else {
      var c := LocalStep(t, p[0]).value;
      StepFits(t, p[0]);
      UpsertedAsPlug(c, p[1..], q, leaf);
      assert (p + q)[1..] == p[1..] + q && (p + q)[0] == p[0];
      assert ChildFor(t, p[0], (p + q)[1]) == c;
    }
  }

  // Creating the next container first makes no difference to the upsert.
  lemma UpsertedAfterStep(t: Tree, segs: seq<Segment>, leaf: Leaf)
    requires |segs| > 1 && Fits(t, segs[0]) && Paired(t) && segs[0] != Name(MERGE_KEY)
    ensures Upserted(Put(t, segs[0], ChildFor(t, segs[0], segs[1])), segs, leaf) == Upserted(t, segs, leaf)
  {
    var c := ChildFor(t, segs[0], segs[1]);
    PutReads(t, segs[0], c);
    var r := Upserted(c, segs[1..], leaf);
    if r.Some? {
      PutPut(t, segs[0], c, r.value);
    }
  }

  // Two in-place changes along the path of an upsert leave its result alone.
  lemma UpsertedAfterPlug(t: Tree, p: seq<Segment>, q: seq<Segment>, u: Tree, leaf: Leaf)
    requires OpenPath(t, p) && q != [] && IsContainer(u) && Paired(u)
    requires LocalWalk(t, p).Some? ==> Upserted(u, q, leaf) == Upserted(LocalWalk(t, p).value, q, leaf)
    ensures Upserted(Plug(t, p, u), p + q, leaf) == Upserted(t, p + q, leaf)
  {
    UpsertedAsPlug(t, p, q, leaf);
    PlugReads(t, p, u);
    UpsertedAsPlug(Plug(t, p, u), p, q, leaf);
    var r := Upserted(u, q, leaf);
    if r.Some? {
      PlugPlug(t, p, u, r.value);
    }
  }
}
