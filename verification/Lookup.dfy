/** Reading a path: lazily on the graph, as findEffectiveScalar does, and in the
  fully expanded value, as LookupRawValue does. */
module Lookup {
  import opened Prelude
  import opened KeyPath
  import opened YamlNode

  // ----- lazy lookup, on the tree a node denotes -----

  predicate IsMergeKey(key: Tree) {
    key.tag == MERGE_TAG || key.value == MERGE_KEY
  }

  function KeyIndexFrom(kids: seq<Tree>, name: string, i: nat): (idx: int)
    ensures idx < 0 || (i <= idx && idx + 1 < |kids|)
    decreases |kids| - i
  {
    if i + 1 >= |kids| then -1
    else if !IsMergeKey(kids[i]) && kids[i].value == name then i
    else KeyIndexFrom(kids, name, i + 2)
  }

  // mappingKeyIndex: the position of the first local key called name.
  function KeyIndex(t: Tree, name: string): (idx: int)
    ensures idx < 0 || idx + 1 < |t.kids|
  {
    if t.kind == MappingNode then KeyIndexFrom(t.kids, name, 0) else -1
  }

  // mappingValueWithMerge: local keys, then merge sources in order.
  function ValueWithMerge(t: Tree, name: string): (r: Option<Tree>)
    ensures r.Some? ==> r.value < t
    decreases t, |t.kids| + 1, 0
  {
    var idx := KeyIndex(t, name);
    if idx >= 0 then Some(t.kids[idx + 1]) else MergedFrom(t, name, 0)
  }

  function MergedFrom(t: Tree, name: string, i: nat): (r: Option<Tree>)
    ensures r.Some? ==> r.value < t
    decreases t, |t.kids| - i, 0
  {
    if i + 1 >= |t.kids| then None
    else if !IsMergeKey(t.kids[i]) then MergedFrom(t, name, i + 2)
    else
      var found := SourceFind(t.kids[i + 1], name);
      if found.Some? then found else MergedFrom(t, name, i + 2)
  }

  // One merge source: a mapping, a sequence of them, or something to skip.
  function SourceFind(src: Tree, name: string): (r: Option<Tree>)
    ensures r.Some? ==> r.value < src
    decreases src, |src.kids| + 2, 0
  {
    if src.kind == SequenceNode then FirstItem(src, name, 0)
    else if src.kind == MappingNode then ValueWithMerge(src, name)
    else None
  }

  function FirstItem(src: Tree, name: string, j: nat): (r: Option<Tree>)
    ensures r.Some? ==> r.value < src
    decreases src, |src.kids| - j, 0
  {
    if j >= |src.kids| then None
    else
      var found := ValueWithMerge(src.kids[j], name);
      if found.Some? then found else FirstItem(src, name, j + 1)
  }

  function LazyStep(t: Tree, seg: Segment): (r: Option<Tree>)
    ensures r.Some? ==> r.value < t
  {
    match seg
    case Index(i) => if t.kind == SequenceNode && i < |t.kids| then Some(t.kids[i]) else None
    case Name(n) => if t.kind == MappingNode then ValueWithMerge(t, n) else None
  }

  function LazyWalk(t: Tree, segs: seq<Segment>): Option<Tree> {
    if segs == [] then Some(t)
    else match LazyStep(t, segs[0])
      case None => None
      case Some(u) => LazyWalk(u, segs[1..])
  }

  // findEffectiveScalar.
  function EffectiveScalar(t: Tree, segs: seq<Segment>): Option<string> {
    match LazyWalk(t, segs)
    case Some(u) => if u.kind == ScalarNode then Some(u.value) else None
    case None => None
  }

  // ----- the eagerly expanded value -----

  // The merge-key type: "<<", resolved as a merge key.  Quoted, it is an ordinary key.
  predicate IsMergeType(key: Tree) {
    key.tag == MERGE_TAG && key.value == MERGE_KEY
  }

  // A scalar's tag says what it is decoded to.
  datatype Value =
    | Scalar(tag: string, text: string)
    | Map(entries: map<string, Value>)
    | List(items: seq<Value>)
    | Other

  // Aliases are gone from a tree already; merge keys go here.
  function Expand(t: Tree): Value
    decreases t, 2, 0
  {
    match t.kind
    case ScalarNode => Scalar(t.tag, t.value)
    case MappingNode => Map(ExpandMap(t))
    case SequenceNode => List(seq(|t.kids|, i requires 0 <= i < |t.kids| => Expand(t.kids[i])))
    case _ => Other
  }

  // What a mapping inherits, overlaid with what it says itself.
  function ExpandMap(t: Tree): map<string, Value>
    decreases t, 1, |t.kids| + 1
  {
    Inherited(t, 0) + Locals(t, 0)
  }

  // The local entries; the first of two equal keys wins.
  function Locals(t: Tree, i: nat): map<string, Value>
    decreases t, 1, |t.kids| - i
  {
    if i + 1 >= |t.kids| then map[]
    else if IsMergeType(t.kids[i]) then Locals(t, i + 2)
    else Locals(t, i + 2)[t.kids[i].value := Expand(t.kids[i + 1])]
  }

  // The merge sources; an earlier one overrides a later one.
  function Inherited(t: Tree, i: nat): map<string, Value>
    decreases t, 1, |t.kids| - i
  {
    if i + 1 >= |t.kids| then map[]
    else if !IsMergeType(t.kids[i]) then Inherited(t, i + 2)
    else
      Inherited(t, i + 2) + FromSource(t.kids[i + 1])
  }

  function FromSource(src: Tree): map<string, Value>
    decreases src, 1, |src.kids| + 2
  {
    if src.kind == SequenceNode then InheritedItems(src, 0)
    else if src.kind == MappingNode then ExpandMap(src)
    else map[]
  }

  function InheritedItems(src: Tree, j: nat): map<string, Value>
    decreases src, 1, |src.kids| - j
  {
    if j >= |src.kids| then map[]
    else InheritedItems(src, j + 1) + (if src.kids[j].kind == MappingNode then ExpandMap(src.kids[j]) else map[])
  }

  // LookupRawValue's walk, which the empty path never enters.
  function Find(v: Value, segs: seq<Segment>): Option<Value> {
    if segs == [] then Some(v)
    else match segs[0]
      case Index(i) => if v.List? && i < |v.items| then Find(v.items[i], segs[1..]) else None
      case Name(n) => if v.Map? && n in v.entries then Find(v.entries[n], segs[1..]) else None
  }

  function FindScalar(v: Value, segs: seq<Segment>): Option<string> {
    match Find(v, segs)
    case Some(Scalar(_, s)) => Some(s)
    case _ => None
  }

  lemma {:induction false} FindConcat(v: Value, p: seq<Segment>, q: seq<Segment>)
    ensures Find(v, p + q) == match Find(v, p) case None => None case Some(u) => Find(u, q)
    decreases |p|
  {
    if p == [] {
      assert p + q == q;
    } else {
      assert (p + q)[1..] == p[1..] + q;
      match p[0] {
        case Index(i) => if v.List? && i < |v.items| { FindConcat(v.items[i], p[1..], q); }
        case Name(n) => if v.Map? && n in v.entries { FindConcat(v.entries[n], p[1..], q); }
      }
    }
  }

  lemma {:induction false} LazyWalkConcat(t: Tree, p: seq<Segment>, q: seq<Segment>)
    ensures LazyWalk(t, p + q) == match LazyWalk(t, p) case None => None case Some(u) => LazyWalk(u, q)
    decreases |p|
  {
    if p == [] {
      assert p + q == q;
    } else {
      assert (p + q)[1..] == p[1..] + q;
      if LazyStep(t, p[0]).Some? {
        LazyWalkConcat(LazyStep(t, p[0]).value, p[1..], q);
      }
    }
  }

  // ----- what the lookup finds is part of the document -----

  ghost predicate PartOf(u: Tree, t: Tree) {
    u == t || exists k :: k in t.kids && PartOf(u, k)
  }

  lemma WithinKid(u: Tree, t: Tree, i: nat)
    requires i < |t.kids| && PartOf(u, t.kids[i])
    ensures PartOf(u, t)
  {
    assert t.kids[i] in t.kids;
  }

  lemma {:induction false} ValueWithin(t: Tree, name: string)
    requires ValueWithMerge(t, name).Some?
    ensures PartOf(ValueWithMerge(t, name).value, t)
    decreases t, |t.kids| + 1
  {
    var idx := KeyIndex(t, name);
    if idx >= 0 {
      WithinKid(t.kids[idx + 1], t, idx + 1);
    } else {
      MergedWithin(t, name, 0);
    }
  }

  lemma {:induction false} MergedWithin(t: Tree, name: string, i: nat)
    requires MergedFrom(t, name, i).Some?
    ensures PartOf(MergedFrom(t, name, i).value, t)
    decreases t, |t.kids| - i
  {
    var src := t.kids[i + 1];
    if !IsMergeKey(t.kids[i]) || SourceFind(src, name).None? {
      MergedWithin(t, name, i + 2);
    } else {
      if src.kind == SequenceNode {
        ItemWithin(src, name, 0);
      } else {
        ValueWithin(src, name);
      }
      WithinKid(SourceFind(src, name).value, t, i + 1);
    }
  }

  lemma {:induction false} ItemWithin(src: Tree, name: string, j: nat)
    requires FirstItem(src, name, j).Some?
    ensures PartOf(FirstItem(src, name, j).value, src)
    decreases src, |src.kids| - j
  {
    if ValueWithMerge(src.kids[j], name).Some? {
      ValueWithin(src.kids[j], name);
      WithinKid(ValueWithMerge(src.kids[j], name).value, src, j);
    } else {
      ItemWithin(src, name, j + 1);
    }
  }

  lemma StepWithin(t: Tree, seg: Segment)
    requires LazyStep(t, seg).Some?
    ensures PartOf(LazyStep(t, seg).value, t)
  {
    match seg {
      case Index(i) => WithinKid(t.kids[i], t, i);
      case Name(n) => ValueWithin(t, n);
    }
  }

  lemma {:induction false} WithinWithin(u: Tree, v: Tree, t: Tree)
    requires PartOf(u, v) && PartOf(v, t)
    ensures PartOf(u, t)
    decreases t
  {
    if v != t {
      var k :| k in t.kids && PartOf(v, k);
      WithinWithin(u, v, k);
    }
  }

  lemma {:induction false} WalkWithin(t: Tree, segs: seq<Segment>)
    requires LazyWalk(t, segs).Some?
    ensures PartOf(LazyWalk(t, segs).value, t)
    decreases |segs|
  {
    if segs != [] {
      StepWithin(t, segs[0]);
      WalkWithin(LazyStep(t, segs[0]).value, segs[1..]);
      WithinWithin(LazyWalk(t, segs).value, LazyStep(t, segs[0]).value, t);
    }
  }

  // ----- the documents on which the two can be compared -----

  // A merge source is a mapping or a sequence of mappings, as the merge-key type
  // has it: on other documents the decoder reports an error.  Anything else in a
  // source's place is skipped.
  ghost predicate MergesMappings(t: Tree) {
    && (t.kind == MappingNode ==>
          forall i | 0 <= i && i + 1 < |t.kids| && i % 2 == 0 && IsMergeKey(t.kids[i]) ::
            t.kids[i + 1].kind == SequenceNode ==> AllMappings(t.kids[i + 1].kids))
    && forall k | k in t.kids :: MergesMappings(k)
  }

  predicate AllMappings(ts: seq<Tree>) {
    forall j | 0 <= j < |ts| :: ts[j].kind == MappingNode
  }

  // A key reads "<<" exactly if it is resolved as a merge key.
  predicate ReadsRight(key: Tree) {
    key.value == MERGE_KEY <==> key.tag == MERGE_TAG
  }

  predicate KeyOf(t: Tree, i: int) {
    t.kind == MappingNode && 0 <= i && i + 1 < |t.kids| && i % 2 == 0
  }

  ghost predicate KeysResolved(t: Tree) {
    && (forall i {:trigger KeyOf(t, i)} | KeyOf(t, i) :: ReadsRight(t.kids[i]))
    && forall k | k in t.kids :: KeysResolved(k)
  }

  // The same of the keys that the entries of one mapping depend on: its own and those
  // of what it merges.
  ghost predicate EntriesResolved(t: Tree)
    decreases t, 1
  {
    forall i {:trigger KeyOf(t, i)} | KeyOf(t, i) ::
      ReadsRight(t.kids[i]) && (IsMergeKey(t.kids[i]) ==> SourceResolved(t.kids[i + 1]))
  }

  ghost predicate SourceResolved(src: Tree)
    decreases src, 2
  {
    if src.kind == SequenceNode
    then forall j {:trigger src.kids[j]} | 0 <= j < |src.kids| :: EntriesResolved(src.kids[j])
    else EntriesResolved(src)
  }

  // Nothing but "<<" is tagged a merge key, as in every document that does not say so
  // itself.
  ghost predicate MergeTagsRead(t: Tree) {
    && (forall i {:trigger KeyOf(t, i)} | KeyOf(t, i) :: t.kids[i].tag == MERGE_TAG ==> t.kids[i].value == MERGE_KEY)
    && forall k | k in t.kids :: MergeTagsRead(k)
  }

  lemma {:induction false} WithinMerges(t: Tree, u: Tree)
    requires PartOf(u, t)
    ensures MergesMappings(t) ==> MergesMappings(u)
    ensures MergeTagsRead(t) ==> MergeTagsRead(u)
    decreases t
  {
    if u != t {
      var k :| k in t.kids && PartOf(u, k);
      WithinMerges(k, u);
    }
  }

  lemma {:induction false} WithinResolved(t: Tree, u: Tree)
    requires PartOf(u, t) && KeysResolved(t)
    ensures KeysResolved(u)
    decreases t
  {
    if u != t {
      var k :| k in t.kids && PartOf(u, k);
      WithinResolved(k, u);
    }
  }

  lemma {:induction false} ResolvedEntries(t: Tree)
    requires KeysResolved(t)
    ensures EntriesResolved(t)
    decreases t, 1
  {
    forall i {:trigger KeyOf(t, i)} | KeyOf(t, i) && IsMergeKey(t.kids[i]) ensures SourceResolved(t.kids[i + 1]) {
      assert t.kids[i + 1] in t.kids;
      ResolvedSource(t.kids[i + 1]);
    }
  }

  lemma {:induction false} ResolvedSource(src: Tree)
    requires KeysResolved(src)
    ensures SourceResolved(src)
    decreases src, 2
  {
    if src.kind == SequenceNode {
      forall j {:trigger src.kids[j]} | 0 <= j < |src.kids| ensures EntriesResolved(src.kids[j]) {
        assert src.kids[j] in src.kids;
        ResolvedEntries(src.kids[j]);
      }
    } else {
      ResolvedEntries(src);
    }
  }

  // ----- lazy lookup refines eager expansion -----

  // The lazy result r is what the expanded mapping m holds at name.
  ghost predicate Agree(r: Option<Tree>, m: map<string, Value>, name: string) {
    if r.Some? then name in m && m[name] == Expand(r.value) else name !in m
  }

  lemma {:induction false} LocalsAgree(t: Tree, name: string, i: nat)
    requires t.kind == MappingNode && EntriesResolved(t) && i % 2 == 0
    ensures var idx := KeyIndexFrom(t.kids, name, i);
      Agree(if idx < 0 then None else Some(t.kids[idx + 1]), Locals(t, i), name)
    decreases |t.kids| - i
  {
    if i + 1 < |t.kids| {
      assert KeyOf(t, i);
      LocalsAgree(t, name, i + 2);
    }
  }

  lemma {:induction false} ValueAgrees(t: Tree, name: string)
    requires t.kind == MappingNode && MergesMappings(t) && EntriesResolved(t)
    ensures Agree(ValueWithMerge(t, name), ExpandMap(t), name)
    decreases t, |t.kids| + 1
  {
    LocalsAgree(t, name, 0);
    MergedAgrees(t, name, 0);
  }

  lemma {:induction false} MergedAgrees(t: Tree, name: string, i: nat)
    requires t.kind == MappingNode && MergesMappings(t) && EntriesResolved(t) && i % 2 == 0
    ensures Agree(MergedFrom(t, name, i), Inherited(t, i), name)
    decreases t, |t.kids| - i
  {
    if i + 1 < |t.kids| {
      MergedAgrees(t, name, i + 2);
      assert t.kids[i + 1] in t.kids && KeyOf(t, i);
      if IsMergeKey(t.kids[i]) {
        SourceAgrees(t.kids[i + 1], name);
      }
    }
  }

  lemma {:induction false} SourceAgrees(src: Tree, name: string)
    requires MergesMappings(src) && SourceResolved(src) && (src.kind == SequenceNode ==> AllMappings(src.kids))
    ensures Agree(SourceFind(src, name), FromSource(src), name)
    decreases src, |src.kids| + 2
  {
    if src.kind == SequenceNode {
      ItemsAgree(src, name, 0);
    } else if src.kind == MappingNode {
      ValueAgrees(src, name);
    }
  }

  lemma {:induction false} ItemsAgree(src: Tree, name: string, j: nat)
    requires src.kind == SequenceNode && MergesMappings(src) && SourceResolved(src) && AllMappings(src.kids)
    ensures Agree(FirstItem(src, name, j), InheritedItems(src, j), name)
    decreases src, |src.kids| - j
  {
    if j < |src.kids| {
      ItemsAgree(src, name, j + 1);
      assert src.kids[j] in src.kids;
      ValueAgrees(src.kids[j], name);
    }
  }

  // ----- a quoted "<<" -----

  // The lazy lookup never finds "<<" itself.
  lemma {:induction false} MergeNotFound(t: Tree)
    ensures ValueWithMerge(t, MERGE_KEY) == None
    decreases t, |t.kids| + 1
  {
    MergeIsNoKey(t.kids, 0);
    MergeNotMerged(t, 0);
  }

  lemma {:induction false} MergeIsNoKey(kids: seq<Tree>, i: nat)
    ensures KeyIndexFrom(kids, MERGE_KEY, i) < 0
    decreases |kids| - i
  {
    if i + 1 < |kids| {
      MergeIsNoKey(kids, i + 2);
    }
  }

  lemma {:induction false} MergeNotMerged(t: Tree, i: nat)
    ensures MergedFrom(t, MERGE_KEY, i) == None
    decreases t, |t.kids| - i
  {
    if i + 1 < |t.kids| {
      MergeNotMerged(t, i + 2);
      var src := t.kids[i + 1];
      if src.kind == SequenceNode {
        MergeInNoItem(src, 0);
      } else {
        MergeNotFound(src);
      }
    }
  }

  lemma {:induction false} MergeInNoItem(src: Tree, j: nat)
    ensures FirstItem(src, MERGE_KEY, j) == None
    decreases src, |src.kids| - j
  {
    if j < |src.kids| {
      MergeInNoItem(src, j + 1);
      MergeNotFound(src.kids[j]);
    }
  }

  // The expansion has it, if it is quoted somewhere in the mapping or its sources.
  lemma {:induction false} QuotedIsExpanded(t: Tree)
    requires t.kind == MappingNode && MergesMappings(t) && MergeTagsRead(t) && !EntriesResolved(t)
    ensures MERGE_KEY in ExpandMap(t)
    decreases t, |t.kids| + 1
  {
    var i: int :| KeyOf(t, i) && !(ReadsRight(t.kids[i]) && (IsMergeKey(t.kids[i]) ==> SourceResolved(t.kids[i + 1])));
    if ReadsRight(t.kids[i]) {
      QuotedIsInherited(t, i, 0);
    } else {
      QuotedIsLocal(t, i, 0);
    }
  }

  lemma {:induction false} QuotedIsLocal(t: Tree, i: nat, from: nat)
    requires KeyOf(t, i) && !IsMergeType(t.kids[i]) && t.kids[i].value == MERGE_KEY && from <= i && from % 2 == 0
    ensures MERGE_KEY in Locals(t, from)
    decreases i - from
  {
    if from < i {
      QuotedIsLocal(t, i, from + 2);
    }
  }

  lemma {:induction false} QuotedIsInherited(t: Tree, i: nat, from: nat)
    requires KeyOf(t, i) && MergesMappings(t) && MergeTagsRead(t) && ReadsRight(t.kids[i]) && from <= i && from % 2 == 0
    requires IsMergeKey(t.kids[i]) && !SourceResolved(t.kids[i + 1])
    ensures MERGE_KEY in Inherited(t, from)
    decreases t, i - from
  {
    if from < i {
      QuotedIsInherited(t, i, from + 2);
    } else {
      var src := t.kids[i + 1];
      assert src in t.kids;
      if src.kind == SequenceNode {
        var j :| 0 <= j < |src.kids| && !EntriesResolved(src.kids[j]);
        QuotedInItem(src, j, 0);
      } else {
        QuotedIsExpanded(src);
      }
    }
  }

  lemma {:induction false} QuotedInItem(src: Tree, j: nat, from: nat)
    requires MergesMappings(src) && MergeTagsRead(src) && AllMappings(src.kids) && from <= j < |src.kids| &&
      !EntriesResolved(src.kids[j])
    ensures MERGE_KEY in InheritedItems(src, from)
    decreases src, j - from
  {
    if from < j {
      QuotedInItem(src, j, from + 1);
    } else {
      assert src.kids[j] in src.kids;
      QuotedIsExpanded(src.kids[j]);
    }
  }

  // One mapping: the lookup agrees with the expansion at every name exactly if no "<<"
  // it depends on is quoted.
  lemma EntriesAgreeExactly(t: Tree)
    requires t.kind == MappingNode && MergesMappings(t) && MergeTagsRead(t)
    ensures (forall name :: Agree(ValueWithMerge(t, name), ExpandMap(t), name)) <==> EntriesResolved(t)
  {
    if EntriesResolved(t) {
      forall name ensures Agree(ValueWithMerge(t, name), ExpandMap(t), name) {
        ValueAgrees(t, name);
      }
    } else {
      QuotedIsExpanded(t);
      MergeNotFound(t);
      assert !Agree(ValueWithMerge(t, MERGE_KEY), ExpandMap(t), MERGE_KEY);
    }
  }

  // ----- whole paths -----

  // The lazy walk ends in the subtree whose expansion is found at the path, or both end
  // in nothing.
  ghost predicate WalkAgrees(t: Tree, segs: seq<Segment>) {
    match LazyWalk(t, segs)
    case Some(u) => Find(Expand(t), segs) == Some(Expand(u))
    case None => Find(Expand(t), segs) == None
  }

  // Every mapping that the lookup can get to has its keys resolved.
  ghost predicate ReachedResolved(t: Tree) {
    forall p {:trigger LazyWalk(t, p)} | LazyWalk(t, p).Some? && LazyWalk(t, p).value.kind == MappingNode ::
      EntriesResolved(LazyWalk(t, p).value)
  }

  lemma {:induction false} ReachedWalkAgrees(t: Tree, segs: seq<Segment>)
    requires MergesMappings(t) && ReachedResolved(t)
    ensures WalkAgrees(t, segs)
    decreases |segs|
  {
    if segs != [] {
      var step := LazyStep(t, segs[0]);
      if segs[0].Name? && t.kind == MappingNode {
        assert LazyWalk(t, []) == Some(t);
        ValueAgrees(t, segs[0].name);
      }
      if step.Some? {
        StepWithin(t, segs[0]);
        WithinMerges(t, step.value);
        StepReached(t, segs[0]);
        ReachedWalkAgrees(step.value, segs[1..]);
      }
    }
  }

  lemma StepReached(t: Tree, seg: Segment)
    requires ReachedResolved(t) && LazyStep(t, seg).Some?
    ensures ReachedResolved(LazyStep(t, seg).value)
  {
    var u := LazyStep(t, seg).value;
    forall p {:trigger LazyWalk(u, p)} | LazyWalk(u, p).Some? && LazyWalk(u, p).value.kind == MappingNode
      ensures EntriesResolved(LazyWalk(u, p).value)
    {
      assert ([seg] + p)[1..] == p;
      assert LazyWalk(t, [seg] + p) == LazyWalk(u, p);
    }
  }

  // Exactly if not, some path shows the difference.
  lemma LazyAgreesExactly(t: Tree)
    requires MergesMappings(t) && MergeTagsRead(t)
    ensures (forall p :: WalkAgrees(t, p)) <==> ReachedResolved(t)
  {
    if ReachedResolved(t) {
      forall p ensures WalkAgrees(t, p) {
        ReachedWalkAgrees(t, p);
      }
    } else {
      var p :| LazyWalk(t, p).Some? && LazyWalk(t, p).value.kind == MappingNode &&
        !EntriesResolved(LazyWalk(t, p).value);
      QuotedShows(t, p);
    }
  }

  lemma QuotedShows(t: Tree, p: seq<Segment>)
    requires MergesMappings(t) && MergeTagsRead(t) && LazyWalk(t, p).Some?
    requires LazyWalk(t, p).value.kind == MappingNode && !EntriesResolved(LazyWalk(t, p).value)
    ensures !WalkAgrees(t, p) || !WalkAgrees(t, p + [Name(MERGE_KEY)])
  {
    var u := LazyWalk(t, p).value;
    WalkWithin(t, p);
    WithinMerges(t, u);
    QuotedIsExpanded(u);
    MergeNotFound(u);
    FindConcat(Expand(t), p, [Name(MERGE_KEY)]);
    LazyWalkConcat(t, p, [Name(MERGE_KEY)]);
    assert [Name(MERGE_KEY)][1..] == [];
    assert LazyWalk(u, [Name(MERGE_KEY)]) == None;
  }

  lemma ResolvedReached(t: Tree)
    requires KeysResolved(t)
    ensures ReachedResolved(t)
  {
    forall p {:trigger LazyWalk(t, p)} | LazyWalk(t, p).Some? && LazyWalk(t, p).value.kind == MappingNode
      ensures EntriesResolved(LazyWalk(t, p).value)
    {
      WalkWithin(t, p);
      WithinResolved(t, LazyWalk(t, p).value);
      ResolvedEntries(LazyWalk(t, p).value);
    }
  }

  // Where no "<<" that matters is quoted, the lazy walk sees a scalar on every path
  // exactly when the expanded value holds it there, and the same one.
  lemma LazyRefinesEager(t: Tree, segs: seq<Segment>)
    requires MergesMappings(t) && (KeysResolved(t) || ReachedResolved(t))
    ensures EffectiveScalar(t, segs) == FindScalar(Expand(t), segs)
  {
    if KeysResolved(t) {
      ResolvedReached(t);
    }
    ReachedWalkAgrees(t, segs);
  }

  // ----- documents on which they differ -----

  // A scalar key or text as the parser makes it from plain text.
  function Text(s: string): Tree {
    Tree(ScalarNode, TAG_STR, s, [])
  }

  function Mapping(key: Tree, value: Tree): Tree {
    Tree(MappingNode, TAG_MAP, "", [key, value])
  }

  lemma OneKey(key: Tree, value: Tree, name: string)
    ensures var t := Mapping(key, value);
      && KeyIndex(t, name) == (if !IsMergeKey(key) && key.value == name then 0 else -1)
      && MergedFrom(t, name, 0) == (if IsMergeKey(key) then SourceFind(value, name) else None)
      && ExpandMap(t) == if IsMergeType(key) then FromSource(value) else map[key.value := Expand(value)]
  {
    var t := Mapping(key, value);
    assert KeyIndexFrom(t.kids, name, 2) == -1 && MergedFrom(t, name, 2) == None;
    assert Locals(t, 2) == map[] && Inherited(t, 2) == map[];
  }

  // A quoted "<<" is an ordinary key of the value, but the lookup merges it.
  lemma QuotedMergeKey(k: string, v: string)
    requires k != MERGE_KEY
    ensures var t := Mapping(Text(MERGE_KEY), Mapping(Text(k), Text(v)));
      && MergesMappings(t)
      && EffectiveScalar(t, [Name(k)]) == Some(v) && FindScalar(Expand(t), [Name(k)]) == None
      && EffectiveScalar(t, [Name(MERGE_KEY), Name(k)]) == None
      && FindScalar(Expand(t), [Name(MERGE_KEY), Name(k)]) == Some(v)
  {
    var u := Mapping(Text(k), Text(v));
    var t := Mapping(Text(MERGE_KEY), u);
    OneKey(Text(MERGE_KEY), u, k);
    OneKey(Text(k), Text(v), k);
    MergeNotFound(t);
    assert [Name(k)][1..] == [] && [Name(MERGE_KEY), Name(k)][1..] == [Name(k)];
    assert ValueWithMerge(t, k) == Some(Text(v));
    assert LazyWalk(Text(v), []) == Some(Text(v));
    assert MergesMappings(Text(k)) && MergesMappings(Text(v)) && MergesMappings(Text(MERGE_KEY));
    assert MergesMappings(u);
    assert Find(Expand(t), [Name(MERGE_KEY), Name(k)]) == Find(Expand(u), [Name(k)]) == Find(Expand(Text(v)), []);
  }

  // A list inside a merge list, itself reading "<<" and a mapping, is searched through
  // although it is no merge source.  The decoder reports an error for such a list.
  function NestedMergeList(): Tree {
    var merge := Tree(ScalarNode, MERGE_TAG, MERGE_KEY, []);
    var item := Tree(SequenceNode, TAG_SEQ, "", [merge, Mapping(Text("k"), Text("v"))]);
    Mapping(merge, Tree(SequenceNode, TAG_SEQ, "", [item]))
  }

  lemma NestedMergeListIsSearched()
    ensures EffectiveScalar(NestedMergeList(), [Name("k")]) == Some("v")
    ensures FindScalar(Expand(NestedMergeList()), [Name("k")]) == None
  {
    var t := NestedMergeList();
    var src := t.kids[1];
    var item := src.kids[0];
    var inner := item.kids[1];
    OneKey(Text("k"), Text("v"), "k");
    OneKey(t.kids[0], src, "k");
    assert ValueWithMerge(inner, "k") == Some(Text("v"));
    assert MergedFrom(item, "k", 0) == Some(Text("v"));
    assert ValueWithMerge(item, "k") == Some(Text("v"));
    assert FirstItem(src, "k", 0) == Some(Text("v"));
    assert LazyWalk(Text("v"), []) == Some(Text("v"));
    assert [Name("k")][1..] == [];
    assert InheritedItems(src, 1) == map[];
    assert InheritedItems(src, 0) == map[];
  }
}
