/** flattenValues: a nested value as a flat, sorted table
  (service/values_service.go). */
module Flattening {
  import opened Prelude
  import opened KeyPath
  import opened Lookup
  import opened Ordering

  datatype FlatEntry = FlatEntry(key: string, value: string, typ: string)

  // The text and type tag of a value that is no container.
  type Render = Value -> (string, string)

  predicate IsEmpty(v: Value) {
    (v.Map? && v.entries == map[]) || (v.List? && v.items == [])
  }

  predicate IsSection(v: Value) {
    (v.Map? || v.List?) && !IsEmpty(v)
  }

  // Containers are tagged as such, and only those with something in them have no text.
  function EntryFor(key: string, v: Value, render: Render): (e: FlatEntry)
    ensures e.key == key
    ensures v.Map? ==> e.typ == "map" && e.value == if |v.entries| > 0 then "" else "{}"
    ensures v.List? ==> e.typ == "list" && e.value == if |v.items| > 0 then "" else "[]"
    ensures !v.Map? && !v.List? ==> e.value == render(v).0 && e.typ == render(v).1
  {
    match v
    case Map(m) => FlatEntry(key, if m == map[] then "{}" else "", "map")
    case List(items) => FlatEntry(key, if items == [] then "[]" else "", "list")
    case _ => FlatEntry(key, render(v).0, render(v).1)
  }

  // ----- the paths of a value -----

  // What can follow below v.
  function ChildSegs(v: Value): set<Segment> {
    match v
    case Map(m) => set k | k in m :: Name(k)
    case List(items) => set i | 0 <= i < |items| :: Index(i)
    case _ => {}
  }

  function ChildAt(v: Value, seg: Segment): Value
    requires seg in ChildSegs(v)
  {
    match seg case Name(n) => v.entries[n] case Index(i) => v.items[i]
  }

  ghost function PathsOf(v: Value): set<seq<Segment>> {
    match v
    case Map(m) => {[]} + set k, p | k in m && p in PathsOf(m[k]) :: [Name(k)] + p
    case List(items) => {[]} + set i, p | 0 <= i < |items| && p in PathsOf(items[i]) :: [Index(i)] + p
    case _ => {[]}
  }

  lemma {:induction false} FoundIsPath(v: Value, p: seq<Segment>)
    requires Find(v, p).Some?
    ensures p in PathsOf(v)
    decreases |p|
  {
    if p != [] {
      assert p == [p[0]] + p[1..];
      FoundIsPath(ChildAt(v, p[0]), p[1..]);
    }
  }

  lemma FindChild(root: Value, p: seq<Segment>, seg: Segment)
    requires Find(root, p).Some?
    ensures var v := Find(root, p).value;
      Find(root, p + [seg]) == if seg in ChildSegs(v) then Some(ChildAt(v, seg)) else None
  {
    FindConcat(root, p, [seg]);
    assert [seg][1..] == [];
  }

  // Whether a path gets a row: only a section whose key is empty, such as the root,
  // has none.
  predicate HasEntry(root: Value, p: seq<Segment>) {
    Find(root, p).Some? && !(Encode(p) == "" && IsSection(Find(root, p).value))
  }

  function EntryAt(root: Value, p: seq<Segment>, render: Render): FlatEntry
    requires Find(root, p).Some?
  {
    EntryFor(Encode(p), Find(root, p).value, render)
  }

  function EntriesAt(root: Value, paths: seq<seq<Segment>>, render: Render): (r: seq<FlatEntry>)
    requires forall p | p in paths :: Find(root, p).Some?
    ensures |r| == |paths|
  {
    seq(|paths|, i requires 0 <= i < |paths| => EntryAt(root, paths[i], render))
  }

  // ----- the stack -----

  datatype Item = Item(prefix: string, val: Value)

  // `where` are the paths of the stacked items, `done` those emitted and `visited`
  // those taken off the stack.
  ghost predicate Walking(root: Value, stack: seq<Item>, where: seq<seq<Segment>>,
                          out: seq<FlatEntry>, done: seq<seq<Segment>>, visited: set<seq<Segment>>, render: Render) {
    && OnStack(root, stack, where) && Apart(where) && Fresh(where, visited)
    && Emitted(root, out, done, visited, render) && Complete(root, where, visited)
  }

  ghost predicate OnStack(root: Value, stack: seq<Item>, where: seq<seq<Segment>>) {
    && |stack| == |where|
    && (forall i | 0 <= i < |where| ::
          Find(root, where[i]) == Some(stack[i].val) && stack[i].prefix == Encode(where[i]))
  }

  ghost predicate Fresh(where: seq<seq<Segment>>, visited: set<seq<Segment>>) {
    forall i, p | 0 <= i < |where| && p in visited :: !(where[i] <= p)
  }

  ghost predicate Emitted(root: Value, out: seq<FlatEntry>, done: seq<seq<Segment>>, visited: set<seq<Segment>>,
                          render: Render)
  {
    && (forall p | p in visited :: Find(root, p).Some?)
    && (forall p | p in done :: p in visited && HasEntry(root, p))
    && (forall p | p in visited && HasEntry(root, p) :: p in done)
    && (forall i, j | 0 <= i < j < |done| :: done[i] != done[j])
    && out == EntriesAt(root, done, render)
  }

  ghost predicate Complete(root: Value, where: seq<seq<Segment>>, visited: set<seq<Segment>>) {
    forall p {:trigger Find(root, p)} | Find(root, p).Some? :: p in visited || Awaited(where, p)
  }

  ghost predicate Awaited(where: seq<seq<Segment>>, p: seq<Segment>) {
    exists i :: 0 <= i < |where| && where[i] <= p
  }

  // The children of a value as stack items, last first.
  ghost predicate Children(prefix: string, v: Value, items: seq<Item>, segs: seq<Segment>) {
    && |items| == |segs|
    && (forall s :: s in segs <==> s in ChildSegs(v))
    && (forall i, j | 0 <= i < j < |segs| :: segs[i] != segs[j])
    && (forall i | 0 <= i < |segs| ::
          segs[i] in ChildSegs(v) && items[i] == Item(Extended(prefix, segs[i]), ChildAt(v, segs[i])))
  }

  method PushMap(prefix: string, m: map<string, Value>) returns (items: seq<Item>, ghost segs: seq<Segment>)
    ensures Children(prefix, Map(m), items, segs)
  {
    hide Extended;
    var keys := SortedKeys(m.Keys);
    items, segs := [], [];
    var i := |keys|;
    assert keys[i..] == [];
    while i > 0
      invariant 0 <= i <= |keys|
      invariant |items| == |segs| == |keys| - i
      invariant forall s :: s in segs <==> s.Name? && s.name in keys[i..]
      invariant forall a, b | 0 <= a < b < |segs| :: segs[a] != segs[b]
      invariant forall j | 0 <= j < |segs| ::
        segs[j].Name? && segs[j].name in m && items[j] == Item(Extended(prefix, segs[j]), m[segs[j].name])
    {
      i := i - 1;
      var k := keys[i];
      assert k in keys && keys[i..] == [k] + keys[i + 1..];
      NotAgain(keys, i);
      var fullKey := BuildKey(prefix, k);
      items := items + [Item(fullKey, m[k])];
      segs := segs + [Name(k)];
    }
    assert keys[0..] == keys;
  }

  lemma NotAgain(keys: seq<string>, i: nat)
    requires Sorted(keys) && i < |keys|
    ensures keys[i] !in keys[i + 1..]
  {
    LessTotal(keys[i], keys[i]);
    var rest := keys[i + 1..];
    forall j | 0 <= j < |rest| ensures rest[j] != keys[i] {
      assert rest[j] == keys[i + 1 + j];
    }
  }

  method PushList(prefix: string, list: seq<Value>) returns (items: seq<Item>, ghost segs: seq<Segment>)
    ensures Children(prefix, List(list), items, segs)
  {
    items, segs := [], [];
    var i := |list|;
    while i > 0
      invariant 0 <= i <= |list|
      invariant |items| == |segs| == |list| - i
      invariant forall s :: s in segs <==> s.Index? && i <= s.index < |list|
      invariant forall a, b | 0 <= a < b < |segs| :: segs[a] != segs[b]
      invariant forall j | 0 <= j < |segs| ::
        segs[j].Index? && segs[j].index < |list| && items[j] == Item(Extended(prefix, segs[j]), list[segs[j].index])
    {
      i := i - 1;
      var p := prefix + "[" + Itoa(i) + "]";
      assert p == prefix + ("[" + Itoa(i) + "]");
      items := items + [Item(p, list[i])];
      segs := segs + [Index(i)];
    }
  }

  function Below(w: seq<Segment>, segs: seq<Segment>): (r: seq<seq<Segment>>)
    ensures |r| == |segs|
  {
    seq(|segs|, i requires 0 <= i < |segs| => w + [segs[i]])
  }

  // One turn of the loop: the top item makes way for its children, and is emitted
  // unless it is a section with an empty key.
  lemma Popped(root: Value, stack: seq<Item>, where: seq<seq<Segment>>, out: seq<FlatEntry>, done: seq<seq<Segment>>,
               visited: set<seq<Segment>>, render: Render, items: seq<Item>, segs: seq<Segment>)
    requires Walking(root, stack, where, out, done, visited, render) && stack != []
    requires Children(stack[|stack| - 1].prefix, stack[|stack| - 1].val, items, segs)
    ensures var n := |stack| - 1;
      var w, v := where[n], stack[n].val;
      var emits := HasEntry(root, w);
      && Find(root, w) == Some(v) && w !in visited && stack[n].prefix == Encode(w)
      && Walking(root, stack[..n] + items, where[..n] + Below(w, segs),
                 if emits then out + [EntryFor(Encode(w), v, render)] else out,
                 if emits then done + [w] else done, visited + {w}, render)
  {
    hide OnStack, Apart, Fresh, Emitted, Complete, Encode, HasEntry, Find, Children, EntryFor;
    var n := |stack| - 1;
    ItemsOnStack(root, stack, where, items, segs);
    WhereApart(where, stack[n].prefix, stack[n].val, items, segs);
    StaysFresh(where, visited, segs);
    StaysComplete(root, stack, where, visited, items, segs);
    EmitsOne(root, out, done, visited, where[n], render);
  }

  lemma ItemsOnStack(root: Value, stack: seq<Item>, where: seq<seq<Segment>>, items: seq<Item>, segs: seq<Segment>)
    requires OnStack(root, stack, where) && stack != []
    requires Children(stack[|stack| - 1].prefix, stack[|stack| - 1].val, items, segs)
    ensures |where| == |stack| && Find(root, where[|stack| - 1]) == Some(stack[|stack| - 1].val)
    ensures stack[|stack| - 1].prefix == Encode(where[|stack| - 1])
    ensures OnStack(root, stack[..|stack| - 1] + items, where[..|stack| - 1] + Below(where[|stack| - 1], segs))
  {
    hide Encode, Find, Children, Extended;
    var n := |stack| - 1;
    ChildItems(root, where[n], stack[n].prefix, stack[n].val, items, segs);
  }

  lemma ChildItems(root: Value, w: seq<Segment>, prefix: string, v: Value, items: seq<Item>, segs: seq<Segment>)
    requires Find(root, w) == Some(v) && prefix == Encode(w) && Children(prefix, v, items, segs)
    ensures |items| == |segs| && OnStack(root, items, Below(w, segs))
  {
    hide Encode, Find, Extended, ChildSegs, ChildAt;
    forall i | 0 <= i < |items|
      ensures Find(root, w + [segs[i]]) == Some(items[i].val) && items[i].prefix == Encode(w + [segs[i]])
    {
      ChildItem(root, w, segs[i], prefix, v);
    }
  }

  lemma ChildItem(root: Value, w: seq<Segment>, seg: Segment, prefix: string, v: Value)
    requires Find(root, w) == Some(v) && seg in ChildSegs(v) && prefix == Encode(w)
    ensures Find(root, w + [seg]) == Some(ChildAt(v, seg)) && Extended(prefix, seg) == Encode(w + [seg])
  {
    FindChild(root, w, seg);
    assert (w + [seg])[..|w|] == w;
  }

  lemma WhereApart(where: seq<seq<Segment>>, prefix: string, v: Value, items: seq<Item>, segs: seq<Segment>)
    requires where != [] && Apart(where) && Children(prefix, v, items, segs)
    ensures Apart(where[..|where| - 1] + Below(where[|where| - 1], segs))
  {
    hide Comparable;
    var n := |where| - 1;
    var w := where[n];
    BelowApart(w, segs);
    forall i, j | 0 <= i < n && 0 <= j < |segs| ensures !Comparable(where[..n][i], Below(w, segs)[j]) {
      if Comparable(where[i], w + [segs[j]]) {
        ComparableAbove(where[i], w, segs[j]);
      }
    }
    ApartAppend(where[..n], Below(w, segs));
  }

  lemma BelowApart(w: seq<Segment>, segs: seq<Segment>)
    requires forall i, j | 0 <= i < j < |segs| :: segs[i] != segs[j]
    ensures Apart(Below(w, segs))
  {
    hide Comparable;
    forall i, j | 0 <= i < j < |segs| ensures !Comparable(Below(w, segs)[i], Below(w, segs)[j]) {
      SiblingsApart(w, segs[i], segs[j]);
    }
  }

  lemma ComparableAbove(p: seq<Segment>, w: seq<Segment>, seg: Segment)
    requires Comparable(p, w + [seg])
    ensures Comparable(p, w)
  {
    if |p| <= |w| {
      assert p == (w + [seg])[..|p|] == w[..|p|];
    } else {
      assert w == (w + [seg])[..|w|] == p[..|w|];
    }
  }

  lemma SiblingsApart(w: seq<Segment>, a: Segment, b: Segment)
    requires a != b
    ensures !Comparable(w + [a], w + [b])
  {
    assert (w + [a])[|w|] == a && (w + [b])[|w|] == b;
  }

  lemma StaysFresh(where: seq<seq<Segment>>, visited: set<seq<Segment>>, segs: seq<Segment>)
    requires where != [] && Apart(where) && Fresh(where, visited)
    ensures where[|where| - 1] !in visited
    ensures Fresh(where[..|where| - 1] + Below(where[|where| - 1], segs), visited + {where[|where| - 1]})
  {
    var n := |where| - 1;
    var w := where[n];
    var where' := where[..n] + Below(w, segs);
    forall i, p | 0 <= i < |where'| && p in visited + {w} ensures !(where'[i] <= p) {
      if i < n {
        assert !Comparable(where[i], where[n]);
      } else {
        assert where'[i] <= p ==> w <= p;
      }
    }
  }

  lemma StaysComplete(root: Value, stack: seq<Item>, where: seq<seq<Segment>>, visited: set<seq<Segment>>,
                      items: seq<Item>, segs: seq<Segment>)
    requires OnStack(root, stack, where) && stack != [] && Complete(root, where, visited)
    requires Children(stack[|stack| - 1].prefix, stack[|stack| - 1].val, items, segs)
    ensures |where| == |stack|
    ensures Complete(root, where[..|stack| - 1] + Below(where[|stack| - 1], segs), visited + {where[|stack| - 1]})
  {
    hide Encode, Find, Extended;
    var n := |stack| - 1;
    forall p {:trigger Find(root, p)} | Find(root, p).Some?
      ensures p in visited + {where[n]} || Awaited(where[..n] + Below(where[n], segs), p)
    {
      Covered(root, where, visited, stack[n].val, segs, p);
    }
  }

  lemma Covered(root: Value, where: seq<seq<Segment>>, visited: set<seq<Segment>>, v: Value, segs: seq<Segment>,
                p: seq<Segment>)
    requires where != [] && Find(root, where[|where| - 1]) == Some(v) && Find(root, p).Some?
    requires forall s :: s in segs <==> s in ChildSegs(v)
    requires p in visited || Awaited(where, p)
    ensures var n := |where| - 1;
      p in visited + {where[n]} || Awaited(where[..n] + Below(where[n], segs), p)
  {
    var n := |where| - 1;
    var w := where[n];
    var where' := where[..n] + Below(w, segs);
    if p !in visited && p != w {
      var i :| 0 <= i < |where| && where[i] <= p;
      if i < n {
        assert where'[i] <= p;
      } else {
        var q := p[|w|..];
        assert p == w + q && q[0] == p[|w|];
        FindConcat(root, w, q);
        assert q[0] in ChildSegs(v);
        var j :| 0 <= j < |segs| && segs[j] == q[0];
        assert where'[n + j] == w + [segs[j]] == p[..|w| + 1];
      }
    }
  }

  lemma EmitsOne(root: Value, out: seq<FlatEntry>, done: seq<seq<Segment>>, visited: set<seq<Segment>>, w: seq<Segment>,
                 render: Render)
    requires Emitted(root, out, done, visited, render) && Find(root, w).Some? && w !in visited
    ensures var e := EntryFor(Encode(w), Find(root, w).value, render);
      if HasEntry(root, w) then Emitted(root, out + [e], done + [w], visited + {w}, render)
      else Emitted(root, out, done, visited + {w}, render)
  {
    hide Encode, Find, HasEntry, EntryFor;
    assert out + [EntryFor(Encode(w), Find(root, w).value, render)] == EntriesAt(root, done + [w], render) by {
      assert forall p | p in done + [w] :: Find(root, p).Some?;
    }
    if HasEntry(root, w) {
      forall i, j | 0 <= i < j < |done + [w]| ensures (done + [w])[i] != (done + [w])[j] {
        assert i < |done| ==> done[i] in done;
      }
    }
  }

  // ----- flattenValues -----

  predicate KeyLeq(a: FlatEntry, b: FlatEntry) {
    a.key == b.key || Less(a.key, b.key)
  }

  predicate SortedByKey(s: seq<FlatEntry>) {
    forall i, j | 0 <= i < j < |s| :: KeyLeq(s[i], s[j])
  }

  // The rows of vals, one for each path in `done`, sorted by key.
  ghost predicate Flattened(vals: map<string, Value>, done: seq<seq<Segment>>, r: seq<FlatEntry>, render: Render) {
    && (forall p :: p in done <==> HasEntry(Map(vals), p) && vals != map[])
    && (forall i, j | 0 <= i < j < |done| :: done[i] != done[j])
    && multiset(r) == multiset(EntriesAt(Map(vals), done, render))
    && SortedByKey(r)
  }

  method FlattenValues(vals: map<string, Value>, render: Render)
    returns (r: seq<FlatEntry>, ghost done: seq<seq<Segment>>)
    ensures Flattened(vals, done, r, render)
  {
    hide Encode, HasEntry, Find;
    r, done := [], [];
    if vals == map[] {
      return;
    }
    ghost var root := Map(vals);
    var stack := [Item("", Map(vals))];
    ghost var where, visited: set<seq<Segment>> := [[]], {};
    WalkStarts(root, render);
    while |stack| > 0
      invariant Walking(root, stack, where, r, done, visited, render)
      decreases PathsOf(root) - visited
    {
      var item := stack[|stack| - 1];
      var items: seq<Item> := [];
      ghost var segs: seq<Segment> := [];
      ghost var w := where[|stack| - 1];
      ghost var out := r;
      match item.val {
        case Map(m) =>
          if m == map[] {
            r := r + [FlatEntry(item.prefix, "{}", "map")];
          } else {
            if item.prefix != "" {
              r := r + [FlatEntry(item.prefix, "", "map")];
            }
            items, segs := PushMap(item.prefix, m);
          }
        case List(list) =>
          if |list| == 0 {
            r := r + [FlatEntry(item.prefix, "[]", "list")];
          } else {
            if item.prefix != "" {
              r := r + [FlatEntry(item.prefix, "", "list")];
            }
            items, segs := PushList(item.prefix, list);
          }
        case _ =>
          r := r + [FlatEntry(item.prefix, render(item.val).0, render(item.val).1)];
      }
      Popped(root, stack, where, out, done, visited, render, items, segs);
      EntryRule(root, w);
      FoundIsPath(root, w);
      if HasEntry(root, w) {
        done := done + [w];
      }
      where := where[..|stack| - 1] + Below(w, segs);
      visited := visited + {w};
      stack := stack[..|stack| - 1] + items;
    }
    AllDone(root, r, done, visited, render);
    r := SortEntries(r);
  }

  lemma WalkStarts(root: Value, render: Render)
    ensures Walking(root, [Item("", root)], [[]], [], [], {}, render)
  {
    assert Encode([]) == "";
    forall p | Find(root, p).Some? ensures Awaited([[]], p) {
      assert [[]][0] <= p;
    }
  }

  lemma EntryRule(root: Value, w: seq<Segment>)
    ensures HasEntry(root, w) <==> Find(root, w).Some? && !(Encode(w) == "" && IsSection(Find(root, w).value))
  {
  }

  lemma AllDone(root: Value, out: seq<FlatEntry>, done: seq<seq<Segment>>, visited: set<seq<Segment>>, render: Render)
    requires Walking(root, [], [], out, done, visited, render)
    ensures forall p :: p in done <==> HasEntry(root, p)
  {
    hide Encode;
    forall p ensures p in done <==> HasEntry(root, p) {
      if Find(root, p).Some? {
      }
    }
  }

  method SortEntries(s: seq<FlatEntry>) returns (r: seq<FlatEntry>)
    ensures SortedByKey(r) && multiset(r) == multiset(s)
  {
    hide SortedByKey;
    r := [];
    SortedNothing();
    for i := 0 to |s|
      invariant SortedByKey(r) && multiset(r) == multiset(s[..i])
    {
      r := InsertEntry(r, s[i]);
      assert s[..i + 1] == s[..i] + [s[i]];
    }
    assert s[..|s|] == s;
  }

  lemma SortedNothing()
    ensures SortedByKey([])
  {
  }

  method InsertEntry(s: seq<FlatEntry>, e: FlatEntry) returns (r: seq<FlatEntry>)
    requires SortedByKey(s)
    ensures SortedByKey(r) && multiset(r) == multiset(s) + multiset{e}
  {
    hide Less;
    var i := 0;
    while i < |s| && !Less(e.key, s[i].key)
      invariant 0 <= i <= |s| && forall j | 0 <= j < i :: KeyLeq(s[j], e)
    {
      LessTotal(e.key, s[i].key);
      i := i + 1;
    }
    InsertedSorted(s, i, e);
    r := s[..i] + [e] + s[i..];
    assert s == s[..i] + s[i..];
  }

  lemma InsertedSorted(s: seq<FlatEntry>, i: nat, e: FlatEntry)
    requires SortedByKey(s) && i <= |s|
    requires forall j | 0 <= j < i :: KeyLeq(s[j], e)
    requires i < |s| ==> Less(e.key, s[i].key)
    ensures SortedByKey(s[..i] + [e] + s[i..])
  {
    hide Less;
    forall j | i <= j < |s| ensures KeyLeq(e, s[j]) {
      if j > i && s[i].key != s[j].key {
        LessTransitive(e.key, s[i].key, s[j].key);
      }
    }
  }

  // ----- a faithful index -----

  lemma FoundRooted(vals: map<string, Value>, p: seq<Segment>)
    requires "" !in vals && Find(Map(vals), p).Some?
    ensures Rooted(p)
  {
  }

  // Without an empty key at the root there is one row for each value below it, and no
  // two rows have one key.
  lemma OneRowPerValue(vals: map<string, Value>, done: seq<seq<Segment>>, r: seq<FlatEntry>, render: Render)
    requires Flattened(vals, done, r, render) && "" !in vals
    ensures forall e :: e in r <==>
      exists p :: p != [] && Find(Map(vals), p).Some? && e == EntryAt(Map(vals), p, render)
    ensures forall i, j | 0 <= i < j < |r| :: Less(r[i].key, r[j].key)
  {
    hide Encode, Less, Find;
    var root := Map(vals);
    var es := EntriesAt(root, done, render);
    forall p ensures p in done <==> p != [] && Find(root, p).Some? {
      RowOfPath(vals, p);
    }
    forall e ensures e in r <==> exists p :: p != [] && Find(root, p).Some? && e == EntryAt(root, p, render) {
      assert e in r <==> e in multiset(es);
      if e in es {
        var i :| 0 <= i < |es| && es[i] == e;
        assert done[i] in done;
      }
      if p :| p != [] && Find(root, p).Some? && e == EntryAt(root, p, render) {
        assert p in done;
        var i :| 0 <= i < |done| && done[i] == p;
        assert es[i] == e;
      }
    }
    forall i, j | 0 <= i < j < |es| ensures es[i].key != es[j].key {
      assert done[i] in done && done[j] in done;
      FoundRooted(vals, done[i]);
      FoundRooted(vals, done[j]);
      if es[i].key == es[j].key {
        EncodeInjective(done[i], done[j]);
      }
    }
    DistinctSorted(es, r);
  }

  lemma RowOfPath(vals: map<string, Value>, p: seq<Segment>)
    requires "" !in vals
    ensures HasEntry(Map(vals), p) && vals != map[] <==> p != [] && Find(Map(vals), p).Some?
  {
    hide Encode;
    if p != [] && Find(Map(vals), p).Some? {
      FoundRooted(vals, p);
      RootedPrefix(p, 0);
    }
    assert Encode([]) == "" by { EmptyKey(); }
  }

  // Sorting distinct keys leaves no two equal.
  lemma DistinctSorted(s: seq<FlatEntry>, r: seq<FlatEntry>)
    requires multiset(r) == multiset(s) && SortedByKey(r)
    requires forall i, j | 0 <= i < j < |s| :: s[i].key != s[j].key
    ensures forall i, j | 0 <= i < j < |r| :: Less(r[i].key, r[j].key)
  {
    hide Less;
    forall i, j | 0 <= i < j < |r| ensures r[i].key != r[j].key {
      if r[i].key == r[j].key {
        assert r[i] in multiset(s) && r[j] in multiset(s);
        SameKeySame(s, r[i], r[j]);
        OnceEach(s, r[i]);
        TwiceIn(r, i, j);
      }
    }
  }

  lemma SameKeySame(s: seq<FlatEntry>, e: FlatEntry, f: FlatEntry)
    requires forall i, j | 0 <= i < j < |s| :: s[i].key != s[j].key
    requires e in s && f in s && e.key == f.key
    ensures e == f
  {
    var a :| 0 <= a < |s| && s[a] == e;
    var b :| 0 <= b < |s| && s[b] == f;
  }

  lemma {:induction false} OnceEach(s: seq<FlatEntry>, e: FlatEntry)
    requires forall i, j | 0 <= i < j < |s| :: s[i].key != s[j].key
    ensures multiset(s)[e] <= 1
  {
    if s != [] {
      var n := |s| - 1;
      assert s == s[..n] + [s[n]];
      OnceEach(s[..n], e);
      if e == s[n] {
        assert e !in s[..n];
      }
    }
  }

  lemma TwiceIn(s: seq<FlatEntry>, i: nat, j: nat)
    requires i < j < |s|
    ensures s[i] == s[j] ==> multiset(s)[s[i]] >= 2
  {
    assert s == s[..j] + [s[j]] + s[j + 1..];
    assert s[..j][i] == s[i] && s[i] in s[..j];
  }

  // Every row is that of some path, and looking its key up finds that path, and so the
  // very value it shows, exactly if the path survives the flat form.
  lemma RowsLookUp(vals: map<string, Value>, done: seq<seq<Segment>>, r: seq<FlatEntry>, render: Render, e: FlatEntry)
    returns (p: seq<Segment>)
    requires Flattened(vals, done, r, render) && e in r
    ensures Find(Map(vals), p).Some? && e == EntryFor(Encode(p), Find(Map(vals), p).value, render)
    ensures ParseKey(e.key) == Ok(p) <==> Representable(p) && Within(p)
  {
    hide Encode, Find, ParseKey, EntryFor;
    var es := EntriesAt(Map(vals), done, render);
    assert e in multiset(r) && e in multiset(es);
    var i :| 0 <= i < |es| && es[i] == e;
    p := done[i];
    assert p in done;
    RoundTrip(p);
    KeyOfEntry(Map(vals), p, render);
  }

  lemma KeyOfEntry(root: Value, p: seq<Segment>, render: Render)
    requires Find(root, p).Some?
    ensures EntryAt(root, p, render).key == Encode(p)
  {
  }
}
