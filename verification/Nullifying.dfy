/** Keys set to null, and what a column saves (ui/state/values_state.go,
  ui/state/editor_state.go).

  SplitInlineComment is taken as a function. */
module Nullifying {
  import opened Prelude
  import opened Text
  import opened Ordering
  import opened FlatKey
  import opened KeyPath
  import opened Rows
  import opened EditorText

  // ----- the nullified keys of a column -----

  // hasNullifiedAncestor
  predicate AncestorIn(nullified: set<string>, key: string) {
    exists p :: p in ParentChain(key) && p in nullified
  }

  predicate Covered(nullified: set<string>, key: string) {
    key in nullified || AncestorIn(nullified, key)
  }

  method HasNullifiedAncestor(nullified: set<string>, key: string) returns (r: bool)
    ensures r <==> AncestorIn(nullified, key)
  {
    if |nullified| == 0 || key == "" {
      assert |nullified| == 0 ==> nullified == {};
      return false;
    }
    var parent := Parent(key);
    ghost var from := key;
    while parent != ""
      invariant parent == ParentOf(from) && from != ""
      invariant AncestorIn(nullified, key) <==> AncestorIn(nullified, from)
      decreases |parent|
    {
      ghost var chain := ParentChain(from);
      assert chain == [parent] + ParentChain(parent);
      if parent in nullified {
        assert parent in chain;
        return true;
      }
      from := parent;
      parent := Parent(parent);
      assert forall p :: p in chain <==> p == from || p in ParentChain(from);
    }
    r := false;
  }

  class ColumnState {
    var nullified: set<string>

    constructor ()
      ensures nullified == {}
    {
      nullified := {};
    }

    // MarkNullified
    method MarkNullified(key: string)
      modifies this
      ensures nullified == if key == "" then old(nullified) else old(nullified) + {key}
      ensures "" !in old(nullified) ==> "" !in nullified
    {
      if key == "" {
        return;
      }
      nullified := nullified + {key};
    }

    // IsNullifiedCovered
    method IsNullifiedCovered(key: string) returns (r: bool)
      ensures r <==> Covered(nullified, key)
    {
      if key in nullified {
        return true;
      }
      r := HasNullifiedAncestor(nullified, key);
    }

    // ClearNullified.  Typing into a cell uncovers it and touches nothing off its
    // chain of containers.
    method ClearNullified(key: string)
      modifies this
      ensures if key == "" then nullified == old(nullified)
              else forall k :: k in nullified <==> k in old(nullified) && k != key && k !in ParentChain(key)
      ensures key != "" ==> !Covered(nullified, key)
    {
      if |nullified| == 0 || key == "" {
        assert |nullified| == 0 ==> nullified == {};
        return;
      }
      ghost var was, from := nullified, key;
      nullified := nullified - {key};
      var parent := Parent(key);
      while parent != ""
        invariant parent == ParentOf(from) && from != ""
        invariant forall k :: k in ParentChain(from) ==> k in ParentChain(key)
        invariant forall k :: k in nullified ==> k in was && k != key
        invariant forall k :: k in was && k != key && k !in ParentChain(key) ==> k in nullified
        invariant forall k :: k in ParentChain(key) && k in nullified ==> k in ParentChain(from)
        decreases |parent|
      {
        assert ParentChain(from) == [parent] + ParentChain(parent);
        nullified := nullified - {parent};
        from := parent;
        parent := Parent(parent);
      }
      assert ParentChain(from) == [];
    }
  }

  // ----- what one row saves -----

  datatype Override = Override(key: string, value: string, typ: string, headComment: string, lineComment: string)

  type Split = string -> (string, string)

  const NULL_TYPE := "null"

  function NullOverride(key: string, comment: string): Override {
    Override(key, "~", NULL_TYPE, comment, "")
  }

  // entryHasContent
  predicate HasContent(stripped: string, key: string, loaded: map<string, string>) {
    stripped != "" || (key in loaded && loaded[key] == "")
  }

  // A cell whose text is what loading put there.
  predicate Unedited(row: Row, raw: string, loaded: map<string, string>) {
    row.key in loaded && raw == LoadForm(row.comment, loaded[row.key])
  }

  function Emit(row: Row, raw: string, loaded: map<string, string>, nullified: set<string>,
                split: Split): Option<Override>
  {
    if AncestorIn(nullified, row.key) then None
    else if row.key in nullified then Some(NullOverride(row.key, row.comment))
    else if Unedited(row, raw, loaded) then
      if HasContent(loaded[row.key], row.key, loaded)
      then Some(Override(row.key, loaded[row.key], row.typ, row.comment, ""))
      else None
    else
      var val := Strip(raw);
      if !row.IsFocusable() || !HasContent(val, row.key, loaded) then None
      else
        var cut := if row.key in loaded && val == loaded[row.key] then (val, "") else split(val);
        Some(Override(row.key, cut.0, row.typ, Extract(raw), cut.1))
  }

  // What the first pass counts a row for.
  predicate Counted(row: Row, raw: string, loaded: map<string, string>, nullified: set<string>) {
    && !AncestorIn(nullified, row.key)
    && (row.key in nullified || (row.IsFocusable() && HasContent(Strip(raw), row.key, loaded)))
  }

  predicate SeenNull(row: Row, nullified: set<string>) {
    !AncestorIn(nullified, row.key) && row.key in nullified
  }

  // ----- what a column saves -----

  function Emitted(rows: seq<Row>, texts: seq<string>, loaded: map<string, string>, nullified: set<string>,
                   split: Split, n: nat): seq<Override>
    requires n <= |rows| && n <= |texts|
  {
    if n == 0 then []
    else
      var rest := Emitted(rows, texts, loaded, nullified, split, n - 1);
      match Emit(rows[n - 1], texts[n - 1], loaded, nullified, split)
      case None => rest
      case Some(o) => rest + [o]
  }

  function CountOf(rows: seq<Row>, texts: seq<string>, loaded: map<string, string>, nullified: set<string>, n: nat): nat
    requires n <= |rows| && n <= |texts|
  {
    if n == 0 then 0
    else
      CountOf(rows, texts, loaded, nullified, n - 1) +
      (if Counted(rows[n - 1], texts[n - 1], loaded, nullified) then 1 else 0)
  }

  function SeenOf(rows: seq<Row>, nullified: set<string>, n: nat): nat
    requires n <= |rows|
  {
    if n == 0 then 0 else SeenOf(rows, nullified, n - 1) + (if SeenNull(rows[n - 1], nullified) then 1 else 0)
  }

  function Limit(rows: seq<Row>, texts: seq<string>): (n: nat)
    ensures n <= |rows| && n <= |texts|
  {
    if |texts| < |rows| then |texts| else |rows|
  }

  function OrphanCount(rows: seq<Row>, texts: seq<string>, nullified: set<string>): int {
    |nullified| - SeenOf(rows, nullified, Limit(rows, texts))
  }

  function Total(rows: seq<Row>, texts: seq<string>, loaded: map<string, string>, nullified: set<string>): nat {
    var orphans := OrphanCount(rows, texts, nullified);
    CountOf(rows, texts, loaded, nullified, Limit(rows, texts)) + if orphans > 0 then orphans else 0
  }

  // Nullified keys that no row has and no other nullified key covers.
  function Orphans(rows: seq<Row>, nullified: set<string>): set<string> {
    set k | k in nullified && !HasRow(rows, k) && !AncestorIn(nullified, k)
  }

  predicate HasRow(rows: seq<Row>, k: string) {
    exists i :: 0 <= i < |rows| && rows[i].key == k
  }

  function NullOverrides(keys: seq<string>): (r: seq<Override>)
    ensures |r| == |keys|
  {
    seq(|keys|, i requires 0 <= i < |keys| => NullOverride(keys[i], ""))
  }

  ghost predicate Collects(rows: seq<Row>, texts: seq<string>, loaded: map<string, string>, nullified: set<string>,
                           split: Split, r: seq<Override>)
  {
    if Total(rows, texts, loaded, nullified) == 0 then r == []
    else exists orphans: seq<string> ::
      && r == Emitted(rows, texts, loaded, nullified, split, Limit(rows, texts)) + NullOverrides(orphans)
      && Sorted(orphans)
      && (forall k :: k in orphans <==> OrphanCount(rows, texts, nullified) > 0 && k in Orphans(rows, nullified))
  }

  // collectOverrides
  method CollectOverrides(rows: seq<Row>, texts: seq<string>, loaded: map<string, string>, nullified: set<string>,
                          split: Split)
    returns (r: seq<Override>)
    ensures Collects(rows, texts, loaded, nullified, split, r)
  {
    hide Emit, Counted, Strip, Extract, LoadForm;
    var count, seenNullified := CountPass(rows, texts, loaded, nullified);
    var orphanNullified := |nullified| - seenNullified;
    if orphanNullified > 0 {
      count := count + orphanNullified;
    }
    if count == 0 {
      return [];
    }
    r := EmitPass(rows, texts, loaded, nullified, split);
    var orphans := [];
    if orphanNullified > 0 {
      orphans := SortedOrphans(rows, nullified);
    }
    r := r + NullOverrides(orphans);
  }

  // Its first loop.
  method CountPass(rows: seq<Row>, texts: seq<string>, loaded: map<string, string>, nullified: set<string>)
    returns (count: nat, seen: nat)
    ensures count == CountOf(rows, texts, loaded, nullified, Limit(rows, texts))
    ensures seen == SeenOf(rows, nullified, Limit(rows, texts))
  {
    hide AncestorIn, Strip;
    count, seen := 0, 0;
    for i := 0 to Limit(rows, texts)
      invariant count == CountOf(rows, texts, loaded, nullified, i) && seen == SeenOf(rows, nullified, i)
    {
      var masked := HasNullifiedAncestor(nullified, rows[i].key);
      if masked {
        continue;
      }
      if rows[i].key in nullified {
        count := count + 1;
        seen := seen + 1;
        continue;
      }
      if !rows[i].IsFocusable() {
        continue;
      }
      var stripped := StripYAMLComments(texts[i]);
      if HasContent(stripped, rows[i].key, loaded) {
        count := count + 1;
      }
    }
  }

  // Its second loop.
  method EmitPass(rows: seq<Row>, texts: seq<string>, loaded: map<string, string>, nullified: set<string>, split: Split)
    returns (r: seq<Override>)
    ensures r == Emitted(rows, texts, loaded, nullified, split, Limit(rows, texts))
  {
    hide AncestorIn, Strip, Extract, LoadForm;
    r := [];
    for i := 0 to Limit(rows, texts)
      invariant r == Emitted(rows, texts, loaded, nullified, split, i)
    {
      var row, raw := rows[i], texts[i];
      var masked := HasNullifiedAncestor(nullified, row.key);
      if masked {
        continue;
      }
      if row.key in nullified {
        r := r + [NullOverride(row.key, row.comment)];
        continue;
      }
      if row.key in loaded {
        var loadForm := LoadFormForEditor(row.comment, loaded[row.key]);
        if raw == loadForm {
          if HasContent(loaded[row.key], row.key, loaded) {
            r := r + [Override(row.key, loaded[row.key], row.typ, row.comment, "")];
          }
          continue;
        }
      }
      var val := StripYAMLComments(raw);
      if !row.IsFocusable() || !HasContent(val, row.key, loaded) {
        continue;
      }
      var cut := if row.key in loaded && val == loaded[row.key] then (val, "") else split(val);
      var head := ExtractLeadingComment(raw);
      r := r + [Override(row.key, cut.0, row.typ, head, cut.1)];
    }
  }

  // Its last part.
  method SortedOrphans(rows: seq<Row>, nullified: set<string>) returns (orphans: seq<string>)
    ensures Sorted(orphans) && forall k :: k in orphans <==> k in Orphans(rows, nullified)
  {
    hide AncestorIn, HasRow;
    orphans := [];
    var left := nullified;
    while left != {}
      invariant left <= nullified && Sorted(orphans)
      invariant forall k :: k in orphans <==> k in Orphans(rows, nullified) && k !in left
      decreases |left|
    {
      var key :| key in left;
      left := left - {key};
      var seen := FindRow(rows, key);
      var masked := HasNullifiedAncestor(nullified, key);
      if !seen && !masked {
        orphans := Inserted(orphans, key);
      }
    }
  }

  method FindRow(rows: seq<Row>, key: string) returns (seen: bool)
    ensures seen <==> HasRow(rows, key)
  {
    seen := false;
    for i := 0 to |rows|
      invariant seen <==> exists j :: 0 <= j < i && rows[j].key == key
    {
      seen := seen || rows[i].key == key;
    }
  }

  // ----- null is saved once per section -----

  predicate DistinctKeys(rows: seq<Row>) {
    forall i, j | 0 <= i < j < |rows| && rows[i].key == rows[j].key :: rows[i].key == ""
  }

  // How many overrides have the key k.
  function Times(r: seq<Override>, k: string): nat {
    if r == [] then 0 else Times(r[..|r| - 1], k) + (if r[|r| - 1].key == k then 1 else 0)
  }

  lemma {:induction false} TimesConcat(a: seq<Override>, b: seq<Override>, k: string)
    ensures Times(a + b, k) == Times(a, k) + Times(b, k)
  {
    if b == [] {
      assert a + b == a;
    } else {
      assert (a + b)[..|a + b| - 1] == a + b[..|b| - 1];
      TimesConcat(a, b[..|b| - 1], k);
    }
  }

  function RowsBefore(rows: seq<Row>, k: string, n: nat): nat
    requires n <= |rows|
  {
    if n == 0 then 0 else RowsBefore(rows, k, n - 1) + (if rows[n - 1].key == k then 1 else 0)
  }

  lemma {:induction false} RowsBeforeOnce(rows: seq<Row>, k: string, n: nat)
    requires n <= |rows| && DistinctKeys(rows) && k != ""
    ensures RowsBefore(rows, k, n) == if exists i :: 0 <= i < n && rows[i].key == k then 1 else 0
  {
    if n > 0 {
      RowsBeforeOnce(rows, k, n - 1);
    }
  }

  // The override that sets a row to null: its comment is kept.
  predicate IsNullOf(o: Override, row: Row) {
    o == Override(row.key, "~", "null", row.comment, "")
  }

  lemma {:induction false} NullRows(rows: seq<Row>, texts: seq<string>, loaded: map<string, string>,
                                    nullified: set<string>, split: Split, n: nat, k: string)
    requires n <= |rows| && n <= |texts| && k in nullified
    ensures var r := Emitted(rows, texts, loaded, nullified, split, n);
      && Times(r, k) == (if AncestorIn(nullified, k) then 0 else RowsBefore(rows, k, n))
      && (forall o | o in r && o.key == k :: exists i :: 0 <= i < n && IsNullOf(o, rows[i]))
      && (forall o | o in r :: !AncestorIn(nullified, o.key))
  {
    hide AncestorIn, Emit, Times, IsNullOf;
    if n == 0 {
      NoTimes(k);
    } else {
      NullRows(rows, texts, loaded, nullified, split, n - 1, k);
      var rest := Emitted(rows, texts, loaded, nullified, split, n - 1);
      var e := Emit(rows[n - 1], texts[n - 1], loaded, nullified, split);
      EmitNull(rows[n - 1], texts[n - 1], loaded, nullified, split);
      if e.Some? {
        TimesSnoc(rest, e.value, k);
      }
    }
  }

  lemma NullOfKey(o: Override, row: Row)
    requires IsNullOf(o, row)
    ensures o.key == row.key
  {
  }

  lemma NoTimes(k: string)
    ensures Times([], k) == 0
  {
  }

  lemma TimesSnoc(r: seq<Override>, o: Override, k: string)
    ensures Times(r + [o], k) == Times(r, k) + (if o.key == k then 1 else 0)
    ensures forall p :: p in r + [o] <==> p in r || p == o
  {
    assert (r + [o])[..|r|] == r;
  }

  lemma EmitNull(row: Row, raw: string, loaded: map<string, string>, nullified: set<string>, split: Split)
    ensures var e := Emit(row, raw, loaded, nullified, split);
      && (e.Some? ==> e.value.key == row.key && !AncestorIn(nullified, row.key))
      && (row.key in nullified && !AncestorIn(nullified, row.key) ==>
            e.Some? && IsNullOf(e.value, row))
  {
    hide AncestorIn, Strip, Extract, LoadForm;
  }

  lemma {:induction false} NullOverridesTimes(keys: seq<string>, k: string)
    requires Sorted(keys)
    ensures Times(NullOverrides(keys), k) == if k in keys then 1 else 0
  {
    if keys != [] {
      var n := |keys| - 1;
      assert NullOverrides(keys)[..n] == NullOverrides(keys[..n]) && keys == keys[..n] + [keys[n]];
      NullOverridesTimes(keys[..n], k);
      if keys[n] in keys[..n] {
        var i :| 0 <= i < n && keys[i] == keys[n];
        LessTotal(keys[n], keys[n]);
      }
    }
  }

  function SeenKeys(rows: seq<Row>, nullified: set<string>, n: nat): set<string>
    requires n <= |rows|
  {
    set i | 0 <= i < n && SeenNull(rows[i], nullified) :: rows[i].key
  }

  lemma {:induction false} SeenIsSize(rows: seq<Row>, nullified: set<string>, n: nat)
    requires n <= |rows| && DistinctKeys(rows) && "" !in nullified
    ensures SeenOf(rows, nullified, n) == |SeenKeys(rows, nullified, n)|
  {
    hide AncestorIn;
    if n > 0 {
      SeenIsSize(rows, nullified, n - 1);
      var rest := SeenKeys(rows, nullified, n - 1);
      if SeenNull(rows[n - 1], nullified) {
        assert rows[n - 1].key !in rest;
        assert SeenKeys(rows, nullified, n) == rest + {rows[n - 1].key};
      } else {
        assert SeenKeys(rows, nullified, n) == rest;
      }
    }
  }

  lemma Subsets(a: set<string>, b: set<string>, c: set<string>)
    requires a <= c && b <= c && a !! b
    ensures |a| + |b| <= |c|
  {
    SubsetSize(a + b, c);
  }

  lemma {:induction false} SubsetSize(a: set<string>, c: set<string>)
    requires a <= c
    ensures |a| <= |c|
    decreases a
  {
    if a != {} {
      var x :| x in a;
      SubsetSize(a - {x}, c - {x});
    }
  }

  // The orphan count is positive whenever there is an orphan, and something is
  // counted whenever a key is nullified.
  lemma OrphansCounted(rows: seq<Row>, texts: seq<string>, loaded: map<string, string>, nullified: set<string>)
    requires DistinctKeys(rows) && "" !in nullified
    ensures Orphans(rows, nullified) != {} ==> OrphanCount(rows, texts, nullified) > 0
    ensures nullified != {} ==> Total(rows, texts, loaded, nullified) > 0
  {
    hide AncestorIn, Counted;
    var n := Limit(rows, texts);
    SeenIsSize(rows, nullified, n);
    Subsets(SeenKeys(rows, nullified, n), Orphans(rows, nullified), nullified);
    if nullified != {} {
      TotalPositive(rows, texts, loaded, nullified);
    }
  }

  lemma {:induction false} SeenAreCounted(rows: seq<Row>, texts: seq<string>, loaded: map<string, string>,
                                          nullified: set<string>, n: nat)
    requires n <= |rows| && n <= |texts|
    ensures SeenOf(rows, nullified, n) <= CountOf(rows, texts, loaded, nullified, n)
  {
    hide AncestorIn, Strip;
    if n > 0 {
      SeenAreCounted(rows, texts, loaded, nullified, n - 1);
    }
  }

  lemma TotalPositive(rows: seq<Row>, texts: seq<string>, loaded: map<string, string>, nullified: set<string>)
    requires nullified != {}
    ensures Total(rows, texts, loaded, nullified) > 0
  {
    SeenAreCounted(rows, texts, loaded, nullified, Limit(rows, texts));
  }

  // With distinct row keys and an editor for each row: a nullified key that no other
  // covers is saved as null exactly once, a covered one not at all, and nothing
  // below a nullified key is saved.
  lemma NullifiedOnce(rows: seq<Row>, texts: seq<string>, loaded: map<string, string>, nullified: set<string>,
                      split: Split,
                      r: seq<Override>, k: string)
    requires Collects(rows, texts, loaded, nullified, split, r)
    requires DistinctKeys(rows) && |rows| <= |texts| && "" !in nullified && k in nullified
    ensures Times(r, k) == if AncestorIn(nullified, k) then 0 else 1
    ensures forall o | o in r && o.key == k ::
      if HasRow(rows, k) then exists i :: 0 <= i < |rows| && rows[i].key == k && IsNullOf(o, rows[i])
      else o == Override(k, "~", "null", "", "")
    ensures forall o | o in r :: !AncestorIn(nullified, o.key)
  {
    hide AncestorIn, Counted, Emitted, IsNullOf;
    OrphansCounted(rows, texts, loaded, nullified);
    var n := |rows|;
    var orphans: seq<string> :|
      && r == Emitted(rows, texts, loaded, nullified, split, n) + NullOverrides(orphans)
      && Sorted(orphans)
      && (forall k :: k in orphans <==> OrphanCount(rows, texts, nullified) > 0 && k in Orphans(rows, nullified));
    NullRows(rows, texts, loaded, nullified, split, n, k);
    RowsBeforeOnce(rows, k, n);
    NullOverridesTimes(orphans, k);
    TimesConcat(Emitted(rows, texts, loaded, nullified, split, n), NullOverrides(orphans), k);
    forall o | o in NullOverrides(orphans) ensures o.key in orphans && o == Override(o.key, "~", "null", "", "") {
      var i :| 0 <= i < |orphans| && NullOverrides(orphans)[i] == o;
    }
    forall o, j | o in r && o.key == k && 0 <= j < n && IsNullOf(o, rows[j]) ensures rows[j].key == k {
      NullOfKey(o, rows[j]);
    }
  }

  // ----- what a cell saves -----

  // Of the key k, r holds o and nothing else.
  ghost predicate Saves(r: seq<Override>, k: string, o: Option<Override>) {
    && Times(r, k) == (if o.Some? then 1 else 0)
    && (forall p | p in r && p.key == k :: o == Some(p))
    && (o.Some? ==> o.value in r)
  }

  lemma {:induction false} RowEmits(rows: seq<Row>, texts: seq<string>, loaded: map<string, string>,
                                    nullified: set<string>, split: Split, n: nat, i: nat)
    requires n <= |rows| && n <= |texts| && i < |rows| && i < |texts| && DistinctKeys(rows) && rows[i].key != ""
    ensures Saves(Emitted(rows, texts, loaded, nullified, split, n), rows[i].key,
                  if i < n then Emit(rows[i], texts[i], loaded, nullified, split) else None)
  {
    hide Emit, Times;
    if n == 0 {
      NoTimes(rows[i].key);
    } else {
      RowEmits(rows, texts, loaded, nullified, split, n - 1, i);
      var rest := Emitted(rows, texts, loaded, nullified, split, n - 1);
      var e := Emit(rows[n - 1], texts[n - 1], loaded, nullified, split);
      EmitNull(rows[n - 1], texts[n - 1], loaded, nullified, split);
      if e.Some? {
        TimesSnoc(rest, e.value, rows[i].key);
      }
      assert n - 1 != i ==> rows[n - 1].key != rows[i].key;
    }
  }

  // The rows' part of the result decides what is saved of a key that is not null.
  lemma RowSaves(rows: seq<Row>, texts: seq<string>, loaded: map<string, string>, nullified: set<string>, split: Split,
                 r: seq<Override>, i: nat)
    requires Collects(rows, texts, loaded, nullified, split, r) && Total(rows, texts, loaded, nullified) > 0
    requires DistinctKeys(rows) && i < |rows| && i < |texts| && rows[i].key != "" && rows[i].key !in nullified
    ensures Saves(r, rows[i].key, Emit(rows[i], texts[i], loaded, nullified, split))
  {
    hide Emit, Emitted, AncestorIn, Times, Total;
    var n := Limit(rows, texts);
    var orphans: seq<string> :|
      && r == Emitted(rows, texts, loaded, nullified, split, n) + NullOverrides(orphans)
      && Sorted(orphans)
      && (forall k :: k in orphans <==> OrphanCount(rows, texts, nullified) > 0 && k in Orphans(rows, nullified));
    RowEmits(rows, texts, loaded, nullified, split, n, i);
    NullOverridesTimes(orphans, rows[i].key);
    TimesConcat(Emitted(rows, texts, loaded, nullified, split, n), NullOverrides(orphans), rows[i].key);
    forall o | o in NullOverrides(orphans) ensures o.key in nullified {
      var j :| 0 <= j < |orphans| && NullOverrides(orphans)[j] == o;
      assert orphans[j] in orphans;
    }
  }

  lemma CountedTotal(rows: seq<Row>, texts: seq<string>, loaded: map<string, string>, nullified: set<string>, i: nat)
    requires i < |rows| && i < |texts| && Counted(rows[i], texts[i], loaded, nullified)
    ensures Total(rows, texts, loaded, nullified) > 0
  {
    hide Counted;
    NoneCounted(rows, texts, loaded, nullified, Limit(rows, texts));
  }

  // A cell with the comment c above the value v saves exactly these, v split at an inline
  // comment unless it is the loaded value.  An empty v is saved only over an empty one, and nothing
  // where the row has no value.
  lemma EditedCellSaved(rows: seq<Row>, texts: seq<string>, loaded: map<string, string>, nullified: set<string>,
                        split: Split, r: seq<Override>, i: nat, c: string, v: string)
    requires Collects(rows, texts, loaded, nullified, split, r)
    requires DistinctKeys(rows) && i < |rows| && i < |texts| && rows[i].key != ""
    requires !Covered(nullified, rows[i].key)
    requires texts[i] == LoadForm(c, v) && Loadable(c) && (v == "" || PlainStart(v))
    requires rows[i].key in loaded ==> texts[i] != LoadForm(rows[i].comment, loaded[rows[i].key])
    ensures var k := rows[i].key;
      Saves(r, k,
        if !rows[i].IsFocusable() || (v == "" && !(k in loaded && loaded[k] == "")) then None
        else if k in loaded && loaded[k] == v then Some(Override(k, v, rows[i].typ, c, ""))
        else Some(Override(k, split(v).0, rows[i].typ, c, split(v).1)))
  {
    hide AncestorIn, Strip, Extract, LoadForm, Loadable, PlainStart, Total, Emitted, OrphanCount;
    LoadedTextReadsBack(c, v);
    var e := Emit(rows[i], texts[i], loaded, nullified, split);
    if e.Some? {
      CountedTotal(rows, texts, loaded, nullified, i);
      RowSaves(rows, texts, loaded, nullified, split, r, i);
    } else if Total(rows, texts, loaded, nullified) > 0 {
      RowSaves(rows, texts, loaded, nullified, split, r, i);
    } else {
      NoTimes(rows[i].key);
    }
  }

  // A cell that was not edited saves the row, unless nothing is saved at all.
  lemma UneditedCellSaved(rows: seq<Row>, texts: seq<string>, loaded: map<string, string>, nullified: set<string>,
                          split: Split, r: seq<Override>, i: nat)
    requires Collects(rows, texts, loaded, nullified, split, r) && r != []
    requires DistinctKeys(rows) && i < |rows| && i < |texts| && rows[i].key != ""
    requires !Covered(nullified, rows[i].key)
    requires rows[i].key in loaded && texts[i] == LoadForm(rows[i].comment, loaded[rows[i].key])
    ensures var k := rows[i].key;
      Saves(r, k, Some(Override(k, loaded[k], rows[i].typ, rows[i].comment, "")))
  {
    hide AncestorIn, Strip, Extract, LoadForm, Emitted, OrphanCount, CountOf;
    RowSaves(rows, texts, loaded, nullified, split, r, i);
  }

  // ----- what the early return drops -----

  lemma {:induction false} NoneCounted(rows: seq<Row>, texts: seq<string>, loaded: map<string, string>,
                                       nullified: set<string>, n: nat)
    requires n <= |rows| && n <= |texts|
    ensures CountOf(rows, texts, loaded, nullified, n) == 0 <==>
      forall i | 0 <= i < n :: !Counted(rows[i], texts[i], loaded, nullified)
  {
    hide Counted;
    if n > 0 {
      NoneCounted(rows, texts, loaded, nullified, n - 1);
    }
  }

  // The rows' overrides are all in the result unless the first pass counted nothing:
  // no key is nullified, and every cell is empty once its comment lines are taken
  // off.
  lemma RowsAreSaved(rows: seq<Row>, texts: seq<string>, loaded: map<string, string>, nullified: set<string>,
                     split: Split, r: seq<Override>)
    requires Collects(rows, texts, loaded, nullified, split, r)
    ensures var all := Emitted(rows, texts, loaded, nullified, split, Limit(rows, texts));
      all <= r <==>
        all == [] || nullified != {} ||
        exists i :: 0 <= i < Limit(rows, texts) && Counted(rows[i], texts[i], loaded, nullified)
  {
    hide Counted, Emitted, AncestorIn;
    var n := Limit(rows, texts);
    NoneCounted(rows, texts, loaded, nullified, n);
    if nullified != {} {
      TotalPositive(rows, texts, loaded, nullified);
    } else {
      NoneSeen(rows, n);
    }
  }

  lemma {:induction false} NoneSeen(rows: seq<Row>, n: nat)
    requires n <= |rows|
    ensures SeenOf(rows, {}, n) == 0
  {
    if n > 0 {
      NoneSeen(rows, n - 1);
    }
  }

  // An unedited cell whose whole value is a '#' line is such a case.
  lemma CommentLikeValueDropped(split: Split)
    ensures var row := Row("a", "#x", "string", "", LeafRow);
      && Emitted([row], ["#x"], map["a" := "#x"], {}, split, 1) == [Override("a", "#x", "string", "", "")]
      && Collects([row], ["#x"], map["a" := "#x"], {}, split, [])
  {
    hide Strip, Extract, ParentChain;
    var row := Row("a", "#x", "string", "", LeafRow);
    var rows, texts, loaded := [row], ["#x"], map["a" := "#x"];
    assert !AncestorIn({}, "a");
    HashValueStrips();
    assert Emit(row, "#x", loaded, {}, split) == Some(Override("a", "#x", "string", "", ""));
    assert Emitted(rows, texts, loaded, {}, split, 0) == [];
    assert !Counted(row, "#x", loaded, {});
    assert CountOf(rows, texts, loaded, {}, 0) == 0;
    NoneSeen(rows, 1);
  }

  lemma HashValueStrips()
    ensures Strip("#x") == ""
  {
    LinesOfOne("#x");
    TrimOfTrimmed("#x");
    assert Skipped("#x") && ["#x"][1..] == [];
  }
}
