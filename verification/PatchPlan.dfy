/** PatchNodeTree as a function of the denoted document: delete the stale leaves,
  then write the entries that differ. */
module PatchPlan {
  import opened Prelude
  import opened KeyPath
  import opened YamlNode
  import opened Lookup
  import opened Reading
  import opened Walk
  import opened Upsert
  import opened PatchTree
  import opened Deletion

  datatype Entry = Entry(key: string, value: string, typ: string, headComment: string, lineComment: string)

  predicate IsYAMLNullLiteral(s: string) {
    s == "" || s == "~" || s == TYPE_NULL
  }

  // scalarsEquivalent
  predicate ScalarsEquivalent(treeValue: string, entryValue: string, entryType: string) {
    || (entryType == TYPE_NULL && IsYAMLNullLiteral(treeValue) && IsYAMLNullLiteral(entryValue))
    || treeValue == entryValue
  }

  // overrideCommentsMatch
  predicate OverrideCommentsMatch(entryHead: string, entryLine: string, effHead: string, effLine: string) {
    if entryLine != "" then entryHead == effHead && entryLine == effLine
    else if entryHead == "" then effHead == "" && effLine == ""
    else entryHead == effHead || entryHead == effLine
  }

  // A placeholder for a container that is there already.
  predicate Placeholder(t: Tree, p: seq<Segment>, e: Entry) {
    (e.typ == TYPE_MAP || e.typ == TYPE_LIST) && MatchesContainer(t, p, e.typ)
  }

  predicate ValueUnchanged(t: Tree, p: seq<Segment>, e: Entry) {
    var s := EffectiveScalar(t, p);
    s.Some? && ScalarsEquivalent(s.value, e.value, e.typ)
  }

  // convertValue and the encoder: the scalar that a value of a type becomes.
  type Convert = (string, string) -> Leaf

  // One entry; None stands for the error return.
  function Applied(t: Tree, p: seq<Segment>, e: Entry, convert: Convert): Option<Tree> {
    if p == [] || Placeholder(t, p, e) || ValueUnchanged(t, p, e) then Some(t)
    else Upserted(t, p, convert(e.value, e.typ))
  }

  function ApplyAll(t: Tree, paths: seq<seq<Segment>>, entries: seq<Entry>, convert: Convert): Option<Tree>
    requires |paths| == |entries|
  {
    if paths == [] then Some(t)
    else
      var n := |paths| - 1;
      match ApplyAll(t, paths[..n], entries[..n], convert)
      case None => None
      case Some(u) => Applied(u, paths[n], entries[n], convert)
  }

  function DropAll(t: Tree, gone: seq<seq<Segment>>): Tree {
    if gone == [] then t else Removed(DropAll(t, gone[..|gone| - 1]), gone[|gone| - 1])
  }

  // ----- documents stay regular -----

  lemma AppliedRegular(t: Tree, p: seq<Segment>, e: Entry, convert: Convert)
    requires Regular(t) && NoMergeNames(p) && Applied(t, p, e, convert).Some?
    ensures Regular(Applied(t, p, e, convert).value)
    ensures Plain(t) && AllNames(p) ==> Plain(Applied(t, p, e, convert).value)
  {
    if !(p == [] || Placeholder(t, p, e) || ValueUnchanged(t, p, e)) {
      UpsertedRegular(t, p, convert(e.value, e.typ));
    }
  }

  lemma {:induction false} RemovedRegular(t: Tree, segs: seq<Segment>)
    requires Regular(t)
    ensures Regular(Removed(t, segs)) && Removed(t, segs).kind == t.kind
    decreases |segs|
  {
    if segs != [] && LocalStep(t, segs[0]).Some? {
      StepFits(t, segs[0]);
      StepRegular(t, segs[0]);
      if |segs| > 1 {
        RemovedRegular(LocalStep(t, segs[0]).value, segs[1..]);
        MergeIsNoKey(t.kids, 0);
        PutRegular(t, segs[0], Removed(LocalStep(t, segs[0]).value, segs[1..]));
      } else {
        WithoutAnyRegular(t, segs[0]);
      }
    }
  }

  lemma WithoutAnyRegular(t: Tree, seg: Segment)
    requires Regular(t) && LocalStep(t, seg).Some?
    ensures Regular(Without(t, seg))
  {
    hide RegularKeys;
    var kids := Without(t, seg).kids;
    if seg.Name? {
      WithoutRegular(t, seg.name);
      forall i | 0 <= i < |kids| ensures kids[i] == t.kids[if i < KeyIndex(t, seg.name) then i else i + 2] {}
    } else {
      forall i | 0 <= i < |kids| ensures kids[i] == t.kids[if i < seg.index then i else i + 1] {}
    }
  }

  lemma {:induction false} DropAllRegular(t: Tree, gone: seq<seq<Segment>>)
    requires Regular(t)
    ensures Regular(DropAll(t, gone)) && DropAll(t, gone).kind == t.kind
  {
    if gone != [] {
      DropAllRegular(t, gone[..|gone| - 1]);
      RemovedRegular(DropAll(t, gone[..|gone| - 1]), gone[|gone| - 1]);
    }
  }

  // ----- every scalar entry reads back -----

  // Entries for scalars, none of them above or below another.
  ghost predicate ScalarWrites(paths: seq<seq<Segment>>, entries: seq<Entry>) {
    && |paths| == |entries|
    && (forall i | 0 <= i < |paths| :: paths[i] != [] && NoMergeNames(paths[i]))
    && (forall i | 0 <= i < |entries| :: entries[i].typ != TYPE_MAP && entries[i].typ != TYPE_LIST)
    && (forall i, j | 0 <= i < j < |paths| :: !Comparable(paths[i], paths[j]))
  }

  lemma WritesPrefix(paths: seq<seq<Segment>>, entries: seq<Entry>, n: nat)
    requires ScalarWrites(paths, entries) && n <= |paths|
    ensures ScalarWrites(paths[..n], entries[..n])
  {
  }

  // A value means what the file says: the same text, or one way to spell null instead of
  // another.
  predicate SameMeaning(text: string, value: string, typ: string) {
    || text == value
    || (typ == "null" && text in ["", "~", "null"] && value in ["", "~", "null"])
  }

  // A text that can stand for an entry: the converted value, or one that means the same.
  predicate StandsFor(text: string, e: Entry, convert: Convert) {
    text == convert(e.value, e.typ).value || SameMeaning(text, e.value, e.typ)
  }

  // What the document holds for an entry once it is written: the text that was
  // there if the entry means the same, else the converted value.
  function NewText(was: Option<string>, e: Entry, convert: Convert): (text: string)
    ensures StandsFor(text, e, convert)
    ensures was.Some? && SameMeaning(was.value, e.value, e.typ) ==> text == was.value
    ensures text == convert(e.value, e.typ).value || was == Some(text)
  {
    if was.Some? && ScalarsEquivalent(was.value, e.value, e.typ) then was.value else convert(e.value, e.typ).value
  }

  lemma AppliedReads(t: Tree, p: seq<Segment>, e: Entry, convert: Convert)
    requires Regular(t) && p != [] && NoMergeNames(p) && e.typ != TYPE_MAP && e.typ != TYPE_LIST
    requires Applied(t, p, e, convert).Some?
    ensures Read(Applied(t, p, e, convert).value, p) == Some(NewText(Read(t, p), e, convert))
  {
    RegularRead(t, p);
    if !ValueUnchanged(t, p, e) {
      UpsertAt(t, p, convert(e.value, e.typ));
    }
  }

  lemma AppliedElsewhere(t: Tree, p: seq<Segment>, e: Entry, convert: Convert, q: seq<Segment>)
    requires Regular(t) && p != [] && NoMergeNames(p) && Applied(t, p, e, convert).Some? && !Comparable(p, q)
    ensures Read(t, q).Some? || AllNames(p) ==> Read(Applied(t, p, e, convert).value, q) == Read(t, q)
  {
    if !(Placeholder(t, p, e) || ValueUnchanged(t, p, e)) {
      UpsertElsewhere(t, p, convert(e.value, e.typ), q);
    }
  }

  lemma {:induction false} ApplyAllRegular(t: Tree, paths: seq<seq<Segment>>, entries: seq<Entry>, convert: Convert)
    requires Regular(t) && ScalarWrites(paths, entries) && ApplyAll(t, paths, entries, convert).Some?
    ensures Regular(ApplyAll(t, paths, entries, convert).value)
  {
    if paths != [] {
      var n := |paths| - 1;
      WritesPrefix(paths, entries, n);
      ApplyAllRegular(t, paths[..n], entries[..n], convert);
      AppliedRegular(ApplyAll(t, paths[..n], entries[..n], convert).value, paths[n], entries[n], convert);
    }
  }

  // With sequences or without, a save that succeeds stores every scalar entry.
  lemma {:induction false} EntriesReadBack(t: Tree, paths: seq<seq<Segment>>, entries: seq<Entry>, convert: Convert,
                                           i: nat)
    requires Regular(t) && ScalarWrites(paths, entries) && i < |paths|
    requires ApplyAll(t, paths, entries, convert).Some?
    ensures var r := Read(ApplyAll(t, paths, entries, convert).value, paths[i]);
      r.Some? && StandsFor(r.value, entries[i], convert)
    decreases |paths|
  {
    var n := |paths| - 1;
    WritesPrefix(paths, entries, n);
    var u := ApplyAll(t, paths[..n], entries[..n], convert).value;
    ApplyAllRegular(t, paths[..n], entries[..n], convert);
    if i == n {
      AppliedReads(u, paths[n], entries[n], convert);
    } else {
      EntriesReadBack(t, paths[..n], entries[..n], convert, i);
      assert paths[..n][i] == paths[i] && entries[..n][i] == entries[i];
      AppliedElsewhere(u, paths[n], entries[n], convert, paths[i]);
    }
  }

  // ----- mappings only: the result is exactly the entries -----

  ghost predicate NameWrites(paths: seq<seq<Segment>>) {
    forall i | 0 <= i < |paths| :: AllNames(paths[i])
  }

  lemma {:induction false} DropReads(t: Tree, gone: seq<seq<Segment>>, q: seq<Segment>)
    requires Plain(t) && (forall p | p in gone :: p != [] && NoMergeNames(p))
    ensures Plain(DropAll(t, gone)) && DropAll(t, gone).kind == t.kind
    ensures Read(DropAll(t, gone), q) == if exists p :: p in gone && p <= q then None else Read(t, q)
  {
    if gone != [] {
      var n := |gone| - 1;
      assert gone == gone[..n] + [gone[n]] && gone[n] in gone;
      assert forall p :: p in gone <==> p in gone[..n] || p == gone[n];
      DropReads(t, gone[..n], q);
      RemovedPlain(DropAll(t, gone[..n]), gone[n]);
      RemoveEffect(DropAll(t, gone[..n]), gone[n], q);
    }
  }

  // The leaves to delete: what is read at a path disappears exactly if the path is
  // among them.
  ghost predicate LeavesOf(t: Tree, gone: seq<seq<Segment>>) {
    forall p {:trigger p in gone} | p in gone ::
      p != [] && NoMergeNames(p) && LocalWalk(t, p).Some? &&
        (LocalWalk(t, p).value.kind == ScalarNode || LocalWalk(t, p).value.kids == [])
  }

  lemma DropLeaves(t: Tree, gone: seq<seq<Segment>>, q: seq<Segment>)
    requires Plain(t) && LeavesOf(t, gone)
    ensures Plain(DropAll(t, gone)) && DropAll(t, gone).kind == t.kind
    ensures Read(DropAll(t, gone), q) == if q in gone then None else Read(t, q)
  {
    DropReads(t, gone, q);
    if p :| p in gone && p <= q {
      if p != q {
        LeafHasNothingBelow(t, p, q);
      }
    }
  }

  lemma LeafHasNothingBelow(t: Tree, p: seq<Segment>, q: seq<Segment>)
    requires p < q && LocalWalk(t, p).Some?
    requires LocalWalk(t, p).value.kind == ScalarNode || LocalWalk(t, p).value.kids == []
    ensures Read(t, q) == None
  {
    assert q == p + q[|p|..];
    LocalWalkConcat(t, p, q[|p|..]);
  }

  // Writing entries where every scalar has one.
  lemma {:induction false} ApplyReads(t: Tree, paths: seq<seq<Segment>>, entries: seq<Entry>, convert: Convert,
                                      q: seq<Segment>)
    requires Plain(t) && t.kind == MappingNode && ScalarWrites(paths, entries) && NameWrites(paths)
    ensures ApplyAll(t, paths, entries, convert).Some?
    ensures var u := ApplyAll(t, paths, entries, convert).value;
      && Plain(u) && u.kind == MappingNode
      && (forall i | 0 <= i < |paths| && q == paths[i] :: Read(u, q) == Some(NewText(Read(t, q), entries[i], convert)))
      && ((forall i | 0 <= i < |paths| :: !Comparable(paths[i], q)) ==> Read(u, q) == Read(t, q))
    decreases |paths|
  {
    if paths != [] {
      var n := |paths| - 1;
      WritesPrefix(paths, entries, n);
      ApplyReads(t, paths[..n], entries[..n], convert, q);
      var u := ApplyAll(t, paths[..n], entries[..n], convert).value;
      PlainIsRegular(u);
      OneFits(u, paths[n], entries[n], convert);
      AppliedRegular(u, paths[n], entries[n], convert);
      ApplyLast(t, u, paths, entries, convert, q);
    }
  }

  lemma OneFits(t: Tree, p: seq<Segment>, e: Entry, convert: Convert)
    requires Plain(t) && t.kind == MappingNode && p != [] && AllNames(p)
    ensures Applied(t, p, e, convert).Some? && Applied(t, p, e, convert).value.kind == MappingNode
  {
    NamesFit(t, p);
    UpsertSucceeds(t, p, convert(e.value, e.typ));
  }

  lemma ApplyLast(t: Tree, u: Tree, paths: seq<seq<Segment>>, entries: seq<Entry>, convert: Convert, q: seq<Segment>)
    requires paths != [] && ScalarWrites(paths, entries) && NameWrites(paths) && Regular(u)
    requires Applied(u, paths[|paths| - 1], entries[|paths| - 1], convert).Some?
    requires var init, first := paths[..|paths| - 1], entries[..|paths| - 1];
      && (forall i | 0 <= i < |init| && q == init[i] :: Read(u, q) == Some(NewText(Read(t, q), first[i], convert)))
      && ((forall i | 0 <= i < |init| :: !Comparable(init[i], q)) ==> Read(u, q) == Read(t, q))
    ensures var w := Applied(u, paths[|paths| - 1], entries[|paths| - 1], convert).value;
      && (forall i | 0 <= i < |paths| && q == paths[i] :: Read(w, q) == Some(NewText(Read(t, q), entries[i], convert)))
      && ((forall i | 0 <= i < |paths| :: !Comparable(paths[i], q)) ==> Read(w, q) == Read(t, q))
  {
    hide Applied, NewText, Read;
    var n := |paths| - 1;
    if q == paths[n] {
      AppliedReads(u, paths[n], entries[n], convert);
    } else if !Comparable(paths[n], q) {
      AppliedElsewhere(u, paths[n], entries[n], convert, q);
      forall i | 0 <= i < n ensures paths[..n][i] == paths[i] && entries[..n][i] == entries[i] {}
    }
  }

  // What is read for an entry stands for it, and is new only if it is the converted value.
  ghost predicate Stores(was: Option<string>, now: Option<string>, e: Entry, convert: Convert) {
    && now.Some? && StandsFor(now.value, e, convert)
    && now == Some(NewText(was, e, convert))
  }

  // The scalars of the saved document are the entries, no more and no less.
  ghost predicate ExactlyEntries(t: Tree, u: Tree, paths: seq<seq<Segment>>, entries: seq<Entry>, convert: Convert)
    requires |paths| == |entries|
  {
    forall q {:trigger Read(u, q)} ::
      if q in paths then
        exists i :: 0 <= i < |paths| && q == paths[i] && Stores(Read(t, q), Read(u, q), entries[i], convert)
      else Read(u, q) == None
  }

  lemma StoresExactly(t: Tree, gone: seq<seq<Segment>>, paths: seq<seq<Segment>>, entries: seq<Entry>, convert: Convert)
    requires Plain(t) && t.kind == MappingNode && LeavesOf(t, gone) && ScalarWrites(paths, entries) && NameWrites(paths)
    requires forall q {:trigger Read(t, q)} | Read(t, q).Some? :: q in gone <==> q !in paths
    ensures ApplyAll(DropAll(t, gone), paths, entries, convert).Some?
    ensures ExactlyEntries(t, ApplyAll(DropAll(t, gone), paths, entries, convert).value, paths, entries, convert)
  {
    hide DropAll, ApplyAll, Read, NewText, Plain, LeavesOf;
    var d := DropAll(t, gone);
    DropLeaves(t, gone, []);
    ApplyReads(d, paths, entries, convert, []);
    var u := ApplyAll(d, paths, entries, convert).value;
    forall q
      ensures if q in paths then
          exists i :: 0 <= i < |paths| && q == paths[i] && Stores(Read(t, q), Read(u, q), entries[i], convert)
        else Read(u, q) == None
    {
      DropLeaves(t, gone, q);
      ApplyReads(d, paths, entries, convert, q);
      if q in paths {
        var i :| 0 <= i < |paths| && paths[i] == q;
        if Read(t, q).None? {
          assert Read(d, q) == None;
        }
      } else if i :| 0 <= i < |paths| && Comparable(paths[i], q) {
        ApplyReads(d, paths, entries, convert, paths[i]);
        ScalarExcludes(u, paths[i], q);
      }
    }
  }

  // No scalar stands above or below another.
  lemma ScalarExcludes(t: Tree, p: seq<Segment>, q: seq<Segment>)
    requires Read(t, p).Some? && Comparable(p, q) && p != q
    ensures Read(t, q) == None
  {
    if p < q {
      ReadBelow(t, p, q);
    } else if Read(t, q).Some? {
      ReadBelow(t, q, p);
    }
  }
}
