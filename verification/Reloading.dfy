/** From a document to its table, through the editor and back, when nothing is edited. */
module Reloading {
  import opened Prelude
  import opened KeyPath
  import opened YamlNode
  import opened Lookup
  import opened Reading
  import opened Walk
  import opened PatchPlan
  import opened Patching
  import opened FileOrder
  import opened Loading
  import opened EditorText
  import opened Rows
  import Flattening
  import Nullifying

  // ----- what the rows show -----

  // Every row is that of a path: it is tagged as what the lookup finds there, it is a
  // section exactly if that is a container with something in it, and an empty container's
  // row is a placeholder for it.
  lemma RowShows(t: Tree, vals: map<string, Value>, done: seq<seq<Segment>>, table: seq<Flattening.FlatEntry>,
                 render: Flattening.Render, e: Flattening.FlatEntry) returns (p: seq<Segment>)
    requires Flattening.Flattened(vals, done, table, render) && e in table && "" !in vals
    requires HasTable(t) && Map(vals) == Expand(t) && Typed(render)
    ensures Listed(t, p) && e.key == Encode(p) && LazyWalk(t, p).Some?
    ensures var u := LazyWalk(t, p).value;
      && (e.typ == "map" <==> u.kind == MappingNode)
      && (e.typ == "list" <==> u.kind == SequenceNode)
      && (Row(e.key, e.value, e.typ, "", LeafRow).IsSection() <==>
            IsContainer(u) && Flattening.IsSection(Expand(u)))
      && (IsContainer(u) ==> Placeholder(t, p, Entry(e.key, e.value, e.typ, "", "")))
      && (!IsContainer(u) ==> (e.value, e.typ) == render(Expand(u)))
  {
    hide Encode, ParseKey, ReachedResolved, MergesMappings, DistinctKeys, Find, LazyWalk;
    Flattening.OneRowPerValue(vals, done, table, render);
    p :| p != [] && Find(Map(vals), p).Some? && e == Flattening.EntryAt(Map(vals), p, render);
    ReachedWalkAgrees(t, p);
  }

  // The rows of a table as the editor holds them when nothing was edited: each with the
  // comment that was recorded, and its text the value below the comment.  The text of a
  // section may be any.
  ghost predicate AsLoaded(g: Graph, root: Node, table: seq<Flattening.FlatEntry>, rows: seq<Row>, texts: seq<string>,
                           loaded: map<string, string>)
    requires WellFormed(g) && root in g
  {
    && |rows| == |table| && |texts| >= |rows|
    && forall i {:trigger rows[i]} | 0 <= i < |rows| ::
         && (rows[i].key, rows[i].value, rows[i].typ, rows[i].kind) ==
              (table[i].key, table[i].value, table[i].typ, LeafRow)
         && (forall p | Listed(Denote(g, root), p) && Encode(p) == rows[i].key ::
               rows[i].comment == RowComment(g, root, p))
         && rows[i].key in loaded && loaded[rows[i].key] == rows[i].value
         && (rows[i].IsFocusable() ==> texts[i] == LoadForm(rows[i].comment, rows[i].value))
  }

  // ----- what is collected from them -----

  // The entries that the overrides become.
  function EntriesOf(os: seq<Nullifying.Override>): (r: seq<Entry>)
    ensures |r| == |os|
    ensures forall i | 0 <= i < |os| ::
      r[i] == Entry(os[i].key, os[i].value, os[i].typ, os[i].headComment, os[i].lineComment)
  {
    seq(|os|, i requires 0 <= i < |os| =>
      Entry(os[i].key, os[i].value, os[i].typ, os[i].headComment, os[i].lineComment))
  }

  // Keys are set to null only where the file says so.
  ghost predicate NullWhereNull(rows: seq<Row>, nullified: set<string>) {
    forall k | k in nullified :: exists i :: 0 <= i < |rows| && rows[i].key == k && rows[i].typ == "null"
  }

  lemma {:induction false} EmittedRows(rows: seq<Row>, texts: seq<string>, loaded: map<string, string>,
                                       nullified: set<string>, split: Nullifying.Split, n: nat)
    requires n <= |rows| && n <= |texts|
    ensures forall o :: o in Nullifying.Emitted(rows, texts, loaded, nullified, split, n) <==>
      exists i :: 0 <= i < n && Nullifying.Emit(rows[i], texts[i], loaded, nullified, split) == Some(o)
  {
    hide Nullifying.Emit;
    if n > 0 {
      EmittedRows(rows, texts, loaded, nullified, split, n - 1);
    }
  }

  // The path of a row.
  lemma RowPath(g: Graph, root: Node, vals: map<string, Value>, done: seq<seq<Segment>>,
                table: seq<Flattening.FlatEntry>, render: Flattening.Render, rows: seq<Row>, texts: seq<string>,
                loaded: map<string, string>, i: nat) returns (p: seq<Segment>)
    requires WellFormed(g) && root in g && HasTable(Denote(g, root)) && Map(vals) == Expand(Denote(g, root))
    requires Flattening.Flattened(vals, done, table, render) && "" !in vals && Typed(render)
    requires AsLoaded(g, root, table, rows, texts, loaded) && i < |rows|
    ensures Listed(Denote(g, root), p) && rows[i].key == Encode(p)
    ensures var e := RowEntry(g, root, p, render);
      (rows[i].value, rows[i].typ, rows[i].comment) == (e.value, e.typ, e.headComment)
    ensures rows[i].IsFocusable() <==> !Flattening.IsSection(Find(Expand(Denote(g, root)), p).value)
  {
    hide Denote, Ranked, Encode, ParseKey, ReachedResolved, MergesMappings, DistinctKeys, Find, RowComment;
    Flattening.OneRowPerValue(vals, done, table, render);
    assert table[i] in table && rows[i] == rows[i];
    p :| p != [] && Find(Map(vals), p).Some? && table[i] == Flattening.EntryAt(Map(vals), p, render);
  }

  // And the row of a path.
  lemma PathRow(g: Graph, root: Node, vals: map<string, Value>, done: seq<seq<Segment>>,
                table: seq<Flattening.FlatEntry>, render: Flattening.Render, rows: seq<Row>, texts: seq<string>,
                loaded: map<string, string>, p: seq<Segment>) returns (i: nat)
    requires WellFormed(g) && root in g && Map(vals) == Expand(Denote(g, root)) && Listed(Denote(g, root), p)
    requires Flattening.Flattened(vals, done, table, render) && "" !in vals
    requires AsLoaded(g, root, table, rows, texts, loaded)
    ensures i < |rows| && rows[i].key == Encode(p)
  {
    hide Denote, Ranked, Encode, Find, RowComment;
    Flattening.OneRowPerValue(vals, done, table, render);
    var e := Flattening.EntryAt(Map(vals), p, render);
    assert e in table;
    i :| 0 <= i < |table| && table[i] == e;
    assert rows[i] == rows[i];
  }

  // A table made from a document, as the editor holds it.
  ghost predicate Loaded(g: Graph, root: Node, vals: map<string, Value>, done: seq<seq<Segment>>,
                         table: seq<Flattening.FlatEntry>, render: Flattening.Render, rows: seq<Row>,
                         texts: seq<string>, loaded: map<string, string>)
  {
    && WellFormed(g) && root in g && HasTable(Denote(g, root)) && Map(vals) == Expand(Denote(g, root))
    && Flattening.Flattened(vals, done, table, render) && "" !in vals && Typed(render)
    && AsLoaded(g, root, table, rows, texts, loaded)
  }

  // Two paths with rows have one key only if they are one.
  lemma SamePath(t: Tree, p: seq<Segment>, q: seq<Segment>)
    requires HasTable(t) && Listed(t, p) && Listed(t, q) && Encode(p) == Encode(q)
    ensures p == q
  {
    assert ParseKey(Encode(p)) == Ok(p) && ParseKey(Encode(q)) == Ok(q);
  }

  lemma ListedPrefix(t: Tree, p: seq<Segment>, m: nat)
    requires Listed(t, p) && 0 < m < |p|
    ensures Listed(t, p[..m]) && Flattening.IsSection(Find(Expand(t), p[..m]).value)
  {
    hide Expand;
    assert p == p[..m] + p[m..];
    FindConcat(Expand(t), p[..m], p[m..]);
    assert Find(Find(Expand(t), p[..m]).value, p[m..]).Some?;
  }

  // Above a row nothing is null.
  lemma NoneAbove(g: Graph, root: Node, vals: map<string, Value>, done: seq<seq<Segment>>,
                  table: seq<Flattening.FlatEntry>, render: Flattening.Render, rows: seq<Row>, texts: seq<string>,
                  loaded: map<string, string>, nullified: set<string>, p: seq<Segment>)
    requires Loaded(g, root, vals, done, table, render, rows, texts, loaded) && NullWhereNull(rows, nullified)
    requires Listed(Denote(g, root), p)
    ensures !Nullifying.AncestorIn(nullified, Encode(p))
  {
    hide Denote, Ranked, Encode, Find, RowComment, HasTable, Typed, AsLoaded, Flattening.Flattened, Expand, ParentChain;
    var t := Denote(g, root);
    if k :| k in ParentChain(Encode(p)) && k in nullified {
      Flattening.FoundRooted(vals, p);
      ParentChainEncode(p, k);
      var m :| 0 < m < |p| && k == Encode(p[..m]);
      ListedPrefix(t, p, m);
      var i :| 0 <= i < |rows| && rows[i].key == k && rows[i].typ == "null";
      var q := RowPath(g, root, vals, done, table, render, rows, texts, loaded, i);
      SamePath(t, p[..m], q);
      assert false;
    }
  }

  // What the row of p adds to the overrides.
  lemma RowSaves(g: Graph, root: Node, vals: map<string, Value>, done: seq<seq<Segment>>,
                 table: seq<Flattening.FlatEntry>, render: Flattening.Render, rows: seq<Row>, texts: seq<string>,
                 loaded: map<string, string>, nullified: set<string>, split: Nullifying.Split, i: nat)
    returns (p: seq<Segment>)
    requires Loaded(g, root, vals, done, table, render, rows, texts, loaded) && NullWhereNull(rows, nullified)
    requires i < |rows|
    ensures Listed(Denote(g, root), p) && rows[i].key == Encode(p)
    ensures match Nullifying.Emit(rows[i], texts[i], loaded, nullified, split)
      case None => Flattening.IsSection(Find(Expand(Denote(g, root)), p).value)
      case Some(o) =>
        Saves(g, root, p, Entry(o.key, o.value, o.typ, o.headComment, o.lineComment), render)
  {
    hide Denote, Ranked, Encode, Find, RowComment, HasTable, Typed, Flattening.Flattened, Expand, ParentChain, Strip,
         Extract, LoadForm, Nullifying.AncestorIn;
    p := RowPath(g, root, vals, done, table, render, rows, texts, loaded, i);
    NoneAbove(g, root, vals, done, table, render, rows, texts, loaded, nullified, p);
    assert rows[i] == rows[i];
    if rows[i].key in nullified {
      var j :| 0 <= j < |rows| && rows[j].key == rows[i].key && rows[j].typ == "null";
      var q := RowPath(g, root, vals, done, table, render, rows, texts, loaded, j);
      SamePath(Denote(g, root), p, q);
    }
  }

  lemma NoOrphan(rows: seq<Row>, nullified: set<string>, k: string)
    requires NullWhereNull(rows, nullified)
    ensures k !in Nullifying.Orphans(rows, nullified)
  {
    if k in nullified {
      var i :| 0 <= i < |rows| && rows[i].key == k && rows[i].typ == "null";
    }
  }

  // No key without a row is null.
  lemma NoOrphans(rows: seq<Row>, texts: seq<string>, loaded: map<string, string>, nullified: set<string>,
                  split: Nullifying.Split, os: seq<Nullifying.Override>)
    requires NullWhereNull(rows, nullified) && |rows| <= |texts|
    requires Nullifying.Collects(rows, texts, loaded, nullified, split, os) && os != []
    ensures os == Nullifying.Emitted(rows, texts, loaded, nullified, split, |rows|)
  {
    hide Nullifying.Emitted, Nullifying.Total, Nullifying.OrphanCount, Nullifying.AncestorIn;
    var emitted := Nullifying.Emitted(rows, texts, loaded, nullified, split, |rows|);
    var orphans: seq<string> :|
      os == emitted + Nullifying.NullOverrides(orphans) &&
      forall k | k in orphans :: k in Nullifying.Orphans(rows, nullified);
    if orphans != [] {
      assert orphans[0] in orphans;
      NoOrphan(rows, nullified, orphans[0]);
    }
    assert Nullifying.NullOverrides(orphans) == [];
  }

  lemma EntryOfRow(g: Graph, root: Node, vals: map<string, Value>, done: seq<seq<Segment>>,
                   table: seq<Flattening.FlatEntry>, render: Flattening.Render, rows: seq<Row>, texts: seq<string>,
                   loaded: map<string, string>, nullified: set<string>, split: Nullifying.Split,
                   os: seq<Nullifying.Override>, j: nat)
    returns (p: seq<Segment>)
    requires Loaded(g, root, vals, done, table, render, rows, texts, loaded) && NullWhereNull(rows, nullified)
    requires |rows| <= |texts| && os == Nullifying.Emitted(rows, texts, loaded, nullified, split, |rows|) && j < |os|
    ensures Saves(g, root, p, EntriesOf(os)[j], render)
  {
    hide Denote, Ranked, Encode, Find, Expand, Nullifying.Emit, Loaded, Nullifying.Emitted, NullWhereNull, Saves,
         Flattening.IsSection;
    EmittedRows(rows, texts, loaded, nullified, split, |rows|);
    var i :| 0 <= i < |rows| && Nullifying.Emit(rows[i], texts[i], loaded, nullified, split) == Some(os[j]);
    p := RowSaves(g, root, vals, done, table, render, rows, texts, loaded, nullified, split, i);
  }

  lemma ValueSaved(g: Graph, root: Node, vals: map<string, Value>, done: seq<seq<Segment>>,
                   table: seq<Flattening.FlatEntry>, render: Flattening.Render, rows: seq<Row>, texts: seq<string>,
                   loaded: map<string, string>, nullified: set<string>, split: Nullifying.Split,
                   os: seq<Nullifying.Override>, p: seq<Segment>)
    returns (j: nat)
    requires Loaded(g, root, vals, done, table, render, rows, texts, loaded) && NullWhereNull(rows, nullified)
    requires |rows| <= |texts| && os == Nullifying.Emitted(rows, texts, loaded, nullified, split, |rows|)
    requires Listed(Denote(g, root), p) && !Flattening.IsSection(Find(Expand(Denote(g, root)), p).value)
    ensures j < |os| && EntriesOf(os)[j].key == Encode(p)
  {
    hide Denote, Ranked, Encode, Find, Expand, Nullifying.Emit, Nullifying.Emitted, NullWhereNull, Saves, HasTable,
         Flattening.IsSection, Flattening.Flattened, AsLoaded, Typed;
    EmittedRows(rows, texts, loaded, nullified, split, |rows|);
    var i := PathRow(g, root, vals, done, table, render, rows, texts, loaded, p);
    var q := RowSaves(g, root, vals, done, table, render, rows, texts, loaded, nullified, split, i);
    SamePath(Denote(g, root), p, q);
    var o := Nullifying.Emit(rows[i], texts[i], loaded, nullified, split).value;
    assert o in os;
    j :| 0 <= j < |os| && os[j] == o;
    SavedKey(g, root, p, EntriesOf(os)[j], render);
  }

  // A table that nobody edited is saved row by row, sections aside, unless nothing is
  // saved at all.
  lemma UneditedTableSaved(g: Graph, root: Node, vals: map<string, Value>, done: seq<seq<Segment>>,
                           table: seq<Flattening.FlatEntry>, render: Flattening.Render, rows: seq<Row>,
                           texts: seq<string>, loaded: map<string, string>, nullified: set<string>,
                           split: Nullifying.Split, os: seq<Nullifying.Override>)
    requires Loaded(g, root, vals, done, table, render, rows, texts, loaded) && NullWhereNull(rows, nullified)
    requires Nullifying.Collects(rows, texts, loaded, nullified, split, os) && os != []
    ensures SavesTable(g, root, EntriesOf(os), render)
  {
    hide Denote, Ranked, Encode, Find, HasTable, Typed, Flattening.Flattened, Expand, Nullifying.Emitted,
         Nullifying.Collects, NullWhereNull, Saves, Flattening.IsSection;
    NoOrphans(rows, texts, loaded, nullified, split, os);
    forall e | e in EntriesOf(os) ensures exists p :: Saves(g, root, p, e, render) {
      var j: nat :| j < |os| && EntriesOf(os)[j] == e;
      var p := EntryOfRow(g, root, vals, done, table, render, rows, texts, loaded, nullified, split, os, j);
    }
    var t := Denote(g, root);
    forall p {:trigger Listed(t, p)} | Listed(t, p) && !Flattening.IsSection(Find(Expand(t), p).value)
      ensures exists e :: e in EntriesOf(os) && e.key == Encode(p)
    {
      var j := ValueSaved(g, root, vals, done, table, render, rows, texts, loaded, nullified, split, os, p);
      assert EntriesOf(os)[j] in EntriesOf(os);
    }
  }

  lemma SavedKey(g: Graph, root: Node, p: seq<Segment>, e: Entry, render: Flattening.Render)
    requires WellFormed(g) && root in g && Saves(g, root, p, e, render)
    ensures e.key == Encode(p)
  {
  }

  // Loading a document and saving its table unedited agrees with the document, so that
  // the result is a copy, exactly if every row shows what is there.
  lemma NothingEditedNothingChanges(g: Graph, root: Node, vals: map<string, Value>, done: seq<seq<Segment>>,
                                    table: seq<Flattening.FlatEntry>, render: Flattening.Render, rows: seq<Row>,
                                    texts: seq<string>, loaded: map<string, string>, nullified: set<string>,
                                    split: Nullifying.Split, os: seq<Nullifying.Override>)
    requires Loaded(g, root, vals, done, table, render, rows, texts, loaded) && NullWhereNull(rows, nullified)
    requires Nullifying.Collects(rows, texts, loaded, nullified, split, os) && os != []
    ensures Agrees(g, root, EntriesOf(os)) <==>
      forall p {:trigger Listed(Denote(g, root), p)} | Listed(Denote(g, root), p) ::
        ShownRight(Denote(g, root), p, render)
  {
    hide Denote, Ranked, HasTable, Typed, SavesTable, Nullifying.Collects, NullWhereNull, Agrees, ShownRight;
    UneditedTableSaved(g, root, vals, done, table, render, rows, texts, loaded, nullified, split, os);
    TableAgrees(g, root, EntriesOf(os), render);
  }
}
