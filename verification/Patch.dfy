/** PatchNodeTree on the node graph (service/yaml_serialize.go).

  Encoding the result, and the foot comments applied after the entries, are not
  part of this model. */
module Patch {
  import opened Prelude
  import opened KeyPath
  import opened YamlNode
  import opened DeepCopy
  import opened Lookup
  import opened Reading
  import opened Walk
  import opened Upsert
  import opened UpsertNodes
  import opened UpsertTrail
  import opened Upserting
  import opened PatchTree
  import opened PhysicalLeaves
  import opened CopyReads
  import opened Cosmetics
  import opened Text
  import opened Comments
  import opened Deletion
  import opened PatchPlan

  // ----- comments of a leaf -----

  ghost function EffComments(g: Graph, root: Node, segs: seq<Segment>): (string, string, bool)
    requires WellFormed(g) && root in g
  {
    if segs == [] then ("", "", false)
    else match ReadSlot(g, root, segs)
      case None => ("", "", false)
      case Some(r) => SlotComments(g, r.0, r.1, r.2)
  }

  ghost function SlotComments(g: Graph, parent: Node, slot: nat, via: bool): (string, string, bool) {
    if !(parent in g && slot < |g[parent].content| && g[parent].content[slot] in g) then ("", "", via)
    else
      var val := g[g[parent].content[slot]];
      if g[parent].kind == MappingNode && slot > 0 && g[parent].content[slot - 1] in g then
        var key := g[g[parent].content[slot - 1]];
        (BestHead(key.headComment, val.headComment), BestLine(val.lineComment, key.lineComment), via)
      else if g[parent].kind == SequenceNode then
        (BestHead(val.headComment, ""), BestLine(val.lineComment, ""), via)
      else ("", "", via)
  }

  // Of two head comments that of the key counts, and of two line comments that of the
  // value; one alone counts wherever it stands.
  lemma CommentsOfEntry(g: Graph, parent: Node, slot: nat, via: bool)
    requires parent in g && 0 < slot < |g[parent].content| && g[parent].kind == MappingNode
    requires g[parent].content[slot] in g && g[parent].content[slot - 1] in g
    ensures var key, val := g[g[parent].content[slot - 1]], g[g[parent].content[slot]];
      var c := SlotComments(g, parent, slot, via);
      && (key.headComment != "" ==> c.0 == Clean(key.headComment, true))
      && (key.headComment == "" && val.headComment != "" ==> c.0 == Clean(val.headComment, true))
      && (val.lineComment != "" ==> c.1 == Trim(TrimHashes(val.lineComment)))
      && (val.lineComment == "" && key.lineComment != "" ==> c.1 == Trim(TrimHashes(key.lineComment)))
      && c.2 == via
  {
    hide Clean, Trim, TrimHashes;
  }

  // effectiveComments
  method EffectiveComments(root: Node, segs: seq<Segment>, ghost g: Graph)
    returns (head: string, lineText: string, viaAlias: bool)
    requires Shows(g) && Snapshot(g.Keys) == g && WellFormed(g) && root in g
    ensures (head, lineText, viaAlias) == EffComments(g, root, segs)
  {
    hide Denote, Ranked, ReadSlot, BestHead, BestLine;
    var parent, slot, via := FindParentSlotReadOnly(root, segs, g);
    if slot < 0 {
      return "", "", false;
    }
    ReadSlotIn(g, root, segs);
    RankedHere(g, SomeRank(g), parent);
    assert parent.Snap() == g[parent];
    var val := parent.content[slot];
    assert val.Snap() == g[val];
    if parent.kind == MappingNode {
      var key := parent.content[slot - 1];
      assert key.Snap() == g[key];
      return BestHead(key.headComment, val.headComment), BestLine(val.lineComment, key.lineComment), via;
    }
    return BestHead(val.headComment, ""), BestLine(val.lineComment, ""), via;
  }

  lemma ReadSlotIn(g: Graph, root: Node, segs: seq<Segment>)
    requires WellFormed(g) && root in g && segs != [] && ReadSlot(g, root, segs).Some?
    ensures var r := ReadSlot(g, root, segs).value;
      && r.0 in g && r.1 < |g[r.0].content| && g[r.0].content[r.1] in g
      && (g[r.0].kind == MappingNode || g[r.0].kind == SequenceNode)
      && (g[r.0].kind == MappingNode ==> r.1 > 0)
  {
    hide Denote, Ranked;
    ReadSlotWalks(g, root, segs);
  }

  // ----- writing comments -----

  function LineText(lineText: string): string {
    if lineText == "" then "" else "# " + lineText
  }

  // The comment fields of a key and its value, or of one item, are replaced.
  ghost predicate Recommented(g: Graph, h: Graph, key: Node, val: Node, head: string, lineText: string) {
    && Cosmetic(g, h) && key in g && val in g
    && (forall x {:trigger h[x]} | x in g && x != key && x != val :: h[x] == g[x])
    && h[key].headComment == Format(head)
    && h[val].lineComment == (if lineText == "" then "" else "# " + lineText)
    && (key != val ==> h[key].lineComment == "" && h[val].headComment == "")
    && h[key].footComment == g[key].footComment && h[val].footComment == g[val].footComment
  }

  method SetComments(key: Node, val: Node, head: string, lineText: string, ghost nodes: set<Node>)
    requires key in nodes && val in nodes
    modifies key`headComment, key`lineComment, val`headComment, val`lineComment
    ensures Recommented(old(Snapshot(nodes)), Snapshot(nodes), key, val, head, lineText)
  {
    hide Formatted, Recommented;
    ghost var g, k, v := Snapshot(nodes), key.Snap(), val.Snap();
    key.headComment := "";
    key.lineComment := "";
    val.headComment := "";
    val.lineComment := "";
    if head != "" {
      key.headComment := FormatHeadComment(head);
    }
    if lineText != "" {
      val.lineComment := "# " + lineText;
    }
    ghost var h := Snapshot(nodes);
    assert key.Snap() == if key == val then k.(headComment := Format(head), lineComment := LineText(lineText))
                         else k.(headComment := Format(head), lineComment := "");
    assert key != val ==> val.Snap() == v.(headComment := "", lineComment := LineText(lineText));
    forall x | x in g && x != key && x != val ensures h[x] == g[x] {
      assert x.Snap() == g[x];
    }
    RecommentedIs(g, h, key, val, head, lineText);
  }

  lemma RecommentedIs(g: Graph, h: Graph, key: Node, val: Node, head: string, lineText: string)
    requires h.Keys == g.Keys && key in g && val in g
    requires forall x {:trigger h[x]} | x in g && x != key && x != val :: h[x] == g[x]
    requires h[key] == if key == val then g[key].(headComment := Format(head), lineComment := LineText(lineText))
                       else g[key].(headComment := Format(head), lineComment := "")
    requires key != val ==> h[val] == g[val].(headComment := "", lineComment := LineText(lineText))
    ensures Recommented(g, h, key, val, head, lineText)
  {
    hide Format;
  }

  // The comments of a path are those of the value it leads to and of that value's key,
  // or of the item.
  ghost predicate Carries(h: Graph, root: Node, segs: seq<Segment>, ns: seq<Node>, key: Node, val: Node) {
    && segs != [] && Trail(h, ns, segs[..|segs| - 1]) && ns[0] == root
    && var parent := ns[|segs| - 1];
    && exists slot: int {:trigger SlotFor(h, parent, slot, segs[|segs| - 1])} ::
         SlotFor(h, parent, slot, segs[|segs| - 1]) && val == h[parent].content[slot]
         && key == if h[parent].kind == MappingNode then h[parent].content[slot - 1] else val
  }

  lemma CarriesHere(g: Graph, h: Graph, root: Node, segs: seq<Segment>, ns: seq<Node>, parent: Node, slot: int)
    requires SlotFound(g, h, root, segs, ns, parent, slot)
    ensures parent in h && 0 <= slot < |h[parent].content| && (h[parent].kind == MappingNode ==> slot > 0)
    ensures var val := h[parent].content[slot];
      Carries(h, root, segs, ns, if h[parent].kind == MappingNode then h[parent].content[slot - 1] else val, val)
  {
    hide Denote, Ranked, Trail, SlotFor, SlotFound, Walked, Expands, LocalWalk;
    SlotTrail(g, h, root, segs, ns, parent, slot);
    CommentTargets(g, h, root, segs, ns, parent, slot);
    assert SlotFor(h, ns[|segs| - 1], slot, segs[|segs| - 1]);
  }

  // What effectiveComments reads of comments written for a head and a line.
  function Shown(head: string, lineText: string): (string, string, bool) {
    (Clean(Format(head), true), Trim(lineText), false)
  }

  // A walk along a trail, without looking through anything, ends in its slot.
  lemma {:induction false} TrailReadSlot(h: Graph, ns: seq<Node>, segs: seq<Segment>, slot: nat)
    requires segs != [] && Trail(h, ns, segs[..|segs| - 1]) && SlotFor(h, ns[|segs| - 1], slot, segs[|segs| - 1])
    ensures ReadSlot(h, ns[0], segs) == Some((ns[|segs| - 1], slot, false))
    decreases |segs|
  {
    hide Denote, Ranked, SlotFor;
    if |segs| == 1 {
      SlotReached(h, ns[0], segs[0], slot);
    } else {
      var rest := segs[1..];
      assert rest[..|rest| - 1] == segs[..|segs| - 1][1..];
      TrailTail(h, ns, segs[..|segs| - 1]);
      TrailReadSlot(h, ns[1..], rest, slot);
      assert At(h, ns[0], segs[..|segs| - 1][0], ns[1]);
      var s := AtWitness(h, ns[0], segs[0], ns[1]);
    }
  }

  lemma CosmeticTrail(g: Graph, h: Graph, ns: seq<Node>, p: seq<Segment>)
    requires Cosmetic(g, h) && Trail(g, ns, p)
    ensures Trail(h, ns, p)
  {
    hide Denote, Ranked, SlotFor;
    CosmeticMeaning(g, h);
    CosmeticKeys(g, h);
    forall j | 0 <= j < |p| ensures At(h, ns[j], p[j], ns[j + 1]) {
      assert At(g, ns[j], p[j], ns[j + 1]);
      var s := AtWitness(g, ns[j], p[j], ns[j + 1]);
      CosmeticSlot(g, h, ns[j], s, p[j]);
    }
  }

  lemma CosmeticSlot(g: Graph, h: Graph, n: Node, slot: int, seg: Segment)
    requires Cosmetic(g, h) && WellFormed(g) && n in g && SlotFor(g, n, slot, seg)
    ensures n in h && WellFormed(h) && SlotFor(h, n, slot, seg) && h[n].content == g[n].content &&
      h[n].kind == g[n].kind
  {
    hide Denote, Ranked;
    CosmeticMeaning(g, h);
  }

  // Written comments are read back.
  lemma CommentsReadBack(g: Graph, h: Graph, root: Node, segs: seq<Segment>, ns: seq<Node>, key: Node, val: Node,
                         head: string, lineText: string)
    requires Carries(g, root, segs, ns, key, val) && Recommented(g, h, key, val, head, lineText)
    ensures WellFormed(h) && root in h && EffComments(h, root, segs) == Shown(head, lineText)
  {
    hide Denote, Ranked, SlotFor, Trail, ReadSlot, Clean, Format, Trim, TrimHashes, Cosmetic, BestHead, BestLine;
    var p := segs[..|segs| - 1];
    RecommentedIsCosmetic(g, h, key, val, head, lineText);
    TrailFacts(g, ns, p);
    var parent := ns[|segs| - 1];
    CosmeticTrail(g, h, ns, p);
    TrailFacts(h, ns, p);
    var slot := CarriesWitness(g, root, segs, ns, key, val);
    CosmeticSlot(g, h, parent, slot, segs[|segs| - 1]);
    SlotInside(h, parent, slot, segs[|segs| - 1]);
    TrailReadSlot(h, ns, segs, slot);
    CosmeticKeys(g, h);
    HeadReadsBack(head);
    LineReadsBack(lineText);
  }

  lemma CarriesWitness(h: Graph, root: Node, segs: seq<Segment>, ns: seq<Node>, key: Node, val: Node)
    returns (slot: nat)
    requires Carries(h, root, segs, ns, key, val)
    ensures var parent := ns[|segs| - 1];
      && SlotFor(h, parent, slot, segs[|segs| - 1]) && slot < |h[parent].content| && val == h[parent].content[slot]
      && (h[parent].kind == MappingNode ==> slot > 0)
      && key == if h[parent].kind == MappingNode then h[parent].content[slot - 1] else val
  {
    hide Denote, Ranked, Trail;
    TrailFacts(h, ns, segs[..|segs| - 1]);
    var parent := ns[|segs| - 1];
    var s: int :| SlotFor(h, parent, s, segs[|segs| - 1]) && val == h[parent].content[s]
      && key == if h[parent].kind == MappingNode then h[parent].content[s - 1] else val;
    SlotInside(h, parent, s, segs[|segs| - 1]);
    slot := s;
  }

  lemma SlotInside(h: Graph, parent: Node, slot: int, seg: Segment)
    requires WellFormed(h) && parent in h && SlotFor(h, parent, slot, seg)
    ensures 0 <= slot < |h[parent].content| && h[parent].content[slot] in h
    ensures h[parent].kind == SequenceNode ||
      (h[parent].kind == MappingNode && slot > 0 && h[parent].content[slot - 1] in h)
  {
    hide Denote, Ranked;
    RankedHere(h, SomeRank(h), parent);
  }

  lemma HeadReadsBack(head: string)
    ensures BestHead(Format(head), "") == BestHead(Format(head), Format(head)) == Clean(Format(head), true)
  {
    hide Format, Clean;
    CleanNothing(true);
  }

  lemma LineReadsBack(lineText: string)
    ensures BestLine(LineText(lineText), "") == BestLine(LineText(lineText), LineText(lineText)) == Trim(lineText)
  {
    HashSpace(lineText);
  }

  // applyOverrideComments; `mid` is the graph once the aliases on the way are
  // broken.
  method ApplyOverrideComments(root: Node, segs: seq<Segment>, head: string, lineText: string, ghost nodes: set<Node>)
    returns (ghost key: Node, ghost val: Node, ghost ns: seq<Node>, ghost mid: Graph, ghost all: set<Node>)
    requires root in nodes && WellFormed(Snapshot(nodes))
    modifies nodes
    ensures nodes <= all && fresh(all - nodes)
    ensures Expands(old(Snapshot(nodes)), mid) && Cosmetic(mid, Snapshot(all))
    ensures if segs != [] && LocalWalk(old(Denote(Snapshot(nodes), root)), segs).Some?
            then Along(old(Snapshot(nodes)), mid, ns) &&
                 Recommented(mid, Snapshot(all), key, val, head, lineText) && Carries(mid, root, segs, ns, key, val)
            else Snapshot(all) == mid
    ensures WellFormed(Snapshot(all)) && root in all
    ensures segs != [] && LocalWalk(old(Denote(Snapshot(nodes), root)), segs).Some? ==>
      EffComments(Snapshot(all), root, segs) == Shown(head, lineText)
  {
    hide Denote, Ranked, LocalWalk, Expands, Walked, SlotFound, SlotFor, Recommented, Cosmetic, Carries, EffComments,
         Shown, Along;
    ghost var g := Snapshot(nodes);
    key, val := root, root;
    var parent, slot;
    parent, slot, ns, all := FindParentSlot(root, segs, nodes);
    mid := Snapshot(all);
    ExpandsFacts(g, mid);
    if slot < 0 {
      CosmeticSame(mid);
      return;
    }
    SlotTrail(g, mid, root, segs, ns, parent, slot);
    CommentTargets(g, mid, root, segs, ns, parent, slot);
    assert parent.Snap() == mid[parent];
    val := parent.content[slot];
    key := if parent.kind == MappingNode then parent.content[slot - 1] else parent.content[slot];
    CarriesHere(g, mid, root, segs, ns, parent, slot);
    SlotAlong(g, mid, root, segs, ns, parent, slot);
    if parent.kind == MappingNode {
      var keyNode, valNode := parent.content[slot - 1], parent.content[slot];
      SetComments(keyNode, valNode, head, lineText, all);
    } else {
      var item := parent.content[slot];
      SetComments(item, item, head, lineText, all);
    }
    RecommentedIsCosmetic(mid, Snapshot(all), key, val, head, lineText);
    CommentsReadBack(mid, Snapshot(all), root, segs, ns, key, val, head, lineText);
  }

  lemma RecommentedIsCosmetic(g: Graph, h: Graph, key: Node, val: Node, head: string, lineText: string)
    requires Recommented(g, h, key, val, head, lineText)
    ensures Cosmetic(g, h)
  {
  }

  lemma CosmeticSame(g: Graph)
    ensures Cosmetic(g, g)
  {
  }

  lemma CommentTargets(g: Graph, h: Graph, root: Node, segs: seq<Segment>, ns: seq<Node>, parent: Node, slot: int)
    requires SlotFound(g, h, root, segs, ns, parent, slot)
    ensures parent in h && 0 <= slot < |h[parent].content| && h[parent].content[slot] in h
    ensures h[parent].kind == MappingNode ==> slot > 0 && h[parent].content[slot - 1] in h
    ensures h[parent].kind == MappingNode || h[parent].kind == SequenceNode
    ensures segs != [] && WellFormed(h) && Some(Denote(h, h[parent].content[slot])) == LocalWalk(Denote(g, root), segs)
  {
    hide Denote, Ranked, LocalWalk, Expands;
    RankedHere(h, SomeRank(h), parent);
  }

  lemma CosmeticShape(g: Graph, h: Graph, root: Node)
    requires Cosmetic(g, h) && AliasFree(g, root)
    ensures AliasFree(h, root)
  {
    forall n | n in h ensures SameShape(g[n], h[n]) {
      assert h[n] == h[n];
    }
  }

  // ----- one entry -----

  // An entry that the document already agrees with.
  ghost predicate Unedited(g: Graph, root: Node, e: Entry)
    requires WellFormed(g) && root in g
  {
    match ParseKey(e.key)
    case Err => false
    case Ok(segs) =>
      || segs == []
      || Placeholder(Denote(g, root), segs, e)
      || (ValueUnchanged(Denote(g, root), segs, e) && CommentsUnchanged(g, root, segs, e))
  }

  ghost predicate CommentsUnchanged(g: Graph, root: Node, segs: seq<Segment>, e: Entry)
    requires WellFormed(g) && root in g
  {
    var c := EffComments(g, root, segs);
    c.2 || OverrideCommentsMatch(e.headComment, e.lineComment, c.0, c.1)
  }

  // A document that patching is described on: no aliases and no merge keys.
  ghost predicate Simple(g: Graph, root: Node) {
    WellFormed(g) && root in g && AliasFree(g, root) && Regular(Denote(g, root))
  }

  // When an entry goes through: its key parses, and either there is nothing to write or
  // the containers on its path fit.
  ghost predicate Goes(t: Tree, e: Entry) {
    match ParseKey(e.key)
    case Err => false
    case Ok(p) => p == [] || Placeholder(t, p, e) || ValueUnchanged(t, p, e) || PathFits(t, p)
  }

  // A container of the type is at the path.
  ghost predicate ContainerThere(t: Tree, p: seq<Segment>, typ: string) {
    match LazyWalk(t, p)
    case None => false
    case Some(u) => if typ == "map" then u.kind == MappingNode else typ == "list" && u.kind == SequenceNode
  }

  // The entry reads back, also through aliases and merge keys.
  ghost predicate ReadsBack(t: Tree, u: Tree, p: seq<Segment>, e: Entry, convert: Convert) {
    NoMergeNames(p) && !ContainerThere(t, p, e.typ) ==>
      Stores(EffectiveScalar(t, p), EffectiveScalar(u, p), e, convert)
  }

  // What one entry does: nothing if the document agrees with it, and on a simple
  // document what the plan says.  On every document it goes through exactly if it can,
  // and reads back.
  ghost predicate EntryDone(g: Graph, h: Graph, root: Node, e: Entry, convert: Convert, ok: bool)
    requires WellFormed(g) && root in g
  {
    && WellFormed(h) && root in h
    && (MergesMappings(Denote(g, root)) && Unedited(g, root, e) ==> ok && h == g)
    && (Simple(g, root) ==>
          match ParseKey(e.key)
          case Err => !ok
          case Ok(p) => NoMergeNames(p) ==>
            && (ok <==> Applied(Denote(g, root), p, e, convert).Some?)
            && (ok ==> Simple(h, root) && Some(Denote(h, root)) == Applied(Denote(g, root), p, e, convert)))
    && (MergesMappings(Denote(g, root)) ==>
          && (ok <==> Goes(Denote(g, root), e))
          && (ok && ParseKey(e.key).value != [] ==>
                ReadsBack(Denote(g, root), Denote(h, root), ParseKey(e.key).value, e, convert)))
  }

  // If the comments of an entry differ from those of the document they are written, and
  // can be read there afterwards.
  ghost predicate CommentsDone(g: Graph, h: Graph, root: Node, e: Entry, ok: bool)
    requires WellFormed(g) && root in g
  {
    && WellFormed(h) && root in h
    && (ok && MergesMappings(Denote(g, root)) && ParseKey(e.key).Ok? ==>
          var segs := ParseKey(e.key).value;
          segs != [] && !Placeholder(Denote(g, root), segs, e) && !CommentsUnchanged(g, root, segs, e)
            && LocalWalk(Denote(h, root), segs).Some? ==>
            EffComments(h, root, segs) == Shown(e.headComment, e.lineComment))
  }

  lemma NoCommentsDue(g: Graph, h: Graph, root: Node, e: Entry, ok: bool)
    requires WellFormed(g) && root in g && WellFormed(h) && root in h
    requires ok && MergesMappings(Denote(g, root)) && ParseKey(e.key).Ok? ==>
      var segs := ParseKey(e.key).value;
      segs == [] || Placeholder(Denote(g, root), segs, e) || CommentsUnchanged(g, root, segs, e)
    ensures CommentsDone(g, h, root, e, ok)
  {
  }

  lemma CommentsAreDone(g: Graph, h: Graph, root: Node, e: Entry, segs: seq<Segment>)
    requires WellFormed(g) && root in g && WellFormed(h) && root in h && ParseKey(e.key) == Ok(segs)
    requires LocalWalk(Denote(h, root), segs).Some? ==>
      EffComments(h, root, segs) == Shown(e.headComment, e.lineComment)
    ensures CommentsDone(g, h, root, e, true)
  {
  }

  // The document then agrees with the entry exactly if its head comment is clean and
  // has no blank lines, and its line comment is trimmed.
  lemma WrittenCommentsAgree(e: Entry)
    ensures var c := Shown(e.headComment, e.lineComment);
      OverrideCommentsMatch(e.headComment, e.lineComment, c.0, c.1) <==>
        IsCompact(e.headComment) && Trimmed(e.lineComment)
  {
    hide IsCompact, Clean, Format;
    TrimOfTrimmed(e.lineComment);
    CleanFormatCompact(e.headComment);
    assert Trim("") == "";
  }

  lemma {:induction false} RegularMerges(t: Tree)
    requires Regular(t)
    ensures MergesMappings(t)
  {
    forall k | k in t.kids ensures MergesMappings(k) {
      var i :| 0 <= i < |t.kids| && t.kids[i] == k;
      RegularMerges(k);
    }
    if t.kind == MappingNode {
      forall i | 0 <= i && i + 1 < |t.kids| && i % 2 == 0 ensures !IsMergeKey(t.kids[i]) {
        assert KeyAt(t.kids, i);
      }
    }
  }

  // One turn of the loop over the entries.
  method PatchEntry(root: Node, e: Entry, convert: Convert, ghost nodes: set<Node>)
    returns (ok: bool, ghost all: set<Node>)
    requires root in nodes && WellFormed(Snapshot(nodes))
    modifies nodes
    ensures nodes <= all && fresh(all - nodes)
    ensures EntryDone(old(Snapshot(nodes)), Snapshot(all), root, e, convert, ok)
    ensures CommentsDone(old(Snapshot(nodes)), Snapshot(all), root, e, ok)
  {
    hide Denote, Ranked, MergesMappings, EffComments, Simple, Applied, EntryDone, CommentsDone;
    ghost var g := Snapshot(nodes);
    all := nodes;
    var parsed := ParseKeySegments(e.key);
    if parsed.Err? {
      KeyFails(g, root, e, convert);
      NoCommentsDue(g, g, root, e, false);
      return false, all;
    }
    var segs := parsed.value;
    if |segs| == 0 {
      SkippedEntry(g, root, e, segs, convert);
      NoCommentsDue(g, g, root, e, true);
      return true, all;
    }
    assert Shows(g);
    if e.typ == TYPE_MAP || e.typ == TYPE_LIST {
      var matches := TreeNodeMatchesContainerType(root, segs, e.typ, g);
      if matches {
        SkippedPlaceholder(g, root, e, segs, convert);
        NoCommentsDue(g, g, root, e, true);
        return true, all;
      }
    }
    var effective, hasValue := FindEffectiveScalar(root, segs, g);
    var valueUnchanged := hasValue && ScalarsEquivalent(effective, e.value, e.typ);
    var head, lineText, viaAlias := EffectiveComments(root, segs, g);
    var commentsUnchanged := OverrideCommentsMatch(e.headComment, e.lineComment, head, lineText);
    if viaAlias {
      commentsUnchanged := true;
    }
    ok, all := WriteEntry(root, e, segs, convert, valueUnchanged, commentsUnchanged, nodes);
  }

  // Its end: the value and the comments are written unless unchanged.
  method WriteEntry(root: Node, e: Entry, segs: seq<Segment>, convert: Convert, valueUnchanged: bool,
                    commentsUnchanged: bool, ghost nodes: set<Node>)
    returns (ok: bool, ghost all: set<Node>)
    requires root in nodes && WellFormed(Snapshot(nodes)) && ParseKey(e.key) == Ok(segs) && segs != []
    requires var g := Snapshot(nodes);
      MergesMappings(Denote(g, root)) ==>
        && !Placeholder(Denote(g, root), segs, e)
        && (valueUnchanged <==> ValueUnchanged(Denote(g, root), segs, e))
        && (commentsUnchanged <==> CommentsUnchanged(g, root, segs, e))
    modifies nodes
    ensures nodes <= all && fresh(all - nodes)
    ensures EntryDone(old(Snapshot(nodes)), Snapshot(all), root, e, convert, ok)
    ensures CommentsDone(old(Snapshot(nodes)), Snapshot(all), root, e, ok)
  {
    hide Denote, Ranked, MergesMappings, EffComments, Simple, Applied, EntryDone, CommentsDone, LocalWalk, Edit,
         Touched, Written, Expands, Cosmetic;
    ghost var g := Snapshot(nodes);
    all := nodes;
    if valueUnchanged && commentsUnchanged {
      KeptEntry(g, root, e, segs, convert);
      NoCommentsDue(g, g, root, e, true);
      return true, all;
    }
    ghost var m := g;
    if !valueUnchanged {
      ghost var ns;
      ok, ns, all := UpsertPath(root, segs, convert(e.value, e.typ), nodes);
      m := Snapshot(all);
      EditFacts(g, m, Touched(g, root, segs));
      if !ok {
        FailedEntry(g, m, root, e, segs, convert);
        NoCommentsDue(g, m, root, e, false);
        return false, all;
      }
      StoredEntry(g, m, root, e, segs, convert, ns);
    } else {
      UnstoredEntry(g, root, e, segs, convert);
    }
    if !commentsUnchanged {
      ghost var key, val, ns, mid;
      key, val, ns, mid, all := ApplyOverrideComments(root, segs, e.headComment, e.lineComment, all);
      CommentedEntry(g, m, mid, Snapshot(all), root, e, segs, convert);
      SameTree(m, mid, Snapshot(all), root);
      CommentsAreDone(g, Snapshot(all), root, e, segs);
    } else {
      ExpandsReflexive(m);
      CosmeticSame(m);
      CommentedEntry(g, m, m, m, root, e, segs, convert);
      NoCommentsDue(g, m, root, e, true);
    }
    ok := true;
  }

  lemma SameTree(m: Graph, mid: Graph, h: Graph, root: Node)
    requires Expands(m, mid) && Cosmetic(mid, h) && root in m
    ensures WellFormed(m) && WellFormed(h) && root in h && Denote(h, root) == Denote(m, root)
  {
    hide Denote, Ranked;
    ExpandsFacts(m, mid);
    CosmeticMeaning(mid, h);
    CosmeticKeys(mid, h);
  }

  lemma KeyFails(g: Graph, root: Node, e: Entry, convert: Convert)
    requires WellFormed(g) && root in g && ParseKey(e.key).Err?
    ensures EntryDone(g, g, root, e, convert, false)
  {
  }

  lemma SkippedEntry(g: Graph, root: Node, e: Entry, segs: seq<Segment>, convert: Convert)
    requires WellFormed(g) && root in g && ParseKey(e.key) == Ok(segs) && segs == []
    ensures EntryDone(g, g, root, e, convert, true)
  {
  }

  lemma SkippedPlaceholder(g: Graph, root: Node, e: Entry, segs: seq<Segment>, convert: Convert)
    requires WellFormed(g) && root in g && ParseKey(e.key) == Ok(segs)
    requires MergesMappings(Denote(g, root)) ==> Placeholder(Denote(g, root), segs, e)
    ensures EntryDone(g, g, root, e, convert, true)
  {
    hide Denote, Ranked, MergesMappings;
    if Simple(g, root) {
      RegularMerges(Denote(g, root));
    }
  }

  lemma KeptEntry(g: Graph, root: Node, e: Entry, segs: seq<Segment>, convert: Convert)
    requires WellFormed(g) && root in g && ParseKey(e.key) == Ok(segs)
    requires MergesMappings(Denote(g, root)) ==> ValueUnchanged(Denote(g, root), segs, e)
    ensures EntryDone(g, g, root, e, convert, true)
  {
    hide Denote, Ranked, MergesMappings;
    if Simple(g, root) {
      RegularMerges(Denote(g, root));
    }
  }

  // The value differs and cannot be written.
  lemma FailedEntry(g: Graph, h: Graph, root: Node, e: Entry, segs: seq<Segment>, convert: Convert)
    requires WellFormed(g) && root in g && WellFormed(h) && root in h && ParseKey(e.key) == Ok(segs) && segs != []
    requires !PathFits(Denote(g, root), segs)
    requires MergesMappings(Denote(g, root)) ==>
      !Placeholder(Denote(g, root), segs, e) && !ValueUnchanged(Denote(g, root), segs, e)
    ensures EntryDone(g, h, root, e, convert, false)
  {
    hide Denote, Ranked, MergesMappings, PathFits;
    UpsertSucceeds(Denote(g, root), segs, convert(e.value, e.typ));
    if Simple(g, root) {
      RegularMerges(Denote(g, root));
    }
  }

  // What the rest of the entry starts from.
  ghost predicate ValueDone(g: Graph, h: Graph, root: Node, e: Entry, segs: seq<Segment>, convert: Convert)
    requires WellFormed(g) && root in g
  {
    && WellFormed(h) && root in h
    && (Simple(g, root) && NoMergeNames(segs) ==>
          Simple(h, root) && Some(Denote(h, root)) == Applied(Denote(g, root), segs, e, convert))
    && (MergesMappings(Denote(g, root)) ==>
          Goes(Denote(g, root), e) && ReadsBack(Denote(g, root), Denote(h, root), segs, e, convert))
  }

  lemma StoredEntry(g: Graph, h: Graph, root: Node, e: Entry, segs: seq<Segment>, convert: Convert, ns: seq<Node>)
    requires WellFormed(g) && root in g && WellFormed(h) && root in h && segs != [] && ParseKey(e.key) == Ok(segs)
    requires Written(g, h, root, segs, convert(e.value, e.typ), ns) && PathFits(Denote(g, root), segs)
    requires MergesMappings(Denote(g, root)) ==>
      !Placeholder(Denote(g, root), segs, e) && !ValueUnchanged(Denote(g, root), segs, e)
    ensures ValueDone(g, h, root, e, segs, convert)
    ensures MergesMappings(Denote(g, root)) ==> !Unedited(g, root, e)
    ensures Simple(g, root) && NoMergeNames(segs) ==> Applied(Denote(g, root), segs, e, convert).Some?
  {
    hide Denote, Ranked, MergesMappings, AliasFree, EffComments;
    if Simple(g, root) {
      RegularMerges(Denote(g, root));
      if NoMergeNames(segs) {
        UpsertedRegular(Denote(g, root), segs, convert(e.value, e.typ));
      }
    }
  }

  lemma UnstoredEntry(g: Graph, root: Node, e: Entry, segs: seq<Segment>, convert: Convert)
    requires WellFormed(g) && root in g && segs != [] && ParseKey(e.key) == Ok(segs)
    requires MergesMappings(Denote(g, root)) ==> ValueUnchanged(Denote(g, root), segs, e)
    ensures ValueDone(g, g, root, e, segs, convert)
    ensures Simple(g, root) ==> Applied(Denote(g, root), segs, e, convert).Some?
  {
    hide Denote, Ranked, MergesMappings, AliasFree;
    if Simple(g, root) {
      RegularMerges(Denote(g, root));
    }
  }

  lemma CommentedEntry(g: Graph, m: Graph, mid: Graph, h: Graph, root: Node, e: Entry, segs: seq<Segment>,
                       convert: Convert)
    requires WellFormed(g) && root in g && ParseKey(e.key) == Ok(segs) && segs != []
    requires ValueDone(g, m, root, e, segs, convert) && Expands(m, mid) && Cosmetic(mid, h)
    requires MergesMappings(Denote(g, root)) ==> !Unedited(g, root, e)
    requires Simple(g, root) && NoMergeNames(segs) ==> Applied(Denote(g, root), segs, e, convert).Some?
    ensures EntryDone(g, h, root, e, convert, true)
  {
    hide Denote, Ranked, MergesMappings, AliasFree, EffComments, Applied, Regular;
    ExpandsFacts(m, mid);
    CosmeticMeaning(mid, h);
    CosmeticKeys(mid, h);
    if Simple(g, root) && NoMergeNames(segs) {
      SimpleExpands(m, mid, root);
      CosmeticShape(mid, h, root);
    }
  }

  lemma SimpleExpands(g: Graph, h: Graph, root: Node)
    requires Expands(g, h) && AliasFree(g, root)
    ensures h == g
  {
  }
}
