/** Collapsed sections, searching, and which rows show
  (ui/page/values_page_events.go, service/values_service.go). */
module Collapsing {
  import opened Prelude
  import opened FlatKey
  import opened KeyPath
  import opened Rows

  // ----- visible rows -----

  predicate RowShown(key: string, collapsed: set<string>) {
    key in collapsed || forall p | p in ParentChain(key) :: p !in collapsed
  }

  // A comment row goes with the row before it.
  predicate LastShown(rows: seq<Row>, collapsed: set<string>, i: nat)
    requires i <= |rows|
  {
    i == 0 ||
    if rows[i - 1].IsComment() then LastShown(rows, collapsed, i - 1) else RowShown(rows[i - 1].key, collapsed)
  }

  predicate Shown(rows: seq<Row>, collapsed: set<string>, i: nat)
    requires i < |rows|
  {
    if rows[i].IsComment() then LastShown(rows, collapsed, i) else RowShown(rows[i].key, collapsed)
  }

  // However deep it is, a row hides exactly if a section above it is collapsed and it is
  // not itself one that is.
  lemma HiddenBelow(p: seq<Segment>, collapsed: set<string>)
    requires Rooted(p)
    ensures !RowShown(Encode(p), collapsed) <==>
      Encode(p) !in collapsed && exists m :: 0 < m < |p| && Encode(p[..m]) in collapsed
  {
    hide Encode, ParentChain, Rooted;
    forall k ensures k in ParentChain(Encode(p)) <==> exists m :: 0 < m < |p| && k == Encode(p[..m]) {
      ParentChainEncode(p, k);
    }
  }

  // Comment rows show with the row they follow.
  lemma {:induction false} CommentsFollow(rows: seq<Row>, collapsed: set<string>, i: nat, j: nat)
    requires i < j < |rows| && !rows[i].IsComment() && forall k | i < k <= j :: rows[k].IsComment()
    ensures Shown(rows, collapsed, j) <==> RowShown(rows[i].key, collapsed)
  {
    hide RowShown;
    LastOf(rows, collapsed, i, j);
  }

  lemma {:induction false} LastOf(rows: seq<Row>, collapsed: set<string>, i: nat, j: nat)
    requires i < j < |rows| && !rows[i].IsComment() && forall k | i < k < j :: rows[k].IsComment()
    ensures LastShown(rows, collapsed, j) <==> RowShown(rows[i].key, collapsed)
    decreases j
  {
    hide RowShown;
    if j > i + 1 {
      LastOf(rows, collapsed, i, j - 1);
    }
  }

  // The inner loop: does a section above the key hide it?
  method Hidden(key: string, collapsed: set<string>) returns (hidden: bool)
    ensures hidden <==> exists p :: p in ParentChain(key) && p in collapsed
  {
    if key == "" {
      return false;
    }
    var p := Parent(key);
    ghost var from := key;
    while p != ""
      invariant p == ParentOf(from) && from != ""
      invariant (exists q :: q in ParentChain(key) && q in collapsed) <==>
        (exists q :: q in ParentChain(from) && q in collapsed)
      decreases |p|
    {
      ghost var chain := ParentChain(from);
      assert chain == [p] + ParentChain(p);
      if p in collapsed {
        assert p in chain;
        return true;
      }
      from := p;
      p := Parent(p);
      assert forall q :: q in chain <==> q == from || q in ParentChain(from);
    }
    hidden := false;
  }

  // VisibleRows
  method VisibleRows(rows: seq<Row>, collapsed: set<string>) returns (out: seq<nat>)
    ensures forall i, j | 0 <= i < j < |out| :: out[i] < out[j]
    ensures forall i :: i in out <==> 0 <= i < |rows| && Shown(rows, collapsed, i)
  {
    out := [];
    if |collapsed| == 0 {
      for i := 0 to |rows|
        invariant forall k :: k in out <==> 0 <= k < i
        invariant forall k, j | 0 <= k < j < |out| :: out[k] < out[j]
      {
        assert forall k | 0 <= k < |out| :: out[k] in out;
        out := out + [i];
      }
      forall i | 0 <= i < |rows| ensures Shown(rows, collapsed, i) {
        NothingHidden(rows, collapsed, i);
      }
      return;
    }
    var lastNonCommentVisible := true;
    for i := 0 to |rows|
      invariant lastNonCommentVisible == LastShown(rows, collapsed, i)
      invariant forall k :: k in out <==> 0 <= k < i && Shown(rows, collapsed, k)
      invariant forall k, j | 0 <= k < j < |out| :: out[k] < out[j]
    {
      assert forall k | 0 <= k < |out| :: out[k] in out;
      var row := rows[i];
      if row.IsComment() {
        if lastNonCommentVisible {
          out := out + [i];
        }
        continue;
      }
      if row.key in collapsed {
        lastNonCommentVisible := true;
        out := out + [i];
        continue;
      }
      var hidden := Hidden(row.key, collapsed);
      lastNonCommentVisible := !hidden;
      if !hidden {
        out := out + [i];
      }
    }
  }

  lemma {:induction false} NothingHidden(rows: seq<Row>, collapsed: set<string>, i: nat)
    requires collapsed == {} && i <= |rows|
    ensures LastShown(rows, collapsed, i) && (i < |rows| ==> Shown(rows, collapsed, i))
  {
    if i > 0 {
      NothingHidden(rows, collapsed, i - 1);
    }
  }

  // ----- the collapsed set across a search -----

  datatype Collapse = Collapse(collapsed: set<string>, preSearch: set<string>, active: bool)

  function Flip(s: set<string>, k: string): set<string> {
    if k in s then s - {k} else s + {k}
  }

  function Toggled(c: Collapse, k: string): Collapse {
    c.(collapsed := Flip(c.collapsed, k), preSearch := if c.active then Flip(c.preSearch, k) else c.preSearch)
  }

  function Synced(c: Collapse, inSearch: bool): Collapse {
    if inSearch && !c.active then Collapse(c.collapsed, c.collapsed, true)
    else if !inSearch && c.active then Collapse(c.preSearch, {}, false)
    else c
  }

  // The sections above the matched rows.
  function AboveMatches(rows: seq<Row>, indices: seq<nat>): set<string> {
    set i, p | 0 <= i < |indices| && indices[i] < |rows| && p in ParentChain(rows[indices[i]].key) :: p
  }

  function Above(key: string): set<string> {
    set p | p in ParentChain(key)
  }

  // They are exactly the containers of those rows.
  lemma AboveIs(p: seq<Segment>, k: string)
    requires Rooted(p)
    ensures k in Above(Encode(p)) <==> exists m :: 0 < m < |p| && k == Encode(p[..m])
  {
    hide Encode, ParentChain, Rooted;
    ParentChainEncode(p, k);
  }

  // What is written to disk.
  function Persisted(c: Collapse): set<string> {
    if c.active then c.preSearch else c.collapsed
  }

  class CollapseState {
    var collapsed: set<string>
    var preSearch: set<string>
    var active: bool

    ghost function View(): Collapse
      reads this
    {
      Collapse(collapsed, preSearch, active)
    }

    constructor (saved: set<string>)
      ensures View() == Collapse(saved, {}, false)
    {
      collapsed, preSearch, active := saved, {}, false;
    }

    // onCollapseToggle
    method OnCollapseToggle(key: string)
      modifies this
      ensures View() == Toggled(old(View()), key)
    {
      if key in collapsed {
        collapsed := collapsed - {key};
      } else {
        collapsed := collapsed + {key};
      }
      if active {
        if key in preSearch {
          preSearch := preSearch - {key};
        } else {
          preSearch := preSearch + {key};
        }
      }
    }

    // syncSearchCollapseSnapshot
    method SyncSearchCollapseSnapshot(inSearch: bool)
      modifies this
      ensures View() == Synced(old(View()), inSearch)
    {
      if inSearch && !active {
        preSearch := collapsed;
        active := true;
      } else if !inSearch && active {
        if collapsed != preSearch {
          collapsed := preSearch;
        }
        preSearch := {};
        active := false;
      }
    }

    // The loops that UncollapseMatchAncestors and jumpToFlatKey share.
    method UncollapseAbove(key: string) returns (modified: bool)
      modifies this`collapsed
      ensures collapsed == old(collapsed) - Above(key)
      ensures modified <==> collapsed != old(collapsed)
    {
      modified := false;
      if key == "" {
        assert Above(key) == {};
        return;
      }
      ghost var was, from, seen := collapsed, key, {};
      var p := Parent(key);
      while p != ""
        invariant p == ParentOf(from) && from != ""
        invariant Above(key) == seen + Above(from)
        invariant collapsed == was - seen && (modified <==> collapsed != was)
        decreases |p|
      {
        assert ParentChain(from) == [p] + ParentChain(p);
        assert Above(from) == {p} + Above(p);
        if p in collapsed {
          collapsed := collapsed - {p};
          modified := true;
          assert p in was;
        }
        seen := seen + {p};
        from := p;
        p := Parent(p);
      }
      assert Above(from) == {};
    }

    // UncollapseMatchAncestors
    method UncollapseMatchAncestors(rows: seq<Row>, indices: seq<nat>) returns (modified: bool)
      modifies this`collapsed
      ensures collapsed == old(collapsed) - AboveMatches(rows, indices)
      ensures modified <==> collapsed != old(collapsed)
    {
      hide AboveMatches, Above;
      modified := false;
      if |collapsed| == 0 {
        assert collapsed == {} && collapsed - AboveMatches(rows, indices) == {};
        return;
      }
      ghost var was := collapsed;
      NoMatches(rows, indices);
      for i := 0 to |indices|
        invariant collapsed == was - AboveMatches(rows, indices[..i])
        invariant modified <==> collapsed != was
      {
        ghost var before, a := collapsed, AboveMatches(rows, indices[..i]);
        MoreMatches(rows, indices, i);
        if indices[i] >= |rows| {
          continue;
        }
        var key := rows[indices[i]].key;
        var changed := UncollapseAbove(key);
        Subtracted(was, a, Above(key), before, collapsed);
        modified := modified || changed;
      }
      assert indices[..|indices|] == indices;
    }

    // jumpToFlatKey
    method JumpToFlatKey(key: string)
      modifies this`collapsed
      ensures collapsed == old(collapsed) - Above(key)
    {
      if key == "" {
        assert Above(key) == {};
        return;
      }
      var modified := UncollapseAbove(key);
    }

    // The saved state arrives: it replaces the shown set, in a search too.
    method LoadState(keys: set<string>)
      modifies this`collapsed
      ensures View() == Next(old(View()), Load(keys))
    {
      collapsed := keys;
    }

    // What a frame does to the collapsed set.
    method Frame(inSearch: bool, rows: seq<Row>, matches: seq<nat>)
      modifies this
      ensures View() == Next(old(View()), FrameShown(inSearch, AboveMatches(rows, matches)))
    {
      SyncSearchCollapseSnapshot(inSearch);
      if inSearch && |collapsed| > 0 {
        var modified := UncollapseMatchAncestors(rows, matches);
      } else {
        assert collapsed == {} ==> collapsed - AboveMatches(rows, matches) == {};
      }
    }
  }

  lemma Subtracted(s: set<string>, a: set<string>, b: set<string>, before: set<string>, after: set<string>)
    requires before == s - a && after == before - b
    ensures after == s - (a + b)
    ensures before != s || after != before <==> after != s
  {
  }

  lemma NoMatches(rows: seq<Row>, indices: seq<nat>)
    ensures AboveMatches(rows, indices[..0]) == {}
  {
  }

  lemma MoreMatches(rows: seq<Row>, indices: seq<nat>, i: nat)
    requires i < |indices|
    ensures AboveMatches(rows, indices[..i + 1]) ==
      if indices[i] < |rows| then AboveMatches(rows, indices[..i]) + Above(rows[indices[i]].key)
      else AboveMatches(rows, indices[..i])
  {
    var a, b := AboveMatches(rows, indices[..i + 1]), AboveMatches(rows, indices[..i]);
    forall p | p in a ensures p in b || (indices[i] < |rows| && p in Above(rows[indices[i]].key)) {
      var j :| 0 <= j < i + 1 && indices[..i + 1][j] < |rows| && p in ParentChain(rows[indices[..i + 1][j]].key);
      if j < i {
        assert indices[..i][j] == indices[j];
      }
    }
    forall p | p in b ensures p in a {
      var j :| 0 <= j < i && indices[..i][j] < |rows| && p in ParentChain(rows[indices[..i][j]].key);
      assert indices[..i + 1][j] == indices[j];
    }
    if indices[i] < |rows| {
      assert indices[..i + 1][i] == indices[i];
    }
  }

  // After the uncollapse every match shows.
  lemma MatchesShow(rows: seq<Row>, indices: seq<nat>, collapsed: set<string>, i: nat)
    requires i < |indices| && indices[i] < |rows| && !rows[indices[i]].IsComment()
    ensures Shown(rows, collapsed - AboveMatches(rows, indices), indices[i])
  {
  }

  // ----- whole runs -----

  datatype Event =
    | Toggle(key: string)
    | FrameShown(inSearch: bool, above: set<string>) // the sections above this frame's matches
    | Jump(key: string)
    | Load(keys: set<string>) // the saved state arrives
    | Reset                   // another chart is opened

  function Next(c: Collapse, e: Event): Collapse {
    match e
    case Toggle(k) => Toggled(c, k)
    case FrameShown(inSearch, above) =>
      var s := Synced(c, inSearch);
      if inSearch then s.(collapsed := s.collapsed - above) else s
    case Jump(k) => c.(collapsed := c.collapsed - Above(k))
    case Load(keys) => c.(collapsed := keys)
    case Reset => Collapse({}, {}, false)
  }

  function Run(saved: set<string>, events: seq<Event>): Collapse {
    if events == [] then Collapse(saved, {}, false) else Next(Run(saved, events[..|events| - 1]), events[|events| - 1])
  }

  // Whether the last frame had a query; opening a chart clears it.
  predicate Searching(events: seq<Event>) {
    events != [] &&
    match events[|events| - 1]
    case FrameShown(inSearch, _) => inSearch
    case Reset => false
    case _ => Searching(events[..|events| - 1])
  }

  // What the user did: toggles, and jumps made outside a search, on the state that was
  // loaded outside a search.
  function Intended(saved: set<string>, events: seq<Event>): set<string> {
    if events == [] then saved
    else
      var before, e := events[..|events| - 1], events[|events| - 1];
      match e
      case Toggle(k) => Flip(Intended(saved, before), k)
      case Jump(k) => if Searching(before) then Intended(saved, before) else Intended(saved, before) - Above(k)
      case FrameShown(_, _) => Intended(saved, before)
      case Load(keys) => if Searching(before) then Intended(saved, before) else keys
      case Reset => {}
  }

  // Searching leaves no trace: what is saved is the loaded set changed by the user's
  // toggles and jumps alone, at every moment of every run.
  lemma {:induction false} SearchLeavesNoTrace(saved: set<string>, events: seq<Event>)
    ensures var c := Run(saved, events);
      && Persisted(c) == Intended(saved, events)
      && (c.active <==> Searching(events))
      && (!c.active ==> c.collapsed == Intended(saved, events))
  {
    if events != [] {
      SearchLeavesNoTrace(saved, events[..|events| - 1]);
    }
  }

  // A state that is loaded is what will be saved exactly if no search is on, or it is
  // what would have been saved anyway: the end of the search discards it.
  lemma LoadKeptExactly(saved: set<string>, events: seq<Event>, keys: set<string>)
    ensures var c := Run(saved, events + [Load(keys)]);
      && (Persisted(c) == keys <==> !Searching(events) || Persisted(Run(saved, events)) == keys)
      && (Searching(events) ==> Next(c, FrameShown(false, {})).collapsed == Persisted(Run(saved, events)))
  {
    assert (events + [Load(keys)])[..|events|] == events;
    SearchLeavesNoTrace(saved, events);
  }

  // In every run, a toggle during a search is saved as the user sees it exactly if the
  // search had not opened that section.
  lemma ToggleKeepsIntent(saved: set<string>, events: seq<Event>, k: string)
    requires Searching(events)
    ensures var was, now := Run(saved, events), Run(saved, events + [Toggle(k)]);
      (k in now.collapsed <==> k in Intended(saved, events + [Toggle(k)])) <==>
        (k in was.collapsed <==> k in Intended(saved, events))
  {
    assert (events + [Toggle(k)])[..|events|] == events;
    SearchLeavesNoTrace(saved, events);
  }

  // In every run, a frame of a search shows every match.
  lemma MatchesVisible(saved: set<string>, events: seq<Event>, rows: seq<Row>, matches: seq<nat>, i: nat)
    requires i < |matches| && matches[i] < |rows| && !rows[matches[i]].IsComment()
    ensures Shown(rows, Run(saved, events + [FrameShown(true, AboveMatches(rows, matches))]).collapsed, matches[i])
  {
    var frame := FrameShown(true, AboveMatches(rows, matches));
    assert (events + [frame])[..|events|] == events;
    MatchesShow(rows, matches, Synced(Run(saved, events), true).collapsed, i);
  }

  // The other way round: a search opens the collapsed section above its match, the user
  // closes it again, and when the search ends it is open.
  lemma ClosedAgainOpens(rows: seq<Row>, k: string)
    requires |rows| == 1 && ParentChain(rows[0].key) == [k]
    ensures var search, close := FrameShown(true, AboveMatches(rows, [0])), FrameShown(false, {});
      && k !in Run({k}, [search]).collapsed
      && k in Run({k}, [search, Toggle(k)]).collapsed
      && k !in Run({k}, [search, Toggle(k), close]).collapsed
  {
    var search, close := FrameShown(true, AboveMatches(rows, [0])), FrameShown(false, {});
    MoreMatches(rows, [0], 0);
    NoMatches(rows, [0]);
    assert [0][..0 + 1] == [0] && k in Above(rows[0].key);
    assert [search][..0] == [] && [search, Toggle(k)][..1] == [search];
    assert [search, Toggle(k), close][..2] == [search, Toggle(k)];
    assert Run({k}, []) == Collapse({k}, {}, false);
    assert Run({k}, [search]).preSearch == {k} && k !in Run({k}, [search]).collapsed;
    assert Run({k}, [search, Toggle(k)]) == Toggled(Run({k}, [search]), k);
  }
}
