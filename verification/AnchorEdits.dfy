/** The anchor commands of the editor: finding, deleting and renaming anchors,
  and turning one position into or out of an alias. */
module AnchorEdits {
  import opened Prelude
  import opened KeyPath
  import opened YamlNode
  import opened DeepCopy
  import opened Anchors
  import opened Cosmetics
  import opened Lookup
  import opened Walk
  import opened Gates

  // ----- the content walk -----

  // visitNodes: a node, then its content in order; aliases are not followed.
  ghost function Visit(g: Graph, n: Node): seq<Node>
    requires WellFormed(g) && n in g
    decreases SomeRank(g)[n], |g[n].content| + 1
  {
    [n] + VisitFrom(g, n, 0)
  }

  ghost function VisitFrom(g: Graph, n: Node, i: nat): seq<Node>
    requires WellFormed(g) && n in g
    decreases SomeRank(g)[n], |g[n].content| - i
  {
    if i >= |g[n].content| then []
    else Visit(g, g[n].content[i]) + VisitFrom(g, n, i + 1)
  }

  predicate IsAnchor(f: Fields, name: string) {
    f.anchor == name && f.kind != AliasNode
  }

  predicate IsAliasFor(f: Fields, name: string) {
    f.kind == AliasNode && f.value == name
  }

  ghost predicate ContentClosed(g: Graph, s: set<Node>) {
    s <= g.Keys && forall n, i | n in s && 0 <= i < |g[n].content| :: g[n].content[i] in s
  }

  lemma VisitRoot(g: Graph, n: Node)
    requires WellFormed(g) && n in g
    ensures n in Visit(g, n)
  {
  }

  // The walk visits exactly the least content-closed set.
  lemma {:induction false} VisitWithin(g: Graph, n: Node, s: set<Node>)
    requires WellFormed(g) && n in s && ContentClosed(g, s)
    ensures forall x | x in Visit(g, n) :: x in s
    decreases SomeRank(g)[n], |g[n].content| + 1
  {
    VisitFromWithin(g, n, 0, s);
  }

  lemma {:induction false} VisitFromWithin(g: Graph, n: Node, i: nat, s: set<Node>)
    requires WellFormed(g) && n in s && ContentClosed(g, s)
    ensures forall x | x in VisitFrom(g, n, i) :: x in s
    decreases SomeRank(g)[n], |g[n].content| - i
  {
    if i < |g[n].content| {
      VisitWithin(g, g[n].content[i], s);
      VisitFromWithin(g, n, i + 1, s);
    }
  }

  lemma {:induction false} VisitClosed(g: Graph, n: Node, x: Node, i: nat)
    requires WellFormed(g) && n in g && x in Visit(g, n) && x in g && i < |g[x].content|
    ensures g[x].content[i] in Visit(g, n)
    decreases SomeRank(g)[n], |g[n].content| + 1
  {
    if x == n {
      VisitHasChild(g, n, 0, i);
    } else {
      VisitFromClosed(g, n, 0, x, i);
    }
  }

  lemma {:induction false} VisitHasChild(g: Graph, n: Node, i: nat, j: nat)
    requires WellFormed(g) && n in g && i <= j < |g[n].content|
    ensures g[n].content[j] in VisitFrom(g, n, i)
    decreases j - i
  {
    hide Ranked, Visit;
    RankedHere(g, SomeRank(g), n);
    if i < j {
      VisitHasChild(g, n, i + 1, j);
    } else {
      VisitRoot(g, g[n].content[i]);
    }
  }

  lemma {:induction false} VisitFromClosed(g: Graph, n: Node, i: nat, x: Node, j: nat)
    requires WellFormed(g) && n in g && x in VisitFrom(g, n, i) && x in g && j < |g[x].content|
    ensures g[x].content[j] in VisitFrom(g, n, i)
    decreases SomeRank(g)[n], |g[n].content| - i
  {
    if x in Visit(g, g[n].content[i]) {
      VisitClosed(g, g[n].content[i], x, j);
    } else {
      VisitFromClosed(g, n, i + 1, x, j);
    }
  }

  lemma VisitInGraph(g: Graph, n: Node)
    requires WellFormed(g) && n in g
    ensures forall x | x in Visit(g, n) :: x in g
  {
    assert ContentClosed(g, g.Keys);
    VisitWithin(g, n, g.Keys);
  }

  ghost function FirstAnchor(g: Graph, visited: seq<Node>, name: string): Node?
    requires forall x | x in visited :: x in g
  {
    if visited == [] then null
    else if IsAnchor(g[visited[0]], name) then visited[0]
    else FirstAnchor(g, visited[1..], name)
  }

  ghost function AliasesFor(g: Graph, visited: seq<Node>, name: string): seq<Node>
    requires forall x | x in visited :: x in g
  {
    if visited == [] then []
    else (if IsAliasFor(g[visited[0]], name) then [visited[0]] else []) + AliasesFor(g, visited[1..], name)
  }

  lemma {:induction false} FirstAnchorAppend(g: Graph, a: seq<Node>, b: seq<Node>, name: string)
    requires forall x | x in a + b :: x in g
    ensures (forall x | x in a :: x in g) && forall x | x in b :: x in g
    ensures FirstAnchor(g, a + b, name) ==
      if FirstAnchor(g, a, name) != null then FirstAnchor(g, a, name) else FirstAnchor(g, b, name)
  {
    assert forall x | x in a :: x in a + b;
    assert forall x | x in b :: x in a + b;
    if a == [] {
      assert a + b == b;
    } else {
      assert (a + b)[1..] == a[1..] + b;
      FirstAnchorAppend(g, a[1..], b, name);
    }
  }

  lemma {:induction false} AliasesForAppend(g: Graph, a: seq<Node>, b: seq<Node>, name: string)
    requires forall x | x in a + b :: x in g
    ensures (forall x | x in a :: x in g) && forall x | x in b :: x in g
    ensures AliasesFor(g, a + b, name) == AliasesFor(g, a, name) + AliasesFor(g, b, name)
  {
    assert forall x | x in a :: x in a + b;
    assert forall x | x in b :: x in a + b;
    if a == [] {
      assert a + b == b;
    } else {
      assert (a + b)[1..] == a[1..] + b;
      AliasesForAppend(g, a[1..], b, name);
    }
  }

  lemma {:induction false} AliasesForMembers(g: Graph, visited: seq<Node>, name: string)
    requires forall x | x in visited :: x in g
    ensures forall x | x in AliasesFor(g, visited, name) :: x in visited && IsAliasFor(g[x], name)
    ensures forall x | x in visited && IsAliasFor(g[x], name) :: x in AliasesFor(g, visited, name)
  {
    if visited != [] {
      AliasesForMembers(g, visited[1..], name);
    }
  }

  lemma {:induction false} FirstAnchorMember(g: Graph, visited: seq<Node>, name: string)
    requires forall x | x in visited :: x in g
    ensures var found := FirstAnchor(g, visited, name);
      if found == null then forall x | x in visited :: !IsAnchor(g[x], name)
      else found in visited && IsAnchor(g[found], name)
  {
    if visited != [] {
      FirstAnchorMember(g, visited[1..], name);
    }
  }

  // The node that findAnchorNode picks below tree.
  ghost function Anchored(g: Graph, tree: Node, name: string): Node?
    requires WellFormed(g) && tree in g
  {
    VisitInGraph(g, tree);
    FirstAnchor(g, Visit(g, tree), name)
  }

  // findAnchorNode
  method FindAnchorNode(n: Node, name: string, ghost g: Graph) returns (found: Node?)
    requires Shows(g) && WellFormed(g) && n in g
    ensures forall x | x in Visit(g, n) :: x in g
    ensures found == FirstAnchor(g, Visit(g, n), name)
    decreases SomeRank(g)[n]
  {
    VisitInGraph(g, n);
    assert n.Snap() == g[n];
    FirstAnchorAppend(g, [n], VisitFrom(g, n, 0), name);
    if n.anchor == name && n.kind != AliasNode {
      return n;
    }
    var i := 0;
    while i < |n.content|
      invariant 0 <= i <= |n.content|
      invariant forall x | x in VisitFrom(g, n, i) :: x in g
      invariant FirstAnchor(g, Visit(g, n), name) == FirstAnchor(g, VisitFrom(g, n, i), name)
    {
      FirstAnchorAppend(g, Visit(g, n.content[i]), VisitFrom(g, n, i + 1), name);
      found := FindAnchorNode(n.content[i], name, g);
      if found != null {
        return;
      }
      i := i + 1;
    }
    return null;
  }

  // The visitor of DeleteAnchor: the aliases called name, in visiting order.
  method CollectAliases(n: Node, name: string, ghost g: Graph) returns (aliases: seq<Node>)
    requires Shows(g) && WellFormed(g) && n in g
    ensures forall x | x in Visit(g, n) :: x in g
    ensures aliases == AliasesFor(g, Visit(g, n), name)
    decreases SomeRank(g)[n]
  {
    hide Visit, VisitFrom, AliasesFor, Ranked;
    AliasesStart(g, n, name);
    assert n.Snap() == g[n];
    aliases := if n.kind == AliasNode && n.value == name then [n] else [];
    var i := 0;
    while i < |n.content|
      invariant 0 <= i <= |n.content|
      invariant forall x | x in VisitFrom(g, n, i) :: x in g
      invariant AliasesFor(g, Visit(g, n), name) == aliases + AliasesFor(g, VisitFrom(g, n, i), name)
    {
      AliasesStep(g, n, i, name, aliases);
      var more := CollectAliases(n.content[i], name, g);
      aliases := aliases + more;
      i := i + 1;
    }
    AliasesEnd(g, n, name, aliases);
  }

  lemma AliasesStart(g: Graph, n: Node, name: string)
    requires WellFormed(g) && n in g
    ensures (forall x | x in Visit(g, n) :: x in g) && forall x | x in VisitFrom(g, n, 0) :: x in g
    ensures AliasesFor(g, Visit(g, n), name) ==
      (if IsAliasFor(g[n], name) then [n] else []) + AliasesFor(g, VisitFrom(g, n, 0), name)
  {
    VisitInGraph(g, n);
    AliasesForAppend(g, [n], VisitFrom(g, n, 0), name);
  }

  // One turn of the visit.
  lemma AliasesStep(g: Graph, n: Node, i: nat, name: string, before: seq<Node>)
    requires WellFormed(g) && n in g && i < |g[n].content| && forall x | x in VisitFrom(g, n, i) :: x in g
    ensures g[n].content[i] in g && 0 <= SomeRank(g)[g[n].content[i]] < SomeRank(g)[n]
    ensures forall x | x in Visit(g, g[n].content[i]) :: x in g
    ensures forall x | x in VisitFrom(g, n, i + 1) :: x in g
    ensures before + AliasesFor(g, VisitFrom(g, n, i), name) ==
      before + AliasesFor(g, Visit(g, g[n].content[i]), name) + AliasesFor(g, VisitFrom(g, n, i + 1), name)
  {
    AliasesForAppend(g, Visit(g, g[n].content[i]), VisitFrom(g, n, i + 1), name);
  }

  lemma AliasesEnd(g: Graph, n: Node, name: string, before: seq<Node>)
    requires WellFormed(g) && n in g
    ensures VisitFrom(g, n, |g[n].content|) == [] && before + AliasesFor(g, [], name) == before
  {
  }

  // ----- DeleteAnchor -----

  // The anchor at source is the only one called name, and every alias called
  // name points at it.
  ghost predicate UniqueAnchor(g: Graph, source: Node, name: string) {
    && source in g && name != ""
    && forall n {:trigger g[n]} | n in g ::
         && (IsAnchor(g[n], name) ==> n == source)
         && (IsAliasFor(g[n], name) ==> g[n].alias == source)
  }

  predicate Mentions(f: Fields, name: string) {
    IsAnchor(f, name) || IsAliasFor(f, name)
  }

  // What severing some aliases to a unique anchor leaves: the anchored part as it
  // was, and new nodes that neither mention the name nor lead out of the new.
  ghost predicate Severs(g: Graph, h: Graph, source: Node, name: string, part: set<Node>) {
    && source in part && ClosedIn(h, part) && part <= g.Keys <= h.Keys
    && (forall n {:trigger h[n]} | n in part :: h[n] == g[n] && (n != source ==> !Mentions(g[n], name)))
    && (forall n {:trigger h[n]} | n in h && n !in g :: NewAndClean(g, h, h[n], name))
    && (forall n {:trigger SeveredAt(g, h, n, name)} {:trigger h[n]} | n in g :: SeveredAt(g, h, n, name))
  }

  ghost predicate SeveredAt(g: Graph, h: Graph, n: Node, name: string)
    requires n in g && n in h
  {
    h[n] == g[n] || (IsAliasFor(g[n], name) && h[n].kind != AliasNode && NewAndClean(g, h, h[n], name))
  }

  ghost predicate NewAndClean(g: Graph, h: Graph, f: Fields, name: string) {
    && !Mentions(f, name)
    && forall c | c in f.content :: c in h && c !in g
  }

  lemma UniquePart(g: Graph, source: Node, name: string) returns (part: set<Node>)
    requires WellFormed(g) && UniqueAnchor(g, source, name) && IsAnchor(g[source], name)
    ensures Severs(g, g, source, name, part)
  {
    var rank := SomeRank(g);
    part := set x | x in g && (rank[x] < rank[source] || x == source);
    forall x | x in part ensures x != source ==> !Mentions(g[x], name) {
      assert RankedAt(g, rank, x);
    }
  }

  // One more alias severed: its copies are of the anchored part, below source.
  lemma SeversBelow(g: Graph, h: Graph, k: Graph, source: Node, name: string, part: set<Node>,
                    a: Node, copies: map<Node, Node>, x: Node)
    requires WellFormed(h) && UniqueAnchor(g, source, name) && Severs(g, h, source, name, part)
    requires BreaksAlias(h, k, a, copies) && h[a].alias == source && x in copies
    ensures x in part && x in h && x in g && h[x] == g[x] && (x != source ==> !Mentions(g[x], name))
    ensures name != ""
    ensures forall c | c in h[x].content :: c in copies && copies[c] in k && copies[c] !in g
  {
    assert copies.Keys <= part;
    CopiedRank(h, SomeRank(h), source, x, copies.Keys);
    forall c | c in h[x].content ensures c in copies && c != source {
      assert RankedAt(h, SomeRank(h), x);
    }
  }

  lemma SeversNew(g: Graph, h: Graph, k: Graph, source: Node, name: string, part: set<Node>,
                  a: Node, copies: map<Node, Node>, x: Node)
    requires WellFormed(h) && UniqueAnchor(g, source, name) && Severs(g, h, source, name, part)
    requires BreaksAlias(h, k, a, copies) && h[a].alias == source && x in copies && x != source
    ensures NewAndClean(g, k, k[copies[x]], name)
  {
    hide Severs, UniqueAnchor, Ranked;
    SeversBelow(g, h, k, source, name, part, a, copies, x);
    assert CopyOf(h[x], k[copies[x]], copies);
  }

  lemma SeversHere(g: Graph, h: Graph, k: Graph, source: Node, name: string, part: set<Node>,
                   a: Node, copies: map<Node, Node>)
    requires WellFormed(h) && UniqueAnchor(g, source, name) && Severs(g, h, source, name, part)
    requires BreaksAlias(h, k, a, copies) && h[a].alias == source && a in g && IsAliasFor(g[a], name)
    ensures SeveredAt(g, k, a, name)
  {
    hide Severs, UniqueAnchor, Ranked;
    SeversBelow(g, h, k, source, name, part, a, copies, source);
    BrokenKind(h, k, a, copies);
  }

  lemma SeversOne(g: Graph, h: Graph, k: Graph, source: Node, name: string, part: set<Node>,
                  a: Node, copies: map<Node, Node>)
    requires WellFormed(h) && UniqueAnchor(g, source, name) && Severs(g, h, source, name, part)
    requires BreaksAlias(h, k, a, copies) && a in g && IsAliasFor(g[a], name)
    ensures Severs(g, k, source, name, part)
  {
    hide Ranked, CopyOf, Moved, IsCopy;
    assert h[a] == g[a] && h[a].alias == source;
    SeversHere(g, h, k, source, name, part, a, copies);
    BrokenKind(h, k, a, copies);
    forall n | n in part ensures k[n] == g[n] {
      assert h[n] == g[n] && n != a;
    }
    forall n | n in g ensures SeveredAt(g, k, n, name) {
      assert SeveredAt(g, h, n, name);
    }
    forall n | n in k && n !in g ensures NewAndClean(g, k, k[n], name) {
      if n in h {
        assert NewAndClean(g, h, h[n], name);
      } else {
        SeversFresh(g, h, k, source, name, part, a, copies, n);
      }
    }
  }

  lemma SeversFresh(g: Graph, h: Graph, k: Graph, source: Node, name: string, part: set<Node>,
                    a: Node, copies: map<Node, Node>, n: Node)
    requires WellFormed(h) && UniqueAnchor(g, source, name) && Severs(g, h, source, name, part)
    requires BreaksAlias(h, k, a, copies) && h[a].alias == source && n in k && n !in h
    ensures NewAndClean(g, k, k[n], name)
  {
    hide Severs, UniqueAnchor, Ranked;
    assert IsCopy(copies, source, n);
    var x: Node :| x in copies && x != source && copies[x] == n;
    SeversNew(g, h, k, source, name, part, a, copies, x);
  }

  lemma SeveredTreeClosed(g: Graph, h: Graph, tree: Node, source: Node, name: string, part: set<Node>, s: set<Node>)
    requires WellFormed(g) && WellFormed(h) && tree in g
    requires UniqueAnchor(g, source, name) && Severs(g, h, source, name, part)
    requires forall n :: n in s <==> n in Visit(g, tree) || (n in h && n !in g)
    ensures ContentClosed(h, s)
  {
    VisitInGraph(g, tree);
    forall n, i | n in s && 0 <= i < |h[n].content| ensures h[n].content[i] in s {
      if n in g {
        assert SeveredAt(g, h, n, name);
        if h[n] == g[n] {
          VisitClosed(g, tree, n, i);
        }
      } else {
        assert NewAndClean(g, h, h[n], name);
      }
    }
  }

  // With every alias of the name in the tree severed and the anchor cleared,
  // nothing in the tree mentions the name any more.
  lemma NoMentionLeft(g: Graph, h: Graph, k: Graph, tree: Node, source: Node, name: string, part: set<Node>)
    requires WellFormed(g) && WellFormed(h) && WellFormed(k) && tree in g
    requires UniqueAnchor(g, source, name) && Severs(g, h, source, name, part)
    requires forall n | n in Visit(g, tree) && n in g && IsAliasFor(g[n], name) :: h[n] != g[n]
    requires k == h[source := h[source].(anchor := "")]
    ensures forall n | n in Visit(k, tree) :: n in k && !Mentions(k[n], name)
  {
    hide Ranked, Visit;
    VisitInGraph(g, tree);
    var s := (set n | n in Visit(g, tree)) + (h.Keys - g.Keys);
    SeveredTreeClosed(g, h, tree, source, name, part, s);
    assert ContentClosed(k, s);
    VisitRoot(g, tree);
    VisitWithin(k, tree, s);
    forall n | n in s ensures n in k && !Mentions(k[n], name) {
      NoMentionAt(g, h, source, name, part, n);
    }
  }

  lemma NoMentionAt(g: Graph, h: Graph, source: Node, name: string, part: set<Node>, n: Node)
    requires WellFormed(g) && UniqueAnchor(g, source, name) && Severs(g, h, source, name, part) && n in h
    requires n in g && IsAliasFor(g[n], name) ==> h[n] != g[n]
    ensures source in h && !Mentions(h[source := h[source].(anchor := "")][n], name)
  {
    hide Ranked;
    if n in g {
      assert SeveredAt(g, h, n, name);
    } else {
      assert NewAndClean(g, h, h[n], name);
    }
  }

  // The first anchor of the name loses it, and of the other old nodes only its aliases
  // are written.
  ghost predicate NothingElse(g: Graph, h: Graph, tree: Node, name: string)
    requires WellFormed(g) && tree in g
  {
    VisitInGraph(g, tree);
    var source := FirstAnchor(g, Visit(g, tree), name);
    && source != null && source in g && source in h && h[source] == g[source].(anchor := "")
    && forall n {:trigger n in h} | n in g && n != source && !(n in Visit(g, tree) && IsAliasFor(g[n], name)) ::
         n in h && h[n] == g[n]
  }

  // DeleteAnchor; ok is false when no anchor is called name.
  method DeleteAnchor(tree: Node, name: string, ghost nodes: set<Node>) returns (ok: bool, ghost all: set<Node>)
    requires tree in nodes && WellFormed(Snapshot(nodes))
    modifies nodes
    ensures nodes <= all && fresh(all - nodes) && WellFormed(Snapshot(all))
    ensures ok <==> exists n | n in old(Visit(Snapshot(nodes), tree)) && n in nodes :: IsAnchor(old(n.Snap()), name)
    ensures !ok ==> Snapshot(all) == old(Snapshot(nodes))
    ensures forall n | n in nodes :: Denote(Snapshot(all), n) == old(Denote(Snapshot(nodes), n))
    ensures ok ==> forall n | n in old(Visit(Snapshot(nodes), tree)) && n in nodes ::
      IsAliasFor(old(n.Snap()), name) ==> n.kind != AliasNode
    ensures ok ==> NothingElse(old(Snapshot(nodes)), Snapshot(all), tree, name)
    ensures ok ==> forall source | source in nodes && old(UniqueAnchor(Snapshot(nodes), source, name)) ::
      forall n | n in Visit(Snapshot(all), tree) :: n in all && !Mentions(n.Snap(), name)
  {
    hide Denote, Ranked, WellFormed, Visit, Severs, Expands, UniqueAnchor, AliasesFor, FirstAnchor;
    ghost var g := Snapshot(nodes);
    ghost var visited := Visit(g, tree);
    VisitInGraph(g, tree);
    FirstAnchorMember(g, visited, name);
    AliasesForMembers(g, visited, name);
    all := nodes;
    var source := FindAnchorNode(tree, name, g);
    if source == null {
      return false, all;
    }
    var aliases := CollectAliases(tree, name, g);
    forall a | a in aliases ensures a in g && IsAliasFor(g[a], name) {
      assert a in AliasesFor(g, visited, name) && a in visited;
    }
    assert forall a | a in aliases :: a in nodes;
    all := SeverAndClear(tree, source, aliases, name, g);
    ok := true;
    ghost var h := Snapshot(all);
    assert NothingElse(g, h, tree, name) by {
      assert source.Snap() == h[source];
      forall n | n in g && n != source && !(n in visited && IsAliasFor(g[n], name)) ensures h[n] == g[n] {
        assert n !in aliases && n.Snap() == h[n];
      }
    }
  }

  // DeleteAnchor once the anchor and its aliases are known.
  method SeverAndClear(ghost tree: Node, source: Node, aliases: seq<Node>, ghost name: string, ghost g: Graph)
    returns (ghost all: set<Node>)
    requires WellFormed(g) && Snapshot(g.Keys) == g && tree in g && source in g && IsAnchor(g[source], name)
    requires forall a | a in aliases :: a in g && IsAliasFor(g[a], name)
    requires forall n | n in Visit(g, tree) && n in g && IsAliasFor(g[n], name) :: n in aliases
    modifies aliases, source
    ensures g.Keys <= all && fresh(all - g.Keys) && WellFormed(Snapshot(all))
    ensures source.Snap() == g[source].(anchor := "")
    ensures forall n | n in g :: Denote(Snapshot(all), n) == Denote(g, n)
    ensures forall n | n in Visit(g, tree) && n in g && IsAliasFor(g[n], name) :: n.kind != AliasNode
    ensures forall source' | source' in g && UniqueAnchor(g, source', name) ::
      forall n | n in Visit(Snapshot(all), tree) :: n in all && !Mentions(n.Snap(), name)
  {
    hide Denote, Ranked, WellFormed, Visit, Severs, Expands, UniqueAnchor;
    ghost var unique, part := UniqueAnchor(g, source, name), {};
    if unique {
      part := UniquePart(g, source, name);
    }
    assert source.Snap() == g[source];
    all := SeverAll(aliases, g, unique, source, name, part);
    ghost var h := Snapshot(all);
    ExpandsFacts(g, h);
    ClearName(source, all);
    Deleted(g, h, Snapshot(all), tree, source, name, part);
  }

  method ClearName(n: Node, ghost nodes: set<Node>)
    requires n in nodes
    modifies n
    ensures Snapshot(nodes) == old(Snapshot(nodes))[n := old(n.Snap()).(anchor := "")]
  {
    n.anchor := "";
  }

  // What DeleteAnchor has done once all aliases are severed (h) and the anchor is
  // cleared (k).
  lemma Deleted(g: Graph, h: Graph, k: Graph, tree: Node, source: Node, name: string, part: set<Node>)
    requires tree in g && source in g && IsAnchor(g[source], name) && Expands(g, h) && g.Keys <= h.Keys
    requires k == h[source := h[source].(anchor := "")]
    requires forall n | n in Visit(g, tree) && n in g && IsAliasFor(g[n], name) :: h[n].kind != AliasNode
    requires UniqueAnchor(g, source, name) ==> Severs(g, h, source, name, part)
    ensures WellFormed(k) && forall n | n in g :: Denote(k, n) == Denote(g, n)
    ensures forall n | n in Visit(g, tree) && n in g :: IsAliasFor(g[n], name) ==> k[n].kind != AliasNode
    ensures forall source' | source' in g && UniqueAnchor(g, source', name) ::
      forall n | n in Visit(k, tree) :: n in k && !Mentions(k[n], name)
  {
    hide Denote, Ranked, Visit, Severs, Expands, UniqueAnchor;
    ExpandsFacts(g, h);
    CosmeticMeaning(h, k);
    forall source' | source' in g && UniqueAnchor(g, source', name)
      ensures forall n | n in Visit(k, tree) :: n in k && !Mentions(k[n], name)
    {
      UniqueSource(g, source, source', name);
      NoMentionLeft(g, h, k, tree, source, name, part);
    }
  }

  lemma UniqueSource(g: Graph, source: Node, source': Node, name: string)
    requires source in g && IsAnchor(g[source], name) && UniqueAnchor(g, source', name)
    ensures source == source'
  {
  }

  // The loop of DeleteAnchor.
  method SeverAll(aliases: seq<Node>, ghost g: Graph, ghost unique: bool,
                  ghost source: Node, ghost name: string, ghost part: set<Node>)
    returns (ghost all: set<Node>)
    requires WellFormed(g) && Snapshot(g.Keys) == g
    requires forall a | a in aliases :: a in g && IsAliasFor(g[a], name)
    requires unique ==> UniqueAnchor(g, source, name) && Severs(g, g, source, name, part)
    modifies aliases
    ensures g.Keys <= all && fresh(all - g.Keys) && Expands(g, Snapshot(all))
    ensures forall a | a in aliases :: a.kind != AliasNode
    ensures unique ==> Severs(g, Snapshot(all), source, name, part)
  {
    hide Denote, Ranked, Severs, Expands, UniqueAnchor;
    all := g.Keys;
    ExpandsReflexive(g);
    var i := 0;
    while i < |aliases|
      invariant 0 <= i <= |aliases|
      invariant g.Keys <= all && fresh(all - g.Keys) && Expands(g, Snapshot(all))
      invariant forall j | 0 <= j < i :: aliases[j].kind != AliasNode
      invariant unique ==> Severs(g, Snapshot(all), source, name, part)
    {
      assert aliases[i] in aliases;
      all := SeverNext(aliases[i], g, all, unique, source, name, part);
      i := i + 1;
    }
  }

  // One round of DeleteAnchor's loop.
  method SeverNext(a: Node, ghost g: Graph, ghost nodes: set<Node>, ghost unique: bool,
                   ghost source: Node, ghost name: string, ghost part: set<Node>)
    returns (ghost all: set<Node>)
    requires g.Keys <= nodes && a in g && IsAliasFor(g[a], name) && Expands(g, Snapshot(nodes))
    requires unique ==> UniqueAnchor(g, source, name) && Severs(g, Snapshot(nodes), source, name, part)
    modifies if a.kind == AliasNode then {a} else {}
    ensures nodes <= all && fresh(all - nodes) && a.kind != AliasNode
    ensures Expands(g, Snapshot(all)) && Expands(old(Snapshot(nodes)), Snapshot(all))
    ensures unique ==> Severs(g, Snapshot(all), source, name, part)
  {
    hide Denote, Ranked, Severs, UniqueAnchor, BreaksAlias, Expands;
    ghost var h := Snapshot(nodes);
    ExpandsFacts(g, h);
    all := nodes;
    ExpandsReflexive(h);
    if a.kind == AliasNode {
      ghost var made, copies := BreakAliasInPlace(a, nodes);
      all := nodes + made;
      BrokenExpands(h, Snapshot(all), a, copies);
      assert a.Snap() == Snapshot(all)[a];
      if unique {
        SeversOne(g, h, Snapshot(all), source, name, part, a, copies);
      }
    }
    ExpandsTransitive(g, h, Snapshot(all));
  }

  lemma BrokenExpands(g: Graph, h: Graph, a: Node, copies: map<Node, Node>)
    requires WellFormed(g) && BreaksAlias(g, h, a, copies)
    ensures Expands(g, h) && a in g && a in h && h[a].kind != AliasNode
  {
    hide Denote, Ranked;
    BrokenMeaning(g, h, a, copies);
    BrokenKind(g, h, a, copies);
    forall n | n in g ensures Kept(g, h, n) {}
  }

  // ----- ClearNodeAlias -----

  // ClearNodeAlias: the alias at a path becomes a local copy.  `ns` are the nodes
  // along the path afterwards.
  method ClearNodeAlias(tree: Node, segs: seq<Segment>, ghost nodes: set<Node>)
    returns (ok: bool, ghost ns: seq<Node>, ghost all: set<Node>)
    requires tree in nodes && WellFormed(Snapshot(nodes))
    modifies nodes
    ensures nodes <= all && fresh(all - nodes)
    ensures Expands(old(Snapshot(nodes)), Snapshot(all))
    ensures ok <==> segs != [] && LocalWalk(old(Denote(Snapshot(nodes), tree)), segs).Some?
    ensures ok ==> Walked(old(Snapshot(nodes)), Snapshot(all), tree, segs, ns) && ns[|segs|].kind != AliasNode
  {
    hide Denote, LocalWalk, Ranked, Expands, At, Trail, Walked, SlotFound, Along;
    ghost var g := Snapshot(nodes);
    var parent, slot;
    parent, slot, ns, all := FindParentSlot(tree, segs, nodes);
    if slot < 0 {
      return false, ns, all;
    }
    ghost var h := Snapshot(all);
    SlotTrail(g, h, tree, segs, ns, parent, slot);
    assert parent.Snap() == h[parent];
    var child := parent.content[slot];
    ns := ns + [child];
    WalkedFacts(g, h, tree, segs, ns);
    all := ExpandAlias(child, all);
    AlongOne(h, Snapshot(all), ns, child);
    WalkedExpands(g, h, Snapshot(all), tree, segs, ns);
    WalkedFacts(g, Snapshot(all), tree, segs, ns);
    ok := true;
  }

  // ----- RenameAnchor -----

  // AnchorNameRegex
  predicate ValidAnchorName(name: string) {
    && name != "" && AnchorStart(name[0])
    && forall c | c in name :: AnchorStart(c) || '0' <= c <= '9' || c == '-'
  }

  predicate AnchorStart(c: char) {
    'A' <= c <= 'Z' || 'a' <= c <= 'z' || c == '_'
  }

  // These are the words over letters, digits, underscores and hyphens that start with
  // neither a digit nor a hyphen.
  lemma ValidNames(name: string)
    ensures ValidAnchorName(name) <==>
      && name != "" && !(name[0] in "0123456789-")
      && forall i | 0 <= i < |name| ::
           var x := name[i] as int;
           65 <= x <= 90 || 97 <= x <= 122 || x == 95 || 48 <= x <= 57 || x == 45
  {
    if name != "" && '0' <= name[0] <= '9' {
      assert "0123456789"[name[0] as int - '0' as int] == name[0];
    }
    assert forall i | 0 <= i < |name| :: name[i] in name;
  }

  function Renamed(f: Fields, oldName: string, newName: string): Fields {
    if IsAliasFor(f, oldName) then f.(value := newName)
    else if f.anchor == oldName then f.(anchor := newName)
    else f
  }

  // What the fields f of x become when the visitor meets these nodes.
  ghost function RenamedBy(f: Fields, x: Node, visited: seq<Node>, oldName: string, newName: string): Fields
    decreases |visited|
  {
    if visited == [] then f
    else RenamedBy(if visited[0] == x then Renamed(f, oldName, newName) else f, x, visited[1..], oldName, newName)
  }

  ghost function RenamedGraph(g: Graph, visited: seq<Node>, oldName: string, newName: string): Graph {
    map n | n in g :: RenamedBy(g[n], n, visited, oldName, newName)
  }

  lemma {:induction false} RenamedByBoth(f: Fields, x: Node, a: seq<Node>, b: seq<Node>, oldName: string,
                                         newName: string)
    ensures RenamedBy(f, x, a + b, oldName, newName) ==
      RenamedBy(RenamedBy(f, x, a, oldName, newName), x, b, oldName, newName)
    decreases |a|
  {
    if a == [] {
      assert a + b == b;
    } else {
      assert (a + b)[1..] == a[1..] + b;
      RenamedByBoth(if a[0] == x then Renamed(f, oldName, newName) else f, x, a[1..], b, oldName, newName);
    }
  }

  lemma {:induction false} RenamedByKeeps(f: Fields, x: Node, visited: seq<Node>, oldName: string, newName: string)
    ensures RenamedBy(f, x, visited, oldName, newName).content == f.content
    decreases |visited|
  {
    if visited != [] {
      RenamedByKeeps(if visited[0] == x then Renamed(f, oldName, newName) else f, x, visited[1..], oldName, newName);
    }
  }

  // A node met twice is renamed once, unless it is an alias that carries the anchor itself.
  lemma {:induction false} RenamedOnce(f: Fields, x: Node, visited: seq<Node>, oldName: string, newName: string)
    requires oldName != newName && (f.kind == AliasNode ==> f.anchor != oldName)
    ensures RenamedBy(f, x, visited, oldName, newName) ==
      if x in visited then Renamed(f, oldName, newName) else f
    decreases |visited|
  {
    if visited != [] {
      RenamedOnce(if visited[0] == x then Renamed(f, oldName, newName) else f, x, visited[1..], oldName, newName);
    }
  }

  // YAML 1.2.2, section 7.1: an alias node specifies no properties of its own.
  ghost predicate BareAliases(g: Graph) {
    forall n {:trigger g[n]} | n in g && g[n].kind == AliasNode :: g[n].anchor == ""
  }

  // The visitor of RenameAnchor, along the walk.
  method RenameVisit(n: Node, oldName: string, newName: string, ghost g: Graph)
    requires WellFormed(g) && n in g
    requires forall x {:trigger x.Snap()} | x in g :: x.Snap().content == g[x].content
    modifies g.Keys
    ensures forall x {:trigger x.Snap()} | x in g ::
      x.Snap() == RenamedBy(old(x.Snap()), x, Visit(g, n), oldName, newName)
    decreases SomeRank(g)[n]
  {
    hide Ranked, Visit, Renamed, RenamedBy;
    VisitInGraph(g, n);
    assert Visit(g, n) == [n] + VisitFrom(g, n, 0) by { VisitIs(g, n); }
    assert n.Snap() == n.Snap();
    RenameOne(n, oldName, newName);
    forall x | x in g
      ensures RenamedBy(x.Snap(), x, VisitFrom(g, n, 0), oldName, newName) ==
        RenamedBy(old(x.Snap()), x, Visit(g, n), oldName, newName)
      ensures x.Snap().content == g[x].content
    {
      RenamedByBoth(old(x.Snap()), x, [n], VisitFrom(g, n, 0), oldName, newName);
      RenamedByOne(old(x.Snap()), x, n, oldName, newName);
    }
    var i := 0;
    while i < |n.content|
      invariant 0 <= i <= |n.content| && n.content == g[n].content
      invariant forall x {:trigger x.Snap()} | x in g :: x.Snap().content == g[x].content
      invariant forall x {:trigger x.Snap()} | x in g ::
        RenamedBy(x.Snap(), x, VisitFrom(g, n, i), oldName, newName) ==
        RenamedBy(old(x.Snap()), x, Visit(g, n), oldName, newName)
    {
      RankedHere(g, SomeRank(g), n);
      var c := n.content[i];
      label Before:
      RenameVisit(c, oldName, newName, g);
      forall x | x in g
        ensures RenamedBy(x.Snap(), x, VisitFrom(g, n, i + 1), oldName, newName) ==
          RenamedBy(old@Before(x.Snap()), x, VisitFrom(g, n, i), oldName, newName)
        ensures x.Snap().content == g[x].content
      {
        RenamedByBoth(old@Before(x.Snap()), x, Visit(g, c), VisitFrom(g, n, i + 1), oldName, newName);
        RenamedByKeeps(old@Before(x.Snap()), x, Visit(g, c), oldName, newName);
      }
      assert n.Snap().content == g[n].content;
      i := i + 1;
    }
    assert n.Snap().content == g[n].content;
    forall x | x in g ensures RenamedBy(x.Snap(), x, VisitFrom(g, n, i), oldName, newName) == x.Snap() {
      RenamedByNone(x.Snap(), x, oldName, newName);
    }
  }

  lemma VisitIs(g: Graph, n: Node)
    requires WellFormed(g) && n in g
    ensures Visit(g, n) == [n] + VisitFrom(g, n, 0)
  {
  }

  lemma RenamedByNone(f: Fields, x: Node, oldName: string, newName: string)
    ensures RenamedBy(f, x, [], oldName, newName) == f
  {
  }

  lemma RenamedByOne(f: Fields, x: Node, n: Node, oldName: string, newName: string)
    ensures var r := RenamedBy(f, x, [n], oldName, newName);
      r == (if x == n then Renamed(f, oldName, newName) else f) && r.content == f.content
  {
    assert [n][1..] == [];
  }

  method RenameOne(n: Node, oldName: string, newName: string)
    modifies n
    ensures n.Snap() == Renamed(old(n.Snap()), oldName, newName)
  {
    if n.kind == AliasNode && n.value == oldName {
      n.value := newName;
    } else if n.anchor == oldName {
      n.anchor := newName;
    }
  }

  ghost predicate Renamable(g: Graph, tree: Node, oldName: string, newName: string)
    requires WellFormed(g) && tree in g
  {
    && (exists n | n in Visit(g, tree) && n in g :: IsAnchor(g[n], oldName))
    && (forall n | n in Visit(g, tree) && n in g :: !IsAnchor(g[n], newName))
  }

  // RenameAnchor; ok is false for its three errors.
  method RenameAnchor(tree: Node, oldName: string, newName: string, ghost nodes: set<Node>) returns (ok: bool)
    requires tree in nodes && WellFormed(Snapshot(nodes))
    modifies nodes
    ensures ok <==>
      (ValidAnchorName(newName) && (oldName == newName || old(Renamable(Snapshot(nodes), tree, oldName, newName))))
    ensures Snapshot(nodes) ==
      if ok then RenamedGraph(old(Snapshot(nodes)), old(Visit(Snapshot(nodes), tree)), oldName, newName)
      else old(Snapshot(nodes))
  {
    hide Denote, Ranked, WellFormed, Visit, FirstAnchor, Renamed, RenamedBy;
    ghost var g := Snapshot(nodes);
    ghost var visited := Visit(g, tree);
    VisitInGraph(g, tree);
    FirstAnchorMember(g, visited, oldName);
    FirstAnchorMember(g, visited, newName);
    if !ValidAnchorName(newName) {
      return false;
    }
    if oldName == newName {
      forall x | x in g ensures RenamedBy(g[x], x, visited, oldName, newName) == g[x] {
        RenamedToItself(g[x], x, visited, newName);
      }
      return true;
    }
    var source := FindAnchorNode(tree, oldName, g);
    if source == null {
      return false;
    }
    var clash := FindAnchorNode(tree, newName, g);
    if clash != null {
      return false;
    }
    assert forall x {:trigger x.Snap()} | x in g :: x.Snap() == g[x];
    RenameVisit(tree, oldName, newName, g);
    forall x | x in g ensures x.Snap() == RenamedGraph(g, visited, oldName, newName)[x] {}
    ok := true;
  }

  lemma {:induction false} RenamedToItself(f: Fields, x: Node, visited: seq<Node>, name: string)
    ensures RenamedBy(f, x, visited, name, name) == f
  {
    if visited != [] {
      RenamedToItself(f, x, visited[1..], name);
    }
  }

  // Every alias is called what its anchor is called.
  ghost predicate NamesAgree(g: Graph) {
    forall n {:trigger g[n].alias} | n in g && g[n].kind == AliasNode ::
      g[n].alias != null && g[n].alias in g && g[n].value == g[g[n].alias].anchor
  }

  // Renaming changes no meaning, keeps every alias called what its anchor is
  // called, merges no two anchors, and is undone by renaming back.
  lemma RenamingIsConsistent(g: Graph, tree: Node, oldName: string, newName: string)
    requires WellFormed(g) && tree in g && NamesAgree(g) && BareAliases(g)
    requires oldName != "" && newName != "" && oldName != newName
    requires forall n | n in g :: n in Visit(g, tree) && !IsAnchor(g[n], newName)
    ensures var h := RenamedGraph(g, Visit(g, tree), oldName, newName);
      && WellFormed(h) && (forall n | n in g :: Denote(h, n) == Denote(g, n))
      && NamesAgree(h)
      && (forall m, n | m in g && n in g :: h[m].anchor == h[n].anchor <==> g[m].anchor == g[n].anchor)
      && (forall n | n in g :: Renamed(h[n], newName, oldName) == g[n])
  {
    hide Denote, Ranked, Visit, WellFormed, RenamedBy, Renamed, NamesAgree;
    var h := RenamedGraph(g, Visit(g, tree), oldName, newName);
    forall n | n in g ensures RenamedHere(g, h, n, oldName, newName) {
      RenamedOnce(g[n], n, Visit(g, tree), oldName, newName);
      RenamedAt(g, h, n, oldName, newName);
    }
    CosmeticMeaning(g, h);
    RenamedNamesAgree(g, h, oldName, newName);
  }

  // A node that is renamed once.
  ghost predicate RenamedHere(g: Graph, h: Graph, n: Node, oldName: string, newName: string)
    requires n in g
  {
    && n in h && h[n] == Renamed(g[n], oldName, newName) && Renamed(h[n], newName, oldName) == g[n]
    && SameShape(g[n], h[n])
    && g[n].anchor != newName && h[n].anchor == (if g[n].anchor == oldName then newName else g[n].anchor)
    && h[n].kind == g[n].kind && h[n].alias == g[n].alias
    && (g[n].kind == AliasNode ==> h[n].value == if g[n].value == oldName then newName else g[n].value)
  }

  lemma RenamedAt(g: Graph, h: Graph, n: Node, oldName: string, newName: string)
    requires WellFormed(g) && NamesAgree(g) && BareAliases(g) && n in g && n in h
    requires newName != "" && oldName != newName && forall x | x in g :: !IsAnchor(g[x], newName)
    requires oldName != "" && h[n] == Renamed(g[n], oldName, newName)
    ensures RenamedHere(g, h, n, oldName, newName)
  {
    hide Ranked, WellFormed;
    if g[n].kind == AliasNode {
      WellFormedTarget(g, n);
    }
  }

  lemma RenamedNamesAgree(g: Graph, h: Graph, oldName: string, newName: string)
    requires WellFormed(g) && NamesAgree(g) &&
      forall n {:trigger h[n]} | n in g :: RenamedHere(g, h, n, oldName, newName)
    requires h.Keys == g.Keys
    ensures NamesAgree(h)
  {
    hide Ranked, WellFormed, Renamed;
    forall n | n in h && h[n].kind == AliasNode
      ensures h[n].alias != null && h[n].alias in h && h[n].value == h[h[n].alias].anchor
    {
      assert RenamedHere(g, h, n, oldName, newName);
      WellFormedTarget(g, n);
      assert RenamedHere(g, h, g[n].alias, oldName, newName);
    }
  }

  lemma WellFormedTarget(g: Graph, n: Node)
    requires WellFormed(g) && n in g && g[n].kind == AliasNode
    ensures g[n].alias != null && g[n].alias in g && g[g[n].alias].kind != AliasNode
  {
    RankedHere(g, SomeRank(g), n);
  }

  // ----- SetNodeAlias -----

  ghost function Aliased(h: Graph, parent: Node, slot: nat, alias: Node, f: Fields): Graph
    requires parent in h && slot < |h[parent].content|
  {
    h[parent := h[parent].(content := h[parent].content[slot := alias])][alias := f]
  }

  // Lifting everything that reaches the container makes room for the alias.
  ghost function LiftedRank(h: Graph, rank: map<Node, nat>, s: set<Node>, alias: Node, target: Node)
    : (r: map<Node, nat>)
    requires rank.Keys == h.Keys && target in h
    ensures r.Keys == h.Keys + {alias}
  {
    map n: Node | n in h.Keys + {alias} ::
      if n == alias then rank[target] + 1 else if n in s then rank[n] else rank[n] + rank[target] + 2
  }

  lemma LiftedRankAt(h: Graph, rank: map<Node, nat>, s: set<Node>, parent: Node, slot: nat, alias: Node, f: Fields,
                     target: Node, n: Node)
    requires Ranked(h, rank) && parent in h && slot < |h[parent].content| && alias !in h
    requires !KeyPosition(h[parent], slot)
    requires target in h && h[target].kind != AliasNode
    requires f.kind == AliasNode && f.alias == target && f.content == []
    requires target in s && ClosedIn(h, s) && parent !in s
    requires n in h || n == alias
    ensures RankedAt(Aliased(h, parent, slot, alias, f), LiftedRank(h, rank, s, alias, target), n)
  {
    hide Ranked;
    RankedHere(h, rank, target);
    var k, rank' := Aliased(h, parent, slot, alias, f), LiftedRank(h, rank, s, alias, target);
    if n != alias {
      RankedHere(h, rank, n);
      forall i | 0 <= i < |k[n].content|
        ensures k[n].content[i] in k && rank'[k[n].content[i]] < rank'[n]
        ensures KeyPosition(k[n], i) ==> k[k[n].content[i]].kind != AliasNode
      {
        assert k[n].content[i] == alias || k[n].content[i] == h[n].content[i];
        assert KeyPosition(k[n], i) ==> KeyPosition(h[n], i);
      }
    }
  }

  lemma AliasRank(h: Graph, parent: Node, slot: nat, alias: Node, f: Fields, target: Node)
    requires WellFormed(h) && parent in h && slot < |h[parent].content| && alias !in h
    requires !KeyPosition(h[parent], slot)
    requires target in h && h[target].kind != AliasNode
    requires f.kind == AliasNode && f.alias == target && f.content == []
    requires Avoids(h, target, {parent})
    ensures WellFormed(Aliased(h, parent, slot, alias, f))
  {
    hide RankedAt, ClosedIn;
    var k, rank := Aliased(h, parent, slot, alias, f), SomeRank(h);
    var s: set<Node> :| target in s && ClosedIn(h, s) && s !! {parent};
    var rank' := LiftedRank(h, rank, s, alias, target);
    forall n | n in k ensures RankedAt(k, rank', n) {
      LiftedRankAt(h, rank, s, parent, slot, alias, f, target, n);
    }
    assert Ranked(k, rank');
  }

  lemma AliasCycle(h: Graph, parent: Node, slot: nat, alias: Node, f: Fields, target: Node)
    requires WellFormed(h) && parent in h && slot < |h[parent].content| && alias !in h
    requires !KeyPosition(h[parent], slot)
    requires target in h && h[target].kind != AliasNode
    requires f.kind == AliasNode && f.alias == target && f.content == []
    ensures var k := Aliased(h, parent, slot, alias, f);
      && (WellFormed(k) <==> Avoids(h, target, {parent}))
      && (WellFormed(k) ==> forall n | n in h && Avoids(h, n, {parent}) :: n in k && Denote(k, n) == Denote(h, n))
  {
    hide Denote;
    var k := Aliased(h, parent, slot, alias, f);
    if Avoids(h, target, {parent}) {
      AliasRank(h, parent, slot, alias, f, target);
    }
    if WellFormed(k) {
      var rank := SomeRank(k);
      RankedHere(k, rank, alias);
      RankedHere(k, rank, parent);
      assert k[parent].content[slot] == alias;
      WellFormedClosed(h);
      var s := set n | n in h && rank[n] < rank[parent];
      forall n | n in s
        ensures forall i | 0 <= i < |h[n].content| :: h[n].content[i] in s
        ensures h[n].alias != null ==> h[n].alias in s
      {
        assert k[n] == h[n];
        RankedHere(k, rank, n);
      }
      assert target in s && ClosedIn(h, s) && s !! {parent};
      forall n | n in h && Avoids(h, n, {parent}) ensures Denote(k, n) == Denote(h, n) {
        UnreachedDenote(h, k, n, {parent});
      }
    }
  }

  // An alias keeps the comments of what it replaces.
  function AliasFields(target: Node, name: string, prev: Fields): Fields {
    Fields(AliasNode, 0, "", name, "", target, [], prev.headComment, prev.lineComment, prev.footComment, 0, 0)
  }

  method PutAlias(container: Node, slot: nat, target: Node, anchorName: string, ghost nodes: set<Node>)
    returns (alias: Node)
    requires container in nodes && slot < |container.content|
    modifies container
    ensures fresh(alias)
    ensures alias.Snap() == AliasFields(target, anchorName, old(container.content[slot].Snap()))
    ensures alias.kind == AliasNode && alias.alias == target && alias.value == anchorName
    ensures var was := old(container.content[slot].Snap());
      && alias.headComment == was.headComment && alias.lineComment == was.lineComment
      && alias.footComment == was.footComment
    ensures Snapshot(nodes + {alias}) == Aliased(old(Snapshot(nodes)), container, slot, alias, alias.Snap())
  {
    ghost var h, f := Snapshot(nodes), container.Snap();
    var prev := container.content[slot];
    alias := new Node.Literal(AliasNode, 0, "", anchorName, "",
      prev.headComment, prev.lineComment, prev.footComment, 0, 0);
    alias.alias := target;
    container.content := container.content[slot := alias];
    assert container.Snap() == f.(content := f.content[slot := alias]);
    ghost var k := Aliased(h, container, slot, alias, alias.Snap());
    forall n | n in nodes + {alias} ensures n.Snap() == k[n] {
      if n in nodes && n != container {
        assert n.Snap() == h[n];
      }
    }
    assert Snapshot(nodes + {alias}).Keys == k.Keys;
  }

  // Reading the slot afterwards reads the anchored node.
  lemma AliasedReads(h: Graph, parent: Node, slot: nat, alias: Node, f: Fields, target: Node, last: Segment)
    requires WellFormed(h) && parent in h && SlotFor(h, parent, slot, last) && alias !in h
    requires target in h && h[target].kind != AliasNode && Avoids(h, target, {parent})
    requires f.kind == AliasNode && f.alias == target && f.content == []
    requires WellFormed(Aliased(h, parent, slot, alias, f))
    ensures var k := Aliased(h, parent, slot, alias, f);
      parent in k && LocalStep(Denote(k, parent), last) == Some(Denote(h, target))
  {
    hide Ranked, Denote, Avoids;
    var k := Aliased(h, parent, slot, alias, f);
    SlotIsNoKey(h, parent, slot, last);
    UnreachedDenote(h, k, target, {parent});
    DenoteStep(h, parent);
    DenoteStep(k, parent);
    DenoteStep(k, alias);
    RankedHere(h, SomeRank(h), parent);
    if last.Name? {
      AliasedKeys(h, parent, slot, alias, f, parent, last.name);
    }
  }

  // The new alias stands at no key, so every mapping keeps its keys.
  lemma AliasedKeys(h: Graph, parent: Node, slot: nat, alias: Node, f: Fields, n: Node, name: string)
    requires WellFormed(h) && parent in h && alias !in h && n in h && h[n].kind == MappingNode
    requires slot < |h[parent].content| && !KeyPosition(h[parent], slot)
    requires WellFormed(Aliased(h, parent, slot, alias, f))
    ensures var k := Aliased(h, parent, slot, alias, f);
      n in k && KeyIndex(Denote(k, n), name) == KeyIndex(Denote(h, n), name)
  {
    hide Ranked, Denote;
    var k := Aliased(h, parent, slot, alias, f);
    DenoteStep(h, n);
    DenoteStep(k, n);
    forall i | 0 <= i && i + 1 < |h[n].content| && i % 2 == 0
      ensures Denote(k, n).kids[i].tag == Denote(h, n).kids[i].tag
      ensures Denote(k, n).kids[i].value == Denote(h, n).kids[i].value
    {
      DenoteKey(h, n, i);
      DenoteKey(k, n, i);
    }
    SameKeys(Denote(h, n).kids, Denote(k, n).kids, name, 0);
  }

  // The way to the container is what it was.
  lemma AliasedTrail(h: Graph, ns: seq<Node>, p: seq<Segment>, slot: nat, alias: Node, f: Fields)
    requires Trail(h, ns, p) && alias !in h
    requires slot < |h[ns[|p|]].content| && !KeyPosition(h[ns[|p|]], slot)
    requires WellFormed(Aliased(h, ns[|p|], slot, alias, f))
    ensures Trail(Aliased(h, ns[|p|], slot, alias, f), ns, p)
  {
    hide Ranked, Denote;
    var k := Aliased(h, ns[|p|], slot, alias, f);
    forall j | 0 <= j < |p| ensures At(k, ns[j], p[j], ns[j + 1]) {
      assert At(h, ns[j], p[j], ns[j + 1]);
      var s := AtWitness(h, ns[j], p[j], ns[j + 1]);
      TrailDescends(h, ns, p, j);
      if p[j].Name? {
        AliasedKeys(h, ns[|p|], slot, alias, f, ns[j], p[j].name);
      }
      assert SlotFor(k, ns[j], s, p[j]) && k[ns[j]].content[s] == ns[j + 1];
    }
  }

  lemma {:induction false} SameKeys(kids: seq<Tree>, kids': seq<Tree>, name: string, i: nat)
    requires |kids| == |kids'| && i % 2 == 0
    requires forall j {:trigger kids[j]} | 0 <= j && j + 1 < |kids| && j % 2 == 0 ::
      kids[j].tag == kids'[j].tag && kids[j].value == kids'[j].value
    ensures KeyIndexFrom(kids, name, i) == KeyIndexFrom(kids', name, i)
    decreases |kids| - i
  {
    if i + 1 < |kids| {
      assert kids[i].tag == kids'[i].tag;
      SameKeys(kids, kids', name, i + 2);
    }
  }

  // h is g with the last slot of the path holding a new alias of the anchor.
  ghost predicate AliasPut(g: Graph, h: Graph, tree: Node, segs: seq<Segment>, anchorName: string,
                           ns: seq<Node>, slot: int, alias: Node, target: Node) {
    && segs != [] && Trail(g, ns, segs[..|segs| - 1]) && ns[0] == tree
    && SlotFor(g, ns[|segs| - 1], slot, segs[|segs| - 1])
    && target in g && IsAnchor(g[target], anchorName)
    && alias in h && alias !in g
    && g[ns[|segs| - 1]].content[slot] in g
    && h[alias] == AliasFields(target, anchorName, g[g[ns[|segs| - 1]].content[slot]])
    && h == Aliased(g, ns[|segs| - 1], slot, alias, h[alias])
  }

  // When the call succeeds: there is an anchored node, the path leads somewhere, and the
  // anchored node is not itself what stands there.
  ghost predicate Aliasable(g: Graph, tree: Node, segs: seq<Segment>, name: string)
    requires WellFormed(g) && tree in g
  {
    && segs != [] && Anchored(g, tree, name) != null
    && LocalWalk(Denote(g, tree), segs).Some?
    && PhysicalAt(g, tree, segs) != Anchored(g, tree, name)
  }

  // SetNodeAlias.  `mid` is the graph once the path's aliases are broken.
  method SetNodeAlias(tree: Node, segs: seq<Segment>, anchorName: string, ghost nodes: set<Node>)
    returns (ok: bool, ghost ns: seq<Node>, ghost slot: int, ghost alias: Node, ghost target: Node,
             ghost mid: Graph, ghost all: set<Node>)
    requires tree in nodes && WellFormed(Snapshot(nodes))
    modifies nodes
    ensures nodes <= all && fresh(all - nodes)
    ensures Expands(old(Snapshot(nodes)), mid)
    ensures ok <==> Aliasable(old(Snapshot(nodes)), tree, segs, anchorName)
    ensures !ok ==> Snapshot(all) == mid
    ensures ok ==>
      && AliasPut(mid, Snapshot(all), tree, segs, anchorName, ns, slot, alias, target)
      && Along(old(Snapshot(nodes)), mid, ns) && target == old(Anchored(Snapshot(nodes), tree, anchorName))
  {
    hide Denote, Ranked, WellFormed, Visit, LocalWalk, Expands, FirstAnchor, SlotFound, AliasPut, Along, PhysicalAt;
    ghost var g := Snapshot(nodes);
    ExpandsReflexive(g);
    VisitInGraph(g, tree);
    FirstAnchorMember(g, Visit(g, tree), anchorName);
    ns, slot, alias, target, mid, all := [], 0, tree, tree, g, nodes;
    var found := FindAnchorNode(tree, anchorName, g);
    if found == null {
      ok := false;
      return;
    }
    var container, at;
    container, at, ns, all := FindParentSlot(tree, segs, nodes);
    mid := Snapshot(all);
    ExpandsFacts(g, mid);
    if at < 0 {
      ok := false;
      return;
    }
    assert mid[found] == g[found];
    SlotAlong(g, mid, tree, segs, ns, container, at);
    SlotIsAnchors(g, mid, tree, segs, ns, container, at, found);
    slot, target := at, found;
    ok, alias, all := AliasSlot(tree, segs, anchorName, container, at, found, g, ns, all);
  }

  // The guard in the code compares the slot as it is after the walk.
  lemma SlotIsAnchors(g: Graph, mid: Graph, tree: Node, segs: seq<Segment>, ns: seq<Node>,
                      container: Node, slot: nat, target: Node)
    requires SlotFound(g, mid, tree, segs, ns, container, slot) && target in g
    ensures segs != [] && WellFormed(g) && tree in g && LocalWalk(Denote(g, tree), segs).Some?
    ensures container in mid && slot < |mid[container].content|
    ensures mid[container].content[slot] == target <==> PhysicalAt(g, tree, segs) == target
  {
    hide Denote, Ranked, LocalWalk, SlotFor, At, Expands, Along, Trail, SlotFound, PhysicalAt;
    SlotTrail(g, mid, tree, segs, ns, container, slot);
    SlotAlong(g, mid, tree, segs, ns, container, slot);
    ExpandsFacts(g, mid);
    SlotAfterWalk(g, mid, ns, ns, segs, slot, target);
  }

  // Its last part: the slot is given a new alias, unless it is the anchor's own.
  method AliasSlot(tree: Node, segs: seq<Segment>, anchorName: string, container: Node, slot: nat, target: Node,
                   ghost g: Graph, ghost ns: seq<Node>, ghost nodes: set<Node>)
    returns (ok: bool, ghost alias: Node, ghost all: set<Node>)
    requires SlotFound(g, Snapshot(nodes), tree, segs, ns, container, slot)
    requires target in nodes && IsAnchor(target.Snap(), anchorName)
    modifies nodes
    ensures nodes <= all && fresh(all - nodes)
    ensures container in nodes && slot < old(|container.content|) && (ok <==> old(container.content[slot]) != target)
    ensures !ok ==> Snapshot(all) == old(Snapshot(nodes))
    ensures ok ==> AliasPut(old(Snapshot(nodes)), Snapshot(all), tree, segs, anchorName, ns, slot, alias, target)
  {
    hide Denote, Ranked, WellFormed, LocalWalk, Expands, SlotFor, At, Trail, Walked, SlotFound, AliasPut;
    ghost var mid := Snapshot(nodes);
    SlotTrail(g, mid, tree, segs, ns, container, slot);
    assert container.Snap() == mid[container] && target.Snap() == mid[target];
    SlotIsNoKey(mid, container, slot, segs[|segs| - 1]);
    assert container.content[slot].Snap() == mid[container.content[slot]];
    if container.content[slot] == target {
      return false, tree, nodes;
    }
    alias := PutAlias(container, slot, target, anchorName, nodes);
    all := nodes + {alias};
    AliasPutIs(g, mid, Snapshot(all), tree, segs, anchorName, ns, container, slot, alias, target);
    ok := true;
  }

  lemma AliasPutIs(g: Graph, mid: Graph, h: Graph, tree: Node, segs: seq<Segment>, anchorName: string,
                   ns: seq<Node>, parent: Node, slot: nat, alias: Node, target: Node)
    requires SlotFound(g, mid, tree, segs, ns, parent, slot)
    requires target in mid && IsAnchor(mid[target], anchorName) && alias in h && alias !in mid
    requires parent in mid && slot < |mid[parent].content| && mid[parent].content[slot] in mid
    requires h[alias] == AliasFields(target, anchorName, mid[mid[parent].content[slot]])
    requires h == Aliased(mid, parent, slot, alias, h[alias])
    ensures AliasPut(mid, h, tree, segs, anchorName, ns, slot, alias, target)
  {
    hide Denote, Ranked, WellFormed, LocalWalk, Expands;
    WalkedFacts(g, mid, tree, segs[..|segs| - 1], ns);
  }

  // The graph stays acyclic exactly if the anchored node, as the document was, reaches
  // neither the first alias on the path nor, if there is none, the container: the guard in
  // the code only rules out the anchored node's own slot.  If it stays so, the path reads
  // the anchored node and all that cannot reach the gate reads as before.
  lemma SetAliasMeans(g: Graph, mid: Graph, h: Graph, tree: Node, segs: seq<Segment>, anchorName: string,
                      ns: seq<Node>, slot: int, alias: Node, target: Node)
    requires WellFormed(g) && tree in g && target in g && segs != []
    requires Expands(g, mid) && Along(g, mid, ns) && AliasPut(mid, h, tree, segs, anchorName, ns, slot, alias, target)
    ensures WellFormed(h) <==> Avoids(g, target, {Gate(g, tree, segs)})
    ensures WellFormed(h) ==>
      && tree in h && LocalWalk(Denote(h, tree), segs) == Some(Denote(g, target))
      && (forall n | n in g && Avoids(g, n, {Gate(g, tree, segs)}) :: n in h && Denote(h, n) == Denote(g, n))
  {
    hide Denote, Ranked, LocalStep, LocalWalk, Avoids, At, SlotFor, Expands, Along, Gate, Trail;
    var p, last := segs[..|segs| - 1], segs[|segs| - 1];
    TrailFacts(mid, ns, p);
    var parent := ns[|p|];
    ExpandsFacts(g, mid);
    SlotIsNoKey(mid, parent, slot, last);
    AliasCycle(mid, parent, slot, alias, h[alias], target);
    ReachesContainer(g, mid, ns, segs, target);
    if WellFormed(h) {
      AliasedReads(mid, parent, slot, alias, h[alias], target, last);
      AliasedTrail(mid, ns, p, slot, alias, h[alias]);
      TrailReads(h, ns, p);
      LocalWalkSplit(Denote(h, tree), p, last);
      assert p + [last] == segs;
      forall n | n in g && Avoids(g, n, {Gate(g, tree, segs)}) ensures n in h && Denote(h, n) == Denote(g, n) {
        ReachesContainer(g, mid, ns, segs, n);
      }
    }
  }

  // A document with an anchor x on the mapping at a, which has an entry b.
  ghost predicate IsAnchoredMapping(g: Graph, root: Node, ka: Node, m: Node, kb: Node, b: Node) {
    && g.Keys == {root, ka, m, kb, b} && AllDifferent([root, ka, m, kb, b])
    && g[root].kind == MappingNode && g[root].content == [ka, m] && g[root].alias == null && g[root].anchor == ""
    && g[m].kind == MappingNode && g[m].content == [kb, b] && g[m].alias == null && g[m].anchor == "x"
    && IsText(g[ka], "a") && g[ka].anchor == "" && IsText(g[kb], "b") && IsText(g[b], "1")
  }

  lemma AnchoredMappingDiffers(g: Graph, root: Node, ka: Node, m: Node, kb: Node, b: Node)
    requires IsAnchoredMapping(g, root, ka, m, kb, b)
    ensures root != ka && root != m && root != kb && root != b && m != ka && m != kb && m != b
  {
    var ns := [root, ka, m, kb, b];
    assert ns[0] != ns[1] && ns[0] != ns[2] && ns[0] != ns[3] && ns[0] != ns[4];
    assert ns[1] != ns[2] && ns[2] != ns[3] && ns[2] != ns[4];
  }

  lemma AnchoredMappingWell(g: Graph, root: Node, ka: Node, m: Node, kb: Node, b: Node)
    requires IsAnchoredMapping(g, root, ka, m, kb, b)
    ensures WellFormed(g)
  {
    AnchoredMappingDiffers(g, root, ka, m, kb, b);
    var rank := map n | n in g :: if n == root then 2 else if n == m then 1 else 0;
    assert Ranked(g, rank) by {
      forall n | n in g ensures RankedAt(g, rank, n) {
      }
    }
  }

  lemma AnchoredMappingDenotes(g: Graph, root: Node, ka: Node, m: Node, kb: Node, b: Node)
    requires IsAnchoredMapping(g, root, ka, m, kb, b) && WellFormed(g)
    ensures LocalStep(Denote(g, root), Name("a")) == Some(Denote(g, m)) && SlotIn(g, root, Name("a")) == 1
    ensures LocalStep(Denote(g, m), Name("b")) == Some(Denote(g, b)) && SlotIn(g, m, Name("b")) == 1
  {
    hide Ranked, Denote;
    LeafDenotes(g, ka);
    LeafDenotes(g, kb);
    DenoteStep(g, root);
    DenoteStep(g, m);
    assert KeyIndexFrom(Denote(g, root).kids, "a", 0) == 0;
    assert KeyIndexFrom(Denote(g, m).kids, "b", 0) == 0;
  }

  lemma AnchoredMappingFinds(g: Graph, root: Node, ka: Node, m: Node, kb: Node, b: Node)
    requires IsAnchoredMapping(g, root, ka, m, kb, b) && WellFormed(g)
    ensures Anchored(g, root, "x") == m
  {
    hide Ranked;
    AnchoredMappingDiffers(g, root, ka, m, kb, b);
    VisitInGraph(g, root);
    assert VisitFrom(g, ka, 0) == [] && VisitFrom(g, root, 2) == [];
    assert Visit(g, ka) == [ka];
    var rest := VisitFrom(g, m, 0);
    assert VisitFrom(g, root, 0) == [ka] + VisitFrom(g, root, 1);
    assert VisitFrom(g, root, 1) == Visit(g, m) + [];
    assert Visit(g, root) == [root, ka, m] + rest;
    FirstAnchorAppend(g, [root, ka, m], rest, "x");
    assert [root, ka, m][1..] == [ka, m] && [ka, m][1..] == [m];
    assert FirstAnchor(g, [m], "x") == m && FirstAnchor(g, [ka, m], "x") == m;
  }

  // Setting a.b to an alias of x goes through and closes a cycle: the anchored node
  // would stand below itself.
  lemma AliasClosesCycle(g: Graph, root: Node, ka: Node, m: Node, kb: Node, b: Node)
    requires IsAnchoredMapping(g, root, ka, m, kb, b)
    ensures var segs := [Name("a"), Name("b")];
      && WellFormed(g) && root in g && Aliasable(g, root, segs, "x")
      && Anchored(g, root, "x") == m && m in g && !Avoids(g, m, {Gate(g, root, segs)})
  {
    hide Ranked, Denote, Visit;
    var segs := [Name("a"), Name("b")];
    AnchoredMappingWell(g, root, ka, m, kb, b);
    AnchoredMappingDenotes(g, root, ka, m, kb, b);
    AnchoredMappingDiffers(g, root, ka, m, kb, b);
    AnchoredMappingFinds(g, root, ka, m, kb, b);
    assert segs[1..] == [Name("b")] && segs[1..][1..] == [];
    assert Gate(g, m, segs[1..]) == m;
    assert PhysicalAt(g, m, segs[1..]) == PhysicalAt(g, b, []) == b;
    assert LocalWalk(Denote(g, m), segs[1..]) == LocalWalk(Denote(g, b), []);
  }
}
