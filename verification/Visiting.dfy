/** The order in which the anchor commands visit a document: each node before what is below
  it, and earlier children first. */
module Visiting {
  import opened Prelude
  import opened YamlNode
  import opened AnchorEdits

  // The node at the end of a way down from n, given by positions among the children.
  ghost function Below(g: Graph, n: Node, way: seq<nat>): Option<Node>
    requires WellFormed(g) && n in g
    decreases |way|
  {
    if way == [] then Some(n)
    else if way[0] < |g[n].content| && g[n].content[way[0]] in g then Below(g, g[n].content[way[0]], way[1..])
    else None
  }

  // a goes before b: b goes on from it, or they part and a takes the earlier child.
  predicate Earlier(a: seq<nat>, b: seq<nat>) {
    b != [] && (a == [] || a[0] < b[0] || (a[0] == b[0] && Earlier(a[1..], b[1..])))
  }

  // ways lead to the visited nodes in turn, in order.
  ghost predicate Tour(g: Graph, n: Node, visited: seq<Node>, ways: seq<seq<nat>>)
    requires WellFormed(g) && n in g
  {
    && |ways| == |visited|
    && (forall k | 0 <= k < |ways| :: Below(g, n, ways[k]) == Some(visited[k]))
    && (forall j, k | 0 <= j < k < |ways| :: Earlier(ways[j], ways[k]))
  }

  // All of them start at child i or later.
  ghost predicate StartFrom(ways: seq<seq<nat>>, i: nat) {
    forall k | 0 <= k < |ways| :: ways[k] != [] && ways[k][0] >= i
  }

  function Through(i: nat, ways: seq<seq<nat>>): (r: seq<seq<nat>>)
    ensures |r| == |ways|
  {
    seq(|ways|, k requires 0 <= k < |ways| => [i] + ways[k])
  }

  lemma ThroughChild(g: Graph, n: Node, i: nat, visited: seq<Node>, ways: seq<seq<nat>>)
    requires WellFormed(g) && n in g && i < |g[n].content| && g[n].content[i] in g
    requires Tour(g, g[n].content[i], visited, ways)
    ensures Tour(g, n, visited, Through(i, ways))
  {
    var r := Through(i, ways);
    forall k | 0 <= k < |r| ensures Below(g, n, r[k]) == Some(visited[k]) {
      assert r[k][1..] == ways[k];
    }
    forall j, k | 0 <= j < k < |r| ensures Earlier(r[j], r[k]) {
      assert r[j][1..] == ways[j] && r[k][1..] == ways[k];
    }
  }

  lemma ToursConcat(g: Graph, n: Node, i: nat, a: seq<Node>, ways: seq<seq<nat>>, b: seq<Node>, rest: seq<seq<nat>>)
    requires WellFormed(g) && n in g && Tour(g, n, a, Through(i, ways)) && Tour(g, n, b, rest) && StartFrom(rest, i + 1)
    ensures Tour(g, n, a + b, Through(i, ways) + rest) && StartFrom(Through(i, ways) + rest, i)
  {
    hide Below;
    var r := Through(i, ways);
    forall j, k | 0 <= j < k < |r + rest| ensures Earlier((r + rest)[j], (r + rest)[k]) {
      if j < |r| && k >= |r| {
        assert (r + rest)[k] == rest[k - |r|];
      } else if j >= |r| {
        assert (r + rest)[j] == rest[j - |r|] && (r + rest)[k] == rest[k - |r|];
      }
    }
  }

  // The visit is a tour of every way down, in order.
  lemma {:induction false} VisitsInOrder(g: Graph, n: Node) returns (ways: seq<seq<nat>>)
    requires WellFormed(g) && n in g
    ensures Tour(g, n, Visit(g, n), ways)
    ensures forall w | Below(g, n, w).Some? :: w in ways
    decreases SomeRank(g)[n], |g[n].content| + 1
  {
    hide Ranked, Below, Tour;
    var rest := ChildrenInOrder(g, n, 0);
    ways := [[]] + rest;
    RootFirst(g, n, VisitFrom(g, n, 0), rest);
    forall w | Below(g, n, w).Some? ensures w in ways {
      if w != [] {
        assert w in rest;
      }
    }
  }

  lemma RootFirst(g: Graph, n: Node, visited: seq<Node>, rest: seq<seq<nat>>)
    requires WellFormed(g) && n in g && Tour(g, n, visited, rest) && StartFrom(rest, 0)
    ensures Tour(g, n, [n] + visited, [[]] + rest)
  {
  }

  lemma {:induction false} ChildrenInOrder(g: Graph, n: Node, i: nat) returns (ways: seq<seq<nat>>)
    requires WellFormed(g) && n in g
    ensures Tour(g, n, VisitFrom(g, n, i), ways) && StartFrom(ways, i)
    ensures forall w | w != [] && w[0] >= i && Below(g, n, w).Some? :: w in ways
    decreases SomeRank(g)[n], |g[n].content| - i
  {
    hide Ranked, Below, Tour, StartFrom;
    NoTour(g, n, i);
    ways := [];
    if i < |g[n].content| {
      RankedHere(g, SomeRank(g), n);
      var c := g[n].content[i];
      var own := VisitsInOrder(g, c);
      var rest := ChildrenInOrder(g, n, i + 1);
      ThroughChild(g, n, i, Visit(g, c), own);
      ToursConcat(g, n, i, Visit(g, c), own, VisitFrom(g, n, i + 1), rest);
      ways := Through(i, own) + rest;
      forall w | w != [] && w[0] >= i && Below(g, n, w).Some? ensures w in ways {
        if w[0] == i {
          StepBelow(g, n, w);
          var k :| 0 <= k < |own| && own[k] == w[1..];
          assert Through(i, own)[k] == w;
        }
      }
    } else {
      forall w | w != [] && w[0] >= i ensures Below(g, n, w).None? {
        StepBelow(g, n, w);
      }
    }
  }

  lemma NoTour(g: Graph, n: Node, i: nat)
    requires WellFormed(g) && n in g
    ensures Tour(g, n, [], []) && StartFrom([], i)
  {
  }

  lemma StepBelow(g: Graph, n: Node, w: seq<nat>)
    requires WellFormed(g) && n in g && w != []
    ensures Below(g, n, w) ==
      if w[0] < |g[n].content| && g[n].content[w[0]] in g then Below(g, g[n].content[w[0]], w[1..]) else None
  {
  }

  // Of several anchors of a name, the one found stands first: every other way to one comes
  // after its own.
  lemma FirstInOrder(g: Graph, tree: Node, name: string) returns (way: seq<nat>)
    requires WellFormed(g) && tree in g && Anchored(g, tree, name) != null
    ensures Below(g, tree, way) == Some(Anchored(g, tree, name))
    ensures forall w | w != way && Below(g, tree, w).Some? && Below(g, tree, w).value in g &&
      IsAnchor(g[Below(g, tree, w).value], name) :: Earlier(way, w)
  {
    hide Ranked, Below, Earlier;
    VisitInGraph(g, tree);
    var ways := VisitsInOrder(g, tree);
    var visited := Visit(g, tree);
    var k := FirstAt(g, visited, name);
    way := ways[k];
    forall w | w != way && Below(g, tree, w).Some? && Below(g, tree, w).value in g &&
      IsAnchor(g[Below(g, tree, w).value], name) ensures Earlier(way, w)
    {
      var j :| 0 <= j < |ways| && ways[j] == w;
      assert visited[j] == Below(g, tree, w).value;
    }
  }

  lemma {:induction false} FirstAt(g: Graph, visited: seq<Node>, name: string) returns (k: nat)
    requires forall x | x in visited :: x in g
    requires FirstAnchor(g, visited, name) != null
    ensures k < |visited| && visited[k] == FirstAnchor(g, visited, name) && visited[k] in g
    ensures forall j | 0 <= j < k :: visited[j] in g && !IsAnchor(g[visited[j]], name)
  {
    k := 0;
    if !IsAnchor(g[visited[0]], name) {
      k := FirstAt(g, visited[1..], name);
      k := k + 1;
    }
  }
}
