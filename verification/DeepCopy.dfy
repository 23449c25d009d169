/** deepCopyYAMLNode: a copy of everything reachable from a node, through
  children and aliases alike, that shares exactly what the source shares. */
module DeepCopy {
  import opened YamlNode

  // f' is f with every node it mentions replaced by its copy.
  ghost predicate CopyOf(f: Fields, f': Fields, copies: map<Node, Node>) {
    && (f.alias != null ==> f.alias in copies)
    && (forall c | c in f.content :: c in copies)
    && f'.alias == (if f.alias == null then null else copies[f.alias])
    && |f'.content| == |f.content|
    && (forall i | 0 <= i < |f.content| :: f'.content[i] == copies[f.content[i]])
    && f' == f.(alias := f'.alias, content := f'.content)
  }

  ghost predicate Injective(copies: map<Node, Node>) {
    forall x, y | x in copies && y in copies && copies[x] == copies[y] :: x == y
  }

  // `copies` maps a closed part of g one-to-one onto its copy in h.
  ghost predicate Isomorphism(g: Graph, h: Graph, copies: map<Node, Node>) {
    && Injective(copies)
    && (forall x | x in copies :: x in g && copies[x] in h)
    && (forall x {:trigger CopyOf(g[x], h[copies[x]], copies)} | x in copies :: CopyOf(g[x], h[copies[x]], copies))
  }

  // x has a finished copy.
  ghost predicate Done(g: Graph, seen: map<Node, Node>, x: Node)
    requires x in g && x in seen
    reads seen[x]
  {
    CopyOf(g[x], seen[x].Snap(), seen)
  }

  // The memo of a copy in progress: one new node for each node seen, complete
  // except for those in `open`, whose copies callers are still filling in.
  ghost predicate Memo(g: Graph, seen: map<Node, Node>, open: set<Node>)
    reads seen.Values
  {
    && open <= seen.Keys <= g.Keys
    && Injective(seen)
    && (forall x | x in seen :: seen[x] !in g)
    && (forall x {:trigger Done(g, seen, x)} | x in seen && x !in open :: Done(g, seen, x))
  }

  // seen' adds to seen only nodes that every closed set holding n holds.
  ghost predicate Grows(g: Graph, n: Node, seen: map<Node, Node>, seen': map<Node, Node>) {
    && seen.Keys <= seen'.Keys
    && (forall x | x in seen :: seen'[x] == seen[x])
    && (forall c: set<Node> {:trigger ClosedIn(g, c)} | ClosedIn(g, c) && n in c :: seen'.Keys <= seen.Keys + c)
  }

  lemma GrowsThrough(g: Graph, n: Node, child: Node,
                     seen: map<Node, Node>, mid: map<Node, Node>, seen': map<Node, Node>)
    requires n in g && (child == g[n].alias || child in g[n].content)
    requires Grows(g, n, seen, mid) && Grows(g, child, mid, seen')
    ensures Grows(g, n, seen, seen')
  {
    forall c: set<Node> | ClosedIn(g, c) && n in c
      ensures seen'.Keys <= seen.Keys + c
    {
      assert child in c;
    }
  }

  // The copy f' of f once i of its children are in place.
  ghost predicate Filled(f: Fields, f': Fields, seen: map<Node, Node>, i: nat) {
    && (f.alias != null ==> f.alias in seen)
    && i <= |f.content| && |f'.content| == i
    && (forall j | 0 <= j < i :: f.content[j] in seen && f'.content[j] == seen[f.content[j]])
    && f' == f.(alias := if f.alias == null then null else seen[f.alias], content := f'.content)
  }

  lemma FilledStep(f: Fields, f': Fields, child: Node, seen: map<Node, Node>, seen': map<Node, Node>, i: nat)
    requires Filled(f, f', seen, i) && i < |f.content|
    requires forall x | x in seen :: x in seen' && seen'[x] == seen[x]
    requires f.content[i] in seen' && seen'[f.content[i]] == child
    ensures Filled(f, f'.(content := f'.content + [child]), seen', i + 1)
  {
  }

  lemma DoneGrows(g: Graph, x: Node, seen: map<Node, Node>, seen': map<Node, Node>)
    requires x in g && x in seen && Done(g, seen, x)
    requires forall y | y in seen :: y in seen' && seen'[y] == seen[y]
    ensures Done(g, seen', x)
  {
  }

  // Once its children are in place, a copy is finished and its node closed.
  lemma CloseNode(g: Graph, n: Node, seen: map<Node, Node>, open: set<Node>)
    requires n in g && n !in open && n in seen && Memo(g, seen, open + {n})
    requires Filled(g[n], seen[n].Snap(), seen, |g[n].content|)
    ensures Memo(g, seen, open)
  {
    assert Done(g, seen, n);
  }

  // A node enters the memo open, with nothing yet owed to its copy.
  lemma OpenNode(g: Graph, n: Node, cp: Node, seen: map<Node, Node>, open: set<Node>)
    requires n in g && n !in seen && Memo(g, seen, open) && cp !in seen.Values && cp !in g
    ensures Memo(g, seen[n := cp], open + {n}) && Grows(g, n, seen, seen[n := cp])
  {
    forall x | x in seen ensures seen[x] in seen.Values && seen[x] != cp {}
    forall x | x in seen && x !in open ensures Done(g, seen[n := cp], x) {
      DoneGrows(g, x, seen, seen[n := cp]);
    }
  }

  // Writing to an open node's copy breaks no promise.
  method SetAlias(cp: Node, a: Node, ghost n: Node, ghost g: Graph, ghost seen: map<Node, Node>, ghost open: set<Node>)
    requires n in open && Memo(g, seen, open) && seen[n] == cp
    modifies cp
    ensures Shows(g) == old(Shows(g))
    ensures cp.Snap() == old(cp.Snap()).(alias := a) && Memo(g, seen, open)
  {
    cp.alias := a;
    forall x | x in seen && x !in open ensures Done(g, seen, x) {
      assert old(Done(g, seen, x)) && seen[x] != cp;
    }
  }

  method AppendChild(cp: Node, child: Node, ghost n: Node, ghost g: Graph, ghost seen: map<Node, Node>,
                     ghost open: set<Node>)
    requires n in open && Memo(g, seen, open) && seen[n] == cp
    modifies cp
    ensures Shows(g) == old(Shows(g))
    ensures cp.Snap() == old(cp.Snap()).(content := old(cp.content) + [child]) && Memo(g, seen, open)
  {
    cp.content := cp.content + [child];
    forall x | x in seen && x !in open ensures Done(g, seen, x) {
      assert old(Done(g, seen, x)) && seen[x] != cp;
    }
  }

  // copyNodeRec, for the non-nil nodes that children and aliases are.  `seen` is
  // the memo.  Nothing is required of cycles: a node enters the memo before its
  // children are visited.
  method CopyNodeRec(n: Node, seen: map<Node, Node>, ghost g: Graph, ghost open: set<Node>)
    returns (cp: Node, seen': map<Node, Node>, ghost made: set<Node>)
    requires Shows(g) && ClosedIn(g, g.Keys) && n in g && Memo(g, seen, open)
    ensures n in seen' && cp == seen'[n] && Grows(g, n, seen, seen')
    ensures Memo(g, seen', open)
    ensures fresh(made) && seen'.Values <= seen.Values + made
    decreases g.Keys - seen.Keys, 0
  {
    if n in seen {
      return seen[n], seen, {};
    }
    hide Memo, Grows;
    MemoFacts(g, seen, open);
    assert n.Snap() == g[n];
    cp := new Node.Literal(n.kind, n.style, n.tag, n.value, n.anchor,
      n.headComment, n.lineComment, n.footComment, n.line, n.column);
    OpenNode(g, n, cp, seen, open);
    seen' := seen[n := cp];
    ghost var viaAlias, viaContent := {}, {};

    if n.alias != null {
      ghost var mid := seen';
      var a;
      a, seen', viaAlias := CopyNodeRec(n.alias, seen', g, open + {n});
      GrowsThrough(g, n, n.alias, seen, mid, seen');
      SetAlias(cp, a, n, g, seen', open + {n});
    }
    seen', viaContent := CopyContent(n, cp, seen, seen', g, open + {n});
    CloseNode(g, n, seen', open);
    made := {cp} + viaAlias + viaContent;
  }

  lemma MemoFacts(g: Graph, seen: map<Node, Node>, open: set<Node>)
    requires Memo(g, seen, open)
    ensures open <= seen.Keys <= g.Keys && Injective(seen) && forall x | x in seen :: seen[x] !in g
  {
  }

  // The loop of copyNodeRec that fills in the children of a copy.
  method CopyContent(n: Node, copy: Node, ghost before: map<Node, Node>, seen: map<Node, Node>,
                     ghost g: Graph, ghost open: set<Node>)
    returns (seen': map<Node, Node>, ghost made: set<Node>)
    requires Shows(g) && ClosedIn(g, g.Keys)
    requires n in g && n in open && Memo(g, seen, open) && seen[n] == copy
    requires Grows(g, n, before, seen) && Filled(g[n], copy.Snap(), seen, 0)
    modifies copy
    ensures Grows(g, n, before, seen') && n in seen' && seen'[n] == copy
    ensures Memo(g, seen', open)
    ensures fresh(made) && seen'.Values <= seen.Values + made
    ensures Filled(g[n], copy.Snap(), seen', |g[n].content|)
    decreases g.Keys - seen.Keys, 1
  {
    seen', made := seen, {};
    var i := 0;
    while i < |n.content|
      invariant 0 <= i <= |n.content|
      invariant Shows(g) && n.Snap() == g[n] && seen.Keys <= seen'.Keys && seen'[n] == copy
      invariant Grows(g, n, before, seen') && Memo(g, seen', open)
      invariant fresh(made) && seen'.Values <= seen.Values + made
      invariant Filled(g[n], copy.Snap(), seen', i)
    {
      ghost var mid := seen';
      var child;
      ghost var more;
      child, seen', more := CopyNodeRec(n.content[i], seen', g, open);
      GrowsThrough(g, n, n.content[i], before, mid, seen');
      FilledStep(g[n], copy.Snap(), child, mid, seen', i);
      AppendChild(copy, child, n, g, seen', open);
      made := made + more;
      i := i + 1;
    }
  }

  // deepCopyYAMLNode.  d shows the copy.  The keys of `copies` are the nodes
  // reachable from n: they lie in every closed set that holds n.
  method DeepCopyYAMLNode(n: Node, ghost g: Graph) returns (cp: Node, copies: map<Node, Node>, ghost d: Graph)
    requires Shows(g) && ClosedIn(g, g.Keys) && n in g
    ensures n in copies && cp == copies[n]
    ensures d.Keys == copies.Values && fresh(d.Keys) && Shows(d)
    ensures Isomorphism(g, d, copies)
    ensures ClosedIn(g, copies.Keys)
    ensures forall c: set<Node> {:trigger ClosedIn(g, c)} | ClosedIn(g, c) && n in c :: copies.Keys <= c
  {
    ghost var made;
    cp, copies, made := CopyNodeRec(n, map[], g, {});
    d := Snapshot(copies.Values);
    forall x | x in copies ensures copies[x] in copies.Values && Done(g, copies, x) {}
  }
}
