/** Rewriting plain scalars in the text of a file (service/yaml_splice.go). */
module Splicing {
  import opened Prelude
  import opened Text

  // What the parser says of the node found at a key, whether it stands in a flow
  // collection, and where the scalar's own text is: after any anchor or tag, from offset
  // `text` of line `first` up to offset `stop` of line `last`.  Lines and columns count
  // from 1.
  datatype Leaf = Leaf(scalar: bool, style: int, line: int, column: int, flow: bool,
                       first: int, text: int, last: int, stop: int)

  datatype Edit = Edit(key: string, value: string)

  // ----- where a value ends -----

  predicate Blank(c: char) {
    c == ' ' || c == '\t'
  }

  // The blanks from i on lead to a '#'.
  ghost predicate CommentAt(line: string, i: nat) {
    exists j :: i < j < |line| && line[j] == '#' && AllBlank(line, i, j)
  }

  predicate AllBlank(line: string, i: nat, j: nat)
    requires j <= |line|
  {
    forall k | i <= k < j :: Blank(line[k])
  }

  // The value that starts at start ends at end.
  ghost predicate EndsAt(line: string, start: nat, end: nat) {
    && start <= end <= |line|
    && (end < |line| ==> CommentAt(line, end))
    && forall i | start <= i < end :: !CommentAt(line, i)
  }

  // plainScalarLineEnd
  method PlainScalarLineEnd(line: string, start: nat) returns (end: nat)
    requires start <= |line|
    ensures EndsAt(line, start, end)
  {
    var i := start;
    while i < |line|
      invariant start <= i <= |line|
      invariant forall k | start <= k < i :: !CommentAt(line, k)
    {
      if Blank(line[i]) {
        var j := i;
        while j < |line| && Blank(line[j])
          invariant i <= j <= |line| && AllBlank(line, i, j)
        {
          j := j + 1;
        }
        if j < |line| && line[j] == '#' {
          return i;
        }
      }
      i := i + 1;
    }
    end := |line|;
  }

  ghost function ValueEnd(line: string, start: nat): (r: nat)
    requires start <= |line|
    ensures EndsAt(line, start, r)
    decreases |line| - start
  {
    if start == |line| || CommentAt(line, start) then start else ValueEnd(line, start + 1)
  }

  lemma EndUnique(line: string, start: nat, a: nat, b: nat)
    requires EndsAt(line, start, a) && EndsAt(line, start, b)
    ensures a == b
  {
  }

  // ----- one value -----

  // line with v for the value that starts at start.
  ghost function Respliced(line: string, start: nat, v: string): string
    requires start <= |line|
  {
    line[..start] + v + line[ValueEnd(line, start)..]
  }

  // v, with rest after it on its line, ends where it ends.
  predicate Holds(v: string, rest: string) {
    && (forall i, j | 0 <= i < j < |v| && v[j] == '#' :: !AllBlank(v, i, j))
    && (v != "" && rest != "" ==> !Blank(v[|v| - 1]))
  }

  lemma CommentInTail(pre: string, s: string, i: nat)
    ensures CommentAt(pre + s, |pre| + i) <==> CommentAt(s, i)
  {
    var t := pre + s;
    if CommentAt(s, i) {
      var j :| i < j < |s| && s[j] == '#' && AllBlank(s, i, j);
      assert t[|pre| + j] == '#' && AllBlank(t, |pre| + i, |pre| + j);
    }
    if CommentAt(t, |pre| + i) {
      var j :| |pre| + i < j < |t| && t[j] == '#' && AllBlank(t, |pre| + i, j);
      forall k | i <= k < j - |pre| ensures Blank(s[k]) {
        assert t[|pre| + k] == s[k];
      }
      assert s[j - |pre|] == '#' && AllBlank(s, i, j - |pre|);
    }
  }

  lemma CommentInValue(v: string, rest: string)
    requires rest != "" ==> CommentAt(rest, 0)
    ensures (forall i | 0 <= i < |v| :: !CommentAt(v + rest, i)) <==> Holds(v, rest)
  {
    var t := v + rest;
    if v != "" && rest != "" && Blank(v[|v| - 1]) {
      var j :| 0 < j < |rest| && rest[j] == '#' && AllBlank(rest, 0, j);
      forall k | |v| - 1 <= k < |v| + j ensures Blank(t[k]) {
        assert k >= |v| ==> t[k] == rest[k - |v|];
      }
      assert t[|v| + j] == '#' && AllBlank(t, |v| - 1, |v| + j);
      assert CommentAt(t, |v| - 1);
    }
    forall i, j | 0 <= i < j < |v| && v[j] == '#' && AllBlank(v, i, j) ensures CommentAt(t, i) {
      assert t[j] == '#' && AllBlank(t, i, j);
    }
    if Holds(v, rest) {
      forall i | 0 <= i < |v| ensures !CommentAt(t, i) {
        forall j | i < j < |t| && t[j] == '#' ensures !AllBlank(t, i, j) {
          if j < |v| {
            assert !AllBlank(v, i, j);
            var k :| i <= k < j && !Blank(v[k]);
            assert !Blank(t[k]);
          } else {
            assert t[|v| - 1] == v[|v| - 1];
          }
        }
      }
    }
  }

  lemma EndAfter(pre: string, v: string, rest: string)
    requires rest != "" ==> CommentAt(rest, 0)
    ensures ValueEnd(pre + (v + rest), |pre|) == |pre| + |v| <==> Holds(v, rest)
  {
    hide CommentAt, Holds, AllBlank;
    var t := pre + (v + rest);
    var end := ValueEnd(t, |pre|);
    CommentInValue(v, rest);
    forall i | 0 <= i < |v| ensures CommentAt(t, |pre| + i) <==> CommentAt(v + rest, i) {
      CommentInTail(pre, v + rest, i);
    }
    if rest != "" {
      CommentInTail(v, rest, 0);
      CommentInTail(pre, v + rest, |v|);
    }
    if Holds(v, rest) {
      forall i | |pre| <= i < |pre| + |v| ensures !CommentAt(t, i) {
        assert !CommentAt(v + rest, i - |pre|);
      }
      EndUnique(t, |pre|, |pre| + |v|, end);
    } else {
      var i :| 0 <= i < |v| && CommentAt(v + rest, i);
      assert CommentAt(t, |pre| + i);
    }
  }

  // The scan ends after the new value exactly when that holds.
  lemma ScanReadsBack(line: string, start: nat, v: string)
    requires start <= |line|
    ensures var rest := line[ValueEnd(line, start)..];
      ValueEnd(Respliced(line, start, v), start) == start + |v| <==> Holds(v, rest)
  {
    hide CommentAt, Holds;
    var end := ValueEnd(line, start);
    var rest := line[end..];
    assert line[..start] + v + rest == line[..start] + (v + rest);
    if rest != "" {
      assert line == line[..end] + rest;
      CommentInTail(line[..end], rest, 0);
    }
    EndAfter(line[..start], v, rest);
  }

  // Putting the old value back gives the old line, exactly when the new one held.
  lemma SpliceUndone(line: string, start: nat, v: string)
    requires start <= |line|
    ensures var end := ValueEnd(line, start);
      Respliced(Respliced(line, start, v), start, line[start..end]) == line <==> Holds(v, line[end..])
  {
    hide ValueEnd, Holds, CommentAt, EndsAt;
    var end := ValueEnd(line, start);
    ValueEndInside(line, start);
    ScanReadsBack(line, start, v);
    ValueEndInside(Respliced(line, start, v), start);
    PutBack(line, start, end, v, ValueEnd(Respliced(line, start, v), start));
  }

  lemma ValueEndInside(line: string, start: nat)
    requires start <= |line|
    ensures start <= ValueEnd(line, start) <= |line|
  {
  }

  lemma PutBack(line: string, start: nat, end: nat, v: string, end': nat)
    requires start <= end <= |line| && start <= end' <= start + |v| + |line| - end
    ensures var next := line[..start] + v + line[end..];
      next[..start] + line[start..end] + next[end'..] == line <==> end' == start + |v|
  {
    var next := line[..start] + v + line[end..];
    var back := next[..start] + line[start..end] + next[end'..];
    assert next[..start] == line[..start];
    if end' == start + |v| {
      assert next[end'..] == line[end..];
      assert line[..start] + line[start..end] + line[end..] == line;
    } else {
      assert |back| == end + |next| - end' != |line|;
    }
  }

  // ----- one edit -----

  // The edit can be made in these lines.
  ghost predicate Fits(lines: seq<string>, leaves: map<string, Leaf>, safe: string -> bool, e: Edit) {
    && e.key in leaves && safe(e.value)
    && var leaf := leaves[e.key];
    && leaf.scalar && leaf.style == 0
    && 0 < leaf.line <= |lines| && 0 < leaf.column <= |lines[leaf.line - 1]|
  }

  ghost function Made(lines: seq<string>, leaves: map<string, Leaf>, safe: string -> bool, e: Edit): seq<string>
    requires Fits(lines, leaves, safe, e)
  {
    var leaf := leaves[e.key];
    lines[leaf.line - 1 := Respliced(lines[leaf.line - 1], leaf.column - 1, e.value)]
  }

  // A value that isYAMLPlainSafe accepts is on one line: others are quoted or blocks.
  ghost predicate Single(safe: string -> bool) {
    forall v | safe(v) :: OneLine(v)
  }

  // spliceScalarValue
  method SpliceScalarValue(raw: string, leaves: map<string, Leaf>, e: Edit, safe: string -> bool)
    returns (out: string, ok: bool)
    requires Single(safe)
    ensures ok <==> Fits(Lines(raw), leaves, safe, e)
    ensures if ok then Lines(out) == Made(Lines(raw), leaves, safe, e) else out == raw
  {
    if e.key !in leaves || !leaves[e.key].scalar {
      return raw, false;
    }
    var leaf := leaves[e.key];
    if leaf.style != 0 || leaf.line <= 0 || leaf.column <= 0 || !safe(e.value) {
      return raw, false;
    }
    var lines := Lines(raw);
    if leaf.line > |lines| {
      return raw, false;
    }
    var line := lines[leaf.line - 1];
    var start := leaf.column - 1;
    if start >= |line| {
      return raw, false;
    }
    var end := PlainScalarLineEnd(line, start);
    EndUnique(line, start, end, ValueEnd(line, start));
    var newLine := line[..start] + e.value + line[end..];
    lines := lines[leaf.line - 1 := newLine];
    LinesAreLines(raw);
    StillOneLine(Lines(raw), leaf.line - 1, start, end, e.value);
    LinesJoin(lines);
    return Join(lines), true;
  }

  lemma StillOneLine(lines: seq<string>, n: nat, start: nat, end: nat, v: string)
    requires AllOneLine(lines) && n < |lines| && start <= end <= |lines[n]| && OneLine(v)
    ensures AllOneLine(lines[n := lines[n][..start] + v + lines[n][end..]])
  {
    assert lines[n] in lines;
    forall l | l in lines[n := lines[n][..start] + v + lines[n][end..]] ensures OneLine(l) {
      assert l in lines || l == lines[n][..start] + v + lines[n][end..];
    }
  }

  // ----- all edits -----

  // The edits made one after the other, if they all can be.
  ghost function Outcome(lines: seq<string>, leaves: map<string, Leaf>, safe: string -> bool,
                         edits: seq<Edit>): Option<seq<string>>
    decreases |edits|
  {
    if edits == [] then Some(lines)
    else if Fits(lines, leaves, safe, edits[0])
    then Outcome(Made(lines, leaves, safe, edits[0]), leaves, safe, edits[1..])
    else None
  }

  // SpliceScalarValues.  Without a root, nothing is found at any key.
  method SpliceScalarValues(raw: string, leaves: map<string, Leaf>, edits: seq<Edit>, safe: string -> bool)
    returns (out: string, ok: bool)
    requires Single(safe)
    ensures ok <==> raw != "" && edits != [] && Outcome(Lines(raw), leaves, safe, edits).Some?
    ensures if ok then Some(Lines(out)) == Outcome(Lines(raw), leaves, safe, edits) else out == raw
  {
    hide Fits, Made;
    if |raw| == 0 || |edits| == 0 {
      return raw, false;
    }
    out := raw;
    assert edits[0..] == edits;
    for i := 0 to |edits|
      invariant Outcome(Lines(raw), leaves, safe, edits) == Outcome(Lines(out), leaves, safe, edits[i..])
    {
      assert edits[i..][1..] == edits[i + 1..];
      var next, fits := SpliceScalarValue(out, leaves, edits[i], safe);
      if !fits {
        return raw, false;
      }
      out := next;
    }
    ok := true;
  }

  // No two edits on one line.
  ghost predicate LinesApart(leaves: map<string, Leaf>, edits: seq<Edit>) {
    forall i, j | 0 <= i < j < |edits| && edits[i].key in leaves && edits[j].key in leaves ::
      leaves[edits[i].key].line != leaves[edits[j].key].line
  }

  // What the scan makes of line n.
  ghost predicate LineAfter(lines: seq<string>, leaves: map<string, Leaf>, edits: seq<Edit>, n: nat, after: string)
    requires n < |lines|
  {
    && (forall e {:trigger e in edits} | e in edits && e.key in leaves && leaves[e.key].line == n + 1 ::
          0 < leaves[e.key].column <= |lines[n]| && after == Respliced(lines[n], leaves[e.key].column - 1, e.value))
    && ((forall e {:trigger e in edits} | e in edits && e.key in leaves :: leaves[e.key].line != n + 1) ==>
          after == lines[n])
  }

  ghost predicate AllFit(lines: seq<string>, leaves: map<string, Leaf>, safe: string -> bool, edits: seq<Edit>) {
    forall i {:trigger edits[i]} | 0 <= i < |edits| :: Fits(lines, leaves, safe, edits[i])
  }

  // On lines apart, either every edit fits the original text or nothing is done, and
  // each line is edited on its own.
  lemma {:induction false} LinesSpliced(lines: seq<string>, leaves: map<string, Leaf>, safe: string -> bool,
                                        edits: seq<Edit>)
    requires LinesApart(leaves, edits)
    ensures var r := Outcome(lines, leaves, safe, edits);
      && (r.Some? <==> AllFit(lines, leaves, safe, edits))
      && (r.Some? ==>
            |r.value| == |lines| && forall n | 0 <= n < |lines| :: LineAfter(lines, leaves, edits, n, r.value[n]))
    decreases |edits|
  {
    hide LineAfter;
    if edits == [] {
      NoEdits(lines, leaves);
    } else if Fits(lines, leaves, safe, edits[0]) {
      var next, rest := Made(lines, leaves, safe, edits[0]), edits[1..];
      LinesSpliced(next, leaves, safe, rest);
      assert AllFit(lines, leaves, safe, edits) <==> AllFit(next, leaves, safe, rest) by {
        forall i | 0 <= i < |rest|
          ensures Fits(lines, leaves, safe, edits[i + 1]) <==> Fits(next, leaves, safe, rest[i])
        {
          assert rest[i] == edits[i + 1];
        }
      }
      var r := Outcome(next, leaves, safe, rest);
      if r.Some? {
        forall n | 0 <= n < |lines| ensures LineAfter(lines, leaves, edits, n, r.value[n]) {
          FirstThenRest(lines, leaves, safe, edits, n, r.value[n]);
        }
      }
    } else {
      assert !Fits(lines, leaves, safe, edits[0]);
    }
  }

  lemma NoEdits(lines: seq<string>, leaves: map<string, Leaf>)
    ensures forall n | 0 <= n < |lines| :: LineAfter(lines, leaves, [], n, lines[n])
  {
  }

  lemma FirstThenRest(lines: seq<string>, leaves: map<string, Leaf>, safe: string -> bool, edits: seq<Edit>, n: nat,
                      after: string)
    requires LinesApart(leaves, edits) && edits != [] && n < |lines|
    requires Fits(lines, leaves, safe, edits[0])
    requires LineAfter(Made(lines, leaves, safe, edits[0]), leaves, edits[1..], n, after)
    ensures LineAfter(lines, leaves, edits, n, after)
  {
    var rest := edits[1..];
    forall e | e in rest ensures e in edits && (e.key in leaves ==> leaves[e.key].line != leaves[edits[0].key].line) {
      var i :| 0 <= i < |rest| && rest[i] == e;
      assert edits[i + 1] == e;
    }
    forall e | e in edits ensures e == edits[0] || e in rest {
    }
  }

  lemma FitAmong(lines: seq<string>, leaves: map<string, Leaf>, safe: string -> bool, edits: seq<Edit>,
                 edits': seq<Edit>)
    requires forall e :: e in edits <==> e in edits'
    ensures AllFit(lines, leaves, safe, edits) ==> AllFit(lines, leaves, safe, edits')
  {
    hide Fits;
    if AllFit(lines, leaves, safe, edits) {
      forall i | 0 <= i < |edits'| ensures Fits(lines, leaves, safe, edits'[i]) {
        assert edits'[i] in edits;
      }
    }
  }

  // The order of the edits does not matter.
  lemma OrderDoesNotMatter(lines: seq<string>, leaves: map<string, Leaf>, safe: string -> bool, edits: seq<Edit>,
                           edits': seq<Edit>)
    requires LinesApart(leaves, edits) && LinesApart(leaves, edits')
    requires forall e :: e in edits <==> e in edits'
    ensures Outcome(lines, leaves, safe, edits) == Outcome(lines, leaves, safe, edits')
  {
    hide Fits;
    FitAmong(lines, leaves, safe, edits, edits');
    FitAmong(lines, leaves, safe, edits', edits);
    LinesSpliced(lines, leaves, safe, edits);
    LinesSpliced(lines, leaves, safe, edits');
    var r, r' := Outcome(lines, leaves, safe, edits), Outcome(lines, leaves, safe, edits');
    if r.Some? {
      forall n | 0 <= n < |lines| ensures r.value[n] == r'.value[n] {
        assert LineAfter(lines, leaves, edits, n, r.value[n]) && LineAfter(lines, leaves, edits', n, r'.value[n]);
        if e :| e in edits && e.key in leaves && leaves[e.key].line == n + 1 {
          assert e in edits';
        }
      }
      assert r.value == r'.value;
    }
  }

  // The text that an edit replaces.
  ghost function Scanned(lines: seq<string>, leaf: Leaf): string
    requires 0 < leaf.line <= |lines| && 0 < leaf.column <= |lines[leaf.line - 1]|
  {
    var line := lines[leaf.line - 1];
    line[leaf.column - 1..ValueEnd(line, leaf.column - 1)]
  }

  ghost predicate EditHolds(lines: seq<string>, leaves: map<string, Leaf>, safe: string -> bool, e: Edit)
    requires Fits(lines, leaves, safe, e)
  {
    var leaf := leaves[e.key];
    var line := lines[leaf.line - 1];
    Holds(e.value, line[ValueEnd(line, leaf.column - 1)..])
  }

  // back has, for each edit, the one that puts its old value back.
  ghost predicate Reverts(lines: seq<string>, leaves: map<string, Leaf>, safe: string -> bool, edits: seq<Edit>,
                          back: seq<Edit>)
    requires AllFit(lines, leaves, safe, edits)
  {
    && |back| == |edits|
    && forall i {:trigger back[i]} {:trigger edits[i]} | 0 <= i < |edits| ::
         back[i] == Edit(edits[i].key, Scanned(lines, leaves[edits[i].key]))
  }

  // Putting all old values back gives the original text, exactly when every new one held.
  lemma SplicesUndone(lines: seq<string>, leaves: map<string, Leaf>, safe: string -> bool, edits: seq<Edit>,
                      back: seq<Edit>)
    requires LinesApart(leaves, edits) && AllFit(lines, leaves, safe, edits) &&
      Reverts(lines, leaves, safe, edits, back)
    ensures var mid := Outcome(lines, leaves, safe, edits);
      && mid.Some?
      && var end := Outcome(mid.value, leaves, safe, back);
      && (end.Some? ==>
            (end.value == lines <==>
              forall i {:trigger edits[i]} | 0 <= i < |edits| :: EditHolds(lines, leaves, safe, edits[i])))
  {
    hide Outcome;
    LinesSpliced(lines, leaves, safe, edits);
    var mid := Outcome(lines, leaves, safe, edits).value;
    LinesSpliced(mid, leaves, safe, back);
    var end := Outcome(mid, leaves, safe, back);
    if end.Some? {
      AllBack(lines, leaves, safe, edits, back, mid, end.value);
    }
  }

  lemma AllBack(lines: seq<string>, leaves: map<string, Leaf>, safe: string -> bool, edits: seq<Edit>, back: seq<Edit>,
                mid: seq<string>, end: seq<string>)
    requires AllFit(lines, leaves, safe, edits) && Reverts(lines, leaves, safe, edits, back)
    requires |lines| == |mid| == |end|
    requires forall n | 0 <= n < |lines| ::
      LineAfter(lines, leaves, edits, n, mid[n]) && LineAfter(mid, leaves, back, n, end[n])
    ensures end == lines <==>
      forall i {:trigger edits[i]} | 0 <= i < |edits| :: EditHolds(lines, leaves, safe, edits[i])
  {
    hide Holds, ValueEnd, LineAfter;
    forall i {:trigger edits[i]} | 0 <= i < |edits|
      ensures Fits(lines, leaves, safe, edits[i])
      ensures end[leaves[edits[i].key].line - 1] == lines[leaves[edits[i].key].line - 1] <==>
        EditHolds(lines, leaves, safe, edits[i])
    {
      var n := leaves[edits[i].key].line - 1;
      LineBack(lines, leaves, safe, edits, back, i, mid[n], end[n], mid);
    }
    if forall i {:trigger edits[i]} | 0 <= i < |edits| :: EditHolds(lines, leaves, safe, edits[i]) {
      forall n | 0 <= n < |lines| ensures end[n] == lines[n] {
        if i :| 0 <= i < |edits| && leaves[edits[i].key].line == n + 1 {
        } else {
          Untouched(lines, leaves, edits, n, mid[n]);
          Untouched(mid, leaves, back, n, end[n]);
        }
      }
    }
  }

  lemma Untouched(lines: seq<string>, leaves: map<string, Leaf>, edits: seq<Edit>, n: nat, after: string)
    requires n < |lines| && LineAfter(lines, leaves, edits, n, after)
    requires forall i {:trigger edits[i]} | 0 <= i < |edits| ::
      edits[i].key in leaves ==> leaves[edits[i].key].line != n + 1
    ensures after == lines[n]
  {
  }

  lemma LineBack(lines: seq<string>, leaves: map<string, Leaf>, safe: string -> bool, edits: seq<Edit>, back: seq<Edit>,
                 i: nat,
                 after: string, last: string, mid: seq<string>)
    requires AllFit(lines, leaves, safe, edits) && Reverts(lines, leaves, safe, edits, back) && i < |edits| &&
      |mid| == |lines|
    requires Fits(lines, leaves, safe, edits[i])
    requires var n := leaves[edits[i].key].line - 1;
      mid[n] == after && LineAfter(lines, leaves, edits, n, after) && LineAfter(mid, leaves, back, n, last)
    ensures last == lines[leaves[edits[i].key].line - 1] <==> EditHolds(lines, leaves, safe, edits[i])
  {
    hide Holds, ValueEnd, Respliced;
    var leaf := leaves[edits[i].key];
    assert edits[i] in edits && back[i] in back;
    SpliceUndone(lines[leaf.line - 1], leaf.column - 1, edits[i].value);
  }

  // ----- plain scalars (section 7.3.3 of YAML 1.2.2) -----

  predicate FlowIndicator(c: char) {
    c == ',' || c == '[' || c == ']' || c == '{' || c == '}'
  }

  predicate Indicator(c: char) {
    || FlowIndicator(c) || c == '#' || c == '&' || c == '*' || c == '!' || c == '|' || c == '>'
    || c == '\'' || c == '\"' || c == '%' || c == '@' || c == '`'
  }

  // A character after which '-', '?' and ':' belong to the text.
  predicate PlainSafe(line: string, i: nat, flow: bool) {
    i < |line| && !Blank(line[i]) && !(flow && FlowIndicator(line[i]))
  }

  predicate PlainFirst(line: string, i: nat, flow: bool) {
    && i < |line| && !Blank(line[i]) && !Indicator(line[i])
    && (line[i] == '-' || line[i] == '?' || line[i] == ':' ==> PlainSafe(line, i + 1, flow))
  }

  // No plain text goes past i.
  predicate Stops(line: string, i: nat, flow: bool) {
    || i >= |line|
    || (line[i] == ':' && !PlainSafe(line, i + 1, flow))
    || (flow && FlowIndicator(line[i]))
  }

  // From i on there are blanks, if anything, before a comment or such a place.
  ghost predicate TextEnds(line: string, i: nat, flow: bool) {
    exists j :: i <= j <= |line| && AllBlank(line, i, j) && (Stops(line, j, flow) || (i < j && line[j] == '#'))
  }

  // The text that starts at from ends at to.
  ghost predicate PlainAt(line: string, from: nat, to: nat, flow: bool) {
    && from < to <= |line| && PlainFirst(line, from, flow) && TextEnds(line, to, flow)
    && forall i | from <= i < to :: !TextEnds(line, i, flow)
  }

  // What can be read before a scalar on its line.
  predicate SetOff(line: string, from: nat, flow: bool)
    requires from <= |line|
  {
    from == 0 || Blank(line[from - 1]) || (flow && (FlowIndicator(line[from - 1]) || line[from - 1] == ':'))
  }

  // v is a plain scalar on its own.
  ghost predicate PlainText(v: string, flow: bool) {
    PlainAt(v, 0, |v|, flow)
  }

  // The parser finds v there as a plain scalar.
  ghost predicate ReadAt(line: string, from: nat, v: string, flow: bool) {
    && from + |v| <= |line| && line[from..from + |v|] == v
    && SetOff(line, from, flow) && PlainAt(line, from, from + |v|, flow)
  }

  lemma StopsInLine(pre: string, v: string, rest: string, flow: bool, j: nat)
    requires (rest != "" ==> Blank(rest[0])) && j < |v|
    ensures Stops(pre + v + rest, |pre| + j, flow) <==> Stops(v, j, flow)
    ensures PlainFirst(pre + v + rest, |pre| + j, flow) <==> PlainFirst(v, j, flow)
  {
    var line := pre + v + rest;
    assert line[|pre| + j] == v[j];
    assert j + 1 < |v| ==> line[|pre| + j + 1] == v[j + 1];
    assert j + 1 == |v| && rest != "" ==> line[|pre| + j + 1] == rest[0];
  }

  // A comment after it on its line is no part of the text.
  lemma TextEndsInLine(pre: string, v: string, rest: string, flow: bool, i: nat)
    requires (rest != "" ==> CommentAt(rest, 0)) && i < |v|
    ensures TextEnds(pre + v + rest, |pre| + i, flow) <==> TextEnds(v, i, flow)
  {
    hide TextEnds;
    if TextEnds(v, i, flow) {
      TextEndsLonger(pre, v, rest, flow, i);
    }
    if TextEnds(pre + v + rest, |pre| + i, flow) {
      TextEndsShorter(pre, v, rest, flow, i);
    }
  }

  lemma TextEndsLonger(pre: string, v: string, rest: string, flow: bool, i: nat)
    requires (rest != "" ==> CommentAt(rest, 0)) && i < |v| && TextEnds(v, i, flow)
    ensures TextEnds(pre + v + rest, |pre| + i, flow)
  {
    var line := pre + v + rest;
    var j :| i <= j <= |v| && AllBlank(v, i, j) && (Stops(v, j, flow) || (i < j && v[j] == '#'));
    assert AllBlank(line, |pre| + i, |pre| + j);
    if j < |v| {
      StopsInLine(pre, v, rest, flow, j);
    } else if rest != "" {
      var c :| 0 < c < |rest| && rest[c] == '#' && AllBlank(rest, 0, c);
      forall k | |pre| + i <= k < |pre| + |v| + c ensures Blank(line[k]) {
        assert k >= |pre| + |v| ==> line[k] == rest[k - |pre| - |v|];
      }
      assert line[|pre| + |v| + c] == '#' && AllBlank(line, |pre| + i, |pre| + |v| + c);
    } else {
      assert Stops(line, |line|, flow) by { PastEnd(line, flow); }
    }
  }

  lemma PastEnd(line: string, flow: bool)
    ensures Stops(line, |line|, flow)
  {
  }

  lemma TextEndsShorter(pre: string, v: string, rest: string, flow: bool, i: nat)
    requires (rest != "" ==> CommentAt(rest, 0)) && i < |v| && TextEnds(pre + v + rest, |pre| + i, flow)
    ensures TextEnds(v, i, flow)
  {
    var line := pre + v + rest;
    var j :| |pre| + i <= j <= |line| && AllBlank(line, |pre| + i, j) &&
            (Stops(line, j, flow) || (|pre| + i < j && line[j] == '#'));
    var k := if j < |pre| + |v| then j - |pre| else |v|;
    forall m | i <= m < k ensures Blank(v[m]) {
      assert line[|pre| + m] == v[m];
    }
    assert AllBlank(v, i, k);
    if k < |v| {
      StopsInLine(pre, v, rest, flow, k);
      assert line[j] == v[k];
    } else {
      PastEnd(v, flow);
    }
  }

  lemma PlainInLine(pre: string, v: string, rest: string, flow: bool)
    requires rest != "" ==> CommentAt(rest, 0)
    ensures PlainAt(pre + v + rest, |pre|, |pre| + |v|, flow) <==> PlainText(v, flow)
  {
    hide TextEnds, PlainFirst, CommentAt;
    var line := pre + v + rest;
    if rest != "" {
      CommentIsBlank(rest);
    }
    if v != "" {
      StopsInLine(pre, v, rest, flow, 0);
    }
    forall i | 0 <= i < |v| ensures TextEnds(line, |pre| + i, flow) <==> TextEnds(v, i, flow) {
      TextEndsInLine(pre, v, rest, flow, i);
    }
    assert TextEnds(v, |v|, flow) by { LineEnds(v, flow); }
    assert TextEnds(line, |pre| + |v|, flow) by {
      if rest == "" {
        LineEnds(line, flow);
      } else {
        CommentInTail(pre + v, rest, 0);
        CommentEnds(line, |pre| + |v|, flow);
      }
    }
    if PlainText(v, flow) {
      forall i | |pre| <= i < |pre| + |v| ensures !TextEnds(line, i, flow) {
        assert !TextEnds(v, i - |pre|, flow);
      }
    }
    if PlainAt(line, |pre|, |pre| + |v|, flow) {
      forall i | 0 <= i < |v| ensures !TextEnds(v, i, flow) {
        assert !TextEnds(line, |pre| + i, flow);
      }
    }
  }

  lemma CommentIsBlank(line: string)
    requires line != "" && CommentAt(line, 0)
    ensures Blank(line[0])
  {
  }

  lemma LineEnds(line: string, flow: bool)
    ensures TextEnds(line, |line|, flow)
  {
    assert AllBlank(line, |line|, |line|) && Stops(line, |line|, flow);
  }

  lemma CommentEnds(line: string, i: nat, flow: bool)
    requires CommentAt(line, i)
    ensures TextEnds(line, i, flow)
  {
  }

  // A text that is plain in a block is so in a flow collection, too, exactly if it has no
  // flow indicators.
  lemma PlainInFlow(v: string)
    ensures PlainText(v, true) <==> PlainText(v, false) && forall c | c in v :: !FlowIndicator(c)
  {
    hide AllBlank;
    if PlainText(v, true) {
      forall c | c in v ensures !FlowIndicator(c) {
        var i :| 0 <= i < |v| && v[i] == c;
        assert AllBlank(v, i, i) by { NoBlanks(v, i); }
        assert !TextEnds(v, i, true);
      }
      forall i | 0 <= i < |v| ensures !TextEnds(v, i, false) {
        assert !TextEnds(v, i, true);
        assert forall j | i <= j <= |v| :: Stops(v, j, false) ==> Stops(v, j, true);
      }
      LineEnds(v, false);
    }
    if PlainText(v, false) && forall c | c in v :: !FlowIndicator(c) {
      forall i | 0 <= i < |v| ensures !TextEnds(v, i, true) {
        assert !TextEnds(v, i, false);
        assert forall j | i <= j <= |v| :: Stops(v, j, true) ==> Stops(v, j, false);
      }
      LineEnds(v, true);
    }
  }

  lemma NoBlanks(v: string, i: nat)
    requires i <= |v|
    ensures AllBlank(v, i, i)
  {
  }

  // ----- what is lost around a value -----

  // The scalar is where the parser says: its text is plain, if it has one, and what comes
  // before it from the node's column on holds no comment.  In a flow collection an empty
  // one is put at the indicator after it.
  ghost predicate Placed(lines: seq<string>, leaf: Leaf) {
    && 0 < leaf.line <= leaf.first <= leaf.last <= |lines|
    && 0 < leaf.column <= |lines[leaf.line - 1]|
    && 0 <= leaf.text <= |lines[leaf.first - 1]| && 0 <= leaf.stop <= |lines[leaf.last - 1]|
    && (leaf.first == leaf.line ==> leaf.column - 1 <= leaf.text)
    && (leaf.first == leaf.last ==> OneLineText(lines[leaf.first - 1], leaf))
    && (leaf.first == leaf.line == leaf.last ==> Uncommented(lines[leaf.line - 1], leaf.column - 1, leaf.stop))
  }

  ghost predicate OneLineText(line: string, leaf: Leaf)
    requires 0 <= leaf.text && 0 <= leaf.stop <= |line|
  {
    && leaf.text <= leaf.stop
    && (leaf.text < leaf.stop ==> SetOff(line, leaf.text, leaf.flow) && PlainAt(line, leaf.text, leaf.stop, leaf.flow))
    && (leaf.text == leaf.stop && leaf.flow ==> leaf.stop < |line| && FlowIndicator(line[leaf.stop]))
  }

  ghost predicate Uncommented(line: string, from: int, to: int) {
    forall i: nat | from <= i < to :: !CommentAt(line, i)
  }

  // The node starts with the text of the scalar: no anchor or tag comes first, and the
  // column is its offset.
  predicate Bare(leaf: Leaf) {
    leaf.first == leaf.line && leaf.text == leaf.column - 1
  }

  // The lines with v in place of the scalar's text, and nothing else changed.
  ghost function Replaced(lines: seq<string>, leaf: Leaf, v: string): seq<string>
    requires Placed(lines, leaf)
  {
    lines[..leaf.first - 1]
    + [lines[leaf.first - 1][..leaf.text] + v + lines[leaf.last - 1][leaf.stop..]]
    + lines[leaf.last..]
  }

  // An edit is planned for a new value only.
  ghost predicate Changes(lines: seq<string>, leaf: Leaf, v: string)
    requires Placed(lines, leaf)
  {
    leaf.first == leaf.last ==> v != lines[leaf.first - 1][leaf.text..leaf.stop]
  }

  // It ends on the line it starts on, and nothing but a comment follows it there.
  ghost predicate EndsCleanly(lines: seq<string>, leaf: Leaf)
    requires Placed(lines, leaf)
  {
    && leaf.last == leaf.line
    && var line := lines[leaf.line - 1];
    && (leaf.stop == |line| || CommentAt(line, leaf.stop))
  }

  // On one line, the scan goes on from the end of the scalar: what it passes is lost.
  lemma ScanFromStop(line: string, start: nat, stop: nat)
    requires start <= stop <= |line| && Uncommented(line, start, stop)
    ensures ValueEnd(line, start) == ValueEnd(line, stop)
    ensures ValueEnd(line, stop) == stop <==> stop == |line| || CommentAt(line, stop)
  {
    EndUnique(line, start, ValueEnd(line, start), ValueEnd(line, stop));
  }

  // A splice puts the value in place of the scalar's text and keeps the rest of the file
  // if and only if the node starts with that text, and the text ends cleanly.
  lemma KeepsTheRestExactly(lines: seq<string>, leaves: map<string, Leaf>, safe: string -> bool, e: Edit)
    requires Fits(lines, leaves, safe, e) && Placed(lines, leaves[e.key])
    requires leaves[e.key].first > leaves[e.key].line ==> Changes(lines, leaves[e.key], e.value)
    ensures Made(lines, leaves, safe, e) == Replaced(lines, leaves[e.key], e.value) <==>
      Bare(leaves[e.key]) && EndsCleanly(lines, leaves[e.key])
  {
    hide ValueEnd, CommentAt, PlainAt, SetOff;
    var leaf := leaves[e.key];
    var made, ideal := Made(lines, leaves, safe, e), Replaced(lines, leaf, e.value);
    if leaf.last != leaf.first {
      assert |ideal| < |made|;
    } else if leaf.first != leaf.line {
      var was := lines[leaf.first - 1];
      assert made[leaf.first - 1] == was && ideal[leaf.first - 1] == was[..leaf.text] + e.value + was[leaf.stop..];
      if made == ideal {
        OldText(was, leaf.text, leaf.stop, e.value);
      }
    } else {
      var line := lines[leaf.line - 1];
      ValueEndInside(line, leaf.column - 1);
      ScanFromStop(line, leaf.column - 1, leaf.stop);
      SameLine(line, leaf.column - 1, ValueEnd(line, leaf.column - 1), leaf.text, leaf.stop, e.value);
      assert made[leaf.line - 1] == ideal[leaf.line - 1] <==> made == ideal;
    }
  }

  lemma OldText(line: string, from: nat, to: nat, v: string)
    requires from <= to <= |line| && line == line[..from] + v + line[to..]
    ensures v == line[from..to]
  {
    assert |v| == to - from;
    assert line[from..to] == (line[..from] + v + line[to..])[from..to];
  }

  // The scan ends at the end of the text or behind it, so that starting before the text
  // loses something.
  lemma SameLine(line: string, start: nat, end: nat, text: nat, stop: nat, v: string)
    requires start <= text <= stop <= end <= |line|
    ensures line[..start] + v + line[end..] == line[..text] + v + line[stop..] <==> start == text && end == stop
  {
    assert |line[..start] + v + line[end..]| == start + |v| + |line| - end;
    assert |line[..text] + v + line[stop..]| == text + |v| + |line| - stop;
  }

  // What becomes of line n if no edit touches more than the text of its scalar.
  ghost predicate OnlySpan(lines: seq<string>, leaves: map<string, Leaf>, edits: seq<Edit>, n: nat, after: string)
    requires n < |lines|
  {
    && (forall i {:trigger edits[i]} | 0 <= i < |edits| && edits[i].key in leaves &&
                                       leaves[edits[i].key].line == n + 1 ::
          var leaf := leaves[edits[i].key];
          && Placed(lines, leaf) && leaf.first == leaf.line == leaf.last
          && after == lines[n][..leaf.text] + edits[i].value + lines[n][leaf.stop..])
    && ((forall i {:trigger edits[i]} | 0 <= i < |edits| && edits[i].key in leaves ::
          leaves[edits[i].key].line != n + 1) ==>
          after == lines[n])
  }

  // On lines apart, either every edit fits the original text or nothing is done; and each
  // edit changes the text of its scalar and nothing else if and only if every edited
  // node starts with that text and the text ends cleanly.
  lemma OnlySpansChange(lines: seq<string>, leaves: map<string, Leaf>, safe: string -> bool, edits: seq<Edit>)
    requires LinesApart(leaves, edits)
    requires forall e | e in edits && e.key in leaves :: Placed(lines, leaves[e.key])
    ensures var r := Outcome(lines, leaves, safe, edits);
      && (r.Some? <==> AllFit(lines, leaves, safe, edits))
      && (r.Some? ==>
            && |r.value| == |lines|
            && ((forall n | 0 <= n < |lines| :: OnlySpan(lines, leaves, edits, n, r.value[n])) <==>
                forall e | e in edits && e.key in leaves ::
                  Bare(leaves[e.key]) && EndsCleanly(lines, leaves[e.key])))
  {
    hide Outcome, LineAfter, OnlySpan, Placed;
    LinesSpliced(lines, leaves, safe, edits);
    var r := Outcome(lines, leaves, safe, edits);
    if r.Some? {
      forall e | e in edits && e.key in leaves
        ensures Placed(lines, leaves[e.key]) && e.key in leaves
        ensures var n := leaves[e.key].line - 1;
          && 0 <= n < |lines|
          && (OnlySpan(lines, leaves, edits, n, r.value[n]) <==>
                Bare(leaves[e.key]) && EndsCleanly(lines, leaves[e.key]))
      {
        var i :| 0 <= i < |edits| && edits[i] == e;
        EditedLine(lines, leaves, safe, edits, i, r.value);
      }
      forall n | 0 <= n < |lines| && forall e | e in edits && e.key in leaves :: leaves[e.key].line != n + 1
        ensures OnlySpan(lines, leaves, edits, n, r.value[n])
      {
        OtherLine(lines, leaves, edits, n, r.value[n]);
      }
    }
  }

  lemma OtherLine(lines: seq<string>, leaves: map<string, Leaf>, edits: seq<Edit>, n: nat, after: string)
    requires n < |lines| && LineAfter(lines, leaves, edits, n, after)
    requires forall e | e in edits && e.key in leaves :: leaves[e.key].line != n + 1
    ensures OnlySpan(lines, leaves, edits, n, after)
  {
    forall i {:trigger edits[i]} | 0 <= i < |edits| ensures edits[i] in edits {
    }
  }

  lemma EditedLine(lines: seq<string>, leaves: map<string, Leaf>, safe: string -> bool, edits: seq<Edit>, i: nat,
                   r: seq<string>)
    requires LinesApart(leaves, edits) && AllFit(lines, leaves, safe, edits) && i < |edits| && |r| == |lines|
    requires Fits(lines, leaves, safe, edits[i]) && Placed(lines, leaves[edits[i].key])
    requires forall n | 0 <= n < |lines| :: LineAfter(lines, leaves, edits, n, r[n])
    ensures var n := leaves[edits[i].key].line - 1;
      OnlySpan(lines, leaves, edits, n, r[n]) <==>
        Bare(leaves[edits[i].key]) && EndsCleanly(lines, leaves[edits[i].key])
  {
    hide ValueEnd, CommentAt, PlainAt, SetOff;
    var e := edits[i];
    var leaf := leaves[e.key];
    var n := leaf.line - 1;
    assert e in edits && LineAfter(lines, leaves, edits, n, r[n]);
    var line := lines[n];
    assert r[n] == Respliced(line, leaf.column - 1, e.value);
    if leaf.first == leaf.line == leaf.last {
      ScanFromStop(line, leaf.column - 1, leaf.stop);
      ValueEndInside(line, leaf.column - 1);
      SameLine(line, leaf.column - 1, ValueEnd(line, leaf.column - 1), leaf.text, leaf.stop, e.value);
    }
    forall j {:trigger edits[j]} | 0 <= j < |edits| && edits[j].key in leaves && leaves[edits[j].key].line == n + 1
      ensures j == i
    {
    }
  }

  // Where the splice keeps the rest of the file, the parser finds the new value in its
  // place if and only if that is plain text where it stands and is set off from what comes
  // before it, as it is wherever there was a text.  The next splice there does the same.
  lemma SplicedValueReadsBack(lines: seq<string>, leaves: map<string, Leaf>, safe: string -> bool, e: Edit)
    requires Fits(lines, leaves, safe, e) && Placed(lines, leaves[e.key])
    requires Bare(leaves[e.key]) && EndsCleanly(lines, leaves[e.key])
    ensures var leaf := leaves[e.key];
      var r, n, leaf' := Made(lines, leaves, safe, e), leaf.line - 1, leaf.(stop := leaf.text + |e.value|);
      && r == Replaced(lines, leaf, e.value)
      && (ReadAt(r[n], leaf.text, e.value, leaf.flow) <==>
            PlainText(e.value, leaf.flow) && (leaf.text < leaf.stop || SetOff(lines[n], leaf.text, leaf.flow)))
      && (ReadAt(r[n], leaf.text, e.value, leaf.flow) ==> Placed(r, leaf') && Bare(leaf') && EndsCleanly(r, leaf'))
  {
    hide ValueEnd, CommentAt, PlainAt, SetOff;
    var leaf := leaves[e.key];
    var n, start := leaf.line - 1, leaf.column - 1;
    var line, r := lines[n], Made(lines, leaves, safe, e);
    KeepsTheRestExactly(lines, leaves, safe, e);
    var pre, v, rest := line[..start], e.value, line[leaf.stop..];
    assert r[n] == pre + v + rest;
    assert rest != "" ==> CommentAt(rest, 0) by {
      assert line == line[..leaf.stop] + rest;
      CommentInTail(line[..leaf.stop], rest, 0);
    }
    PlainInLine(pre, v, rest, leaf.flow);
    SetOffBefore(line, r[n], start, leaf.flow);
    assert r[n][start..start + |v|] == v;
    if ReadAt(r[n], start, v, leaf.flow) {
      PlainUncommented(r[n], start, start + |v|, leaf.flow);
      if rest != "" {
        CommentInTail(pre + v, rest, 0);
      }
    }
  }

  lemma SetOffBefore(line: string, next: string, from: nat, flow: bool)
    requires from <= |line| && from <= |next| && line[..from] == next[..from]
    ensures SetOff(line, from, flow) <==> SetOff(next, from, flow)
  {
    if from > 0 {
      assert line[from - 1] == line[..from][from - 1] == next[..from][from - 1];
    }
  }

  lemma PlainUncommented(line: string, from: nat, to: nat, flow: bool)
    requires PlainAt(line, from, to, flow)
    ensures from < to && Uncommented(line, from, to)
  {
    hide TextEnds, CommentAt, PlainFirst;
    forall i: nat | from <= i < to ensures !CommentAt(line, i) {
      assert !TextEnds(line, i, flow);
      if CommentAt(line, i) {
        CommentEnds(line, i, flow);
      }
    }
  }

  // A value that the encoder leaves plain is plain text in a block, where it tried it.
  ghost predicate PlainInBlock(safe: string -> bool) {
    forall v | safe(v) && v != "" :: PlainText(v, false)
  }

  // So such a value reads back if and only if it has no flow indicators where these count,
  // and the place was not empty or is set off.
  lemma SafeValueReadsBack(lines: seq<string>, leaves: map<string, Leaf>, safe: string -> bool, e: Edit)
    requires Fits(lines, leaves, safe, e) && Placed(lines, leaves[e.key]) && PlainInBlock(safe) && e.value != ""
    requires Bare(leaves[e.key]) && EndsCleanly(lines, leaves[e.key])
    ensures var leaf := leaves[e.key];
      ReadAt(Made(lines, leaves, safe, e)[leaf.line - 1], leaf.text, e.value, leaf.flow) <==>
        && (leaf.flow ==> forall c | c in e.value :: !FlowIndicator(c))
        && (leaf.text < leaf.stop || SetOff(lines[leaf.line - 1], leaf.text, leaf.flow))
  {
    hide ReadAt, SetOff, PlainText, CommentAt;
    SplicedValueReadsBack(lines, leaves, safe, e);
    PlainInFlow(e.value);
  }

  // ----- inputs on which something is lost -----

  lemma Word(line: string, from: nat, to: nat, flow: bool)
    requires from < to <= |line| && PlainFirst(line, from, flow) && TextEnds(line, to, flow)
    requires forall i | from <= i < to :: !Blank(line[i]) && !Stops(line, i, flow)
    ensures PlainAt(line, from, to, flow) && Uncommented(line, from, to)
  {
    forall i | from <= i < to ensures !TextEnds(line, i, flow) && !CommentAt(line, i) {
      assert !Blank(line[i]);
    }
  }

  lemma NoHash(line: string, start: nat)
    requires start <= |line| && '#' !in line
    ensures ValueEnd(line, start) == |line| && forall i: nat :: !CommentAt(line, i)
  {
    forall i: nat ensures !CommentAt(line, i) {
      forall j | i < j < |line| ensures line[j] != '#' {
        assert line[j] in line;
      }
    }
  }

  // In a flow collection, what follows the value on its line.
  lemma FlowLosesTheRest(safe: string -> bool)
    requires safe("5")
    ensures var lines, e := ["m: {a: 1, b: 2}"], Edit("m.a", "5");
      var leaves := map["m.a" := Leaf(true, 0, 1, 8, true, 1, 7, 1, 8)];
      && Fits(lines, leaves, safe, e) && Placed(lines, leaves["m.a"]) && Bare(leaves["m.a"])
      && !EndsCleanly(lines, leaves["m.a"])
      && Made(lines, leaves, safe, e) == ["m: {a: 5"]
      && Replaced(lines, leaves["m.a"], "5") == ["m: {a: 5, b: 2}"]
  {
    var line := "m: {a: 1, b: 2}";
    NoHash(line, 7);
    NoHash(line, 8);
    NoBlanks(line, 8);
    assert Stops(line, 8, true);
    Word(line, 7, 8, true);
    assert line[..7] == "m: {a: " && line[8..] == ", b: 2}" && line[|line|..] == "";
    assert Respliced(line, 7, "5") == "m: {a: " + "5" + "" == "m: {a: 5";
    assert "m: {a: " + "5" + ", b: 2}" == "m: {a: 5, b: 2}";
  }

  // The value goes on in the next line, which stays.
  lemma ContinuationStays(safe: string -> bool)
    requires safe("x")
    ensures var lines, e := ["a: one", "  two"], Edit("a", "x");
      var leaves := map["a" := Leaf(true, 0, 1, 4, false, 1, 3, 2, 5)];
      && Fits(lines, leaves, safe, e) && Placed(lines, leaves["a"]) && Bare(leaves["a"])
      && !EndsCleanly(lines, leaves["a"])
      && Made(lines, leaves, safe, e) == ["a: x", "  two"]
      && Replaced(lines, leaves["a"], "x") == ["a: x"]
  {
    var line := "a: one";
    NoHash(line, 3);
    assert line[..3] == "a: " && line[|line|..] == "" && "  two"[5..] == "";
    assert Respliced(line, 3, "x") == "a: " + "x" + "" == "a: x";
    assert [] + ["a: " + "x" + ""] + [] == ["a: x"];
  }

  // Blanks at the end of the line.
  lemma TrailingBlanksLost(safe: string -> bool)
    requires safe("5")
    ensures var lines, e := ["a: 1  "], Edit("a", "5");
      var leaves := map["a" := Leaf(true, 0, 1, 4, false, 1, 3, 1, 4)];
      && Fits(lines, leaves, safe, e) && Placed(lines, leaves["a"]) && Bare(leaves["a"])
      && !EndsCleanly(lines, leaves["a"])
      && Made(lines, leaves, safe, e) == ["a: 5"]
      && Replaced(lines, leaves["a"], "5") == ["a: 5  "]
  {
    var line := "a: 1  ";
    NoHash(line, 3);
    assert AllBlank(line, 4, 6) && Stops(line, 6, false);
    Word(line, 3, 4, false);
    assert line[..3] == "a: " && line[|line|..] == "" && line[4..] == "  ";
    assert Respliced(line, 3, "5") == "a: " + "5" + "" == "a: 5";
    assert "a: " + "5" + "  " == "a: 5  ";
  }

  // The node's column is that of its anchor, which goes, and the alias is left without one.
  lemma AnchorLost(safe: string -> bool)
    requires safe("5")
    ensures var lines, e := ["a: &x 1", "b: *x"], Edit("a", "5");
      var leaves := map["a" := Leaf(true, 0, 1, 4, false, 1, 6, 1, 7)];
      && Fits(lines, leaves, safe, e) && Placed(lines, leaves["a"]) && EndsCleanly(lines, leaves["a"])
      && !Bare(leaves["a"])
      && Made(lines, leaves, safe, e) == ["a: 5", "b: *x"]
      && Replaced(lines, leaves["a"], "5") == ["a: &x 5", "b: *x"]
  {
    var line := "a: &x 1";
    NoHash(line, 3);
    LineEnds(line, false);
    Word(line, 6, 7, false);
    assert line[..3] == "a: " && line[..6] == "a: &x " && line[|line|..] == "";
    assert Respliced(line, 3, "5") == "a: " + "5" + "" == "a: 5";
    assert "a: &x " + "5" + "" == "a: &x 5";
    assert [] + ["a: &x " + "5" + ""] + ["b: *x"] == ["a: &x 5", "b: *x"];
  }

  // In a flow collection over several lines the rest is kept, but a comma ends the value.
  lemma CommaEndsValue(safe: string -> bool)
    requires safe("x, y")
    ensures var lines, e := ["m: {", "  a: 1", "}"], Edit("m.a", "x, y");
      var leaves := map["m.a" := Leaf(true, 0, 2, 6, true, 2, 5, 2, 6)];
      && Fits(lines, leaves, safe, e) && Placed(lines, leaves["m.a"]) && Bare(leaves["m.a"])
      && EndsCleanly(lines, leaves["m.a"])
      && Made(lines, leaves, safe, e) == ["m: {", "  a: x, y", "}"]
      && Holds("x, y", "") && !ReadAt("  a: x, y", 5, "x, y", true) && ReadAt("  a: x, y", 5, "x", true)
  {
    var line, next := "  a: 1", "  a: x, y";
    NoHash(line, 5);
    LineEnds(line, true);
    Word(line, 5, 6, true);
    assert line[..5] == "  a: " && line[|line|..] == "";
    assert Respliced(line, 5, "x, y") == "  a: " + "x, y" + "" == next;
    NoBlanks(next, 6);
    assert Stops(next, 6, true) && TextEnds(next, 6, true);
    Word(next, 5, 6, true);
    assert next[5..6] == "x";
  }

  // An empty value stands right after its colon: what is written there joins the key.
  lemma EmptyValueJoins(safe: string -> bool)
    requires safe("5")
    ensures var lines, e := ["a: # note"], Edit("a", "5");
      var leaves := map["a" := Leaf(true, 0, 1, 3, false, 1, 2, 1, 2)];
      && Fits(lines, leaves, safe, e) && Placed(lines, leaves["a"]) && Bare(leaves["a"])
      && EndsCleanly(lines, leaves["a"])
      && Made(lines, leaves, safe, e) == ["a:5 # note"]
      && PlainText("5", false) && !ReadAt("a:5 # note", 2, "5", false)
  {
    var line := "a: # note";
    assert AllBlank(line, 2, 3) && line[3] == '#';
    assert CommentAt(line, 2) && ValueEnd(line, 2) == 2;
    assert line[..2] == "a:" && line[2..] == " # note";
    assert Respliced(line, 2, "5") == "a:" + "5" + " # note" == "a:5 # note";
    LineEnds("5", false);
    Word("5", 0, 1, false);
  }

  // ----- columns -----

  // How many bytes a character takes in UTF-8.
  function Width(c: char): (w: nat)
    ensures 1 <= w <= 4
  {
    if c as int < 0x80 then 1 else if c as int < 0x800 then 2 else if c as int < 0x1_0000 then 3 else 4
  }

  // One character for each byte.
  function Utf8Char(c: char): (r: string)
    ensures |r| == Width(c)
  {
    var n := c as int;
    if n < 0x80 then [c]
    else if n < 0x800 then [(0xC0 + n / 0x40) as char, Tail(n)]
    else if n < 0x1_0000 then [(0xE0 + n / 0x1000) as char, Tail(n / 0x40), Tail(n)]
    else [(0xF0 + n / 0x4_0000) as char, Tail(n / 0x1000), Tail(n / 0x40), Tail(n)]
  }

  function Tail(n: nat): char {
    (0x80 + n % 0x40) as char
  }

  function Utf8(s: string): string {
    if s == "" then "" else Utf8(s[..|s| - 1]) + Utf8Char(s[|s| - 1])
  }

  lemma {:induction false} Utf8Length(s: string)
    ensures |s| <= |Utf8(s)|
    ensures |s| == |Utf8(s)| <==> forall c | c in s :: c as int < 0x80
  {
    if s != "" {
      var n := |s| - 1;
      Utf8Length(s[..n]);
      assert s == s[..n] + [s[n]] && s[n] in s;
      forall c | c in s[..n] ensures c in s {
      }
      assert forall c | c in s :: c in s[..n] || c == s[n];
    }
  }

  // The lines are bytes, and the parser's column counts characters: for a node that starts
  // with its text, the splice starts at the text, and so can keep the rest, if and only if
  // all characters before it are ASCII.
  lemma ColumnIsOffset(lines: seq<string>, leaves: map<string, Leaf>, safe: string -> bool, e: Edit, before: string)
    requires Fits(lines, leaves, safe, e) && Placed(lines, leaves[e.key])
    requires leaves[e.key].first == leaves[e.key].line && leaves[e.key].column == |before| + 1
    requires leaves[e.key].text == |Utf8(before)| && Utf8(before) <= lines[leaves[e.key].line - 1]
    ensures Made(lines, leaves, safe, e) == Replaced(lines, leaves[e.key], e.value) <==>
      (forall c | c in before :: c as int < 0x80) && EndsCleanly(lines, leaves[e.key])
  {
    hide Fits, Placed, EndsCleanly, Made, Replaced;
    KeepsTheRestExactly(lines, leaves, safe, e);
    Utf8Length(before);
  }

  lemma LastOne(line: string)
    requires |line| == 5 && line[3] == ' ' && line[4] == '1' && '#' !in line
    ensures PlainAt(line, 4, 5, false) && Uncommented(line, 3, 5) && ValueEnd(line, 3) == 5
  {
    NoHash(line, 3);
    LineEnds(line, false);
    Word(line, 4, 5, false);
  }

  // With a longer character in the key, the value takes the blank before it.
  lemma WideKey(safe: string -> bool)
    requires safe("5")
    ensures var before, e := "\U{00E9}: ", Edit("k", "5");
      var lines, leaves := [Utf8(before) + "1"], map["k" := Leaf(true, 0, 1, 4, false, 1, 4, 1, 5)];
      && Fits(lines, leaves, safe, e) && Placed(lines, leaves["k"]) && EndsCleanly(lines, leaves["k"])
      && Made(lines, leaves, safe, e) == [Utf8("\U{00E9}:") + "5"]
      && Replaced(lines, leaves["k"], "5") == [Utf8(before) + "5"]
  {
    var before, bare := "\U{00E9}: ", "\U{00E9}:";
    assert before[..2] == bare && bare[..1] == "\U{00E9}" && "\U{00E9}"[..0] == "";
    var wide := Utf8Char('\U{00E9}');
    assert Utf8("\U{00E9}") == wide;
    assert Utf8(bare) == wide + ":" && Utf8(before) == wide + ": ";
    var line := Utf8(before) + "1";
    assert line == [wide[0], wide[1], ':', ' ', '1'];
    LastOne(line);
    assert line[..3] == Utf8(bare) && line[..4] == Utf8(before) && line[|line|..] == "";
    assert Respliced(line, 3, "5") == Utf8(bare) + "5" + "" == Utf8(bare) + "5";
    assert Utf8(before) + "5" + "" == Utf8(before) + "5";
  }
}
