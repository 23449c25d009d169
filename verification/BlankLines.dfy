/** Blank lines that the encoder dropped, put back (service/yaml_blank_lines.go). */
module BlankLines {
  import opened Prelude
  import opened Text

  // isBlankBytes
  predicate IsBlank(line: string) {
    forall c | c in line :: c == ' ' || c == '\t' || c == '\r'
  }

  datatype Run = Run(afterKey: string, count: nat)

  // Inclusive ranges of lines that block scalars own.
  predicate InRegion(line: int, regions: seq<(int, int)>) {
    exists r :: r in regions && r.0 <= line <= r.1
  }

  ghost predicate RegionsSorted(regions: seq<(int, int)>) {
    forall i, j | 0 <= i < j < |regions| :: regions[i].0 <= regions[j].0
  }

  // inSortedRegion
  method InSortedRegion(line: int, regions: seq<(int, int)>) returns (inside: bool)
    requires RegionsSorted(regions)
    ensures inside == InRegion(line, regions)
  {
    for i := 0 to |regions|
      invariant forall j | 0 <= j < i :: !(regions[j].0 <= line <= regions[j].1)
    {
      if regions[i].0 > line {
        return false;
      }
      if line <= regions[i].1 {
        assert regions[i] in regions;
        return true;
      }
    }
    inside := false;
  }

  // ----- runs of blank lines -----

  // A file as collectBlankRuns sees it.
  datatype File = File(lines: seq<string>, keys: map<nat, string>, regions: seq<(int, int)>) {
    predicate Inside(i: nat) {
      InRegion(i + 1, regions)
    }

    predicate Loose(i: nat)
      requires i < |lines|
    {
      !Inside(i) && IsBlank(lines[i])
    }

    predicate Solid(i: nat)
      requires i < |lines|
    {
      !Inside(i) && !IsBlank(lines[i])
    }

    // The key that the blank lines after the first n lines belong to.
    function Anchor(n: nat): Option<string>
      requires n <= |lines|
    {
      if n == 0 then None
      else if n in keys && (Inside(n - 1) || !IsBlank(lines[n - 1])) then Some(keys[n])
      else if Solid(n - 1) then None
      else Anchor(n - 1)
    }

    // How many blank lines end the first n.
    function LooseEnd(n: nat): (r: nat)
      requires n <= |lines|
      ensures r <= n
      ensures forall i | n - r <= i < n :: Loose(i)
      ensures r < n ==> !Loose(n - r - 1)
    {
      if n > 0 && Loose(n - 1) then LooseEnd(n - 1) + 1 else 0
    }

    // The run that line n closes.
    function Closed(n: nat): seq<Run>
      requires n < |lines|
    {
      if Solid(n) && LooseEnd(n) > 0 && Anchor(n).Some? && Anchor(n).value != ""
      then [Run(Anchor(n).value, LooseEnd(n))]
      else []
    }

    function Runs(n: nat): seq<Run>
      requires n <= |lines|
    {
      if n == 0 then [] else Runs(n - 1) + Closed(n - 1)
    }

    // collectBlankRuns
    method CollectBlankRuns() returns (runs: seq<Run>)
      requires RegionsSorted(regions)
      ensures runs == Runs(|lines|)
    {
      hide InRegion, IsBlank;
      runs := [];
      var lastKey, blanks, keyAdjacent := "", 0, false;
      for i := 0 to |lines|
        invariant runs == Runs(i) && blanks == LooseEnd(i)
        invariant Anchor(i) == if keyAdjacent then Some(lastKey) else None
      {
        var lineNo := i + 1;
        var inside := InSortedRegion(lineNo, regions);
        if inside {
          blanks := 0;
          if lineNo in keys {
            lastKey := keys[lineNo];
            keyAdjacent := true;
          }
        } else if IsBlank(lines[i]) {
          blanks := blanks + 1;
        } else {
          if blanks > 0 {
            if lastKey != "" && keyAdjacent {
              runs := runs + [Run(lastKey, blanks)];
            }
            blanks := 0;
          }
          if lineNo in keys {
            lastKey := keys[lineNo];
            keyAdjacent := true;
          } else {
            keyAdjacent := false;
          }
        }
      }
    }
  }

  // ----- putting them back -----

  function At(inserts: map<int, nat>, line: int): nat {
    if line in inserts then inserts[line] else 0
  }

  // Blank lines to add after each line of the encoded text.
  function Inserts(runs: seq<Run>, keyLine: map<string, int>): map<int, nat> {
    if runs == [] then map[]
    else
      var r, m := runs[|runs| - 1], Inserts(runs[..|runs| - 1], keyLine);
      if r.afterKey in keyLine then m[keyLine[r.afterKey] := At(m, keyLine[r.afterKey]) + r.count] else m
  }

  function Empties(n: nat): (r: seq<string>)
    ensures |r| == n && forall l | l in r :: l == ""
  {
    seq(n, _ => "")
  }

  // lines with blank ones after each.
  function Spread(lines: seq<string>, inserts: map<int, nat>): seq<string> {
    var n := |lines|;
    if n == 0 then [] else Spread(lines[..n - 1], inserts) + [lines[n - 1]] + Empties(At(inserts, n))
  }

  method CollectInserts(runs: seq<Run>, keyLine: map<string, int>) returns (inserts: map<int, nat>)
    ensures inserts == Inserts(runs, keyLine)
  {
    inserts := map[];
    for i := 0 to |runs|
      invariant inserts == Inserts(runs[..i], keyLine)
    {
      assert runs[..i + 1][..i] == runs[..i];
      var key := runs[i].afterKey;
      if key in keyLine {
        inserts := inserts[keyLine[key] := At(inserts, keyLine[key]) + runs[i].count];
      }
    }
    assert runs[..|runs|] == runs;
  }

  // restoreBlankLines, given the file, the lines of the keys in the encoded text, and
  // that text.
  method RestoreBlankLines(file: File, keyLine: map<string, int>, encoded: string) returns (out: string)
    requires RegionsSorted(file.regions)
    ensures Lines(out) == Spread(Lines(encoded), Inserts(file.Runs(|file.lines|), keyLine))
  {
    var runs := file.CollectBlankRuns();
    var encLines := Lines(encoded);
    var inserts := CollectInserts(runs, keyLine);
    if |runs| == 0 || |inserts| == 0 {
      SpreadNothing(encLines, inserts);
      return encoded;
    }
    out := "";
    ghost var done := [];
    for i := 0 to |encLines|
      invariant done == Spread(encLines[..i], inserts)
      invariant out == if i == 0 then "" else if i < |encLines| then Join(done + [""]) else Join(done)
    {
      assert encLines[..i + 1][..i] == encLines[..i];
      JoinExtend(done, encLines[i]);
      out := out + encLines[i];
      done := done + [encLines[i]];
      if i < |encLines| - 1 {
        JoinNewline(done);
        out := out + "\n";
      }
      out := WriteBlanks(out, At(inserts, i + 1), done, i < |encLines| - 1);
      done := done + Empties(At(inserts, i + 1));
    }
    assert encLines[..|encLines|] == encLines;
    LinesAreLines(encoded);
    SpreadOneLine(encLines, inserts);
    LinesJoin(done);
  }

  method WriteBlanks(text: string, count: nat, ghost done: seq<string>, ghost more: bool) returns (out: string)
    requires done != [] && text == if more then Join(done + [""]) else Join(done)
    ensures out == if more then Join(done + Empties(count) + [""]) else Join(done + Empties(count))
  {
    hide Join;
    out := text;
    assert done + Empties(0) == done;
    for i := 0 to count
      invariant out == if more then Join(done + Empties(i) + [""]) else Join(done + Empties(i))
    {
      assert done + Empties(i) + [""] == done + Empties(i + 1);
      JoinNewline(done + Empties(i));
      JoinNewline(done + Empties(i + 1));
      out := out + "\n";
    }
  }

  lemma JoinNewline(lines: seq<string>)
    requires lines != []
    ensures Join(lines) + "\n" == Join(lines + [""])
  {
    assert (lines + [""])[..|lines|] == lines;
  }

  lemma JoinExtend(lines: seq<string>, l: string)
    ensures (if lines == [] then "" else Join(lines + [""])) + l == Join(lines + [l])
  {
    assert (lines + [""])[..|lines|] == lines && (lines + [l])[..|lines|] == lines;
    if lines != [] {
      assert Join(lines) + "\n" + "" + l == Join(lines) + "\n" + l;
    }
  }

  lemma {:induction false} SpreadNothing(lines: seq<string>, inserts: map<int, nat>)
    requires |inserts| == 0
    ensures Spread(lines, inserts) == lines
  {
    if lines != [] {
      SpreadNothing(lines[..|lines| - 1], inserts);
      assert lines == lines[..|lines| - 1] + [lines[|lines| - 1]] + [];
    }
  }

  lemma {:induction false} SpreadOneLine(lines: seq<string>, inserts: map<int, nat>)
    requires AllOneLine(lines)
    ensures AllOneLine(Spread(lines, inserts)) && |Spread(lines, inserts)| >= |lines|
  {
    if lines != [] {
      var n := |lines| - 1;
      assert lines[n] in lines;
      forall l | l in lines[..n] ensures OneLine(l) {
        assert l in lines;
      }
      SpreadOneLine(lines[..n], inserts);
    }
  }

  // ----- only blank lines are added -----

  function Dense(lines: seq<string>): seq<string> {
    if lines == [] then []
    else Dense(lines[..|lines| - 1]) + if IsBlank(lines[|lines| - 1]) then [] else [lines[|lines| - 1]]
  }

  lemma {:induction false} DenseConcat(a: seq<string>, b: seq<string>)
    ensures Dense(a + b) == Dense(a) + Dense(b)
  {
    if b == [] {
      assert a + b == a;
    } else {
      var n := |b| - 1;
      assert (a + b)[..|a + b| - 1] == a + b[..n];
      DenseConcat(a, b[..n]);
      var last := if IsBlank(b[n]) then [] else [b[n]];
      assert Dense(a) + Dense(b[..n]) + last == Dense(a) + (Dense(b[..n]) + last);
    }
  }

  lemma {:induction false} DenseEmpties(n: nat)
    ensures Dense(Empties(n)) == []
  {
    if n > 0 {
      DenseEmpties(n - 1);
      assert Empties(n)[..n - 1] == Empties(n - 1);
    }
  }

  lemma {:induction false} OnlyBlanksAdded(lines: seq<string>, inserts: map<int, nat>)
    ensures Dense(Spread(lines, inserts)) == Dense(lines)
  {
    if lines != [] {
      var n := |lines| - 1;
      OnlyBlanksAdded(lines[..n], inserts);
      var rest := Spread(lines[..n], inserts);
      DenseConcat(rest + [lines[n]], Empties(At(inserts, n + 1)));
      DenseEmpties(At(inserts, n + 1));
      assert (rest + [lines[n]])[..|rest|] == rest;
    }
  }

  // ----- what comes back -----

  // Lines are numbered from 1 in the regions; a blank line in one of them stays.
  lemma LooseLines(f: File, n: nat)
    requires 1 <= n <= |f.lines|
    ensures f.Loose(n - 1) <==> IsBlank(f.lines[n - 1]) && forall r | r in f.regions :: n < r.0 || r.1 < n
  {
    hide IsBlank;
    assert f.Inside(n - 1) <==> InRegion(n, f.regions);
  }

  // The first n lines as they are encoded: without the blank ones that no block scalar
  // owns.
  ghost function Written(f: File, n: nat): seq<string>
    requires n <= |f.lines|
  {
    if n == 0 then [] else Written(f, n - 1) + if f.Loose(n - 1) then [] else [f.lines[n - 1]]
  }

  // keyLine has the keys of f where the encoder puts them when it drops these blank lines
  // and nothing else.
  ghost predicate Reencoded(f: File, keyLine: map<string, int>) {
    forall n {:trigger f.keys[n]} | 0 < n <= |f.lines| && n in f.keys && !f.Loose(n - 1) && f.keys[n] != "" ::
      f.keys[n] in keyLine && keyLine[f.keys[n]] == |Written(f, n)|
  }

  // A block scalar owns the blank lines that follow its text.
  ghost predicate BlocksOwnBlanks(f: File) {
    forall n {:trigger f.Inside(n)} | 0 <= n && n + 1 < |f.lines| && f.Inside(n) && n + 1 !in f.keys :: !f.Loose(n + 1)
  }

  // After some blank lines comes a text line, and no block scalar before it.
  ghost predicate TextFrom(f: File, n: nat) {
    exists j {:trigger f.Solid(j)} :: n <= j < |f.lines| && f.Solid(j) && forall i | n <= i < j :: f.Loose(i)
  }

  // Line i is no such blank line, or the text before it has a key and the lines after it
  // end in text.
  ghost predicate Survives(f: File, i: nat)
    requires i < |f.lines|
  {
    !f.Loose(i) || (f.Anchor(i).Some? && f.Anchor(i).value != "" && TextFrom(f, i + 1))
  }

  // The first n lines that survive, the blank ones as empty lines.
  ghost function Surviving(f: File, n: nat): seq<string>
    requires n <= |f.lines|
  {
    if n == 0 then []
    else
      Surviving(f, n - 1) +
      if Survives(f, n - 1) then [if f.Loose(n - 1) then "" else f.lines[n - 1]] else []
  }

  lemma TextFromStep(f: File, n: nat)
    requires n < |f.lines| && f.Loose(n)
    ensures TextFrom(f, n) <==> TextFrom(f, n + 1)
  {
    hide IsBlank, InRegion;
    if j :| n <= j < |f.lines| && f.Solid(j) && forall i | n <= i < j :: f.Loose(i) {
      assert j != n;
      assert TextFrom(f, n + 1);
    }
  }

  // A run of blank lines changes nothing but itself.
  lemma {:induction false} RunPasses(f: File, m: nat, n: nat)
    requires m <= n <= |f.lines| && forall i | m <= i < n :: f.Loose(i)
    ensures f.Anchor(n) == f.Anchor(m) && f.Runs(n) == f.Runs(m) && Written(f, n) == Written(f, m)
    ensures TextFrom(f, m) <==> TextFrom(f, n)
  {
    hide IsBlank, InRegion, TextFrom;
    if m < n {
      RunPasses(f, m, n - 1);
      TextFromStep(f, n - 1);
      assert f.Loose(n - 1);
      assert f.Closed(n - 1) == [];
    }
  }

  // It survives as a whole or not at all.
  lemma {:induction false} RunSurvives(f: File, m: nat, n: nat)
    requires m <= n <= |f.lines| && forall i | m <= i < n :: f.Loose(i)
    ensures Surviving(f, n) == Surviving(f, m) +
      if f.Anchor(m).Some? && f.Anchor(m).value != "" && TextFrom(f, m) then Empties(n - m) else []
  {
    hide IsBlank, TextFrom, File.Anchor, File.Runs, Empties, Surviving, Written;
    var before := Surviving(f, m);
    if m == n {
      assert Empties(0) == [];
      assert before + [] == before;
    } else {
      RunSurvives(f, m, n - 1);
      RunPasses(f, m, n - 1);
      RunPasses(f, m, n);
      BlankKept(f, n);
      OneMore(n - 1 - m);
      assert before + Empties(n - 1 - m) + [""] == before + (Empties(n - 1 - m) + [""]);
      assert before + [] + [] == before + [];
    }
  }

  lemma BlankKept(f: File, n: nat)
    requires 0 < n <= |f.lines| && f.Loose(n - 1)
    ensures Surviving(f, n) == Surviving(f, n - 1) +
      if f.Anchor(n - 1).Some? && f.Anchor(n - 1).value != "" && TextFrom(f, n) then [""] else []
  {
  }

  lemma OneMore(n: nat)
    ensures Empties(n) + [""] == Empties(n + 1)
  {
  }

  lemma {:induction false} SpreadAgrees(lines: seq<string>, a: map<int, nat>, b: map<int, nat>)
    requires forall k | 0 < k <= |lines| :: At(a, k) == At(b, k)
    ensures Spread(lines, a) == Spread(lines, b)
  {
    if lines != [] {
      SpreadAgrees(lines[..|lines| - 1], a, b);
    }
  }

  lemma SpreadAppend(lines: seq<string>, l: string, inserts: map<int, nat>)
    ensures Spread(lines + [l], inserts) == Spread(lines, inserts) + [l] + Empties(At(inserts, |lines| + 1))
  {
    assert (lines + [l])[..|lines|] == lines;
  }

  lemma SpreadGrow(lines: seq<string>, inserts: map<int, nat>, b: nat)
    requires lines != [] && |lines| !in inserts
    ensures Spread(lines, inserts[|lines| := b]) == Spread(lines, inserts) + Empties(b)
  {
    var n := |lines| - 1;
    SpreadAgrees(lines[..n], inserts, inserts[|lines| := b]);
    assert Spread(lines[..n], inserts) + [lines[n]] + Empties(0) == Spread(lines[..n], inserts) + [lines[n]];
  }

  // The blank lines that end the first n, and the line before them.
  lemma EndOfTexts(f: File, n: nat)
    requires BlocksOwnBlanks(f) && n <= |f.lines|
    ensures var m := n - f.LooseEnd(n);
      && (forall i | m <= i < n :: f.Loose(i))
      && (m > 0 ==> !f.Loose(m - 1)) && (m == 0 ==> f.Anchor(m) == None)
      && (0 < m < n ==> f.Anchor(m) == if m in f.keys then Some(f.keys[m]) else None)
  {
    var m := n - f.LooseEnd(n);
    if 0 < m < n {
      assert f.Loose(m);
      assert f.Inside(m - 1) || f.Solid(m - 1);
    }
  }

  lemma RunClosed(f: File, n: nat)
    requires n < |f.lines| && !f.Loose(n)
    ensures var b, anchor := f.LooseEnd(n), f.Anchor(n);
      f.Runs(n + 1) == f.Runs(n) +
        if f.Solid(n) && b > 0 && anchor.Some? && anchor.value != "" then [Run(anchor.value, b)] else []
  {
  }

  // A text line, after what was put back and what survived so far.
  lemma TextFollows(done: seq<string>, inserts: map<int, nat>, survived: seq<string>, l: string, b: nat)
    requires Spread(done, inserts) == survived && forall k | k in inserts :: 0 < k < |done|
    ensures Spread(done + [l], inserts) == survived + [l]
    ensures done != [] ==> Spread(done + [l], inserts[|done| := b]) == survived + Empties(b) + [l]
  {
    SpreadAppend(done, l, inserts);
    assert survived + [l] + Empties(0) == survived + [l];
    if done != [] {
      SpreadGrow(done, inserts, b);
      SpreadAppend(done, l, inserts[|done| := b]);
      assert survived + Empties(b) + [l] + Empties(0) == survived + Empties(b) + [l];
    }
  }

  // Up to a line that is encoded, what is put back is what survives.
  lemma {:induction false} RestoredUpTo(f: File, keyLine: map<string, int>, n: nat)
    requires BlocksOwnBlanks(f) && Reencoded(f, keyLine) && n <= |f.lines| && (n == 0 || !f.Loose(n - 1))
    ensures var inserts := Inserts(f.Runs(n), keyLine);
      && Spread(Written(f, n), inserts) == Surviving(f, n)
      && forall k | k in inserts :: 0 < k < |Written(f, n)|
  {
    hide IsBlank, InRegion, File.LooseEnd, File.Anchor, File.Runs, Spread, Empties, Inserts, Written, Surviving,
         TextFrom, BlocksOwnBlanks;
    if n == 0 {
      NothingYet(f, keyLine);
    } else {
      var b := f.LooseEnd(n - 1);
      var m := n - 1 - b;
      var l := f.lines[n - 1];
      EndOfTexts(f, n - 1);
      RestoredUpTo(f, keyLine, m);
      RunSurvives(f, m, n - 1);
      RunPasses(f, m, n - 1);
      RunClosed(f, n - 1);
      var runs, written := f.Runs(m), Written(f, m);
      TextKept(f, m, n);
      var survived, inserts := Surviving(f, m), Inserts(runs, keyLine);
      TextFollows(written, inserts, survived, l, b);
      var anchor := f.Anchor(m);
      NoBlanks(survived, runs);
      if b > 0 && anchor.Some? && anchor.value != "" {
        AnchorLine(f, keyLine, m);
        if f.Solid(n - 1) {
          InsertsAppend(runs, Run(anchor.value, b), keyLine);
          assert Inserts(f.Runs(n), keyLine) == inserts[|written| := b];
        }
      }
    }
  }

  lemma TextKept(f: File, m: nat, n: nat)
    requires m < n <= |f.lines| && !f.Loose(n - 1) && forall i | m <= i < n - 1 :: f.Loose(i)
    ensures Surviving(f, n) == Surviving(f, n - 1) + [f.lines[n - 1]]
    ensures Written(f, n) == Written(f, n - 1) + [f.lines[n - 1]]
    ensures TextFrom(f, m) <==> f.Solid(n - 1)
  {
    if f.Solid(n - 1) {
      assert TextFrom(f, m);
    }
    if j :| m <= j < |f.lines| && f.Solid(j) && forall i | m <= i < j :: f.Loose(i) {
      assert !f.Loose(j) && j <= n - 1;
    }
  }

  lemma InsertsAppend(runs: seq<Run>, run: Run, keyLine: map<string, int>)
    requires run.afterKey in keyLine
    ensures var m, line := Inserts(runs, keyLine), keyLine[run.afterKey];
      Inserts(runs + [run], keyLine) == m[line := At(m, line) + run.count]
  {
    assert (runs + [run])[..|runs|] == runs;
  }

  lemma NothingYet(f: File, keyLine: map<string, int>)
    ensures Inserts(f.Runs(0), keyLine) == map[] && Spread(Written(f, 0), map[]) == [] == Surviving(f, 0)
  {
  }

  lemma NoBlanks(survived: seq<string>, runs: seq<Run>)
    ensures survived + Empties(0) == survived && runs + [] == runs && survived + [] == survived
  {
  }

  lemma AnchorLine(f: File, keyLine: map<string, int>, m: nat)
    requires Reencoded(f, keyLine) && 0 < m <= |f.lines| && !f.Loose(m - 1)
    requires f.Anchor(m) == if m in f.keys then Some(f.keys[m]) else None
    requires f.Anchor(m).Some? && f.Anchor(m).value != ""
    ensures f.Anchor(m).value in keyLine && keyLine[f.Anchor(m).value] == |Written(f, m)| > 0
  {
    assert m in f.keys && f.Anchor(m).value == f.keys[m];
  }

  // A text ends in a newline, unless a block scalar has its last line.
  ghost function Ended(f: File, lines: seq<string>): seq<string> {
    if f.lines != [] && f.Inside(|f.lines| - 1) then lines else lines + [""]
  }

  // From a text without these blank lines, exactly the surviving lines come back.
  lemma SurvivorsRestored(f: File, keyLine: map<string, int>)
    requires BlocksOwnBlanks(f) && Reencoded(f, keyLine)
    ensures Spread(Ended(f, Written(f, |f.lines|)), Inserts(f.Runs(|f.lines|), keyLine)) ==
      Ended(f, Surviving(f, |f.lines|))
  {
    hide IsBlank, InRegion, File.LooseEnd, File.Anchor, File.Runs, Spread, Empties, Written, Inserts, Reencoded,
         Surviving, TextFrom, BlocksOwnBlanks;
    var n := |f.lines|;
    var m := n - f.LooseEnd(n);
    EndOfTexts(f, n);
    RestoredUpTo(f, keyLine, m);
    RunSurvives(f, m, n);
    RunPasses(f, m, n);
    NoTextAfter(f);
    NoBlanks(Surviving(f, m), f.Runs(m));
    if n > 0 && f.Inside(n - 1) {
      assert !f.Loose(n - 1);
      assert m == n;
    } else {
      TextFollows(Written(f, n), Inserts(f.Runs(n), keyLine), Surviving(f, n), "", 0);
    }
  }

  lemma NoTextAfter(f: File)
    ensures !TextFrom(f, |f.lines|)
  {
  }

  ghost predicate Kept(f: File, i: nat)
    requires i < |f.lines|
  {
    Survives(f, i) && (f.Loose(i) ==> f.lines[i] == "")
  }

  lemma {:induction false} SurvivingAll(f: File, n: nat)
    requires n <= |f.lines|
    ensures |Surviving(f, n)| <= n
    ensures Surviving(f, n) == f.lines[..n] <==> forall i | 0 <= i < n :: Kept(f, i)
  {
    if n > 0 {
      SurvivingAll(f, n - 1);
      assert f.lines[..n] == f.lines[..n - 1] + [f.lines[n - 1]];
      assert (forall i | 0 <= i < n :: Kept(f, i)) <==> (forall i | 0 <= i < n - 1 :: Kept(f, i)) && Kept(f, n - 1);
      if Survives(f, n - 1) {
        var shown := if f.Loose(n - 1) then "" else f.lines[n - 1];
        SameEnds(Surviving(f, n - 1), shown, f.lines[..n - 1], f.lines[n - 1]);
        assert Kept(f, n - 1) <==> shown == f.lines[n - 1];
      } else {
        assert |Surviving(f, n)| < n;
        assert !Kept(f, n - 1);
      }
    }
  }

  lemma SameEnds(a: seq<string>, x: string, b: seq<string>, y: string)
    ensures a + [x] == b + [y] <==> a == b && x == y
  {
    if a + [x] == b + [y] {
      assert a == (a + [x])[..|a|] && b == (b + [y])[..|b|];
      assert (a + [x])[|a|] == x && (b + [y])[|b|] == y;
    }
  }

  // The file comes back as it was exactly when it ends in one newline, unless a block
  // scalar has its end, and every other blank line is empty and survives.
  lemma FileRestored(f: File)
    requires f.lines != []
    ensures var last := |f.lines| - 1;
      Ended(f, Surviving(f, |f.lines|)) == f.lines <==>
        (f.Inside(last) || f.lines[last] == "") && forall i | 0 <= i < last :: Kept(f, i)
  {
    var n := |f.lines| - 1;
    SurvivingAll(f, n);
    assert f.lines == f.lines[..n] + [f.lines[n]];
    if f.Inside(n) {
      assert !f.Loose(n);
      SameEnds(Surviving(f, n), f.lines[n], f.lines[..n], f.lines[n]);
    } else if f.lines[n] == "" {
      assert f.Loose(n) && !TextFrom(f, n + 1);
      assert Surviving(f, n + 1) == Surviving(f, n) + [] == Surviving(f, n);
      assert (Surviving(f, n) + [""])[..|Surviving(f, n)|] == Surviving(f, n);
    }
  }
}
