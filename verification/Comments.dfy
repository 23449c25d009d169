/** Cleaning and formatting comment blocks (service/comment_parser.go). */
module Comments {
  import opened Text

  function Cleaned(lines: seq<string>): (r: seq<string>)
    ensures |r| == |lines|
  {
    seq(|lines|, i requires 0 <= i < |lines| => CleanLine(lines[i]))
  }

  function Blanks(n: nat): seq<string> {
    seq(n, _ => "")
  }

  // The lines that are kept: blank ones only between others, and not even there
  // when they are dropped.
  function Kept(lines: seq<string>, pending: nat, started: bool, drop: bool): seq<string> {
    if lines == [] then []
    else if lines[0] == "" then Kept(lines[1..], pending + 1, started, drop)
    else (if started && !drop then Blanks(pending) else []) + [lines[0]] + Kept(lines[1..], 0, true, drop)
  }

  function Clean(raw: string, drop: bool): string {
    Join(Kept(Cleaned(Lines(raw)), 0, false, drop))
  }

  // cleanCommentLines
  method CleanCommentLines(hc: string, dropBlankLines: bool) returns (b: string)
    ensures b == Clean(hc, dropBlankLines)
  {
    hide CleanLine, Lines, Join, Kept, Newlines, Blanks;
    var lines := Lines(hc);
    ghost var cleaned, written := Cleaned(lines), [];
    b := "";
    EmptyJoin();
    assert cleaned[0..] == cleaned;
    var pending, haveContent := 0, false;
    for i := 0 to |lines|
      invariant haveContent <==> written != []
      invariant b == Join(written)
      invariant Kept(cleaned, 0, false, dropBlankLines) ==
        written + Kept(cleaned[i..], pending, haveContent, dropBlankLines)
    {
      var line := CleanLine(lines[i]);
      KeptStep(cleaned, i, pending, haveContent, dropBlankLines);
      if line == "" {
        pending := pending + 1;
      } else {
        ghost var gap := if haveContent && !dropBlankLines then Blanks(pending) else [];
        NextLine(written, pending, dropBlankLines, line);
        if haveContent {
          b := b + "\n";
          if !dropBlankLines {
            b := b + Newlines(pending);
          }
        }
        pending, haveContent := 0, true;
        written := written + gap + [line];
        b := b + line;
      }
    }
    KeptNothing(cleaned, pending, haveContent, dropBlankLines);
    assert written + [] == written;
  }

  // One turn of the loop.
  lemma KeptStep(lines: seq<string>, i: nat, pending: nat, started: bool, drop: bool)
    requires i < |lines|
    ensures Kept(lines[i..], pending, started, drop) ==
      if lines[i] == "" then Kept(lines[i + 1..], pending + 1, started, drop)
      else (if started && !drop then Blanks(pending) else []) + [lines[i]] + Kept(lines[i + 1..], 0, true, drop)
  {
    assert lines[i..][0] == lines[i] && lines[i..][1..] == lines[i + 1..];
  }

  lemma KeptNothing(lines: seq<string>, pending: nat, started: bool, drop: bool)
    ensures Kept(lines[|lines|..], pending, started, drop) == []
  {
  }

  // What is written before the next line.
  function Spaced(b: string, pending: nat, started: bool, drop: bool): string {
    if !started then b else if drop then b + "\n" else b + "\n" + Newlines(pending)
  }

  lemma NextLine(written: seq<string>, pending: nat, drop: bool, line: string)
    ensures var gap := if written != [] && !drop then Blanks(pending) else [];
      Join(written + gap + [line]) == Spaced(Join(written), pending, written != [], drop) + line
  {
    var gap := if written != [] && !drop then Blanks(pending) else [];
    JoinMore(written, gap, line);
    if written == [] {
      assert Join(written) == "";
    } else if drop {
      assert Newlines(0) == "" && Join(written) + "\n" + "" == Join(written) + "\n";
    }
  }

  function Newlines(n: nat): string {
    seq(n, _ => '\n')
  }

  lemma EmptyJoin()
    ensures Join([]) == ""
  {
  }

  lemma {:induction false} JoinMore(written: seq<string>, gap: seq<string>, line: string)
    requires gap == Blanks(|gap|) && (written == [] ==> gap == [])
    ensures Join(written + gap + [line]) ==
      if written == [] then line else Join(written) + "\n" + Newlines(|gap|) + line
  {
    var all := written + gap;
    assert (all + [line])[..|all|] == all;
    if gap == [] {
      assert all == written;
      assert written != [] ==> Join(written) + "\n" + Newlines(0) + line == Join(written) + "\n" + line;
    } else {
      var n := |gap| - 1;
      assert gap[..n] == Blanks(n) && all == written + gap[..n] + [""];
      JoinMore(written, gap[..n], "");
      NewlinesMore(Join(written), n, line);
    }
  }

  lemma NewlinesMore(b: string, n: nat, line: string)
    ensures b + "\n" + Newlines(n) + "" + "\n" + line == b + "\n" + Newlines(n + 1) + line
  {
    assert Newlines(n) + "\n" == Newlines(n + 1);
    assert b + "\n" + Newlines(n) + "" + "\n" + line == b + "\n" + (Newlines(n) + "\n") + line;
  }

  // ----- formatting -----

  function FormatLine(line: string): string {
    if line == "" then "#" else "# " + line
  }

  function Formatted(lines: seq<string>): (r: seq<string>)
    ensures |r| == |lines|
  {
    seq(|lines|, i requires 0 <= i < |lines| => FormatLine(lines[i]))
  }

  // FormatCommentForYAML
  function Format(text: string): string {
    if text == "" then "" else Join(Formatted(Lines(text)))
  }

  // formatHeadComment
  method FormatHeadComment(comment: string) returns (b: string)
    ensures b == Join(Formatted(Lines(comment)))
  {
    hide Lines, Join, FormatLine;
    var lines := Lines(comment);
    b := "";
    EmptyJoin();
    for i := 0 to |lines|
      invariant b == Join(Formatted(lines[..i]))
    {
      assert Formatted(lines[..i + 1]) == Formatted(lines[..i]) + [FormatLine(lines[i])];
      JoinSnoc(Formatted(lines[..i]), FormatLine(lines[i]));
      if i > 0 {
        b := b + "\n";
      }
      LineText(lines[i], b);
      if lines[i] == "" {
        b := b + "#";
      } else {
        b := b + "# ";
        b := b + lines[i];
      }
    }
    assert lines[..|lines|] == lines;
  }

  lemma LineText(line: string, b: string)
    ensures b + FormatLine(line) == if line == "" then b + "#" else b + "# " + line
  {
    assert b + ("# " + line) == b + "# " + line;
  }

  lemma JoinSnoc(lines: seq<string>, line: string)
    ensures Join(lines + [line]) == if lines == [] then "" + line else Join(lines) + "\n" + line
  {
    assert (lines + [line])[..|lines|] == lines;
    assert "" + line == line;
  }

  // ----- clean text -----

  // No line has space around it and the first and last are not blank.
  predicate Tidy(lines: seq<string>) {
    && (forall l | l in lines :: Trimmed(l))
    && (lines != [] ==> lines[0] != "" && lines[|lines| - 1] != "")
  }

  predicate IsClean(text: string) {
    text == "" || Tidy(Lines(text))
  }

  lemma {:induction false} KeptIsTidy(lines: seq<string>, pending: nat, started: bool, drop: bool)
    requires forall l | l in lines :: Trimmed(l)
    ensures var r := Kept(lines, pending, started, drop);
      && (forall l | l in r :: Trimmed(l) && (l in lines || l == ""))
      && (r != [] ==> r[|r| - 1] != "" && (!started ==> r[0] != ""))
  {
    if lines != [] {
      assert lines[0] in lines && forall l | l in lines[1..] :: l in lines;
      KeptIsTidy(lines[1..], if lines[0] == "" then pending + 1 else 0, started || lines[0] != "", drop);
    }
  }

  // Cleaning keeps tidy lines; blanks met on the way come out before the next line.
  lemma {:induction false} KeptKeeps(lines: seq<string>, pending: nat, started: bool)
    requires lines != [] ==> lines[|lines| - 1] != ""
    requires !started ==> pending == 0 && (lines != [] ==> lines[0] != "")
    ensures lines != [] ==> Kept(lines, pending, started, false) == Blanks(pending) + lines
  {
    hide Blanks;
    if lines != [] {
      NoBlanks(lines[1..]);
      if lines[0] == "" {
        KeptKeeps(lines[1..], pending + 1, started);
        BlanksShift(pending, lines);
      } else {
        KeptKeeps(lines[1..], 0, true);
        BlanksCons(pending, lines);
      }
    }
  }

  lemma NoBlanks(lines: seq<string>)
    ensures Blanks(0) == [] && Blanks(0) + lines == lines
  {
  }

  lemma BlanksShift(n: nat, lines: seq<string>)
    requires lines != [] && lines[0] == ""
    ensures Blanks(n + 1) + lines[1..] == Blanks(n) + lines
  {
  }

  lemma BlanksCons(n: nat, lines: seq<string>)
    requires lines != []
    ensures Blanks(n) + [lines[0]] + lines[1..] == Blanks(n) + lines
    ensures [] + [lines[0]] + lines[1..] == lines && [] + [lines[0]] + [] == [lines[0]]
    ensures |lines| == 1 ==> Blanks(n) + [lines[0]] + [] == Blanks(n) + lines
  {
  }

  // What cleaning yields is clean.
  lemma CleanIsClean(raw: string, drop: bool)
    ensures IsClean(Clean(raw, drop))
  {
    hide CleanLine, Lines, Join, Trimmed;
    var lines := Cleaned(Lines(raw));
    forall l | l in lines ensures Trimmed(l) && OneLine(l) {
      var i :| 0 <= i < |lines| && lines[i] == l;
      LinesAreLines(raw);
      assert Lines(raw)[i] in Lines(raw);
      CleanLineOneLine(Lines(raw)[i]);
    }
    KeptIsTidy(lines, 0, false, drop);
    var r := Kept(lines, 0, false, drop);
    if r != [] {
      LinesJoin(r);
    } else {
      EmptyJoin();
    }
  }

  // Formatting and cleaning again gives the text back exactly if it was clean.
  lemma CleanFormat(text: string)
    ensures Clean(Format(text), false) == text <==> IsClean(text)
  {
    if Clean(Format(text), false) == text {
      CleanIsClean(Format(text), false);
    }
    if IsClean(text) {
      CleanFormatClean(text);
    }
  }

  lemma CleanFormatClean(text: string)
    requires IsClean(text)
    ensures Clean(Format(text), false) == text
  {
    hide CleanLine, Lines, Join, Trimmed, FormatLine;
    var lines := Lines(text);
    if text == "" {
      CleanNothing(false);
    } else {
      CleanedFormat(text);
      KeptKeeps(lines, 0, false);
      assert Blanks(0) + lines == lines;
      JoinLines(text);
    }
  }

  lemma CleanedFormat(text: string)
    requires IsClean(text) && text != ""
    ensures Cleaned(Lines(Format(text))) == Lines(text)
  {
    hide CleanLine, Lines, Join, Trimmed, FormatLine;
    var lines := Lines(text);
    LinesAreLines(text);
    FormattedLines(lines);
    forall i | 0 <= i < |lines| ensures CleanLine(Formatted(lines)[i]) == lines[i] {
      assert lines[i] in lines;
      CleanFormatLine(lines[i]);
    }
  }

  lemma CleanNothing(drop: bool)
    ensures Clean("", drop) == ""
  {
    assert Cleaned(Lines("")) == [""] by { assert CleanLine("") == ""; }
    assert [""][1..] == [];
    assert Kept([""], 0, false, drop) == [];
  }

  // Clean text without blank lines.
  predicate IsCompact(text: string) {
    IsClean(text) && (text == "" || forall l | l in Lines(text) :: l != "")
  }

  lemma {:induction false} KeptNonBlank(lines: seq<string>, pending: nat, started: bool)
    ensures forall l | l in Kept(lines, pending, started, true) :: l != ""
    ensures (forall l | l in lines :: l != "") ==> Kept(lines, pending, started, true) == lines
  {
    if lines != [] {
      assert lines[0] in lines && forall l | l in lines[1..] :: l in lines;
      KeptNonBlank(lines[1..], if lines[0] == "" then pending + 1 else 0, started || lines[0] != "");
      assert lines == [] + [lines[0]] + lines[1..];
    }
  }

  // When blank lines are dropped, exactly compact text comes back.
  lemma CleanFormatCompact(text: string)
    ensures Clean(Format(text), true) == text <==> IsCompact(text)
  {
    hide CleanLine, Lines, Join, Trimmed, FormatLine, Format, Cleaned;
    var lines := Cleaned(Lines(Format(text)));
    KeptNonBlank(lines, 0, false);
    if Clean(Format(text), true) == text {
      CleanIsClean(Format(text), true);
      if text != "" {
        KeptText(Format(text));
      }
    }
    if IsCompact(text) {
      if text == "" {
        CleanNothing(true);
        assert Format("") == "" by { FormatNothing(); }
      } else {
        CleanedFormat(text);
        JoinLines(text);
      }
    }
  }

  lemma FormatNothing()
    ensures Format("") == ""
  {
  }

  lemma KeptText(raw: string)
    requires Clean(raw, true) != ""
    ensures Lines(Clean(raw, true)) == Kept(Cleaned(Lines(raw)), 0, false, true)
  {
    hide CleanLine, Lines, Join, Trimmed;
    var lines := Cleaned(Lines(raw));
    forall l | l in lines ensures Trimmed(l) && OneLine(l) {
      var i :| 0 <= i < |lines| && lines[i] == l;
      LinesAreLines(raw);
      assert Lines(raw)[i] in Lines(raw);
      CleanLineOneLine(Lines(raw)[i]);
    }
    KeptIsTidy(lines, 0, false, true);
    var r := Kept(lines, 0, false, true);
    if r == [] {
      EmptyJoin();
    }
    LinesJoin(r);
  }

  lemma CleanFormatLine(line: string)
    requires Trimmed(line)
    ensures CleanLine(FormatLine(line)) == line
  {
    CleanFormatted(line);
    Bare();
    TrimOfTrimmed(line);
  }

  lemma FormattedLines(lines: seq<string>)
    requires lines != [] && AllOneLine(lines)
    ensures Lines(Join(Formatted(lines))) == Formatted(lines)
  {
    var f := Formatted(lines);
    forall l | l in f ensures OneLine(l) {
      var i :| 0 <= i < |f| && f[i] == l;
      assert lines[i] in lines;
    }
    LinesJoin(f);
  }

  // Line by line, a hash and a blank are put before the text, a hash alone for none.
  lemma FormatLines(text: string)
    requires text != ""
    ensures var was, now := Lines(text), Lines(Format(text));
      && |now| == |was|
      && forall i | 0 <= i < |was| :: now[i] == if was[i] == "" then "#" else "# " + was[i]
  {
    hide Lines, Join;
    LinesAreLines(text);
    FormattedLines(Lines(text));
  }

  // Cleaning, formatting and cleaning again is cleaning.
  lemma CleanFormatCleanAgain(raw: string)
    ensures Clean(Format(Clean(raw, false)), false) == Clean(raw, false)
  {
    CleanIsClean(raw, false);
    CleanFormatClean(Clean(raw, false));
  }

  // ----- the comment of a key and its value -----

  // bestHeadComment and bestLineComment of two candidates
  function BestHead(first: string, second: string): (r: string)
    ensures first != "" ==> r == Clean(first, true)
    ensures first == "" ==> r == if second == "" then "" else Clean(second, true)
  {
    if first != "" then Clean(first, true) else if second != "" then Clean(second, true) else ""
  }

  function BestLine(first: string, second: string): (r: string)
    ensures first != "" ==> r == Trim(TrimHashes(first))
    ensures first == "" ==> r == if second == "" then "" else Trim(TrimHashes(second))
  {
    if first != "" then Trim(TrimHashes(first)) else if second != "" then Trim(TrimHashes(second)) else ""
  }
}
