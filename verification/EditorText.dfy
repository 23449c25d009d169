/** What an editor cell holds: comment lines above a value
  (ui/state/editor_state.go). */
module EditorText {
  import opened Text

  // ----- loadFormForEditor -----

  function Header(lines: seq<string>): (r: seq<string>)
    ensures |r| == |lines|
    ensures forall i | 0 <= i < |lines| :: r[i] == "# " + lines[i]
  {
    seq(|lines|, i requires 0 <= i < |lines| => "# " + lines[i])
  }

  function LoadForm(comment: string, value: string): string {
    if comment == "" then value else Join(Header(Lines(comment)) + [value])
  }

  method LoadFormForEditor(comment: string, value: string) returns (text: string)
    ensures text == LoadForm(comment, value)
  {
    hide Lines, Join;
    if comment == "" {
      return value;
    }
    var lines := Lines(comment);
    var b := "";
    JoinEnd([], "");
    assert Header(lines[..0]) + [""] == [""];
    for i := 0 to |lines|
      invariant b == Join(Header(lines[..i]) + [""])
    {
      b := b + "# ";
      b := b + lines[i];
      b := b + "\n";
      HeaderGrows(lines, i);
    }
    JoinEnd(Header(lines), value);
    assert lines[..|lines|] == lines;
    text := b + value;
  }

  // One line for each of the comment, a hash and a blank before its text, and then those
  // of the value.
  lemma LoadFormShows(comment: string, value: string)
    requires comment != ""
    ensures var was, now := Lines(comment), Lines(LoadForm(comment, value));
      && |now| == |was| + |Lines(value)| && now[|was|..] == Lines(value)
      && forall i | 0 <= i < |was| :: now[i] == "# " + was[i]
  {
    hide Lines;
    LoadFormLines(comment, value);
  }

  // Text after the last newline is the last line.
  lemma JoinEnd(lines: seq<string>, last: string)
    ensures Join(lines + [last]) == Join(lines + [""]) + last
    ensures Join([""]) == ""
  {
    assert (lines + [last])[..|lines|] == lines && (lines + [""])[..|lines|] == lines;
    if lines != [] {
      assert Join(lines) + "\n" + "" + last == Join(lines) + "\n" + last;
    } else {
      assert Join([last]) == last && Join([""]) + last == last;
    }
  }

  lemma HeaderGrows(lines: seq<string>, i: nat)
    requires i < |lines|
    ensures Join(Header(lines[..i + 1]) + [""]) == Join(Header(lines[..i]) + [""]) + "# " + lines[i] + "\n"
  {
    var h, l := Header(lines[..i]), "# " + lines[i];
    assert Header(lines[..i + 1]) == h + [l];
    assert (h + [l] + [""])[..i + 1] == h + [l];
    JoinEnd(h, l);
    assert Join(h + [""]) + ("# " + lines[i]) + "\n" + "" == Join(h + [""]) + "# " + lines[i] + "\n";
  }

  // ----- StripYAMLComments -----

  // A blank or commented line.
  predicate Skipped(line: string) {
    Trim(line) == "" || HashLed(Trim(line))
  }

  function AfterComments(lines: seq<string>): (r: seq<string>)
    ensures |r| <= |lines| && r == lines[|lines| - |r|..]
  {
    if lines == [] then [] else if Skipped(lines[0]) then AfterComments(lines[1..]) else lines
  }

  function Strip(text: string): string {
    if '#' !in text then text else Join(AfterComments(Lines(text)))
  }

  method StripYAMLComments(text: string) returns (r: string)
    ensures r == Strip(text)
  {
    hide Lines, Join, Skipped;
    if '#' !in text {
      return text;
    }
    var lines := Lines(text);
    var start := 0;
    while start < |lines|
      invariant start <= |lines|
      invariant AfterComments(lines) == AfterComments(lines[start..])
    {
      SkipStep(lines, start);
      var trimmed := Trim(lines[start]);
      if trimmed == "" || HashLed(trimmed) {
        start := start + 1;
        continue;
      }
      break;
    }
    assert AfterComments(lines) == lines[start..];
    if start == 0 {
      JoinLines(text);
      return text;
    }
    return Join(lines[start..]);
  }

  lemma SkipStep(lines: seq<string>, i: nat)
    requires i < |lines|
    ensures AfterComments(lines[i..]) == if Skipped(lines[i]) then AfterComments(lines[i + 1..]) else lines[i..]
    ensures Skipped(lines[i]) <==> Trim(lines[i]) == "" || HashLed(Trim(lines[i]))
  {
    assert lines[i..][1..] == lines[i + 1..];
  }

  // ----- ExtractLeadingComment -----

  function LeadingComments(lines: seq<string>): seq<string> {
    if lines == [] then []
    else if Trim(lines[0]) == "" then LeadingComments(lines[1..])
    else if !HashLed(Trim(lines[0])) then []
    else [CleanLine(lines[0])] + LeadingComments(lines[1..])
  }

  // Nothing is written for empty comments before the first other one.
  function FromContent(lines: seq<string>): seq<string> {
    if lines == [] then [] else if lines[0] == "" then FromContent(lines[1..]) else lines
  }

  function Extract(text: string): string {
    if '#' !in text then "" else Join(FromContent(LeadingComments(Lines(text))))
  }

  method ExtractLeadingComment(text: string) returns (b: string)
    ensures b == Extract(text)
  {
    hide Lines, Join, CleanLine, Trim, TrimHashes, LeadingComments, FromContent;
    b := "";
    if '#' !in text {
      return;
    }
    var lines := Lines(text);
    ghost var all, written := LeadingComments(lines), [];
    NothingYet(lines);
    assert [] + all == all;
    var i := 0;
    while i < |lines|
      invariant i <= |lines|
      invariant all == written + LeadingComments(lines[i..])
      invariant b == Join(FromContent(written))
    {
      LeadingStep(lines, i);
      var trimmed := Trim(lines[i]);
      if trimmed == "" {
        i := i + 1;
        continue;
      }
      if !HashLed(trimmed) {
        break;
      }
      var cleaned := Trim(TrimHashes(trimmed));
      JoinContent(written, cleaned);
      if |b| > 0 {
        b := b + "\n";
      }
      b := b + cleaned;
      assert written + ([cleaned] + LeadingComments(lines[i + 1..])) ==
        written + [cleaned] + LeadingComments(lines[i + 1..]);
      written := written + [cleaned];
      i := i + 1;
    }
    assert written + [] == written;
  }

  lemma NothingYet(lines: seq<string>)
    ensures lines[0..] == lines && LeadingComments(lines[|lines|..]) == []
    ensures FromContent([]) == [] && Join([]) == ""
  {
  }

  lemma LeadingStep(lines: seq<string>, i: nat)
    requires i < |lines|
    ensures LeadingComments(lines[i..]) ==
      if Trim(lines[i]) == "" then LeadingComments(lines[i + 1..])
      else if !HashLed(Trim(lines[i])) then []
      else [Trim(TrimHashes(Trim(lines[i])))] + LeadingComments(lines[i + 1..])
  {
    assert lines[i..][1..] == lines[i + 1..];
  }

  // The builder is empty exactly while only empty comments were seen.
  lemma JoinContent(written: seq<string>, line: string)
    ensures var b := Join(FromContent(written));
      Join(FromContent(written + [line])) == if |b| > 0 then b + "\n" + line else b + line
  {
    ContentSnoc(written, line);
    var c := FromContent(written);
    if c == [] {
      assert line != "" ==> Join([line]) == line;
      assert "" + line == line;
    } else {
      assert (c + [line])[..|c|] == c;
      JoinNonEmpty(c);
    }
  }

  lemma {:induction false} ContentSnoc(lines: seq<string>, line: string)
    ensures FromContent(lines + [line]) ==
      if FromContent(lines) == [] then (if line == "" then [] else [line]) else FromContent(lines) + [line]
    ensures FromContent(lines) != [] ==> FromContent(lines)[0] != ""
  {
    if lines != [] {
      assert (lines + [line])[1..] == lines[1..] + [line];
      ContentSnoc(lines[1..], line);
    } else {
      assert ([] + [line])[1..] == [];
    }
  }

  lemma {:induction false} JoinNonEmpty(lines: seq<string>)
    requires lines != [] && lines[0] != ""
    ensures |Join(lines)| > 0
  {
  }

  // ----- loading and reading back -----

  // Comments an editor can hold: trimmed lines, the first not empty.
  predicate Loadable(comment: string) {
    comment == "" || (Lines(comment)[0] != "" && forall l | l in Lines(comment) :: Trimmed(l))
  }

  // A value whose first line is neither blank nor commented.
  predicate PlainStart(value: string) {
    !Skipped(Lines(value)[0])
  }

  lemma LoadFormLines(comment: string, value: string)
    requires comment != ""
    ensures Lines(LoadForm(comment, value)) == Header(Lines(comment)) + Lines(value)
    ensures '#' in LoadForm(comment, value)
  {
    hide Lines;
    var lines := Lines(comment);
    var h := Header(lines);
    LinesAreLines(comment);
    forall l | l in h ensures OneLine(l) {
      var i :| 0 <= i < |h| && h[i] == l;
      assert lines[i] in lines;
    }
    assert (h + [value])[..|h|] == h;
    LinesConcat(Join(h), value);
    LinesJoin(h);
    JoinStart(h);
  }

  lemma {:induction false} JoinStart(lines: seq<string>)
    requires lines != [] && HashLed(lines[0])
    ensures HashLed(Join(lines))
  {
    if |lines| > 1 {
      JoinStart(lines[..|lines| - 1]);
    }
  }

  lemma {:induction false} HeaderSkipped(lines: seq<string>, more: seq<string>)
    ensures AfterComments(Header(lines) + more) == AfterComments(more)
  {
    var all := Header(lines) + more;
    if lines == [] {
      assert all == more;
    } else {
      CleanFormatted(lines[0]);
      assert all[1..] == Header(lines[1..]) + more;
      HeaderSkipped(lines[1..], more);
    }
  }

  lemma {:induction false} HeaderCollected(lines: seq<string>, more: seq<string>)
    ensures LeadingComments(Header(lines) + more) ==
      seq(|lines|, i requires 0 <= i < |lines| => Trim(lines[i])) + LeadingComments(more)
  {
    hide Trim, CleanLine;
    var all := Header(lines) + more;
    if lines == [] {
      assert all == more && [] + LeadingComments(more) == LeadingComments(more);
    } else {
      CleanFormatted(lines[0]);
      assert all[1..] == Header(lines[1..]) + more && all[0] == "# " + lines[0];
      HeaderCollected(lines[1..], more);
    }
  }

  // Dropping lines makes a text shorter.
  lemma {:induction false} JoinSuffix(lines: seq<string>, k: nat)
    requires 0 < k < |lines|
    ensures |Join(lines[k..])| < |Join(lines)|
  {
    assert lines == [lines[0]] + lines[1..];
    JoinCons(lines[0], lines[1..]);
    if k > 1 {
      JoinSuffix(lines[1..], k - 1);
      assert lines[1..][k - 1..] == lines[k..];
    }
  }

  lemma StripChanges(value: string)
    requires value != "" && !PlainStart(value)
    ensures Join(AfterComments(Lines(value))) != value
  {
    hide Lines, Join, Skipped;
    var lines := Lines(value);
    var r := AfterComments(lines);
    SkipStep(lines, 0);
    assert lines[0..] == lines;
    JoinLines(value);
    if r == [] {
      assert Join([]) == "" by { JoinNothing(); }
    } else {
      JoinSuffix(lines, |lines| - |r|);
    }
  }

  lemma JoinNothing()
    ensures Join([]) == ""
  {
  }

  lemma {:induction false} ExtractLines(lines: seq<string>)
    requires AllOneLine(lines)
    ensures forall l | l in FromContent(LeadingComments(lines)) :: Trimmed(l) && OneLine(l)
    ensures forall l | l in LeadingComments(lines) :: Trimmed(l) && OneLine(l)
  {
    hide CleanLine;
    if lines != [] {
      assert lines[0] in lines && AllOneLine(lines[1..]);
      ExtractLines(lines[1..]);
      CleanLineOneLine(lines[0]);
    }
    ContentMembers(LeadingComments(lines));
  }

  lemma {:induction false} ContentMembers(lines: seq<string>)
    ensures forall l | l in FromContent(lines) :: l in lines
  {
    if lines != [] && lines[0] == "" {
      ContentMembers(lines[1..]);
    }
  }

  // Whatever is extracted is a comment an editor can hold.
  lemma ExtractIsLoadable(text: string)
    ensures Loadable(Extract(text))
  {
    hide Lines, Join;
    if '#' in text {
      LinesAreLines(text);
      var all := LeadingComments(Lines(text));
      var lines := FromContent(all);
      ExtractLines(Lines(text));
      ContentSnoc(all, "");
      if lines != [] {
        LinesJoin(lines);
      } else {
        JoinNothing();
      }
    }
  }

  // The editor text gives back the comment and the value it was loaded from exactly
  // if the comment's lines are trimmed and the value could not be mistaken for more
  // comment.
  lemma LoadedTextReadsBack(comment: string, value: string)
    ensures var text := LoadForm(comment, value);
      (Strip(text) == value && Extract(text) == comment) <==>
      (Loadable(comment) && (value == "" || PlainStart(value) || (comment == "" && '#' !in value)))
  {
    hide Lines, Join, Skipped, Loadable;
    var text := LoadForm(comment, value);
    ExtractIsLoadable(text);
    if value != "" && !PlainStart(value) && !(comment == "" && '#' !in value) {
      StripChanges(value);
      if comment != "" {
        LoadFormLines(comment, value);
        HeaderSkipped(Lines(comment), Lines(value));
      }
    } else if Loadable(comment) {
      ReadsBack(comment, value);
    }
  }

  lemma ReadsBack(comment: string, value: string)
    requires Loadable(comment)
    requires value == "" || PlainStart(value) || (comment == "" && '#' !in value)
    ensures var text := LoadForm(comment, value); Strip(text) == value && Extract(text) == comment
  {
    hide Lines, Join, Skipped, AfterComments, LeadingComments, Trim, Trimmed, Header;
    var lines := Lines(value);
    ValueLines(value);
    if comment == "" {
      JoinLines(value);
      JoinNothing();
    } else {
      LoadFormLines(comment, value);
      HeaderSkipped(Lines(comment), lines);
      HeaderCollected(Lines(comment), lines);
      TrimmedLines(Lines(comment));
      JoinLines(comment);
      JoinLines(value);
    }
  }

  lemma TrimmedLines(lines: seq<string>)
    requires forall l | l in lines :: Trimmed(l)
    ensures seq(|lines|, i requires 0 <= i < |lines| => Trim(lines[i])) + [] == lines
  {
    hide Trim, Trimmed;
    forall i | 0 <= i < |lines| ensures Trim(lines[i]) == lines[i] {
      assert lines[i] in lines;
      TrimOfTrimmed(lines[i]);
    }
  }

  // Such a value stops both loops at once, or is blank.
  lemma ValueLines(value: string)
    ensures value == "" ==>
      AfterComments(Lines(value)) == [] && LeadingComments(Lines(value)) == [] && Join([]) == value
    ensures PlainStart(value) ==> AfterComments(Lines(value)) == Lines(value) && LeadingComments(Lines(value)) == []
  {
    if value == "" {
      assert Trim("") == "" && [""][1..] == [];
    }
  }
}
