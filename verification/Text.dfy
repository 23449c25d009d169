/** Lines and trimming, as Go's strings package has them. */
module Text {

  // ----- parts of a text -----

  // parts with x before the first.
  function Led(x: string, parts: seq<string>): (r: seq<string>)
    requires parts != []
    ensures |r| == |parts|
  {
    [x + parts[0]] + parts[1..]
  }

  // strings.Split(s, "\n")
  function Lines(s: string): (r: seq<string>)
    ensures r != []
  {
    if s == "" then [""]
    else if s[0] == '\n' then [""] + Lines(s[1..])
    else Led([s[0]], Lines(s[1..]))
  }

  // strings.Join(lines, "\n")
  function Join(lines: seq<string>): string {
    if lines == [] then ""
    else if |lines| == 1 then lines[0]
    else Join(lines[..|lines| - 1]) + "\n" + lines[|lines| - 1]
  }

  predicate OneLine(s: string) {
    '\n' !in s
  }

  predicate AllOneLine(lines: seq<string>) {
    forall l | l in lines :: OneLine(l)
  }

  lemma {:induction false} LinesAreLines(s: string)
    ensures AllOneLine(Lines(s))
  {
    if s != "" {
      LinesAreLines(s[1..]);
      var rest := Lines(s[1..]);
      forall l | l in Lines(s) ensures OneLine(l) {
        if s[0] != '\n' && l == [s[0]] + rest[0] {
          assert rest[0] in rest;
        } else if l != "" {
          assert l in rest;
        }
      }
    }
  }

  lemma {:induction false} LinesOfOne(s: string)
    requires OneLine(s)
    ensures Lines(s) == [s]
  {
    if s != "" {
      LinesOfOne(s[1..]);
      assert [s[0]] + s[1..] == s;
    }
  }

  // A text, a newline and a text.
  lemma {:induction false} LinesConcat(s: string, t: string)
    ensures Lines(s + "\n" + t) == Lines(s) + Lines(t)
  {
    hide Lines, Led;
    if s == "" {
      LinesStep("\n" + t);
      EmptyLines();
      assert s + "\n" + t == "\n" + t && ("\n" + t)[1..] == t;
    } else {
      LinesConcat(s[1..], t);
      assert (s + "\n" + t)[1..] == s[1..] + "\n" + t;
      LinesStep(s);
      LinesStep(s + "\n" + t);
      var a, b := Lines(s[1..]), Lines(t);
      if s[0] == '\n' {
        assert [""] + (a + b) == [""] + a + b;
      } else {
        LedConcat([s[0]], a, b);
      }
    }
  }

  lemma LinesStep(s: string)
    requires s != ""
    ensures Lines(s) == if s[0] == '\n' then [""] + Lines(s[1..]) else Led([s[0]], Lines(s[1..]))
  {
  }

  lemma EmptyLines()
    ensures Lines("") == [""]
  {
  }

  lemma LedConcat(x: string, a: seq<string>, b: seq<string>)
    requires a != []
    ensures Led(x, a + b) == Led(x, a) + b
  {
  }

  lemma {:induction false} LinesJoin(lines: seq<string>)
    requires lines != [] && AllOneLine(lines)
    ensures Lines(Join(lines)) == lines
  {
    var n := |lines| - 1;
    assert lines[n] in lines;
    LinesOfOne(lines[n]);
    if n > 0 {
      assert AllOneLine(lines[..n]);
      LinesJoin(lines[..n]);
      LinesConcat(Join(lines[..n]), lines[n]);
      assert lines == lines[..n] + [lines[n]];
    }
  }

  lemma {:induction false} JoinLines(s: string)
    ensures Join(Lines(s)) == s
  {
    if s != "" {
      var rest := Lines(s[1..]);
      JoinLines(s[1..]);
      if s[0] == '\n' {
        JoinCons("", rest);
        assert "" + "\n" + s[1..] == s;
      } else {
        JoinLed([s[0]], rest);
        assert [s[0]] + s[1..] == s;
      }
    }
  }

  lemma {:induction false} JoinCons(x: string, lines: seq<string>)
    requires lines != []
    ensures Join([x] + lines) == x + "\n" + Join(lines)
  {
    var n := |lines| - 1;
    assert ([x] + lines)[..n + 1] == [x] + lines[..n];
    if n > 0 {
      JoinCons(x, lines[..n]);
      assert x + "\n" + Join(lines[..n]) + "\n" + lines[n] == x + "\n" + (Join(lines[..n]) + "\n" + lines[n]);
    } else {
      assert Join([x]) == x;
    }
  }

  lemma {:induction false} JoinLed(x: string, lines: seq<string>)
    requires lines != []
    ensures Join(Led(x, lines)) == x + Join(lines)
  {
    var n := |lines| - 1;
    if n > 0 {
      assert Led(x, lines)[..n] == Led(x, lines[..n]);
      JoinLed(x, lines[..n]);
      assert x + Join(lines[..n]) + "\n" + lines[n] == x + (Join(lines[..n]) + "\n" + lines[n]);
    }
  }

  // ----- trimming -----

  // unicode.IsSpace
  predicate IsSpace(c: char) {
    || '\t' <= c <= '\r' || c == ' ' || c == '\U{85}' || c == '\U{A0}' || c == '\U{1680}'
    || '\U{2000}' <= c <= '\U{200A}' || c == '\U{2028}' || c == '\U{2029}' || c == '\U{202F}'
    || c == '\U{205F}' || c == '\U{3000}'
  }

  function TrimLeft(s: string): (r: string)
    ensures r != "" ==> !IsSpace(r[0])
    ensures |r| <= |s|
  {
    if s != "" && IsSpace(s[0]) then TrimLeft(s[1..]) else s
  }

  function TrimRight(s: string): (r: string)
    ensures r != "" ==> !IsSpace(r[|r| - 1])
    ensures r <= s
  {
    if s != "" && IsSpace(s[|s| - 1]) then TrimRight(s[..|s| - 1]) else s
  }

  // strings.TrimSpace
  function Trim(s: string): (r: string)
    ensures r != "" ==> !IsSpace(r[0]) && !IsSpace(r[|r| - 1])
  {
    TrimRight(TrimLeft(s))
  }

  predicate Trimmed(s: string) {
    s == "" || (!IsSpace(s[0]) && !IsSpace(s[|s| - 1]))
  }

  // strings.TrimLeft(s, "#")
  function TrimHashes(s: string): (r: string)
    ensures r != "" ==> r[0] != '#'
  {
    if s != "" && s[0] == '#' then TrimHashes(s[1..]) else s
  }

  predicate HashLed(s: string) {
    s != "" && s[0] == '#'
  }

  lemma TrimOfTrimmed(s: string)
    ensures Trim(s) == s <==> Trimmed(s)
  {
  }

  lemma {:induction false} TrimRightAfter(x: string, s: string)
    requires TrimRight(s) != ""
    ensures TrimRight(x + s) == x + TrimRight(s)
  {
    if IsSpace(s[|s| - 1]) {
      assert (x + s)[..|x + s| - 1] == x + s[..|s| - 1];
      TrimRightAfter(x, s[..|s| - 1]);
    }
  }

  lemma {:induction false} TrimRightBlank(x: string, s: string)
    requires TrimRight(s) == ""
    ensures TrimRight(x + s) == TrimRight(x)
  {
    if s == "" {
      assert x + s == x;
    } else {
      assert (x + s)[..|x + s| - 1] == x + s[..|s| - 1];
      TrimRightBlank(x, s[..|s| - 1]);
    }
  }

  lemma {:induction false} TrimSides(s: string)
    ensures TrimRight(TrimLeft(s)) == TrimLeft(TrimRight(s))
  {
    if s != "" && IsSpace(s[0]) {
      TrimSides(s[1..]);
      assert s == [s[0]] + s[1..];
      if TrimRight(s[1..]) == "" {
        TrimRightBlank([s[0]], s[1..]);
      } else {
        TrimRightAfter([s[0]], s[1..]);
        assert ([s[0]] + TrimRight(s[1..]))[1..] == TrimRight(s[1..]);
      }
    } else if s != "" && TrimRight(s) != "" {
      assert TrimRight(s)[0] == s[0];
    }
  }

  // ----- what cleaning does to one line -----

  // cleanSingleComment after TrimSpace
  function CleanLine(line: string): (r: string)
    ensures Trimmed(r)
  {
    Trim(TrimHashes(Trim(line)))
  }

  // Cleaning a line that was formatted gives back its trimmed text.
  lemma CleanFormatted(l: string)
    ensures CleanLine("# " + l) == Trim(l)
    ensures HashLed(Trim("# " + l))
  {
    hide TrimRight, TrimHashes;
    var r := TrimRight(l);
    assert TrimLeft("# " + l) == "# " + l;
    TrimSides(l);
    Bare();
    if r == "" {
      TrimRightBlank("# ", l);
    } else {
      TrimRightAfter("# ", l);
      HashSpace(r);
      TrimSides(r);
      TrimRightIdempotent(l);
    }
  }

  lemma Bare()
    ensures TrimRight("# ") == "#" && TrimHashes("#") == "" && TrimRight("") == "" && CleanLine("#") == ""
  {
    assert "# "[..1] == "#" && "#"[1..] == "";
  }

  lemma HashSpace(r: string)
    ensures TrimHashes("# " + r) == " " + r && TrimLeft(" " + r) == TrimLeft(r)
  {
    assert ("# " + r)[1..] == " " + r && (" " + r)[1..] == r;
  }

  lemma TrimRightIdempotent(s: string)
    ensures TrimRight(TrimRight(s)) == TrimRight(s)
  {
  }

  // Cleaning stays on the line.
  lemma CleanLineOneLine(line: string)
    requires OneLine(line)
    ensures OneLine(CleanLine(line)) && Trimmed(CleanLine(line))
  {
    TrimInside(line);
    HashesInside(Trim(line));
    TrimInside(TrimHashes(Trim(line)));
  }

  lemma {:induction false} TrimLeftInside(s: string)
    ensures forall c | c in TrimLeft(s) :: c in s
  {
    if s != "" && IsSpace(s[0]) {
      TrimLeftInside(s[1..]);
    }
  }

  lemma TrimInside(s: string)
    ensures forall c | c in Trim(s) :: c in s
  {
    TrimLeftInside(s);
  }

  lemma {:induction false} HashesInside(s: string)
    ensures forall c | c in TrimHashes(s) :: c in s
  {
    if s != "" && s[0] == '#' {
      HashesInside(s[1..]);
    }
  }
}
