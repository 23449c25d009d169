/** The escape scheme of flat keys (domain/flatkey.go).

  Bytes are chars: every special one is ASCII.  Each walker of the source is a
  loop, proved against a function that reads the key from the left. */
module FlatKey {
  import opened Prelude
  import opened Text

  predicate Special(c: char) {
    c == '.' || c == '[' || c == '\\'
  }

  // ----- one segment -----

  function Escape(name: string): string {
    if name == "" then ""
    else if Special(name[0]) then ['\\', name[0]] + Escape(name[1..])
    else [name[0]] + Escape(name[1..])
  }

  // A dot, a bracket that opens and a backslash get a backslash, and nothing else does.
  lemma EscapeOne(name: string, k: nat)
    requires k < |name|
    ensures name[k] in ".[\\" ==> Escape(name[k..]) == ['\\', name[k]] + Escape(name[k + 1..])
    ensures name[k] !in ".[\\" ==> Escape(name[k..]) == [name[k]] + Escape(name[k + 1..])
  {
    assert name[k..][1..] == name[k + 1..];
  }

  function Unescape(seg: string): Result<string> {
    if seg == "" then Ok("")
    else if seg[0] != '\\' then Then(seg[0], Unescape(seg[1..]))
    else if |seg| > 1 && Special(seg[1]) then Then(seg[1], Unescape(seg[2..]))
    else Err
  }

  function Then(c: char, r: Result<string>): Result<string> {
    match r case Ok(s) => Ok([c] + s) case Err => Err
  }

  lemma {:induction false} UnescapeEscape(name: string)
    ensures Unescape(Escape(name)) == Ok(name)
  {
    if name != "" {
      UnescapeEscape(name[1..]);
      var e := Escape(name[1..]);
      assert [name[0]] + name[1..] == name;
      if Special(name[0]) {
        assert (['\\', name[0]] + e)[2..] == e;
      } else {
        assert ([name[0]] + e)[1..] == e;
      }
    }
  }

  // After any escaped text, a backslash at the end or before another character is an error.
  lemma {:induction false} UnescapeErrs(name: string, rest: string)
    requires rest == "\\" || (|rest| > 1 && rest[0] == '\\' && rest[1] !in ".[\\")
    ensures Unescape(Escape(name) + rest) == Err
  {
    var all := Escape(name) + rest;
    if name == "" {
      assert all == rest;
    } else {
      UnescapeErrs(name[1..], rest);
      var e := Escape(name[1..]) + rest;
      if Special(name[0]) {
        assert all[2..] == e;
      } else {
        assert all[1..] == e;
      }
    }
  }

  // EscapeSegment
  method EscapeSegment(name: string) returns (b: string)
    ensures b == Escape(name)
  {
    var special := false;
    for i := 0 to |name|
      invariant special <==> exists j :: 0 <= j < i && Special(name[j])
    {
      special := special || Special(name[i]);
    }
    if !special {
      EscapePlain(name);
      return name;
    }
    b := "";
    for i := 0 to |name|
      invariant b + Escape(name[i..]) == Escape(name)
    {
      hide Escape;
      var c := name[i];
      EscapeStep(name, i, b);
      if c == '.' || c == '[' || c == '\\' {
        b := b + ['\\'];
      }
      b := b + [c];
    }
  }

  lemma EscapeStep(name: string, i: nat, b: string)
    requires i < |name|
    ensures b + Escape(name[i..]) == (if Special(name[i]) then b + ['\\'] else b) + [name[i]] + Escape(name[i + 1..])
  {
    var e := Escape(name[i + 1..]);
    assert name[i..][1..] == name[i + 1..];
    if Special(name[i]) {
      assert b + (['\\', name[i]] + e) == b + ['\\'] + [name[i]] + e;
    }
  }

  lemma {:induction false} EscapePlain(name: string)
    requires forall j | 0 <= j < |name| :: !Special(name[j])
    ensures Escape(name) == name
  {
    if name != "" {
      EscapePlain(name[1..]);
    }
  }

  // UnescapeSegment
  method UnescapeSegment(seg: string) returns (r: Result<string>)
    ensures r == Unescape(seg)
  {
    var b := "";
    var i := 0;
    if '\\' !in seg {
      UnescapePlain(seg);
      return Ok(seg);
    }
    PrefixedNothing(Unescape(seg));
    assert seg[0..] == seg;
    while i < |seg|
      invariant 0 <= i <= |seg|
      invariant Unescape(seg) == Prefixed(b, Unescape(seg[i..]))
    {
      var c := seg[i];
      assert seg[i..][1..] == seg[i + 1..];
      if c != '\\' {
        PrefixedThen(b, c, Unescape(seg[i + 1..]));
        b := b + [c];
      } else {
        if i + 1 >= |seg| {
          return Err;
        }
        var next := seg[i + 1];
        if next != '.' && next != '[' && next != '\\' {
          return Err;
        }
        assert seg[i..][2..] == seg[i + 2..];
        PrefixedThen(b, next, Unescape(seg[i + 2..]));
        b := b + [next];
        i := i + 1;
      }
      i := i + 1;
    }
    assert b + "" == b;
    r := Ok(b);
  }

  lemma PrefixedThen(b: string, c: char, r: Result<string>)
    ensures Prefixed(b, Then(c, r)) == Prefixed(b + [c], r)
  {
    if r.Ok? {
      assert b + ([c] + r.value) == (b + [c]) + r.value;
    }
  }

  lemma PrefixedNothing(r: Result<string>)
    ensures Prefixed("", r) == r
  {
    if r.Ok? {
      assert "" + r.value == r.value;
    }
  }

  function Prefixed(b: string, r: Result<string>): Result<string> {
    match r case Ok(s) => Ok(b + s) case Err => Err
  }

  lemma {:induction false} UnescapePlain(seg: string)
    requires '\\' !in seg
    ensures Unescape(seg) == Ok(seg)
  {
    if seg != "" {
      UnescapePlain(seg[1..]);
      assert [seg[0]] + seg[1..] == seg;
    }
  }

  // ----- walking past escapes -----

  // How many bytes unescapedBytes consumes at the front of s.
  function Step(s: string): nat
    requires s != ""
    ensures 1 <= Step(s) <= |s|
  {
    if s[0] == '\\' && |s| > 1 then 2 else 1
  }

  // unescapedBytes yields position k of s.
  predicate Yields(s: string, k: int)
    decreases |s|
  {
    s != "" && (if k < Step(s) then k == 0 && Step(s) == 1 else Yields(s[Step(s)..], k - Step(s)))
  }

  // No backslash is left dangling, so what follows s is read from its start.
  predicate Closed(s: string)
    decreases |s|
  {
    s == "" || (!(|s| == 1 && s[0] == '\\') && Closed(s[Step(s)..]))
  }

  // No byte that is yielded is special.
  ghost predicate Bare(s: string) {
    forall k {:trigger Yields(s, k)} :: Yields(s, k) ==> 0 <= k < |s| && !Special(s[k])
  }

  lemma {:induction false} EscapeClosed(name: string)
    ensures Closed(Escape(name)) && Bare(Escape(name))
    ensures Escape(name) == "" <==> name == ""
  {
    if name != "" {
      EscapeClosed(name[1..]);
      var e, s := Escape(name[1..]), Escape(name);
      var n := |s| - |e|;
      assert n == Step(s) && s[n..] == e;
      forall k | Yields(s, k) ensures 0 <= k < |s| && !Special(s[k]) {
        if k >= n {
          assert Yields(e, k - n) && s[k] == e[k - n];
        }
      }
    }
  }

  // Scanning s + t is scanning s and then t.
  lemma {:induction false} YieldsConcat(s: string, t: string, k: int)
    requires Closed(s)
    ensures Yields(s + t, k) <==> if k < |s| then Yields(s, k) else Yields(t, k - |s|)
    decreases |s|
  {
    if s == "" {
      assert s + t == t;
      YieldsRange(t, k);
    } else {
      assert Step(s + t) == Step(s) && (s + t)[Step(s)..] == s[Step(s)..] + t;
      YieldsConcat(s[Step(s)..], t, k - Step(s));
    }
  }

  lemma {:induction false} YieldsRange(s: string, k: int)
    ensures Yields(s, k) ==> 0 <= k < |s|
    decreases |s|
  {
    if s != "" && k >= Step(s) {
      YieldsRange(s[Step(s)..], k - Step(s));
    }
  }

  lemma {:induction false} ClosedConcat(s: string, t: string)
    requires Closed(s) && Closed(t)
    ensures Closed(s + t)
    decreases |s|
  {
    if s == "" {
      assert s + t == t;
    } else {
      assert Step(s + t) == Step(s) && (s + t)[Step(s)..] == s[Step(s)..] + t;
      ClosedConcat(s[Step(s)..], t);
    }
  }

  // ----- SplitEncoded -----

  function Parts(s: string): (r: seq<string>)
    ensures r != []
    decreases |s|
  {
    if s == "" then [""]
    else if s[0] == '.' then [""] + Parts(s[1..])
    else Led(s[..Step(s)], Parts(s[Step(s)..]))
  }

  // The parts of two texts put end to end.
  function Glued(a: seq<string>, b: seq<string>): seq<string>
    requires a != [] && b != []
  {
    a[..|a| - 1] + Led(a[|a| - 1], b)
  }

  lemma {:induction false} PartsConcat(s: string, t: string)
    requires Closed(s)
    ensures Parts(s + t) == Glued(Parts(s), Parts(t))
    decreases |s|
  {
    if s == "" {
      assert s + t == t;
      assert Glued([""], Parts(t)) == Parts(t) by { assert "" + Parts(t)[0] == Parts(t)[0]; }
    } else {
      var n := Step(s);
      var rest := s[n..];
      assert Step(s + t) == n && (s + t)[n..] == rest + t && (s + t)[..n] == s[..n];
      PartsConcat(rest, t);
      var a, b := Parts(rest), Parts(t);
      if s[0] == '.' {
        assert Glued([""] + a, b) == [""] + Glued(a, b);
      } else {
        LedGlued(s[..n], a, b);
      }
    }
  }

  lemma LedGlued(x: string, a: seq<string>, b: seq<string>)
    requires a != [] && b != []
    ensures Led(x, Glued(a, b)) == Glued(Led(x, a), b)
  {
    if |a| == 1 {
      assert x + (a[0] + b[0]) == (x + a[0]) + b[0];
    }
  }

  // A text without a boundary dot is one part.
  lemma {:induction false} PartsOfOne(s: string)
    requires forall k :: Yields(s, k) ==> 0 <= k < |s| && s[k] != '.'
    ensures Parts(s) == [s]
    decreases |s|
  {
    if s != "" {
      var n := Step(s);
      assert s[0] == '.' ==> Yields(s, 0);
      forall k | Yields(s[n..], k) ensures 0 <= k < |s[n..]| && s[n..][k] != '.' {
        YieldsRange(s[n..], k);
        assert Yields(s, k + n);
      }
      PartsOfOne(s[n..]);
      assert s[..n] + s[n..] == s;
    }
  }

  // SplitEncoded
  method SplitEncoded(s: string) returns (out: seq<string>)
    ensures out == if s == "" then [] else Parts(s)
  {
    hide Parts, Led;
    out := [];
    if s == "" {
      return;
    }
    var start, i := 0, 0;
    LedNothing(Parts(s));
    assert s[0..] == s && s[0..0] == "";
    while i < |s|
      invariant 0 <= start <= i <= |s|
      invariant Parts(s) == out + Led(s[start..i], Parts(s[i..]))
    {
      var c := s[i];
      SplitStep(s, start, i);
      if c == '\\' && i + 1 < |s| {
        i := i + 2;
      } else {
        if c == '.' {
          out := out + [s[start..i]];
          start := i + 1;
        }
        i := i + 1;
      }
    }
    SplitEnd(s, start);
    out := out + [s[start..]];
  }

  // One turn of the loop: a boundary dot ends the open part.
  lemma SplitStep(s: string, start: nat, i: nat)
    requires start <= i < |s|
    ensures var n := Step(s[i..]);
      Led(s[start..i], Parts(s[i..])) ==
      if s[i] == '.' then [s[start..i]] + Led(s[i + 1..i + 1], Parts(s[i + 1..]))
      else Led(s[start..i + n], Parts(s[i + n..]))
  {
    hide Parts, Led;
    var rest, n := s[i..], Step(s[i..]);
    PartsStep(rest);
    assert rest[n..] == s[i + n..] && s[start..i + n] == s[start..i] + rest[..n];
    if s[i] == '.' {
      LedNothing(Parts(rest[1..]));
      LedDot(s[start..i], Parts(rest[1..]));
      assert s[i + 1..i + 1] == "";
    } else {
      LedTwice(s[start..i], rest[..n], Parts(rest[n..]));
    }
  }

  lemma PartsStep(s: string)
    requires s != ""
    ensures Parts(s) == if s[0] == '.' then [""] + Parts(s[1..]) else Led(s[..Step(s)], Parts(s[Step(s)..]))
  {
  }

  lemma SplitEnd(s: string, start: nat)
    requires start <= |s|
    ensures Led(s[start..|s|], Parts(s[|s|..])) == [s[start..]]
  {
    assert s[|s|..] == "" && s[start..|s|] + "" == s[start..];
  }

  lemma LedNothing(parts: seq<string>)
    requires parts != []
    ensures Led("", parts) == parts
  {
    assert "" + parts[0] == parts[0];
  }

  lemma LedDot(x: string, parts: seq<string>)
    ensures Led(x, [""] + parts) == [x] + parts
  {
    assert x + "" == x;
  }

  lemma LedTwice(x: string, y: string, parts: seq<string>)
    requires parts != []
    ensures Led(x, Led(y, parts)) == Led(x + y, parts)
  {
    assert x + (y + parts[0]) == (x + y) + parts[0];
  }

  // ----- IndexUnescaped -----

  // The first position of b that is yielded, or -1.
  function Find(s: string, b: char): (r: int)
    ensures -1 <= r < |s|
    decreases |s|
  {
    if s == "" then -1
    else if Step(s) == 1 && s[0] == b then 0
    else
      var r := Find(s[Step(s)..], b);
      if r < 0 then -1 else r + Step(s)
  }

  lemma {:induction false} FindIsFirst(s: string, b: char)
    ensures var r := Find(s, b);
      && (r >= 0 ==> Yields(s, r) && s[r] == b)
      && (forall k :: Yields(s, k) && 0 <= k < |s| && (r < 0 || k < r) ==> s[k] != b)
    decreases |s|
  {
    if s != "" {
      var n := Step(s);
      FindIsFirst(s[n..], b);
      forall k | Yields(s, k) && 0 <= k < |s| && (Find(s, b) < 0 || k < Find(s, b)) ensures s[k] != b {
        if k >= n {
          assert Yields(s[n..], k - n);
        }
      }
    }
  }

  lemma {:induction false} FindConcat(s: string, t: string, b: char)
    requires Closed(s)
    ensures Find(s + t, b) ==
      if Find(s, b) >= 0 then Find(s, b) else if Find(t, b) >= 0 then |s| + Find(t, b) else -1
    decreases |s|
  {
    if s == "" {
      assert s + t == t;
    } else {
      assert Step(s + t) == Step(s) && (s + t)[Step(s)..] == s[Step(s)..] + t;
      FindConcat(s[Step(s)..], t, b);
    }
  }

  // IndexUnescaped
  method IndexUnescaped(s: string, b: char) returns (r: int)
    ensures r == Find(s, b)
  {
    var i := 0;
    while i < |s|
      invariant 0 <= i <= |s|
      invariant Find(s, b) == if Find(s[i..], b) < 0 then -1 else i + Find(s[i..], b)
    {
      var rest := s[i..];
      if s[i] == '\\' && i + 1 < |s| {
        assert rest[2..] == s[i + 2..];
        i := i + 2;
      } else {
        if s[i] == b {
          return i;
        }
        assert rest[1..] == s[i + 1..];
        i := i + 1;
      }
    }
    r := -1;
  }

  // ----- Depth -----

  // Depth
  method Depth(key: string) returns (count: nat)
    ensures count == if key == "" then 0 else |Parts(key)|
  {
    if key == "" {
      return 0;
    }
    count := 1;
    var i := 0;
    while i < |key|
      invariant 0 <= i <= |key|
      invariant |Parts(key)| + 1 == count + |Parts(key[i..])|
    {
      var rest := key[i..];
      if key[i] == '\\' && i + 1 < |key| {
        assert rest[2..] == key[i + 2..];
        i := i + 2;
      } else {
        assert rest[1..] == key[i + 1..];
        if key[i] == '.' {
          count := count + 1;
        }
        i := i + 1;
      }
    }
  }

  // ----- Parent -----

  predicate IsBoundary(c: char) {
    c == '.' || c == '['
  }

  function Boundary(s: string): (r: int)
    ensures -1 <= r < |s|
    decreases |s|
  {
    if s == "" then -1
    else
      var r := Boundary(s[Step(s)..]);
      if r >= 0 then r + Step(s) else if IsBoundary(s[0]) then 0 else -1
  }

  lemma {:induction false} BoundaryConcat(s: string, t: string)
    requires Closed(s)
    ensures Boundary(s + t) == if Boundary(t) >= 0 then |s| + Boundary(t) else Boundary(s)
    decreases |s|
  {
    if s == "" {
      assert s + t == t;
    } else {
      assert Step(s + t) == Step(s) && (s + t)[Step(s)..] == s[Step(s)..] + t;
      BoundaryConcat(s[Step(s)..], t);
    }
  }

  lemma {:induction false} NoBoundary(s: string)
    requires forall k {:trigger Yields(s, k)} :: Yields(s, k) ==> 0 <= k < |s| && !IsBoundary(s[k])
    ensures Boundary(s) == -1
    decreases |s|
  {
    if s != "" {
      var n := Step(s);
      forall k | Yields(s[n..], k) ensures 0 <= k < |s[n..]| && !IsBoundary(s[n..][k]) {
        YieldsRange(s[n..], k);
        assert Yields(s, k + n);
      }
      NoBoundary(s[n..]);
      assert IsBoundary(s[0]) ==> Yields(s, 0);
    }
  }

  // lastBoundary
  method LastBoundary(s: string) returns (last: int)
    ensures last == Boundary(s)
  {
    last := -1;
    var i := 0;
    while i < |s|
      invariant 0 <= i <= |s|
      invariant Boundary(s) == if Boundary(s[i..]) >= 0 then i + Boundary(s[i..]) else last
    {
      var rest := s[i..];
      if s[i] == '\\' && i + 1 < |s| {
        assert rest[2..] == s[i + 2..];
        i := i + 2;
      } else {
        assert rest[1..] == s[i + 1..];
        if s[i] == '.' || s[i] == '[' {
          last := i;
        }
        i := i + 1;
      }
    }
  }

  function ParentOf(key: string): (r: string)
    ensures key != "" ==> |r| < |key|
  {
    if Boundary(key) < 0 then "" else key[..Boundary(key)]
  }

  // Parent
  method Parent(key: string) returns (r: string)
    ensures r == ParentOf(key)
  {
    var idx := LastBoundary(key);
    if idx < 0 {
      return "";
    }
    return key[..idx];
  }
}
