/** Flat keys as paths: the parser of service/yaml_tree.go, the printer that
  buildKey and the "[i]" suffixes make up, and the ancestor tests. */
module KeyPath {
  import opened Prelude
  import opened FlatKey

  datatype Segment = Name(name: string) | Index(index: nat)

  const MAX_KEY_INDEX := 10000

  // ----- numbers -----

  function DigitChar(d: nat): char
    requires d < 10
  {
    '0' + d as char
  }

  predicate IsDigit(c: char) {
    '0' <= c <= '9'
  }

  // strconv.Itoa
  function Itoa(n: nat): (r: string)
    ensures r != "" && forall c | c in r :: IsDigit(c)
  {
    if n < 10 then [DigitChar(n)] else Itoa(n / 10) + [DigitChar(n % 10)]
  }

  function Number(s: string): nat
    requires forall c | c in s :: IsDigit(c)
  {
    if s == "" then 0
    else
      var c := s[|s| - 1];
      assert c in s && IsDigit(c);
      Number(s[..|s| - 1]) * 10 + (c as int - '0' as int)
  }

  const INT_BOUND := 0x8000_0000_0000_0000

  // strconv.Atoi: an optional sign, at least one digit, and a 64-bit result.
  function Atoi(s: string): Option<int> {
    var digits := if s != "" && (s[0] == '+' || s[0] == '-') then s[1..] else s;
    if digits == "" || exists c :: c in digits && !IsDigit(c) then None
    else
      var m: int := Number(digits);
      var v := if s[0] == '-' then -m else m;
      if -INT_BOUND <= v < INT_BOUND then Some(v) else None
  }

  lemma {:induction false} NumberItoa(n: nat)
    ensures Number(Itoa(n)) == n
  {
    if n >= 10 {
      NumberItoa(n / 10);
      assert Itoa(n)[..|Itoa(n)| - 1] == Itoa(n / 10);
    } else {
      assert [DigitChar(n)][..0] == "";
    }
  }

  lemma AtoiItoa(n: nat)
    ensures Atoi(Itoa(n)) == if n < INT_BOUND then Some(n) else None
  {
    NumberItoa(n);
    assert Itoa(n)[0] in Itoa(n);
  }

  // Signs and leading zeros are read.
  lemma AtoiSigned(n: nat)
    requires n < INT_BOUND
    ensures Atoi("+" + Itoa(n)) == Some(n) && Atoi("0" + Itoa(n)) == Some(n)
    ensures Atoi("-" + Itoa(n)).Some? && Atoi("-" + Itoa(n)).value + n == 0
  {
    NumberItoa(n);
    assert ("+" + Itoa(n))[1..] == Itoa(n) && ("-" + Itoa(n))[1..] == Itoa(n);
    ZeroLed(Itoa(n));
  }

  lemma {:induction false} ZeroLed(s: string)
    requires forall c | c in s :: IsDigit(c)
    ensures (forall c | c in "0" + s :: IsDigit(c)) && Number("0" + s) == Number(s)
  {
    if s == "" {
      assert "0" + s == "0" && "0"[..0] == "";
    } else {
      var n := |s| - 1;
      ZeroLed(s[..n]);
      assert ("0" + s)[..n + 1] == "0" + s[..n];
    }
  }

  lemma ItoaInjective(m: nat, n: nat)
    requires Itoa(m) == Itoa(n)
    ensures m == n
  {
    NumberItoa(m);
    NumberItoa(n);
  }

  // strings.IndexByte
  function First(s: string, c: char): (r: int)
    ensures -1 <= r < |s|
    ensures r >= 0 ==> s[r] == c && c !in s[..r]
    ensures r < 0 ==> c !in s
  {
    if s == "" then -1
    else if s[0] == c then 0
    else
      var r := First(s[1..], c);
      if r < 0 then -1 else assert s[..r + 1] == [s[0]] + s[1..][..r]; r + 1
  }

  lemma FirstUnique(s: string, c: char, k: nat)
    requires k < |s| && s[k] == c && c !in s[..k]
    ensures First(s, c) == k
  {
    var r := First(s, c);
    assert s[k] in s;
    forall j | 0 <= j < k ensures s[j] != c {
      assert s[..k][j] == s[j];
    }
    forall j | 0 <= j < r ensures s[j] != c {
      assert s[..r][j] == s[j];
    }
  }

  // ----- parsing -----

  type Parsed = Result<seq<Segment>>

  function Joined(a: Parsed, b: Parsed): Parsed {
    if a.Ok? && b.Ok? then Ok(a.value + b.value) else Err
  }

  lemma JoinedAssociates(a: Parsed, b: Parsed, c: Parsed)
    ensures Joined(Joined(a, b), c) == Joined(a, Joined(b, c))
  {
    if a.Ok? && b.Ok? && c.Ok? {
      assert (a.value + b.value) + c.value == a.value + (b.value + c.value);
    }
  }

  lemma JoinedNothing(a: Parsed)
    ensures Joined(Ok([]), a) == a && Joined(a, Ok([])) == a
  {
    if a.Ok? {
      assert [] + a.value == a.value && a.value + [] == a.value;
    }
  }

  function NameOf(part: string): Parsed {
    match Unescape(part) case Ok(n) => Ok([Name(n)]) case Err => Err
  }

  // The index groups at the end of a part.
  function Groups(rest: string): Parsed {
    if rest == "" then Ok([])
    else if rest[0] != '[' then Err
    else
      var close := First(rest, ']');
      if close < 0 then Err
      else
        var n := Atoi(rest[1..close]);
        if n.None? || n.value < 0 || n.value > MAX_KEY_INDEX then Err
        else Joined(Ok([Index(n.value)]), Groups(rest[close + 1..]))
  }

  function ParsePart(part: string): Parsed {
    var b := Find(part, '[');
    if b < 0 then NameOf(part)
    else Joined(if b > 0 then NameOf(part[..b]) else Ok([]), Groups(part[b..]))
  }

  function ParseParts(parts: seq<string>): Parsed {
    if parts == [] then Ok([]) else Joined(ParsePart(parts[0]), ParseParts(parts[1..]))
  }

  function ParseKey(key: string): Parsed {
    if key == "" then Ok([]) else ParseParts(Parts(key))
  }

  // parseKeySegments; Err stands for any of its error returns.
  method ParseKeySegments(key: string) returns (r: Parsed)
    ensures r == ParseKey(key)
  {
    if key == "" {
      return Ok([]);
    }
    var parts := SplitEncoded(key);
    var segments := [];
    JoinedNothing(ParseParts(parts));
    for i := 0 to |parts|
      invariant Joined(Ok(segments), ParseParts(parts[i..])) == ParseParts(parts)
    {
      ghost var later := ParseParts(parts[i + 1..]);
      assert parts[i..][1..] == parts[i + 1..];
      JoinedAssociates(Ok(segments), ParsePart(parts[i]), later);
      var more := ParseOnePart(parts[i]);
      if more.Err? {
        return Err;
      }
      segments := segments + more.value;
    }
    JoinedNothing(Ok(segments));
    r := Ok(segments);
  }

  // The body of its loop.
  method ParseOnePart(part: string) returns (r: Parsed)
    ensures r == ParsePart(part)
  {
    var bracket := IndexUnescaped(part, '[');
    if bracket < 0 {
      var name := UnescapeSegment(part);
      return match name case Ok(n) => Ok([Name(n)]) case Err => Err;
    }
    var segments := [];
    if bracket > 0 {
      var name := UnescapeSegment(part[..bracket]);
      if name.Err? {
        return Err;
      }
      segments := [Name(name.value)];
    }
    var rest := part[bracket..];
    while rest != ""
      invariant Joined(Ok(segments), Groups(rest)) == ParsePart(part)
      decreases |rest|
    {
      if rest[0] != '[' {
        return Err;
      }
      var close := First(rest, ']');
      if close < 0 {
        return Err;
      }
      var n := Atoi(rest[1..close]);
      if n.None? || n.value < 0 || n.value > MAX_KEY_INDEX {
        return Err;
      }
      JoinedAssociates(Ok(segments), Ok([Index(n.value)]), Groups(rest[close + 1..]));
      segments := segments + [Index(n.value)];
      rest := rest[close + 1..];
    }
    JoinedNothing(Ok(segments));
    r := Ok(segments);
  }

  // ----- printing -----

  function Bracketed(i: nat): string {
    "[" + Itoa(i) + "]"
  }

  // What a child's key adds to that of its container.
  function Suffix(prefix: string, seg: Segment): string {
    match seg
    case Name(n) => if prefix == "" then Escape(n) else "." + Escape(n)
    case Index(i) => Bracketed(i)
  }

  // buildKey for a map key, "[i]" for an item.
  function Extended(prefix: string, seg: Segment): string {
    prefix + Suffix(prefix, seg)
  }

  // The key that flattening builds on its way down a path.
  function Encode(p: seq<Segment>): string {
    if p == [] then "" else Extended(Encode(p[..|p| - 1]), p[|p| - 1])
  }

  lemma EncodeSnoc(pre: seq<Segment>, seg: Segment)
    ensures Encode(pre + [seg]) == Extended(Encode(pre), seg)
  {
    assert (pre + [seg])[..|pre|] == pre;
  }

  lemma BracketedSuffix(prefix: string, i: nat)
    ensures prefix + "[" + Itoa(i) + "]" == Extended(prefix, Index(i))
  {
    assert prefix + "[" + Itoa(i) + "]" == prefix + ("[" + Itoa(i) + "]");
  }

  lemma EmptyKey()
    ensures Encode([]) == ""
  {
  }

  // ----- paths -----

  predicate Comparable(p: seq<Segment>, q: seq<Segment>) {
    p <= q || q <= p
  }

  // None leads to or through another.
  ghost predicate Apart(paths: seq<seq<Segment>>) {
    forall i, j | 0 <= i < j < |paths| :: !Comparable(paths[i], paths[j])
  }

  lemma ApartAppend(a: seq<seq<Segment>>, b: seq<seq<Segment>>)
    requires Apart(a) && Apart(b) && forall i, j | 0 <= i < |a| && 0 <= j < |b| :: !Comparable(a[i], b[j])
    ensures Apart(a + b)
  {
    hide Comparable;
  }

  // buildKey
  method BuildKey(prefix: string, segment: string) returns (key: string)
    ensures key == Extended(prefix, Name(segment))
  {
    var encoded := EscapeSegment(segment);
    if prefix == "" {
      assert "" + encoded == encoded;
      return encoded;
    }
    assert prefix + "." + encoded == prefix + ("." + encoded);
    return prefix + "." + encoded;
  }

  // A path that survives: it does not start with an empty name, and no empty name
  // stands directly before an index.
  predicate Representable(p: seq<Segment>) {
    p == [] || (p[0] != Name("") && forall i | 0 <= i < |p| - 1 && p[i] == Name("") :: p[i + 1].Name?)
  }

  predicate Within(p: seq<Segment>) {
    forall s | s in p && s.Index? :: s.index <= MAX_KEY_INDEX
  }

  // What is left of a path in its key: empty names at the front and before an
  // index leave no trace.
  function Norm(p: seq<Segment>): (r: seq<Segment>)
    ensures |r| <= |p|
  {
    if p == [] then []
    else
      var r, last := Norm(p[..|p| - 1]), p[|p| - 1];
      if last.Name? then if r == [] && last.name == "" then [] else r + [last]
      else if r != [] && r[|r| - 1] == Name("") then r[..|r| - 1] + [last]
      else r + [last]
  }

  // Whether last may follow init.
  predicate MayFollow(init: seq<Segment>, last: Segment) {
    if init == [] then last != Name("") else init[|init| - 1] == Name("") ==> last.Name?
  }

  lemma RepresentableSnoc(init: seq<Segment>, last: Segment)
    ensures Representable(init + [last]) <==> Representable(init) && MayFollow(init, last)
  {
    var p := init + [last];
    assert forall i | 0 <= i < |init| :: p[i] == init[i];
    assert p[0] == if init == [] then last else init[0];
    if Representable(p) {
      forall i | 0 <= i < |init| - 1 && init[i] == Name("") ensures init[i + 1].Name? {
        assert p[i] == Name("");
      }
      assert init != [] ==> p[|init| - 1] == init[|init| - 1] && p[|init| - 1 + 1] == last;
    }
    if Representable(init) && MayFollow(init, last) {
      forall i | 0 <= i < |p| - 1 && p[i] == Name("") ensures p[i + 1].Name? {
        if i < |init| - 1 {
          assert init[i] == Name("") && p[i + 1] == init[i + 1];
        }
      }
    }
  }

  lemma {:induction false} NormKeeps(p: seq<Segment>)
    ensures Norm(p) == p <==> Representable(p)
  {
    if p != [] {
      var init, last := p[..|p| - 1], p[|p| - 1];
      NormKeeps(init);
      RepresentableSnoc(init, last);
      assert p == init + [last];
      assert Norm(p) == p ==> Norm(p)[..|p| - 1] == init;
    }
  }

  // ----- the key of a path, seen by the walkers -----

  lemma BracketedPlain(i: nat)
    ensures var g := Bracketed(i);
      && Closed(g) && Parts(g) == [g] && Find(g, '[') == 0 && Boundary(g) == 0
      && First(g, ']') == |g| - 1 && g[1..|g| - 1] == Itoa(i) && g[|g|..] == ""
  {
    hide Itoa, Parts, Yields;
    var g, d := Bracketed(i), Itoa(i);
    assert g[1..] == d + "]" && g[1..|g| - 1] == d;
    BracketedBytes(i);
    DigitsPlain(d + "]");
    PartsOfOne(g) by {
      forall k | Yields(g, k) ensures 0 <= k < |g| && g[k] != '.' {
        YieldsRange(g, k);
      }
    }
    assert ']' !in g[..|g| - 1];
    FirstUnique(g, ']', |g| - 1);
  }

  lemma BracketedBytes(i: nat)
    ensures var g := Bracketed(i);
      && |g| == |Itoa(i)| + 2 && g[0] == '[' && g[|g| - 1] == ']'
      && (forall k | 0 < k < |g| - 1 :: IsDigit(g[k]))
  {
    forall k | 0 < k < |Bracketed(i)| - 1 ensures IsDigit(Bracketed(i)[k]) {
      assert Bracketed(i)[k] == Itoa(i)[k - 1] && Itoa(i)[k - 1] in Itoa(i);
    }
  }

  // Text with neither backslashes nor boundaries.
  lemma {:induction false} DigitsPlain(s: string)
    requires forall c | c in s :: c != '\\' && c != '.' && c != '['
    ensures Closed(s) && Boundary(s) == -1
  {
    if s != "" {
      assert s[0] in s && forall c | c in s[1..] :: c in s;
      DigitsPlain(s[1..]);
    }
  }

  lemma {:induction false} EncodeClosed(p: seq<Segment>)
    ensures Closed(Encode(p))
  {
    hide Suffix;
    if p != [] {
      var prefix, last := Encode(p[..|p| - 1]), p[|p| - 1];
      EncodeClosed(p[..|p| - 1]);
      SuffixShape(prefix, last);
      ClosedConcat(prefix, Suffix(prefix, last));
    }
  }

  // A suffix starts with its only boundary, and is one part of the key.
  lemma SuffixShape(prefix: string, seg: Segment)
    ensures var s := Suffix(prefix, seg);
      && Closed(s)
      && Boundary(s) == (if prefix == "" && seg.Name? then -1 else 0)
      && Parts(s) == (match seg case Name(n) => if prefix == "" then [s] else ["", Escape(n)] case Index(_) => [s])
      && (forall k {:trigger Yields(s, k)} :: Yields(s, k) ==> 0 <= k < |s| && (k == 0 || !IsBoundary(s[k])))
      && (s == "" ==> prefix == "" && seg == Name(""))
  {
    hide Escape, Itoa;
    var s := Suffix(prefix, seg);
    if seg.Name? {
      EscapeShape(seg.name);
      var e := Escape(seg.name);
      if prefix != "" {
        assert s[1..] == e && Step(s) == 1;
      }
    } else {
      BracketedPlain(seg.index);
      forall k | Yields(s, k) ensures 0 <= k < |s| && (k == 0 || !IsBoundary(s[k])) {
        YieldsRange(s, k);
        if k > 0 && IsBoundary(s[k]) {
          OnlyBracket(seg.index, k);
        }
      }
    }
  }

  lemma EscapeShape(n: string)
    ensures var e := Escape(n);
      Closed(e) && Bare(e) && Boundary(e) == -1 && Parts(e) == [e] && (e == "" <==> n == "")
  {
    hide Escape;
    EscapeClosed(n);
    PartsOfOne(Escape(n));
    NoBoundary(Escape(n));
  }

  // The last part of a path's key is empty exactly when the path, as far as the
  // key shows it, ends in an empty name.
  lemma {:induction false} EncodeShape(p: seq<Segment>)
    ensures Encode(p) == "" <==> Norm(p) == []
    ensures Encode(p) != "" ==>
      var parts := Parts(Encode(p)); (parts[|parts| - 1] == "" <==> Norm(p)[|Norm(p)| - 1] == Name(""))
  {
    if p != [] {
      var init, last := p[..|p| - 1], p[|p| - 1];
      EncodeShape(init);
      EncodeClosed(init);
      if last.Name? {
        NameParts(Encode(init), last.name);
        EscapeShape(last.name);
      } else {
        IndexParts(Encode(init), last.index);
      }
    }
  }

  // How one more segment changes the parts.
  lemma NameParts(prefix: string, n: string)
    requires Closed(prefix)
    ensures Parts(Extended(prefix, Name(n))) == if prefix == "" then [Escape(n)] else Parts(prefix) + [Escape(n)]
  {
    hide Parts, Yields, Closed, Escape, Glued, Boundary, Bare;
    SuffixShape(prefix, Name(n));
    PartsConcat(prefix, Suffix(prefix, Name(n)));
    if prefix != "" {
      GluedDot(Parts(prefix), Escape(n));
    } else {
      EscapeShape(n);
      assert "" + Escape(n) == Escape(n);
    }
  }

  lemma GluedDot(was: seq<string>, e: string)
    requires was != []
    ensures Glued(was, ["", e]) == was + [e]
  {
    assert was[|was| - 1] + "" == was[|was| - 1];
  }

  lemma IndexParts(prefix: string, i: nat)
    requires Closed(prefix)
    ensures var was := Parts(prefix);
      Parts(Extended(prefix, Index(i))) == was[..|was| - 1] + [was[|was| - 1] + Bracketed(i)]
  {
    hide Parts, Yields, Closed, Bracketed;
    BracketedPlain(i);
    PartsConcat(prefix, Bracketed(i));
  }

  // ----- parsing undoes printing -----

  function OneIndex(i: nat): Parsed {
    if i <= MAX_KEY_INDEX then Ok([Index(i)]) else Err
  }

  lemma {:induction false} ParsePartsConcat(a: seq<string>, b: seq<string>)
    ensures ParseParts(a + b) == Joined(ParseParts(a), ParseParts(b))
  {
    if a == [] {
      assert a + b == b;
      JoinedNothing(ParseParts(b));
    } else {
      assert (a + b)[1..] == a[1..] + b;
      ParsePartsConcat(a[1..], b);
      JoinedAssociates(ParsePart(a[0]), ParseParts(a[1..]), ParseParts(b));
    }
  }

  lemma ParseOneOf(part: string)
    ensures ParseParts([part]) == ParsePart(part)
  {
    JoinedNothing(ParsePart(part));
    assert [part][1..] == [];
  }

  lemma {:induction false} GroupsSnoc(rest: string, i: nat)
    ensures Groups(rest + Bracketed(i)) == Joined(Groups(rest), OneIndex(i))
  {
    hide Bracketed, Atoi, First, Itoa;
    if rest == "" {
      FirstGroup(i);
      assert rest + Bracketed(i) == Bracketed(i);
      JoinedNothing(OneIndex(i));
    } else if rest[0] == '[' {
      if First(rest, ']') >= 0 {
        NextGroup(rest, Bracketed(i));
        var close := First(rest, ']');
        var n := Atoi(rest[1..close]);
        GroupsSnoc(rest[close + 1..], i);
        if n.Some? && 0 <= n.value <= MAX_KEY_INDEX {
          JoinedAssociates(Ok([Index(n.value)]), Groups(rest[close + 1..]), OneIndex(i));
        }
      } else {
        NestedBracket(rest, i);
      }
    }
  }

  lemma FirstGroup(i: nat)
    ensures Groups(Bracketed(i)) == OneIndex(i)
  {
    hide Bracketed, Atoi, First, Itoa;
    BracketedPlain(i);
    AtoiItoa(i);
    assert Groups("") == Ok([]);
    JoinedNothing(OneIndex(i));
  }

  lemma FirstOf(s: string, c: char) returns (r: nat)
    requires First(s, c) >= 0
    ensures r == First(s, c) && r < |s| && s[r] == c && c !in s[..r]
  {
    r := First(s, c);
  }

  // Text behind the first group does not change how that one reads.
  lemma NextGroup(rest: string, more: string)
    requires rest != "" && rest[0] == '[' && First(rest, ']') >= 0
    ensures var close, all := First(rest, ']'), rest + more;
      && all[0] == '[' && First(all, ']') == close && all[1..close] == rest[1..close]
      && all[close + 1..] == rest[close + 1..] + more
  {
    hide First;
    var close := FirstOf(rest, ']');
    var all := rest + more;
    SliceConcat(rest, more, close);
    SliceConcat(rest, more, close + 1);
    FirstUnique(all, ']', close);
    assert all[1..close] == all[..close][1..] && rest[1..close] == rest[..close][1..];
  }

  // An unclosed group runs into the next one and is no number.
  lemma NestedBracket(rest: string, i: nat)
    requires rest != "" && rest[0] == '[' && ']' !in rest
    ensures Groups(rest + Bracketed(i)) == Err
  {
    var g := Bracketed(i);
    var all := rest + g;
    BracketedPlain(i);
    var close := |all| - 1;
    forall k | 0 <= k < close ensures all[k] != ']' {
      if k >= |rest| && k > |rest| {
        assert all[k] == g[k - |rest|] == Itoa(i)[k - |rest| - 1];
        assert Itoa(i)[k - |rest| - 1] in Itoa(i);
      }
    }
    FirstUnique(all, ']', close);
    var inner := all[1..close];
    var digits := if inner != "" && (inner[0] == '+' || inner[0] == '-') then inner[1..] else inner;
    assert inner[|rest| - 1] == '[';
    assert '[' in digits by {
      if digits != inner {
        assert digits[|rest| - 2] == '[';
      }
    }
    assert !IsDigit('[');
  }

  lemma ParsePartSnoc(part: string, i: nat)
    requires Closed(part)
    ensures ParsePart(part + Bracketed(i)) ==
      if part == "" then OneIndex(i) else Joined(ParsePart(part), OneIndex(i))
  {
    hide Groups, Bracketed, Unescape, Find, Closed;
    var g, b := Bracketed(i), Find(part, '[');
    BracketedPlain(i);
    FindConcat(part, g, '[');
    if b < 0 {
      SliceConcat(part, g, |part|);
      FirstGroup(i);
      JoinedNothing(OneIndex(i));
    } else {
      SliceConcat(part, g, b);
      GroupsSnoc(part[b..], i);
      JoinedAssociates(if b > 0 then NameOf(part[..b]) else Ok([]), Groups(part[b..]), OneIndex(i));
    }
  }

  lemma SliceConcat(s: string, t: string, b: nat)
    requires b <= |s|
    ensures (s + t)[..b] == s[..b] && (s + t)[b..] == s[b..] + t
    ensures b == |s| ==> s[..b] == s && (s + t)[b..] == t
  {
  }

  lemma {:induction false} PartsClosed(s: string)
    requires Closed(s)
    ensures forall part | part in Parts(s) :: Closed(part)
    decreases |s|
  {
    if s != "" {
      var n := Step(s);
      PartsClosed(s[n..]);
      if s[0] != '.' {
        var head := Parts(s[n..])[0];
        var joined := s[..n] + head;
        assert head in Parts(s[n..]);
        assert Step(joined) == n && joined[n..] == head;
        assert forall part | part in Parts(s)[1..] :: part in Parts(s[n..]);
        assert Parts(s) == [joined] + Parts(s)[1..];
      } else {
        assert Parts(s) == [""] + Parts(s[1..]);
      }
    }
  }

  // For every path: the key is an error if an index is too large, and reads back
  // as Norm of the path otherwise.
  lemma {:induction false} ParseEncode(p: seq<Segment>)
    ensures ParseKey(Encode(p)) == if Within(p) then Ok(Norm(p)) else Err
  {
    if p != [] {
      var init, last := p[..|p| - 1], p[|p| - 1];
      assert p == init + [last];
      assert Within(p) <==> Within(init) && (last.Index? ==> last.index <= MAX_KEY_INDEX) by {
        assert forall s :: s in p <==> s in init || s == last;
      }
      ParseEncode(init);
      EncodeShape(init);
      EncodeClosed(init);
      if last.Name? {
        ParseNameSnoc(init, last.name);
      } else {
        ParseIndexSnoc(init, last.index);
      }
    }
  }

  lemma ParseEscaped(name: string)
    ensures ParsePart(Escape(name)) == Ok([Name(name)])
  {
    hide Escape, Yields;
    EscapeClosed(name);
    UnescapeEscape(name);
    FindIsFirst(Escape(name), '[');
  }

  lemma ParseNameSnoc(init: seq<Segment>, name: string)
    requires ParseKey(Encode(init)) == if Within(init) then Ok(Norm(init)) else Err
    requires Encode(init) == "" <==> Norm(init) == []
    ensures ParseKey(Extended(Encode(init), Name(name))) ==
      if !Within(init) then Err else if Norm(init) == [] && name == "" then Ok([]) else Ok(Norm(init) + [Name(name)])
  {
    hide Encode, Parts, Closed, Yields, ParsePart, ParseParts, Norm, Within;
    var prefix, e := Encode(init), Escape(name);
    EncodeClosed(init);
    EscapeClosed(name);
    NameParts(prefix, name);
    ParseEscaped(name);
    ParseOneOf(e);
    if prefix != "" {
      ParsePartsConcat(Parts(prefix), [e]);
      assert |Extended(prefix, Name(name))| > 0;
    } else {
      assert Norm(init) + [Name(name)] == [Name(name)];
    }
  }

  lemma ParseIndexSnoc(init: seq<Segment>, i: nat)
    requires ParseKey(Encode(init)) == if Within(init) then Ok(Norm(init)) else Err
    requires Encode(init) == "" <==> Norm(init) == []
    requires Encode(init) != "" ==>
      var parts := Parts(Encode(init)); (parts[|parts| - 1] == "" <==> Norm(init)[|Norm(init)| - 1] == Name(""))
    ensures ParseKey(Extended(Encode(init), Index(i))) ==
      if !Within(init) || i > MAX_KEY_INDEX then Err
      else if Norm(init) != [] && Norm(init)[|Norm(init)| - 1] == Name("")
      then Ok(Norm(init)[..|Norm(init)| - 1] + [Index(i)])
      else Ok(Norm(init) + [Index(i)])
  {
    hide Encode, Parts, Closed, ParsePart, ParseParts, Norm, Bracketed, Suffix, Within;
    var prefix, g := Encode(init), Bracketed(i);
    var parts := Parts(prefix);
    var front, end := parts[..|parts| - 1], parts[|parts| - 1];
    EncodeClosed(init);
    IndexParts(prefix, i);
    PartsClosed(prefix);
    ParsePartSnoc(end, i);
    ParsePartsConcat(front, [end + g]);
    ParseOneOf(end + g);
    if prefix != "" {
      assert parts == front + [end];
      ParsePartsConcat(front, [end]);
      ParseOneOf(end);
      JoinedAssociates(ParseParts(front), ParsePart(end), OneIndex(i));
      if end == "" {
        EmptyPart();
        assert Ok(Norm(init)) == ParseKey(prefix) ==> ParseParts(front).Ok?;
        JoinedNothing(ParseParts(front));
      }
    } else {
      EmptyPart();
      assert front == [] && [] + [end + g] == [end + g];
      JoinedNothing(OneIndex(i));
    }
    assert Extended(prefix, Index(i)) != "" by { SuffixShape(prefix, Index(i)); }
  }

  lemma EmptyPart()
    ensures Parts("") == [""] && ParsePart("") == Ok([Name("")]) && ParseParts([]) == Ok([])
  {
  }

  // The round trip holds for exactly the representable paths.
  lemma RoundTrip(p: seq<Segment>)
    ensures ParseKey(Encode(p)) == Ok(p) <==> Representable(p) && Within(p)
  {
    ParseEncode(p);
    NormKeeps(p);
  }

  // ----- containers -----

  // The parent of a key is the key of the enclosing container.
  lemma ParentEncode(p: seq<Segment>, seg: Segment)
    ensures ParentOf(Encode(p + [seg])) == Encode(p)
  {
    hide Suffix, Closed;
    var prefix := Encode(p);
    assert (p + [seg])[..|p|] == p;
    EncodeClosed(p);
    SuffixShape(prefix, seg);
    BoundaryConcat(prefix, Suffix(prefix, seg));
  }

  // ----- keys that are not printed -----

  lemma JoinedWithin(a: Parsed, b: Parsed)
    requires (a.Ok? ==> Within(a.value)) && (b.Ok? ==> Within(b.value))
    ensures Joined(a, b).Ok? ==> Within(Joined(a, b).value)
  {
  }

  lemma {:induction false} GroupsWithin(rest: string)
    ensures Groups(rest).Ok? ==> Within(Groups(rest).value)
    ensures Groups(rest).Ok? && rest != "" ==> rest[|rest| - 1] == ']'
    decreases |rest|
  {
    hide Atoi;
    if rest != "" && rest[0] == '[' {
      var close := First(rest, ']');
      if close >= 0 {
        GroupsWithin(rest[close + 1..]);
        var n := Atoi(rest[1..close]);
        if n.Some? && 0 <= n.value <= MAX_KEY_INDEX {
          JoinedWithin(Ok([Index(n.value)]), Groups(rest[close + 1..]));
        }
      }
    }
  }

  lemma PartWithin(part: string)
    ensures ParsePart(part).Ok? ==> Within(ParsePart(part).value)
    ensures ParsePart(part).Ok? && Find(part, '[') >= 0 ==> part[|part| - 1] == ']'
  {
    hide Groups, Find, Unescape;
    var b := Find(part, '[');
    if b >= 0 {
      GroupsWithin(part[b..]);
      JoinedWithin(if b > 0 then NameOf(part[..b]) else Ok([]), Groups(part[b..]));
    }
  }

  lemma {:induction false} PartsWithin(parts: seq<string>)
    ensures ParseParts(parts).Ok? ==> Within(ParseParts(parts).value)
  {
    hide ParsePart;
    if parts != [] {
      PartWithin(parts[0]);
      PartsWithin(parts[1..]);
      JoinedWithin(ParsePart(parts[0]), ParseParts(parts[1..]));
    }
  }

  // Whatever is parsed, printed or not, has indices in range, and reads back once it is
  // printed, names that leave no trace aside.
  lemma ParsedReadsBack(key: string)
    requires ParseKey(key).Ok?
    ensures var p := ParseKey(key).value; Within(p) && ParseKey(Encode(p)) == Ok(Norm(p))
  {
    hide ParseParts, Parts, Encode;
    PartsWithin(Parts(key));
    ParseEncode(ParseKey(key).value);
  }

  // A path whose key is not lost at the root.
  predicate Rooted(p: seq<Segment>) {
    p == [] || p[0] != Name("")
  }

  lemma {:induction false} RootedPrefix(p: seq<Segment>, m: nat)
    requires Rooted(p) && m <= |p|
    ensures Rooted(p[..m])
    ensures p != [] ==> Encode(p) != ""
  {
    if p != [] {
      var init, last := p[..|p| - 1], p[|p| - 1];
      if init != [] {
        RootedPrefix(init, 0);
      } else {
        SuffixShape("", last);
      }
    }
  }

  // Otherwise it is: an empty name at the root leaves no trace in the key.
  lemma {:induction false} UnrootedCollides(p: seq<Segment>)
    requires p != [] && p[0] == Name("")
    ensures Encode(p) == Encode(p[1..])
  {
    hide Extended, Escape;
    if |p| > 1 {
      UnrootedCollides(p[..|p| - 1]);
      assert p[..|p| - 1][1..] == p[1..][..|p| - 2];
    } else {
      EmptyName();
      assert p[..0] == [] && p[1..] == [];
    }
  }

  lemma EmptyName()
    ensures Extended(Encode([]), Name("")) == Encode([])
  {
    assert Escape("") == "";
  }

  // Different paths have different keys.
  lemma {:induction false} EncodeInjective(p: seq<Segment>, q: seq<Segment>)
    requires Rooted(p) && Rooted(q) && Encode(p) == Encode(q)
    ensures p == q
    decreases |p|
  {
    hide Extended, ParentOf;
    RootedPrefix(p, if p == [] then 0 else |p| - 1);
    RootedPrefix(q, if q == [] then 0 else |q| - 1);
    if p != [] && q != [] {
      var p', s, q', t := p[..|p| - 1], p[|p| - 1], q[..|q| - 1], q[|q| - 1];
      assert p == p' + [s] && q == q' + [t];
      ParentEncode(p', s);
      ParentEncode(q', t);
      EncodeInjective(p', q');
      FirstName(p', s);
      FirstName(q', t);
      SegmentInjective(Encode(p'), s, t);
    }
  }

  lemma FirstName(p: seq<Segment>, s: Segment)
    requires Rooted(p + [s])
    ensures Encode(p) == "" ==> s != Name("")
  {
    if p != [] {
      RootedPrefix(p, 0);
    }
  }

  lemma SegmentInjective(prefix: string, s: Segment, t: Segment)
    requires Extended(prefix, s) == Extended(prefix, t)
    requires prefix == "" ==> s != Name("") && t != Name("")
    ensures s == t
  {
    assert Extended(prefix, s)[|prefix|..] == Suffix(prefix, s) && Extended(prefix, t)[|prefix|..] == Suffix(prefix, t);
    if s.Name? && t.Name? {
      UnescapeEscape(s.name);
      UnescapeEscape(t.name);
      if prefix != "" {
        assert Suffix(prefix, s)[1..] == Escape(s.name) && Suffix(prefix, t)[1..] == Escape(t.name);
      }
    } else if s.Index? && t.Index? {
      BracketedPlain(s.index);
      BracketedPlain(t.index);
      ItoaInjective(s.index, t.index);
    } else if s.Index? {
      NameIsNoIndex(prefix, t.name, s.index);
    } else {
      NameIsNoIndex(prefix, s.name, t.index);
    }
  }

  lemma NameIsNoIndex(prefix: string, name: string, i: nat)
    requires prefix == "" ==> name != ""
    ensures Extended(prefix, Name(name)) != Extended(prefix, Index(i))
  {
    assert Extended(prefix, Index(i))[|prefix|] == '[';
    assert Extended(prefix, Name(name))[|prefix|] != '[';
  }

  // ----- ancestor tests -----

  // isDescendantKey
  predicate IsDescendantKey(parent: string, key: string) {
    parent == key
    || (parent <= key && |key| > |parent| && IsBoundary(key[|parent|]))
  }

  // The keys that the loop over Parent visits.
  function ParentChain(key: string): seq<string>
    decreases |key|
  {
    if key == "" || ParentOf(key) == "" then [] else [ParentOf(key)] + ParentChain(ParentOf(key))
  }

  // flatKeyHasAncestor
  method FlatKeyHasAncestor(child: string, ancestor: string) returns (r: bool)
    ensures r <==> ancestor != "" && child != ancestor && ancestor in ParentChain(child)
  {
    if child == "" || ancestor == "" || child == ancestor {
      return false;
    }
    var k := Parent(child);
    while k != ""
      invariant ancestor in ParentChain(child) <==> k != "" && (ancestor == k || ancestor in ParentChain(k))
      decreases |k|
    {
      if k == ancestor {
        return true;
      }
      k := Parent(k);
    }
    r := false;
  }

  // The chain of a path's key holds the keys of its proper prefixes.
  lemma {:induction false} ParentChainEncode(q: seq<Segment>, key: string)
    requires Rooted(q)
    ensures key in ParentChain(Encode(q)) <==> exists m :: 0 < m < |q| && key == Encode(q[..m])
  {
    RootedPrefix(q, 0);
    if q != [] {
      var init, last := q[..|q| - 1], q[|q| - 1];
      assert q == init + [last];
      ParentEncode(init, last);
      RootedPrefix(q, |q| - 1);
      RootedPrefix(init, 0);
      ParentChainEncode(init, key);
      assert forall m | 0 <= m <= |init| :: init[..m] == q[..m];
      if key in ParentChain(Encode(q)) {
        if key == Encode(init) {
          assert init == q[..|q| - 1];
        }
      }
    }
  }

  // Every boundary in a path's key ends the key of a proper prefix.
  lemma {:induction false} BoundaryIsPrefix(q: seq<Segment>, k: nat)
    requires k < |Encode(q)| && Yields(Encode(q), k) && IsBoundary(Encode(q)[k])
    ensures exists m :: 0 <= m < |q| && Encode(q[..m]) == Encode(q)[..k]
  {
    hide Suffix, Closed, Yields, IsBoundary;
    var init, last := q[..|q| - 1], q[|q| - 1];
    var prefix := Encode(init);
    var tail := Suffix(prefix, last);
    EncodeClosed(init);
    YieldsConcat(prefix, tail, k);
    if k < |prefix| {
      BoundaryIsPrefix(init, k);
      var m :| 0 <= m < |init| && Encode(init[..m]) == prefix[..k];
      assert q[..m] == init[..m] && Encode(q)[..k] == prefix[..k];
    } else {
      SuffixShape(prefix, last);
      assert Encode(q)[k] == tail[k - |prefix|];
      assert Encode(q)[..k] == prefix && q[..|q| - 1] == init;
    }
  }

  lemma OnlyBracket(i: nat, j: nat)
    requires j < |Bracketed(i)| && IsBoundary(Bracketed(i)[j])
    ensures j == 0
  {
    forall k | 0 < k < |Bracketed(i)| ensures !IsBoundary(Bracketed(i)[k]) {
      assert k < |Bracketed(i)| - 1 ==> Bracketed(i)[k] == Itoa(i)[k - 1] && Itoa(i)[k - 1] in Itoa(i);
    }
  }

  lemma {:induction false} PrefixIsDescendant(q: seq<Segment>, m: nat)
    requires Rooted(q) && 0 < m < |q|
    ensures IsDescendantKey(Encode(q[..m]), Encode(q))
  {
    var init, last := q[..|q| - 1], q[|q| - 1];
    RootedPrefix(q, |q| - 1);
    RootedPrefix(init, 0);
    var prefix := Encode(init);
    assert prefix <= Encode(q) && IsBoundary(Encode(q)[|prefix|]);
    if m < |q| - 1 {
      PrefixIsDescendant(init, m);
      assert init[..m] == q[..m];
      if Encode(q[..m]) != prefix {
        assert Encode(q)[|Encode(q[..m])|] == prefix[|Encode(q[..m])|];
      }
    } else {
      assert q[..m] == init;
    }
  }

  // The walk over parents finds the proper prefixes.
  lemma ChainIsPrefix(p: seq<Segment>, q: seq<Segment>)
    requires Rooted(p) && Rooted(q) && p != []
    ensures Encode(p) in ParentChain(Encode(q)) <==> p < q
  {
    hide Encode, ParentChain, Rooted;
    ParentChainEncode(q, Encode(p));
    if p < q {
      assert p == q[..|p|];
    }
    if m :| 0 < m < |q| && Encode(p) == Encode(q[..m]) {
      RootedPrefix(q, m);
      EncodeInjective(p, q[..m]);
    }
  }

  // The byte-prefix test finds the prefixes: what follows a key starts at a
  // boundary only below it.
  lemma DescendantIsPrefix(p: seq<Segment>, q: seq<Segment>)
    requires Rooted(p) && Rooted(q) && p != []
    ensures IsDescendantKey(Encode(p), Encode(q)) <==> p <= q
  {
    hide Encode, Rooted, Yields, Closed, IsBoundary;
    var kp, kq := Encode(p), Encode(q);
    if p == q {
    } else if p < q {
      assert p == q[..|p|];
      PrefixIsDescendant(q, |p|);
    } else if IsDescendantKey(kp, kq) {
      if kp == kq {
        EncodeInjective(p, q);
      } else {
        EncodeClosed(p);
        var rest := kq[|kp|..];
        assert kq == kp + rest;
        BoundaryYields(rest);
        YieldsConcat(kp, rest, |kp|);
        BoundaryIsPrefix(q, |kp|);
        var m :| 0 <= m < |q| && Encode(q[..m]) == kq[..|kp|];
        RootedPrefix(q, m);
        EncodeInjective(p, q[..m]);
      }
    }
  }

  lemma BoundaryYields(s: string)
    requires s != "" && IsBoundary(s[0])
    ensures Yields(s, 0)
  {
  }

  // The byte-prefix test, the walk over parents and the prefix order of paths are
  // one relation.
  lemma AncestorTestsAgree(p: seq<Segment>, q: seq<Segment>)
    requires Rooted(p) && Rooted(q) && p != [] && q != []
    ensures IsDescendantKey(Encode(p), Encode(q)) <==> p <= q
    ensures Encode(p) in ParentChain(Encode(q)) <==> p < q
    ensures IsDescendantKey(Encode(p), Encode(q)) <==> Encode(p) == Encode(q) || Encode(p) in ParentChain(Encode(q))
  {
    hide Encode, Rooted, ParentChain, IsDescendantKey;
    DescendantIsPrefix(p, q);
    ChainIsPrefix(p, q);
    assert p <= q ==> p == q || p < q;
    if Encode(p) == Encode(q) {
      EncodeInjective(p, q);
    }
  }
}
