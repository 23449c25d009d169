/** The order of strings.Compare, and sorting by it. */
module Ordering {

  predicate Less(a: string, b: string) {
    b != "" && (a == "" || a[0] < b[0] || (a[0] == b[0] && Less(a[1..], b[1..])))
  }

  predicate Sorted(s: seq<string>) {
    forall i, j | 0 <= i < j < |s| :: Less(s[i], s[j])
  }

  lemma {:induction false} LessTotal(a: string, b: string)
    ensures a == b || Less(a, b) || Less(b, a)
    ensures !Less(a, a)
  {
    if a != "" && b != "" && a[0] == b[0] {
      LessTotal(a[1..], b[1..]);
      assert a == [a[0]] + a[1..] && b == [b[0]] + b[1..];
    }
    if a != "" {
      LessTotal(a[1..], a[1..]);
    }
  }

  // Less decides at the first difference, or for the shorter text.
  lemma {:induction false} LessIs(a: string, b: string, k: nat)
    requires k <= |a| && k <= |b| && a[..k] == b[..k]
    ensures k < |a| && k < |b| && a[k] != b[k] ==> (Less(a, b) <==> a[k] < b[k])
    ensures k == |a| || k == |b| ==> (Less(a, b) <==> |a| < |b|)
  {
    if k > 0 {
      assert a[0] == a[..k][0] == b[0];
      assert a[1..][..k - 1] == a[..k][1..] && b[1..][..k - 1] == b[..k][1..];
      LessIs(a[1..], b[1..], k - 1);
    }
  }

  lemma {:induction false} LessTransitive(a: string, b: string, c: string)
    requires Less(a, b) && Less(b, c)
    ensures Less(a, c)
  {
    if a != "" && a[0] == b[0] == c[0] {
      LessTransitive(a[1..], b[1..], c[1..]);
    }
  }

  // A text sorts before its extensions.
  lemma {:induction false} LessExtension(a: string, b: string)
    requires a < b
    ensures Less(a, b)
  {
    if a != "" {
      assert a[1..] < b[1..];
      LessExtension(a[1..], b[1..]);
    }
  }

  // One key put in its place.
  method Inserted(s: seq<string>, key: string) returns (r: seq<string>)
    requires Sorted(s) && key !in s
    ensures Sorted(r) && forall k :: k in r <==> k in s || k == key
  {
    hide Less;
    var i := 0;
    while i < |s| && Less(s[i], key)
      invariant 0 <= i <= |s| && forall j | 0 <= j < i :: Less(s[j], key)
    {
      i := i + 1;
    }
    r := s[..i] + [key] + s[i..];
    forall j | i <= j < |s| ensures Less(key, s[j]) {
      assert s[i] in s;
      LessTotal(s[i], key);
      if j > i {
        LessTransitive(key, s[i], s[j]);
      }
    }
    assert s == s[..i] + s[i..];
  }

  // The keys of a map, collected and sorted.
  method SortedKeys(keys: set<string>) returns (r: seq<string>)
    ensures Sorted(r) && forall k :: k in r <==> k in keys
  {
    r := [];
    var left := keys;
    while left != {}
      invariant left <= keys && Sorted(r)
      invariant forall k :: k in r <==> k in keys && k !in left
      decreases |left|
    {
      var key :| key in left;
      left := left - {key};
      r := Inserted(r, key);
    }
  }
}
