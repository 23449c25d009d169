/** Source lines that the encoder left out, put back (service/yaml_substitute.go). */
module MissingLines {
  import opened Text

  // A line of the source that declares a key.
  datatype Keyed = Keyed(line: int, key: string)

  // What insertMissingSourceLines works from: the keyed lines of the source in order,
  // the lines of the encoded keys, and the keys that fit on a line.
  datatype Job = Job(raw: seq<string>, source: seq<Keyed>, keyLine: map<string, nat>, insertable: set<string>) {
    predicate Valid() {
      forall i, j | 0 <= i < j < |source| :: source[i].line < source[j].line
    }

    predicate Present(i: nat)
      requires i < |source|
    {
      source[i].key in keyLine
    }

    predicate Missing(i: nat)
      requires i < |source|
    {
      !Present(i) && source[i].key in insertable
    }

    predicate InFile(i: nat) {
      i < |source| && 1 <= source[i].line <= |raw|
    }

    // The encoded line of the last present key before source line i, or 0.
    function Previous(i: nat): nat
      requires i <= |source|
    {
      if i == 0 then 0 else if Present(i - 1) then keyLine[source[i - 1].key] else Previous(i - 1)
    }

    lemma {:induction false} PreviousIs(i: nat, j: nat)
      requires j < i <= |source| && Present(j) && forall k | j < k < i :: !Present(k)
      ensures Previous(i) == keyLine[source[j].key]
    {
      if j < i - 1 {
        PreviousIs(i - 1, j);
      }
    }

    lemma {:induction false} NothingPrevious(i: nat)
      requires i <= |source| && forall k | 0 <= k < i :: !Present(k)
      ensures Previous(i) == 0
    {
      if i > 0 {
        NothingPrevious(i - 1);
      }
    }

    function Insertions(i: nat): seq<Insertion>
      requires i <= |source|
    {
      if i == 0 then []
      else Insertions(i - 1) + if Missing(i - 1) then [Insertion(Previous(i - 1), i - 1)] else []
    }

    method CollectInsertions() returns (insertions: seq<Insertion>)
      ensures insertions == Insertions(|source|)
    {
      insertions := [];
      for i := 0 to |source|
        invariant insertions == Insertions(i)
      {
        if source[i].key !in keyLine && source[i].key in insertable {
          var prevEncLine, j := 0, i - 1;
          while j >= 0
            invariant -1 <= j < i && forall k | j < k < i :: !Present(k)
            invariant prevEncLine == 0
          {
            if source[j].key in keyLine {
              prevEncLine := keyLine[source[j].key];
              PreviousIs(i, j);
              break;
            }
            j := j - 1;
          }
          if j < 0 {
            NothingPrevious(i);
          }
          insertions := insertions + [Insertion(prevEncLine, i)];
        }
      }
    }
  }

  datatype Insertion = Insertion(after: nat, item: nat)

  // A line of the result: an encoded one, numbered from 1, or one from the source.
  datatype Piece = Encoded(n: nat) | Inserted(i: nat)

  // The source lines that go after encoded line t.
  function Bucket(insertions: seq<Insertion>, t: nat): seq<nat> {
    if insertions == [] then []
    else
      var last := insertions[|insertions| - 1];
      Bucket(insertions[..|insertions| - 1], t) + if last.after == t then [last.item] else []
  }

  function Pieces(job: Job, items: seq<nat>): seq<Piece> {
    if items == [] then []
    else
      var i := items[|items| - 1];
      Pieces(job, items[..|items| - 1]) + if job.InFile(i) then [Inserted(i)] else []
  }

  lemma BucketStep(job: Job, m: nat, t: nat)
    requires 0 < m <= |job.source|
    ensures Bucket(job.Insertions(m), t) ==
      Bucket(job.Insertions(m - 1), t) + if job.Missing(m - 1) && job.Previous(m - 1) == t then [m - 1] else []
  {
    var rest := job.Insertions(m - 1);
    if job.Missing(m - 1) {
      assert (rest + [Insertion(job.Previous(m - 1), m - 1)])[..|rest|] == rest;
    } else {
      assert rest + [] == rest;
      assert Bucket(rest, t) + [] == Bucket(rest, t);
    }
  }

  // All lines of the result up to encoded line n.
  function Plan(job: Job, n: nat): seq<Piece> {
    var after := Pieces(job, Bucket(job.Insertions(|job.source|), n));
    if n == 0 then after else Plan(job, n - 1) + [Encoded(n)] + after
  }

  function TextOf(job: Job, encoded: seq<string>, p: Piece): string {
    match p
    case Encoded(n) => if 1 <= n <= |encoded| then encoded[n - 1] else ""
    case Inserted(i) => if job.InFile(i) then job.raw[job.source[i].line - 1] else ""
  }

  function TextsOf(job: Job, encoded: seq<string>, plan: seq<Piece>): (r: seq<string>)
    ensures |r| == |plan|
  {
    seq(|plan|, k requires 0 <= k < |plan| => TextOf(job, encoded, plan[k]))
  }

  // ----- the insertion -----

  function At(buckets: map<nat, seq<nat>>, t: nat): seq<nat> {
    if t in buckets then buckets[t] else []
  }

  method FillBuckets(insertions: seq<Insertion>) returns (buckets: map<nat, seq<nat>>)
    ensures forall t: nat :: At(buckets, t) == Bucket(insertions, t)
  {
    buckets := map[];
    for k := 0 to |insertions|
      invariant forall t: nat :: At(buckets, t) == Bucket(insertions[..k], t)
    {
      assert insertions[..k + 1][..k] == insertions[..k];
      var ins := insertions[k];
      buckets := buckets[ins.after := At(buckets, ins.after) + [ins.item]];
    }
    assert insertions[..|insertions|] == insertions;
  }

  method EmitBucket(job: Job, encoded: seq<string>, bucket: seq<nat>, out: seq<string>, ghost plan: seq<Piece>)
    returns (r: seq<string>)
    requires forall i | i in bucket :: i < |job.source|
    requires out == TextsOf(job, encoded, plan)
    ensures r == TextsOf(job, encoded, plan + Pieces(job, bucket))
  {
    r := out;
    assert plan + Pieces(job, bucket[..0]) == plan;
    for k := 0 to |bucket|
      invariant r == TextsOf(job, encoded, plan + Pieces(job, bucket[..k]))
    {
      assert bucket[..k + 1][..k] == bucket[..k] && bucket[k] in bucket;
      var line := job.source[bucket[k]].line;
      if line >= 1 && line <= |job.raw| {
        assert plan + Pieces(job, bucket[..k + 1]) == (plan + Pieces(job, bucket[..k])) + [Inserted(bucket[k])];
        r := r + [job.raw[line - 1]];
      } else {
        assert plan + Pieces(job, bucket[..k + 1]) == plan + Pieces(job, bucket[..k]);
      }
    }
    assert bucket[..|bucket|] == bucket;
  }

  // insertMissingSourceLines
  method InsertMissingSourceLines(job: Job, encoded: string) returns (out: string)
    requires job.Valid() && AllOneLine(job.raw)
    ensures var encLines := Lines(encoded); Lines(out) == TextsOf(job, encLines, Plan(job, |encLines|))
  {
    hide Job.Insertions, Bucket, Pieces, TextsOf, Job.Previous, Lines, AllOneLine, Job.Missing;
    var encLines := Lines(encoded);
    var insertions := job.CollectInsertions();
    if |insertions| == 0 {
      NothingInserted(job, encLines, |encLines|);
      assert encLines[..|encLines|] == encLines;
      return encoded;
    }
    var buckets := FillBuckets(insertions);
    BucketIs(job, |job.source|, 0);
    assert At(buckets, 0) == Bucket(insertions, 0);
    var lines := EmitBucket(job, encLines, At(buckets, 0), [], []);
    PlanStep(job, encLines, 0);
    for k := 0 to |encLines|
      invariant lines == TextsOf(job, encLines, Plan(job, k))
    {
      PlanStep(job, encLines, k + 1);
      BucketIs(job, |job.source|, k + 1);
      lines := EmitBucket(job, encLines, At(buckets, k + 1), lines + [encLines[k]], Plan(job, k) + [Encoded(k + 1)]);
    }
    LinesAreLines(encoded);
    TextsOneLine(job, encLines, Plan(job, |encLines|));
    LinesJoin(lines);
    out := Join(lines);
  }

  lemma {:induction false} NothingInserted(job: Job, encoded: seq<string>, n: nat)
    requires job.Insertions(|job.source|) == [] && n <= |encoded|
    ensures TextsOf(job, encoded, Plan(job, n)) == encoded[..n]
  {
    if n > 0 {
      NothingInserted(job, encoded, n - 1);
      assert Plan(job, n) == Plan(job, n - 1) + [Encoded(n)];
      assert encoded[..n] == encoded[..n - 1] + [encoded[n - 1]];
    }
  }

  lemma PlanStep(job: Job, encoded: seq<string>, n: nat)
    requires n <= |encoded|
    ensures TextsOf(job, encoded, []) == []
    ensures var after := Pieces(job, Bucket(job.Insertions(|job.source|), n));
      if n == 0 then Plan(job, n) == [] + after
      else Plan(job, n) == Plan(job, n - 1) + [Encoded(n)] + after &&
           TextsOf(job, encoded, Plan(job, n - 1) + [Encoded(n)]) ==
             TextsOf(job, encoded, Plan(job, n - 1)) + [encoded[n - 1]]
  {
  }

  lemma TextsOneLine(job: Job, encoded: seq<string>, plan: seq<Piece>)
    requires AllOneLine(job.raw) && AllOneLine(encoded)
    ensures AllOneLine(TextsOf(job, encoded, plan))
  {
    forall l | l in TextsOf(job, encoded, plan) ensures OneLine(l) {
      var k :| 0 <= k < |plan| && TextsOf(job, encoded, plan)[k] == l;
      assert l == TextOf(job, encoded, plan[k]);
    }
  }

  // ----- what the result is made of -----

  // Where a piece belongs: an encoded line before the source lines that go after it,
  // and those in the order of the source.
  ghost predicate Before(job: Job, p: Piece, q: Piece)
    requires Placed(job, p) && Placed(job, q)
  {
    match (p, q)
    case (Encoded(m), Encoded(n)) => m < n
    case (Encoded(n), Inserted(i)) => n <= job.Previous(i)
    case (Inserted(i), Encoded(n)) => job.Previous(i) < n
    case (Inserted(i), Inserted(j)) =>
      job.Previous(i) < job.Previous(j) ||
      (job.Previous(i) == job.Previous(j) && i < j)
  }

  ghost predicate Placed(job: Job, p: Piece) {
    p.Inserted? ==> p.i < |job.source|
  }

  // Of the lines up to encoded line n.
  ghost predicate Belongs(job: Job, n: nat, p: Piece) {
    match p
    case Encoded(k) => 1 <= k <= n
    case Inserted(i) =>
      && i < |job.source| && 1 <= job.source[i].line <= |job.raw| && job.Previous(i) <= n
      && job.source[i].key !in job.keyLine && job.source[i].key in job.insertable
  }

  ghost predicate InPlace(job: Job, plan: seq<Piece>) {
    && (forall p | p in plan :: Placed(job, p))
    && forall x, y | 0 <= x < y < |plan| :: Before(job, plan[x], plan[y])
  }

  lemma {:induction false} BucketIs(job: Job, m: nat, t: nat)
    requires m <= |job.source|
    ensures var items := Bucket(job.Insertions(m), t);
      && (forall i: nat :: i in items <==> i < m && job.Missing(i) && job.Previous(i) == t)
      && forall x, y | 0 <= x < y < |items| :: items[x] < items[y]
  {
    if m > 0 {
      BucketIs(job, m - 1, t);
      BucketStep(job, m, t);
      var rest, items := Bucket(job.Insertions(m - 1), t), Bucket(job.Insertions(m), t);
      forall x | 0 <= x < |rest| ensures rest[x] < m - 1 {
        assert rest[x] in rest;
      }
    }
  }

  lemma {:induction false} PiecesAre(job: Job, items: seq<nat>, t: nat)
    requires forall x, y | 0 <= x < y < |items| :: items[x] < items[y]
    requires forall i | i in items :: i < |job.source| && job.Previous(i) == t
    ensures var pieces := Pieces(job, items);
      && InPlace(job, pieces)
      && forall p :: p in pieces <==> p.Inserted? && p.i in items && job.InFile(p.i)
  {
    if items != [] {
      var rest := items[..|items| - 1];
      var last := items[|items| - 1];
      forall i | i in rest ensures i in items && i < last {
      }
      PiecesAre(job, rest, t);
      assert last in items;
      forall p | p in Pieces(job, rest) ensures Before(job, p, Inserted(last)) {
      }
    }
  }

  // Every encoded line and every missing line is there exactly once, in its place.
  lemma {:induction false} EachOnceInPlace(job: Job, n: nat)
    ensures InPlace(job, Plan(job, n))
    ensures forall p :: p in Plan(job, n) <==> Belongs(job, n, p)
  {
    hide InPlace, Bucket, Pieces, Job.Insertions, Job.Missing, Job.InFile, Job.Previous;
    PiecesAfter(job, n);
    if n > 0 {
      EachOnceInPlace(job, n - 1);
      var before, after := Plan(job, n - 1), Pieces(job, Bucket(job.Insertions(|job.source|), n));
      LinePlaced(job, n);
      Places(job, before);
      Places(job, after);
      JoinInPlace(job, before, [Encoded(n)]);
      Places(job, before + [Encoded(n)]);
      JoinInPlace(job, before + [Encoded(n)], after);
    }
  }

  lemma PiecesAfter(job: Job, n: nat)
    ensures var after := Pieces(job, Bucket(job.Insertions(|job.source|), n));
      InPlace(job, after) && forall p :: p in after <==> p.Inserted? && Belongs(job, n, p) && job.Previous(p.i) == n
  {
    BucketIs(job, |job.source|, n);
    PiecesAre(job, Bucket(job.Insertions(|job.source|), n), n);
  }

  lemma LinePlaced(job: Job, n: nat)
    ensures InPlace(job, [Encoded(n)])
  {
  }

  lemma Places(job: Job, plan: seq<Piece>)
    requires InPlace(job, plan)
    ensures forall p | p in plan :: Placed(job, p)
  {
  }

  lemma JoinInPlace(job: Job, a: seq<Piece>, b: seq<Piece>)
    requires InPlace(job, a) && InPlace(job, b)
    requires forall p, q | p in a && q in b :: Before(job, p, q)
    ensures InPlace(job, a + b)
  {
    forall x, y | 0 <= x < y < |a + b|
      ensures Placed(job, (a + b)[x]) && Placed(job, (a + b)[y]) && Before(job, (a + b)[x], (a + b)[y])
    {
      if x < |a| && y >= |a| {
        assert a[x] in a && b[y - |a|] in b;
      }
    }
  }

  // ----- the order of the source -----

  // The line of the source that a piece comes from.
  ghost predicate ComesFrom(job: Job, p: Piece, k: nat) {
    && k < |job.source|
    && match p
       case Encoded(n) => job.Present(k) && job.keyLine[job.source[k].key] == n
       case Inserted(i) => i == k && job.Missing(i)
  }

  // The encoder kept the order of the keys.
  ghost predicate OrderKept(job: Job) {
    && (forall i | 0 <= i < |job.source| && job.Present(i) :: 0 < job.keyLine[job.source[i].key])
    && forall i, j | 0 <= i < j < |job.source| && job.Present(i) && job.Present(j) ::
         job.keyLine[job.source[i].key] < job.keyLine[job.source[j].key]
  }

  lemma PreviousFrom(job: Job, k: nat, i: nat)
    requires OrderKept(job) && k < |job.source| && i < |job.source| && job.Present(k) && job.Missing(i)
    ensures k < i <==> job.keyLine[job.source[k].key] <= job.Previous(i)
  {
    LastPresent(job, i);
    if j :| 0 <= j < i && job.Present(j) && job.Previous(i) == job.keyLine[job.source[j].key] &&
            forall m | j < m < i :: !job.Present(m)
    {
      assert k < i ==> k <= j;
    }
  }

  lemma {:induction false} LastPresent(job: Job, i: nat)
    requires i <= |job.source|
    ensures (job.Previous(i) == 0 && forall k | 0 <= k < i :: !job.Present(k)) ||
      exists j :: 0 <= j < i && job.Present(j) && job.Previous(i) == job.keyLine[job.source[j].key] &&
        forall k | j < k < i :: !job.Present(k)
  {
    if i > 0 && !job.Present(i - 1) {
      LastPresent(job, i - 1);
    }
  }

  // Then the result has its lines in the order of the source.
  lemma SourceOrder(job: Job, p: Piece, q: Piece, k: nat, l: nat)
    requires OrderKept(job) && ComesFrom(job, p, k) && ComesFrom(job, q, l) && Before(job, p, q)
    ensures k < l
  {
    match (p, q)
    case (Encoded(m), Encoded(n)) =>
    case (Encoded(n), Inserted(i)) => PreviousFrom(job, k, i);
    case (Inserted(i), Encoded(n)) => PreviousFrom(job, l, i);
    case (Inserted(i), Inserted(j)) => LastPresent(job, i); LastPresent(job, j);
  }

  // ----- dropped lines come back -----

  // How many of the first n source lines the encoder kept.
  function Rank(job: Job, n: nat): nat
    requires n <= |job.source|
  {
    if n == 0 then 0 else Rank(job, n - 1) + if job.Present(n - 1) then 1 else 0
  }

  function Kept(job: Job): nat {
    Rank(job, |job.source|)
  }

  // The source is a line for each key and then others, such as the empty one after the last
  // newline, and the encoder dropped some of the first and did nothing else.
  ghost predicate OnlyDropped(job: Job, encoded: seq<string>) {
    && |job.source| <= |job.raw| && Kept(job) <= |encoded|
    && encoded[Kept(job)..] == job.raw[|job.source|..]
    && forall i {:trigger job.Present(i)} | 0 <= i < |job.source| ::
         && job.source[i].line == i + 1
         && (job.Present(i) || job.Missing(i))
         && (job.Present(i) ==>
               var n := job.keyLine[job.source[i].key];
               n == Rank(job, i + 1) && 1 <= n <= Kept(job) && encoded[n - 1] == job.raw[i])
  }

  lemma {:induction false} RankGrows(job: Job, i: nat, j: nat)
    requires i <= j <= |job.source|
    ensures Rank(job, i) <= Rank(job, j)
    decreases j - i
  {
    if i < j {
      RankGrows(job, i, j - 1);
    }
  }

  lemma DroppedInOrder(job: Job, encoded: seq<string>)
    requires OnlyDropped(job, encoded)
    ensures OrderKept(job) && job.Valid()
  {
    forall i, j | 0 <= i < j < |job.source| && job.Present(i) && job.Present(j)
      ensures job.keyLine[job.source[i].key] < job.keyLine[job.source[j].key]
    {
      RankGrows(job, i + 1, j);
    }
    forall i, j | 0 <= i < j < |job.source| ensures job.source[i].line < job.source[j].line {
      assert (job.Present(i) || job.Missing(i)) && (job.Present(j) || job.Missing(j));
    }
  }

  // Every kept line is the only one of its rank.
  lemma {:induction false} RankReached(job: Job, n: nat, r: nat) returns (k: nat)
    requires n <= |job.source| && 0 < r <= Rank(job, n)
    ensures k < n && job.Present(k) && Rank(job, k + 1) == r
  {
    if Rank(job, n - 1) >= r {
      k := RankReached(job, n - 1, r);
    } else {
      k := n - 1;
    }
  }

  // The source line of a piece, and its text.
  lemma PieceFrom(job: Job, encoded: seq<string>, p: Piece) returns (k: nat)
    requires OnlyDropped(job, encoded) && Belongs(job, Kept(job), p)
    ensures ComesFrom(job, p, k) && TextOf(job, encoded, p) == job.raw[k]
  {
    match p
    case Encoded(n) => k := RankReached(job, |job.source|, n);
    case Inserted(i) => k := i; assert job.Present(i) || job.Missing(i);
  }

  lemma PieceOf(job: Job, encoded: seq<string>, k: nat) returns (p: Piece)
    requires OnlyDropped(job, encoded) && k < |job.source|
    ensures ComesFrom(job, p, k) && Belongs(job, Kept(job), p)
  {
    DroppedInOrder(job, encoded);
    LastPresent(job, k);
    if job.Present(k) {
      p := Encoded(job.keyLine[job.source[k].key]);
    } else {
      assert job.Missing(k);
      p := Inserted(k);
    }
  }

  // Increasing numbers that reach every one below m are those in turn.
  lemma {:induction false} InTurn(f: seq<nat>, m: nat, x: nat)
    requires forall i, j | 0 <= i < j < |f| :: f[i] < f[j]
    requires forall i | 0 <= i < |f| :: f[i] < m
    requires forall k: nat | k < m :: k in f
    requires x < m
    ensures x < |f| && f[x] == x
  {
    if x > 0 {
      InTurn(f, m, x - 1);
    }
    assert x in f;
    var y :| 0 <= y < |f| && f[y] == x;
    Beyond(f, y);
    if y < x {
      InTurn(f, m, y);
    }
  }

  lemma {:induction false} Beyond(f: seq<nat>, y: nat)
    requires forall i, j | 0 <= i < j < |f| :: f[i] < f[j]
    requires y < |f|
    ensures f[y] >= y
  {
    if y > 0 {
      Beyond(f, y - 1);
    }
  }

  // The source lines of the pieces.
  lemma {:induction false} SourceLines(job: Job, encoded: seq<string>, plan: seq<Piece>) returns (from: seq<nat>)
    requires OnlyDropped(job, encoded) && forall p | p in plan :: Belongs(job, Kept(job), p)
    ensures |from| == |plan|
    ensures forall x | 0 <= x < |plan| ::
      ComesFrom(job, plan[x], from[x]) && TextOf(job, encoded, plan[x]) == job.raw[from[x]]
  {
    hide OnlyDropped, Belongs, TextOf, ComesFrom;
    from := [];
    if plan != [] {
      var n := |plan| - 1;
      assert plan[n] in plan && forall p | p in plan[..n] :: p in plan;
      from := SourceLines(job, encoded, plan[..n]);
      var k := PieceFrom(job, encoded, plan[n]);
      from := from + [k];
    }
  }

  // A piece comes from one line.
  lemma OneSource(job: Job, p: Piece, k: nat, l: nat)
    requires OrderKept(job) && ComesFrom(job, p, k) && ComesFrom(job, p, l)
    ensures k == l
  {
  }

  lemma PlanInTurn(job: Job, encoded: seq<string>, plan: seq<Piece>, from: seq<nat>, x: nat)
    requires OnlyDropped(job, encoded) && InPlace(job, plan) && |from| == |plan|
    requires forall p :: p in plan <==> Belongs(job, Kept(job), p)
    requires forall x | 0 <= x < |plan| :: ComesFrom(job, plan[x], from[x])
    ensures x < |job.source| ==> x < |plan| && from[x] == x
    ensures x < |plan| ==> x < |job.source|
  {
    hide OnlyDropped, Belongs, Before;
    DroppedInOrder(job, encoded);
    forall i, j | 0 <= i < j < |from| ensures from[i] < from[j] {
      assert Before(job, plan[i], plan[j]);
      SourceOrder(job, plan[i], plan[j], from[i], from[j]);
    }
    forall k: nat | k < |job.source| ensures k in from {
      var p := PieceOf(job, encoded, k);
      var i :| 0 <= i < |plan| && plan[i] == p;
      OneSource(job, p, from[i], k);
    }
    if x < |job.source| {
      InTurn(from, |job.source|, x);
    } else if x < |plan| {
      assert ComesFrom(job, plan[x], from[x]);
      Beyond(from, x);
    }
  }

  lemma KeyedLinesRestored(job: Job, encoded: seq<string>)
    requires OnlyDropped(job, encoded)
    ensures TextsOf(job, encoded, Plan(job, Kept(job))) == job.raw[..|job.source|]
  {
    hide Plan, Before, ComesFrom, Belongs, InPlace, TextOf;
    var plan := Plan(job, Kept(job));
    EachOnceInPlace(job, Kept(job));
    var from := SourceLines(job, encoded, plan);
    PlanInTurn(job, encoded, plan, from, |plan|);
    PlanInTurn(job, encoded, plan, from, |job.source|);
    forall x | 0 <= x < |plan| ensures x < |job.source| && TextsOf(job, encoded, plan)[x] == job.raw[x] {
      PlanInTurn(job, encoded, plan, from, x);
    }
  }

  // Nothing is to go after a later line.
  lemma NothingAfter(job: Job, encoded: seq<string>, n: nat)
    requires OnlyDropped(job, encoded) && n > Kept(job)
    ensures Bucket(job.Insertions(|job.source|), n) == []
  {
    var items := Bucket(job.Insertions(|job.source|), n);
    BucketIs(job, |job.source|, n);
    if items != [] {
      var i := items[0];
      assert i in items;
      LastPresent(job, i);
    }
  }

  lemma {:induction false} RestRestored(job: Job, encoded: seq<string>, n: nat)
    requires OnlyDropped(job, encoded) && Kept(job) <= n <= |encoded|
    ensures TextsOf(job, encoded, Plan(job, n)) == job.raw[..|job.source| + n - Kept(job)]
  {
    hide OnlyDropped, Bucket, Pieces, TextsOf;
    if n == Kept(job) {
      KeyedLinesRestored(job, encoded);
    } else {
      RestRestored(job, encoded, n - 1);
      NothingAfter(job, encoded, n);
      PlanStep(job, encoded, n);
      assert Pieces(job, []) == [] by { NoPieces(job); }
      assert Plan(job, n) == Plan(job, n - 1) + [Encoded(n)];
      RestLine(job, encoded, n);
    }
  }

  lemma NoPieces(job: Job)
    ensures Pieces(job, []) == []
  {
  }

  lemma RestLine(job: Job, encoded: seq<string>, n: nat)
    requires OnlyDropped(job, encoded) && Kept(job) < n <= |encoded|
    ensures var m := |job.source| + n - Kept(job); m <= |job.raw| && job.raw[..m] == job.raw[..m - 1] + [encoded[n - 1]]
  {
    var m := |job.source| + n - Kept(job);
    assert |encoded[Kept(job)..]| == |job.raw[|job.source|..]|;
    assert encoded[Kept(job)..][n - 1 - Kept(job)] == job.raw[|job.source|..][n - 1 - Kept(job)];
  }

  // Where the encoder only dropped lines, the result is the source.
  lemma DroppedLinesRestored(job: Job, encoded: seq<string>)
    requires OnlyDropped(job, encoded)
    ensures TextsOf(job, encoded, Plan(job, |encoded|)) == job.raw
  {
    hide Plan, TextsOf;
    RestRestored(job, encoded, |encoded|);
    assert |encoded[Kept(job)..]| == |job.raw[|job.source|..]|;
    assert job.raw[..|job.raw|] == job.raw;
  }
}
