/** The closest-match pass of a job (`compareString`, `findClosest`):
    every not-found source line is offered each leftover target line of
    its own type code whose payload differs from it in one to five byte
    positions, and every offer uses up one copy of that leftover.
 */
module Matching {
  import opened Results
  import opened Codec
  import opened Records

  predicate Increasing(ps: seq<nat>) {
    forall a, b :: 0 <= a < b < |ps| ==> ps[a] < ps[b]
  }

  /** The `for index := range source` loop of `compareString`, from byte
      `i` on: positions past 10 where the lines differ. Reading the target
      past its end is a panic. */
  function DiffFrom(source: string, target: string, i: nat): (r: Result<seq<nat>>)
    ensures r.Err? <==> i < |source| && 12 <= |source| && |target| < |source|
    ensures r.Ok? ==> forall p :: p in r.value <==>
      i <= p < |source| && 10 < p && p < |target| && source[p] != target[p]
    ensures r.Ok? ==> Increasing(r.value)
    decreases |source| - i
  {
    if i >= |source| then Ok([])
    else if 10 < i && |target| <= i then Err(CompareOutOfRange(source, target))
    else
      match DiffFrom(source, target, i + 1)
      case Err(f) => Err(f)
      case Ok(rest) =>
        forall a | 0 <= a < |rest| ensures i < rest[a] {
          assert rest[a] in rest;
        }
        Ok(if 10 < i && source[i] != target[i] then [i] + rest else rest)
  }

  /** `compareString`: no positions at all unless both lines carry the
      same type code [6,10); otherwise the positions after 10 where they
      differ, in increasing order. Position 10 itself is never compared. */
  function CompareString(source: string, target: string): (r: Result<seq<nat>>)
    ensures r.Err? <==>
      || |source| < 10 || |target| < 10
      || (source[6..10] == target[6..10] && 12 <= |source| && |target| < |source|)
    ensures r.Ok? && source[6..10] != target[6..10] ==> r.value == []
    ensures r.Ok? && source[6..10] == target[6..10] ==> forall p :: p in r.value <==>
      10 < p < |source| && p < |target| && source[p] != target[p]
    ensures r.Ok? ==> Increasing(r.value)
  {
    if |source| < 10 || |target| < 10 then Err(CompareOutOfRange(source, target))
    else if source[6..10] != target[6..10] then Ok([])
    else DiffFrom(source, target, 0)
  }

  /** A leftover row is offered to a not-found text when it still holds a
      copy and differs from it in one to five compared positions. */
  predicate Eligible(raw: string, row: StagingRow)
  {
    && row.count > 0
    && CompareString(raw, row.raw).Ok?
    && 1 <= |CompareString(raw, row.raw).value| <= 5
  }

  /** A candidate as `findClosest` builds it for the not-found text `raw`. */
  predicate CloseMatch(raw: string, c: Closest)
  {
    && CompareString(raw, c.raw).Ok?
    && 1 <= |CompareString(raw, c.raw).value| <= 5
    && 10 <= |c.raw|
    && c.id == c.raw[..6]
    && c.typ == c.raw[6..10]
    && c.indices == RenderIndices(CompareString(raw, c.raw).value)
  }

  /** Every candidate shares the type code of its not-found line, and its
      `indices` text reads back as one to five increasing positions, each
      past 10, where the two lines differ. */
  lemma CloseMatchMeaning(raw: string, c: Closest)
    requires CloseMatch(raw, c)
    ensures 10 <= |raw| && c.typ == raw[6..10]
    ensures ParseIndices(c.indices).Some?
    ensures var ps := ParseIndices(c.indices).value;
      && 1 <= |ps| <= 5
      && Increasing(ps)
      && forall p :: p in ps ==> 10 < p < |raw| && p < |c.raw| && raw[p] != c.raw[p]
  {
    var ps := CompareString(raw, c.raw).value;
    RenderIndicesRoundTrip(ps);
  }

  /** One step of the inner `findClosest` loop. */
  function Offer(raw: string, row: StagingRow): (r: Result<Option<Closest>>)
    ensures r.Err? <==> row.count > 0 && CompareString(raw, row.raw).Err?
    ensures r.Ok? ==> (r.value.Some? <==> Eligible(raw, row))
    ensures r.Ok? && r.value.Some? ==> CloseMatch(raw, r.value.value) && r.value.value.raw == row.raw
  {
    if row.count <= 0 then Ok(None)
    else
      match CompareString(raw, row.raw)
      case Err(f) => Err(f)
      case Ok(ps) =>
        if 0 < |ps| <= 5 then Ok(Some(Closest(row.raw[..6], row.raw[6..10], row.raw, RenderIndices(ps))))
        else Ok(None)
  }

  /** The candidate `findClosest` builds from a leftover it offers: the
      leftover's id, type and text, and the `:`-joined differing
      positions. */
  function CandidateOf(raw: string, row: StagingRow): (c: Closest)
    requires Eligible(raw, row)
    ensures CloseMatch(raw, c) && c.raw == row.raw
  {
    Closest(row.raw[..6], row.raw[6..10], row.raw, RenderIndices(CompareString(raw, row.raw).value))
  }

  /** Reference for one pass over the leftovers: the candidates a
      not-found text gets, one per eligible row, in row order. */
  function Offers(raw: string, rows: seq<StagingRow>): (cs: seq<Closest>)
    ensures |cs| <= |rows|
    ensures forall c :: c in cs ==>
      && CloseMatch(raw, c)
      && exists j :: 0 <= j < |rows| && Eligible(raw, rows[j]) && c.raw == rows[j].raw
    decreases |rows|
  {
    if |rows| == 0 then []
    else
      var rest := Offers(raw, rows[1..]);
      assert forall c :: c in rest ==> exists j :: 0 <= j < |rows[1..]| && Eligible(raw, rows[1..][j]) && c.raw == rows[1..][j].raw;
      (if Eligible(raw, rows[0]) then [CandidateOf(raw, rows[0])] else []) + rest
  }

  /** Reference for the leftovers after that pass: every eligible row
      has lost one copy, every other row is as it was. */
  function Drain(raw: string, rows: seq<StagingRow>): (r: seq<StagingRow>)
    ensures |r| == |rows|
    ensures forall j :: 0 <= j < |rows| ==>
      && r[j].raw == rows[j].raw
      && r[j].count == rows[j].count - (if Eligible(raw, rows[j]) then 1 else 0)
  {
    seq(|rows|, j requires 0 <= j < |rows| => if Eligible(raw, rows[j]) then rows[j].(count := rows[j].count - 1) else rows[j])
  }

  lemma DrainStep(raw: string, rows: seq<StagingRow>)
    requires |rows| > 0
    ensures Drain(raw, rows) ==
      [if Eligible(raw, rows[0]) then rows[0].(count := rows[0].count - 1) else rows[0]] + Drain(raw, rows[1..])
  {
    var d := Drain(raw, rows);
    var d' := [if Eligible(raw, rows[0]) then rows[0].(count := rows[0].count - 1) else rows[0]] + Drain(raw, rows[1..]);
    forall j | 0 <= j < |rows| ensures d[j] == d'[j] {
      if j > 0 {
        assert rows[1..][j - 1] == rows[j];
      }
    }
  }

  /** The inner `findClosest` loop for one not-found text: a full pass over
      the leftovers with no early exit, each eligible row yielding one
      candidate and losing one copy. */
  function Attach(raw: string, rows: seq<StagingRow>): (r: Result<(seq<Closest>, seq<StagingRow>)>)
    ensures r.Err? <==> exists j :: 0 <= j < |rows| && rows[j].count > 0 && CompareString(raw, rows[j].raw).Err?
    ensures r.Ok? ==> |r.value.1| == |rows|
    ensures r.Ok? ==> forall j :: 0 <= j < |rows| ==>
      && r.value.1[j].raw == rows[j].raw
      && r.value.1[j].count == rows[j].count - (if Eligible(raw, rows[j]) then 1 else 0)
    ensures r.Ok? ==> forall c :: c in r.value.0 ==> CloseMatch(raw, c)
    ensures r.Ok? ==> |r.value.0| == Sum(rows) - Sum(r.value.1)
    // each eligible row, and only those, yields its own candidate, in row order
    ensures r.Ok? ==> r.value.0 == Offers(raw, rows) && r.value.1 == Drain(raw, rows)
    decreases |rows|
  {
    if |rows| == 0 then Ok(([], []))
    else
      match Offer(raw, rows[0])
      case Err(f) => Err(f)
      case Ok(o) =>
        match Attach(raw, rows[1..])
        case Err(f) =>
          assert exists j :: 0 <= j < |rows[1..]| && rows[1..][j].count > 0 && CompareString(raw, rows[1..][j].raw).Err?;
          Err(f)
        case Ok(res) =>
          var (cs, rest) := res;
          var head := if o.Some? then rows[0].(count := rows[0].count - 1) else rows[0];
          var rows' := [head] + rest;
          assert rows'[1..] == rest;
          assert o.Some? ==> o.value == CandidateOf(raw, rows[0]);
          DrainStep(raw, rows);
          Ok(((if o.Some? then [o.value] else []) + cs, rows'))
  }

  /** How many candidates the rows carry in all. */
  function Attached(nfs: seq<NotFoundRow>): nat
  {
    if |nfs| == 0 then 0 else |nfs[0].closest| + Attached(nfs[1..])
  }

  /** Reference for the leftovers as the pass finds them when it reaches
      not-found row `i`: drained once by each earlier row. */
  function RowsBefore(nfs: seq<NotFoundRow>, rows: seq<StagingRow>, i: nat): (r: seq<StagingRow>)
    requires i <= |nfs|
    ensures |r| == |rows|
    ensures forall j :: 0 <= j < |rows| ==> r[j].raw == rows[j].raw && r[j].count <= rows[j].count
    decreases i
  {
    if i == 0 then rows else RowsBefore(nfs[1..], Drain(nfs[0].raw, rows), i - 1)
  }

  /** Some not-found row meets, while it still holds a copy, a leftover
      that `compareString` cannot compare it with. */
  predicate MatchPanics(nfs: seq<NotFoundRow>, rows: seq<StagingRow>)
  {
    exists i, j :: 0 <= i < |nfs| && 0 <= j < |rows| &&
      RowsBefore(nfs, rows, i)[j].count > 0 && CompareString(nfs[i].raw, rows[j].raw).Err?
  }

  /** The pass panics on its first row, or later on the drained rows. */
  lemma MatchPanicsStep(nfs: seq<NotFoundRow>, rows: seq<StagingRow>)
    requires |nfs| > 0
    ensures MatchPanics(nfs, rows) <==>
      || (exists j :: 0 <= j < |rows| && rows[j].count > 0 && CompareString(nfs[0].raw, rows[j].raw).Err?)
      || MatchPanics(nfs[1..], Drain(nfs[0].raw, rows))
  {
    var rows1 := Drain(nfs[0].raw, rows);
    if MatchPanics(nfs, rows) {
      var i, j :| 0 <= i < |nfs| && 0 <= j < |rows| &&
        RowsBefore(nfs, rows, i)[j].count > 0 && CompareString(nfs[i].raw, rows[j].raw).Err?;
      if i > 0 {
        assert nfs[1..][i - 1] == nfs[i];
        assert RowsBefore(nfs[1..], rows1, i - 1)[j].count > 0;
        assert rows1[j].raw == rows[j].raw;
      }
    }
    if MatchPanics(nfs[1..], rows1) {
      var i, j :| 0 <= i < |nfs[1..]| && 0 <= j < |rows1| &&
        RowsBefore(nfs[1..], rows1, i)[j].count > 0 && CompareString(nfs[1..][i].raw, rows1[j].raw).Err?;
      assert RowsBefore(nfs, rows, i + 1)[j].count > 0;
      assert nfs[i + 1] == nfs[1..][i];
    }
    if exists j :: 0 <= j < |rows| && rows[j].count > 0 && CompareString(nfs[0].raw, rows[j].raw).Err? {
      var j :| 0 <= j < |rows| && rows[j].count > 0 && CompareString(nfs[0].raw, rows[j].raw).Err?;
      assert RowsBefore(nfs, rows, 0)[j].count > 0;
    }
  }

  /** Some not-found row and some leftover that holds a copy to begin
      with cannot be compared. */
  predicate PairPanics(nfs: seq<NotFoundRow>, rows: seq<StagingRow>)
  {
    exists i, j ::
      && 0 <= i < |nfs| && 0 <= j < |rows|
      && rows[j].count > 0 && CompareString(nfs[i].raw, rows[j].raw).Err?
  }

  /** Copies are only ever taken, so a panic of the pass is one on a
      leftover that held a copy to begin with. */
  lemma PanicNeedsLivePair(nfs: seq<NotFoundRow>, rows: seq<StagingRow>)
    ensures MatchPanics(nfs, rows) ==> PairPanics(nfs, rows)
  {
    if MatchPanics(nfs, rows) {
      var i, j :| 0 <= i < |nfs| && 0 <= j < |rows| &&
        RowsBefore(nfs, rows, i)[j].count > 0 && CompareString(nfs[i].raw, rows[j].raw).Err?;
      assert rows[j].count > 0;
    }
  }

  /** A not-found row after the pass: the same line, its candidates
      extended by close matches only. */
  predicate GainsCandidates(nf: NotFoundRow, nf': NotFoundRow)
  {
    && nf'.row == nf.row
    && nf'.typ == nf.typ
    && nf'.raw == nf.raw
    && |nf.closest| <= |nf'.closest|
    && nf'.closest[..|nf.closest|] == nf.closest
    && forall c :: c in nf'.closest[|nf.closest|..] ==> CloseMatch(nf.raw, c)
  }

  /** A leftover after the pass: the same text, copies only taken, never
      below zero. */
  predicate LosesCopies(row: StagingRow, row': StagingRow)
  {
    && row'.raw == row.raw
    && row'.count <= row.count
    && (row.count >= 0 ==> row'.count >= 0)
  }

  /** `findClosest` over the not-found rows in source order, threading the
      leftover counts from one row to the next. */
  function FindClosest(nfs: seq<NotFoundRow>, rows: seq<StagingRow>): (r: Result<(seq<NotFoundRow>, seq<StagingRow>)>)
    ensures r.Ok? ==> |r.value.0| == |nfs| && |r.value.1| == |rows|
    ensures r.Ok? ==> forall i :: 0 <= i < |nfs| ==> GainsCandidates(nfs[i], r.value.0[i])
    ensures r.Ok? ==> forall j :: 0 <= j < |rows| ==> LosesCopies(rows[j], r.value.1[j])
    // every copy taken from a leftover is one candidate attached
    ensures r.Ok? ==> Attached(r.value.0) == Attached(nfs) + Sum(rows) - Sum(r.value.1)
    // the pass panics exactly when compareString does, and only on a
    // pair of a not-found row and a leftover that held a copy to begin with
    ensures r.Err? <==> MatchPanics(nfs, rows)
    ensures r.Err? ==> PairPanics(nfs, rows)
    decreases |nfs|
  {
    if |nfs| == 0 then Ok(([], rows))
    else
      var nf := nfs[0];
      MatchPanicsStep(nfs, rows);
      PanicNeedsLivePair(nfs, rows);
      match Attach(nf.raw, rows)
      case Err(f) => Err(f)
      case Ok(res) =>
        var (cs, rows1) := res;
        match FindClosest(nfs[1..], rows1)
        case Err(f) => Err(f)
        case Ok(res2) =>
          var (rest, rows2) := res2;
          var nf' := nf.(closest := nf.closest + cs);
          assert nf'.closest[..|nf.closest|] == nf.closest;
          assert nf'.closest[|nf.closest|..] == cs;
          var out := [nf'] + rest;
          assert out[1..] == rest;
          Ok((out, rows2))
  }

  /** The pass agrees with the reference: not-found row `i` gains exactly
      the offers of the leftovers as the earlier rows left them, and the
      leftovers end drained once by every row. */
  lemma {:induction false} FindClosestFollowsOffers(nfs: seq<NotFoundRow>, rows: seq<StagingRow>)
    requires FindClosest(nfs, rows).Ok?
    ensures var (out, left) := FindClosest(nfs, rows).value;
      && left == RowsBefore(nfs, rows, |nfs|)
      && forall i :: 0 <= i < |nfs| ==>
           out[i] == nfs[i].(closest := nfs[i].closest + Offers(nfs[i].raw, RowsBefore(nfs, rows, i)))
    decreases |nfs|
  {
    if |nfs| > 0 {
      var rows1 := Attach(nfs[0].raw, rows).value.1;
      FindClosestFollowsOffers(nfs[1..], rows1);
      var out := FindClosest(nfs, rows).value.0;
      var rest := FindClosest(nfs[1..], rows1).value.0;
      forall i | 1 <= i < |nfs|
        ensures out[i] == nfs[i].(closest := nfs[i].closest + Offers(nfs[i].raw, RowsBefore(nfs, rows, i)))
      {
        assert nfs[1..][i - 1] == nfs[i];
        assert out[i] == rest[i - 1];
      }
    }
  }

  /** How many of the not-found rows leftover `j` is offered to: one for
      each row that finds it eligible as the earlier rows left it. */
  function Uses(nfs: seq<NotFoundRow>, rows: seq<StagingRow>, j: nat): nat
    requires j < |rows|
    decreases |nfs|
  {
    if |nfs| == 0 then 0
    else (if Eligible(nfs[0].raw, rows[j]) then 1 else 0) + Uses(nfs[1..], Drain(nfs[0].raw, rows), j)
  }

  /** No leftover is attached more often than it has copies, and the
      copies it ends with are those it started with less its offers. */
  lemma {:induction false} LeftoverOfferedAtMostItsCount(nfs: seq<NotFoundRow>, rows: seq<StagingRow>, j: nat)
    requires j < |rows| && rows[j].count >= 0
    ensures Uses(nfs, rows, j) <= rows[j].count
    ensures RowsBefore(nfs, rows, |nfs|)[j].count == rows[j].count - Uses(nfs, rows, j)
    decreases |nfs|
  {
    if |nfs| > 0 {
      LeftoverOfferedAtMostItsCount(nfs[1..], Drain(nfs[0].raw, rows), j);
    }
  }
}
