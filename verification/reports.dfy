/** The contents of the three CSV reports a job writes
    (`createMissingFile`, `createRawFile`, `createUnMatchedFile`), as
    tables of rows of fields; header included, file handling left out.
 */
module Reports {
  import opened Results
  import opened Codec
  import opened Records

  /** One CSV record. */
  type Row = seq<string>

  type Table = seq<Row>

  const MissingHeader: Row := ["source row", "source type", "target row", "changed indices"]
  const RawHeader: Row := ["row", "raw"]
  const UnmatchedHeader: Row := ["Id", "Type", "Raw"]

  // The missing report: one row per not-found line.

  /** The "target row" column: `Id + "-" + Type + " | "` per candidate. */
  function IdsColumn(cs: seq<Closest>): string
  {
    if |cs| == 0 then "" else cs[0].id + "-" + cs[0].typ + " | " + IdsColumn(cs[1..])
  }

  /** The "changed indices" column: `Indices + "|"` per candidate. */
  function IndicesColumn(cs: seq<Closest>): string
  {
    if |cs| == 0 then "" else cs[0].indices + "|" + IndicesColumn(cs[1..])
  }

  function MissingRow(nf: NotFoundRow): Row
  {
    [nf.row, nf.typ, IdsColumn(nf.closest), IndicesColumn(nf.closest)]
  }

  function MissingRows(nfs: seq<NotFoundRow>): (t: Table)
    ensures |t| == |nfs|
    ensures forall i :: 0 <= i < |nfs| ==> t[i] == MissingRow(nfs[i])
  {
    if |nfs| == 0 then [] else [MissingRow(nfs[0])] + MissingRows(nfs[1..])
  }

  /** `createMissingFile`: the header, then one row per not-found line in
      order, every not-found line reported whether or not it has
      candidates. */
  function MissingReport(nfs: seq<NotFoundRow>): (t: Table)
    ensures |t| == |nfs| + 1 && t[0] == MissingHeader
    ensures forall i :: 0 <= i < |nfs| ==>
      && |t[i + 1]| == 4
      && t[i + 1][0] == nfs[i].row
      && t[i + 1][1] == nfs[i].typ
      && (|nfs[i].closest| == 0 <==> t[i + 1][2] == "" && t[i + 1][3] == "")
  {
    [MissingHeader] + MissingRows(nfs)
  }

  function IndicesOf(cs: seq<Closest>): (r: seq<string>)
    ensures |r| == |cs|
    ensures forall i :: 0 <= i < |cs| ==> r[i] == cs[i].indices
  {
    seq(|cs|, i requires 0 <= i < |cs| => cs[i].indices)
  }

  /** The "changed indices" column splits on '|' back into the candidates'
      index texts, followed by the empty piece after the last bar. */
  lemma {:induction false} IndicesColumnRoundTrip(cs: seq<Closest>)
    requires forall i :: 0 <= i < |cs| ==> '|' !in cs[i].indices
    ensures Split(IndicesColumn(cs), '|') == IndicesOf(cs) + [""]
    decreases |cs|
  {
    if |cs| > 0 {
      IndicesColumnRoundTrip(cs[1..]);
      assert IndicesColumn(cs) == cs[0].indices + ['|'] + IndicesColumn(cs[1..]);
      SplitAfterPiece(cs[0].indices, '|', IndicesColumn(cs[1..]));
      assert IndicesOf(cs) == [cs[0].indices] + IndicesOf(cs[1..]);
    }
  }

  /** Reads the "target row" column back, 14 bytes per candidate: a 6-byte
      id, '-', a 4-byte type and " | ". */
  function ParseIdsColumn(s: string): seq<(string, string)>
    decreases |s|
  {
    if |s| < 14 then [] else [(s[..6], s[7..11])] + ParseIdsColumn(s[14..])
  }

  function IdTypes(cs: seq<Closest>): (r: seq<(string, string)>)
    ensures |r| == |cs|
    ensures forall i :: 0 <= i < |cs| ==> r[i] == (cs[i].id, cs[i].typ)
  {
    seq(|cs|, i requires 0 <= i < |cs| => (cs[i].id, cs[i].typ))
  }

  /** With ids of 6 bytes and type codes of 4, as every candidate has, the
      "target row" column holds exactly the candidates' ids and types, in
      order. */
  lemma {:induction false} IdsColumnRoundTrip(cs: seq<Closest>)
    requires forall i :: 0 <= i < |cs| ==> |cs[i].id| == 6 && |cs[i].typ| == 4
    ensures |IdsColumn(cs)| == 14 * |cs|
    ensures ParseIdsColumn(IdsColumn(cs)) == IdTypes(cs)
    decreases |cs|
  {
    if |cs| > 0 {
      IdsColumnRoundTrip(cs[1..]);
      var s := IdsColumn(cs);
      var head := cs[0].id + "-" + cs[0].typ + " | ";
      assert s == head + IdsColumn(cs[1..]);
      assert s[..6] == cs[0].id;
      assert s[7..11] == cs[0].typ;
      assert s[14..] == IdsColumn(cs[1..]);
      assert IdTypes(cs) == [(cs[0].id, cs[0].typ)] + IdTypes(cs[1..]);
    }
  }

  // The raw report: the not-found line and its best candidate.

  /** The selection loop of `createRawFile`, from candidate `i` on, with
      `best` the pick so far: a later candidate replaces it only when its
      index text is strictly shorter. */
  function PickFrom(cs: seq<Closest>, best: nat, i: nat): (k: nat)
    requires best < i <= |cs|
    requires forall j :: 0 <= j < i ==> |cs[best].indices| <= |cs[j].indices|
    requires forall j :: 0 <= j < best ==> |cs[best].indices| < |cs[j].indices|
    ensures k < |cs|
    ensures forall j :: 0 <= j < |cs| ==> |cs[k].indices| <= |cs[j].indices|
    ensures forall j :: 0 <= j < k ==> |cs[k].indices| < |cs[j].indices|
    decreases |cs| - i
  {
    if i == |cs| then best
    else if |cs[i].indices| < |cs[best].indices| then PickFrom(cs, i, i + 1)
    else PickFrom(cs, best, i + 1)
  }

  /** The candidate the raw report shows: the first one whose index text
      is shortest. */
  function PickClosest(cs: seq<Closest>): (k: nat)
    requires |cs| > 0
    ensures k < |cs|
    ensures forall j :: 0 <= j < |cs| ==> |cs[k].indices| <= |cs[j].indices|
    ensures forall j :: 0 <= j < k ==> |cs[k].indices| < |cs[j].indices|
  {
    PickFrom(cs, 0, 1)
  }

  /** The not-found rows that have at least one candidate, in order. */
  function WithCandidates(nfs: seq<NotFoundRow>): (r: seq<NotFoundRow>)
    ensures |r| <= |nfs|
    ensures forall x :: x in r <==> x in nfs && |x.closest| > 0
  {
    if |nfs| == 0 then []
    else (if |nfs[0].closest| > 0 then [nfs[0]] else []) + WithCandidates(nfs[1..])
  }

  function RawBlock(nf: NotFoundRow): Table
    requires |nf.closest| > 0
  {
    var best := nf.closest[PickClosest(nf.closest)];
    [[nf.row, nf.raw], [best.id, best.raw], []]
  }

  function RawBlocks(nfs: seq<NotFoundRow>): Table
  {
    if |nfs| == 0 then []
    else (if |nfs[0].closest| > 0 then RawBlock(nfs[0]) else []) + RawBlocks(nfs[1..])
  }

  /** `createRawFile`: the header, then three rows per not-found line with
      candidates (the line, its pick, an empty separator row); lines with
      no candidate are skipped. */
  function RawReport(nfs: seq<NotFoundRow>): (t: Table)
    ensures |t| >= 1 && t[0] == RawHeader
  {
    [RawHeader] + RawBlocks(nfs)
  }

  /** The candidate the raw report shows for a line with candidates. */
  function Best(nf: NotFoundRow): Closest
    requires |nf.closest| > 0
  {
    nf.closest[PickClosest(nf.closest)]
  }

  /** Rows 3m, 3m+1 and 3m+2 of `t` are the block of `nf`. */
  predicate BlockAt(t: Table, m: nat, nf: NotFoundRow)
    requires |nf.closest| > 0
  {
    && 3 * m + 2 < |t|
    && t[3 * m] == [nf.row, nf.raw]
    && t[3 * m + 1] == [Best(nf).id, Best(nf).raw]
    && t[3 * m + 2] == []
  }

  /** Lines without candidates contribute nothing to the raw report. */
  lemma {:induction false} RawBlocksSkipBare(nfs: seq<NotFoundRow>)
    ensures RawBlocks(nfs) == RawBlocks(WithCandidates(nfs))
    decreases |nfs|
  {
    if |nfs| > 0 {
      RawBlocksSkipBare(nfs[1..]);
      var w' := WithCandidates(nfs[1..]);
      if |nfs[0].closest| > 0 {
        assert WithCandidates(nfs) == [nfs[0]] + w';
        assert ([nfs[0]] + w')[1..] == w';
      } else {
        assert WithCandidates(nfs) == w';
      }
    }
  }

  lemma {:induction false} RawBlocksIndexed(w: seq<NotFoundRow>)
    requires forall i :: 0 <= i < |w| ==> |w[i].closest| > 0
    ensures |RawBlocks(w)| == 3 * |w|
    ensures forall m :: 0 <= m < |w| ==> BlockAt(RawBlocks(w), m, w[m])
    decreases |w|
  {
    if |w| > 0 {
      var t' := RawBlocks(w[1..]);
      RawBlocksIndexed(w[1..]);
      var t := RawBlocks(w);
      assert t == RawBlock(w[0]) + t';
      forall m | 0 <= m < |w| ensures BlockAt(t, m, w[m]) {
        if m > 0 {
          assert BlockAt(t', m - 1, w[1..][m - 1]);
        }
      }
    }
  }

  /** Block `m` of the raw report belongs to the `m`-th not-found line that
      has candidates, and shows the first of its shortest-index
      candidates. */
  lemma RawBlocksLayout(nfs: seq<NotFoundRow>)
    ensures |RawBlocks(nfs)| == 3 * |WithCandidates(nfs)|
    ensures forall m :: 0 <= m < |WithCandidates(nfs)| ==>
      BlockAt(RawBlocks(nfs), m, WithCandidates(nfs)[m])
  {
    var w := WithCandidates(nfs);
    assert forall i :: 0 <= i < |w| ==> w[i] in w;
    RawBlocksSkipBare(nfs);
    RawBlocksIndexed(w);
  }

  // The unmatched report: every leftover still holding a copy.

  /** A leftover the unmatched report lists. */
  predicate Listed(row: StagingRow)
  {
    row.count > 0 && row.raw != ""
  }

  function ListedRows(rows: seq<StagingRow>): (r: seq<StagingRow>)
    ensures forall x :: x in r <==> x in rows && Listed(x)
  {
    if |rows| == 0 then []
    else (if Listed(rows[0]) then [rows[0]] else []) + ListedRows(rows[1..])
  }

  function UnmatchedRows(rows: seq<StagingRow>): (r: Result<Table>)
    ensures r.Err? <==> exists j :: 0 <= j < |rows| && Listed(rows[j]) && |rows[j].raw| < 10
    ensures r.Ok? ==> var l := ListedRows(rows);
      && |r.value| == |l|
      && forall m :: 0 <= m < |l| ==> 10 <= |l[m].raw| && r.value[m] == [l[m].raw[..6], l[m].raw[6..10], l[m].raw]
    decreases |rows|
  {
    if |rows| == 0 then Ok([])
    else if Listed(rows[0]) && |rows[0].raw| < 10 then Err(SegmentOutOfRange(rows[0].raw))
    else
      match UnmatchedRows(rows[1..])
      case Err(f) =>
        assert exists j :: 0 <= j < |rows[1..]| && Listed(rows[1..][j]) && |rows[1..][j].raw| < 10;
        Err(f)
      case Ok(t) =>
        var l := ListedRows(rows);
        if Listed(rows[0]) then
          assert l == [rows[0]] + ListedRows(rows[1..]);
          Ok([[rows[0].raw[..6], rows[0].raw[6..10], rows[0].raw]] + t)
        else
          assert l == ListedRows(rows[1..]);
          Ok(t)
  }

  /** `createUnMatchedFile`: the header, then id, type and text of every
      leftover that still holds a copy and has text; one too short for its
      id and type segments is a panic. */
  function UnmatchedReport(rows: seq<StagingRow>): (r: Result<Table>)
    ensures r.Err? <==> exists j :: 0 <= j < |rows| && Listed(rows[j]) && |rows[j].raw| < 10
    ensures r.Ok? ==> |r.value| == |ListedRows(rows)| + 1 && r.value[0] == UnmatchedHeader
  {
    match UnmatchedRows(rows)
    case Err(f) => Err(f)
    case Ok(t) => Ok([UnmatchedHeader] + t)
  }
}
