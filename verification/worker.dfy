/** One job of a worker (`doComparison`): build the target buffer, scan
    the source against it, attach closest candidates to the not-found
    lines, and produce the three reports. Every job starts from an empty
    target buffer and an empty leftover list.
 */
module Worker {
  import opened Results
  import opened Codec
  import opened Records
  import opened Staging
  import opened Diff
  import opened Matching
  import opened Reports

  /** The state of a job after the closest-match pass. */
  datatype Outcome = Outcome(notFound: seq<NotFoundRow>, leftovers: seq<StagingRow>)

  datatype JobReport = JobReport(missing: Table, raw: Table, unmatched: Table)

  /** Build, scan and closest-match pass of one job. */
  function Reconcile(targetLines: seq<string>, sourceLines: seq<string>): (r: Result<Outcome>)
    ensures r.Ok? ==> (forall i :: 0 <= i < |targetLines| ==> 7 <= |targetLines[i]|)
    ensures r.Ok? ==> NonNegative(r.value.leftovers)
    ensures r.Ok? ==> forall i :: 0 <= i < |r.value.notFound| ==>
      var nf := r.value.notFound[i];
      && 10 <= |nf.raw| && nf.row == nf.raw[..6] && nf.typ == nf.raw[6..10]
      && forall c :: c in nf.closest ==> CloseMatch(nf.raw, c)
  {
    match Build(targetLines)
    case Err(f) => Err(f)
    case Ok(b) =>
      match Scan(b, sourceLines)
      case Err(f) => Err(f)
      case Ok(st) =>
        match FindClosest(st.notFound, Leftovers(st.buffer))
        case Err(f) => Err(f)
        case Ok(res) =>
          var (nfs, rows) := res;
          assert forall i :: 0 <= i < |nfs| ==> nfs[i].closest[|st.notFound[i].closest|..] == nfs[i].closest;
          Ok(Outcome(nfs, rows))
  }

  /** `doComparison`: the three reports of one job, or the fault that
      stopped it. */
  function DoComparison(targetLines: seq<string>, sourceLines: seq<string>): (r: Result<JobReport>)
    ensures r.Ok? ==> Reconcile(targetLines, sourceLines).Ok?
    // past the pass, the job panics only on a listed leftover too short
    // for its id and type segments
    ensures r.Err? <==>
      || Reconcile(targetLines, sourceLines).Err?
      || (var o := Reconcile(targetLines, sourceLines).value;
          exists j :: 0 <= j < |o.leftovers| && Listed(o.leftovers[j]) && |o.leftovers[j].raw| < 10)
    ensures r.Ok? ==> var o := Reconcile(targetLines, sourceLines).value;
      && |r.value.missing| == |o.notFound| + 1
      && |r.value.unmatched| == |ListedRows(o.leftovers)| + 1
  {
    match Reconcile(targetLines, sourceLines)
    case Err(f) => Err(f)
    case Ok(o) =>
      match UnmatchedReport(o.leftovers)
      case Err(f) => Err(f)
      case Ok(unmatched) => Ok(JobReport(MissingReport(o.notFound), RawReport(o.notFound), unmatched))
  }

  /** When a job panics before its reports: a target line too short to
      key, a source the scan cannot get through, or a not-found line
      that `compareString` cannot compare with a leftover holding a copy. */
  lemma ReconcileFailsExactly(targetLines: seq<string>, sourceLines: seq<string>)
    ensures Reconcile(targetLines, sourceLines).Err? <==>
      || (exists i :: 0 <= i < |targetLines| && |targetLines[i]| < 7)
      || (Build(targetLines).Ok? && !Scannable(Build(targetLines).value, sourceLines))
      || (&& Build(targetLines).Ok?
          && Scan(Build(targetLines).value, sourceLines).Ok?
          && var st := Scan(Build(targetLines).value, sourceLines).value;
             MatchPanics(st.notFound, Leftovers(st.buffer)))
  {
    if Build(targetLines).Ok? {
      ScanIsGreedyConsumption(Build(targetLines).value, sourceLines);
    }
  }

  /** Every text the scan reports has the width its non-empty source
      lines have after the newline substitution. */
  lemma {:induction false} MissingHasWidth(b: Buffer, lines: seq<string>, width: nat)
    requires forall i :: 0 <= i < |lines| && lines[i] != "" ==> |Normalize(lines[i])| == width
    ensures forall x :: x in Missing(b, lines) ==> |x| == width
    decreases |lines|
  {
    if |lines| > 0 {
      var n := |lines| - 1;
      assert forall i :: 0 <= i < n ==> lines[..n][i] == lines[i];
      MissingHasWidth(b, lines[..n], width);
    }
  }

  /** A job over fixed-width records (every target line, and every
      non-empty source line, of one width of at least 10 bytes once
      newlines are removed) never panics. */
  lemma FixedWidthJobNeverPanics(targetLines: seq<string>, sourceLines: seq<string>, width: nat)
    requires 10 <= width
    requires forall i :: 0 <= i < |targetLines| ==> |Normalize(targetLines[i])| == width
    requires forall i :: 0 <= i < |sourceLines| && sourceLines[i] != "" ==> |Normalize(sourceLines[i])| == width
    ensures Reconcile(targetLines, sourceLines).Ok?
    ensures DoComparison(targetLines, sourceLines).Ok?
  {
    var b := Build(targetLines).value;
    FixedWidthScanNeverPanics(targetLines, sourceLines, width);
    var st := Scan(b, sourceLines).value;
    var rows := Leftovers(st.buffer);
    FixedWidthPassNeverPanics(st.notFound, rows, width);
    var o := Reconcile(targetLines, sourceLines).value;
    assert o.leftovers == FindClosest(st.notFound, rows).value.1;
  }

  /** Every entry built from target lines of one width keeps a text of
      that width. */
  lemma BuildHasWidth(targetLines: seq<string>, width: nat)
    requires 7 <= width
    requires forall i :: 0 <= i < |targetLines| ==> |Normalize(targetLines[i])| == width
    ensures Build(targetLines).Ok?
    ensures forall i :: 0 <= i < |Build(targetLines).value| ==> |Build(targetLines).value[i].row.raw| == width
  {
    var b := Build(targetLines).value;
    BuildKeepsFirstOccurrence(targetLines, b);
  }

  /** Build and scan of fixed-width records never panic, and leave
      not-found lines and leftovers of that width. */
  lemma FixedWidthScanNeverPanics(targetLines: seq<string>, sourceLines: seq<string>, width: nat)
    requires 10 <= width
    requires forall i :: 0 <= i < |targetLines| ==> |Normalize(targetLines[i])| == width
    requires forall i :: 0 <= i < |sourceLines| && sourceLines[i] != "" ==> |Normalize(sourceLines[i])| == width
    ensures Build(targetLines).Ok? && Scan(Build(targetLines).value, sourceLines).Ok?
    ensures var st := Scan(Build(targetLines).value, sourceLines).value;
      && (forall i :: 0 <= i < |st.notFound| ==> |st.notFound[i].raw| == width)
      && (forall j :: 0 <= j < |Leftovers(st.buffer)| ==> |Leftovers(st.buffer)[j].raw| == width)
  {
    var b := Build(targetLines).value;
    BuildHasWidth(targetLines, width);
    ScanIsGreedyConsumption(b, sourceLines);
    var st := Scan(b, sourceLines).value;
    MissingHasWidth(b, sourceLines, width);
    assert forall i :: 0 <= i < |st.notFound| ==> st.notFound[i].raw == Raws(st.notFound)[i];
    var rows := Leftovers(st.buffer);
    forall j | 0 <= j < |rows| ensures |rows[j].raw| == width {
      assert rows[j] in rows;
    }
  }

  /** The closest-match pass over rows all of one width of at least 10
      bytes never panics, and leaves leftovers of that width. */
  lemma FixedWidthPassNeverPanics(nfs: seq<NotFoundRow>, rows: seq<StagingRow>, width: nat)
    requires 10 <= width
    requires forall i :: 0 <= i < |nfs| ==> |nfs[i].raw| == width
    requires forall j :: 0 <= j < |rows| ==> |rows[j].raw| == width
    ensures FindClosest(nfs, rows).Ok?
    ensures forall j :: 0 <= j < |rows| ==> |FindClosest(nfs, rows).value.1[j].raw| == width
    ensures UnmatchedReport(FindClosest(nfs, rows).value.1).Ok?
  {
  }

  lemma {:induction false} FreshRowsHaveNoCandidates(nfs: seq<NotFoundRow>)
    requires forall i :: 0 <= i < |nfs| ==> FreshNotFound(nfs[i])
    ensures Attached(nfs) == 0
    decreases |nfs|
  {
    if |nfs| > 0 {
      FreshRowsHaveNoCandidates(nfs[1..]);
    }
  }

  /** Every target line of a job ends up in exactly one place: taken by a
      source line, attached as a candidate, or still a leftover; and every
      non-empty source line is either taken or not found. */
  lemma ReconcileConservesCopies(targetLines: seq<string>, sourceLines: seq<string>)
    requires Reconcile(targetLines, sourceLines).Ok?
    ensures var o := Reconcile(targetLines, sourceLines).value;
      |targetLines| - Attached(o.notFound) - Sum(o.leftovers) + |o.notFound| == NonEmptyCount(sourceLines)
  {
    var b := Build(targetLines).value;
    var st := Scan(b, sourceLines).value;
    LeftoversKeepAllCopies(st.buffer);
    FreshRowsHaveNoCandidates(st.notFound);
  }

  // Reconciling a file against itself.

  lemma {:induction false} OccOfPrefix(lines: seq<string>, j: nat, k: Key)
    requires j <= |lines|
    ensures Occ(lines[..j], k) <= Occ(lines, k)
    decreases |lines|
  {
    if j < |lines| {
      var n := |lines| - 1;
      assert lines[..n][..j] == lines[..j];
      OccOfPrefix(lines[..n], j, k);
    } else {
      assert lines[..j] == lines;
    }
  }

  /** On scanned target lines, the scan's key and the build's key agree. */
  lemma {:induction false} SrcOccIsOcc(lines: seq<string>, k: Key)
    requires forall i :: 0 <= i < |lines| ==> lines[i] != "" && NewlineFree(lines[i])
    ensures SrcOcc(lines, k) == Occ(lines, k)
    decreases |lines|
  {
    if |lines| > 0 {
      var n := |lines| - 1;
      SrcOccIsOcc(lines[..n], k);
      NormalizeKeepsNewlineFree(lines[n]);
    }
  }

  /** Against its own target buffer, no line of a file misses. */
  lemma SelfLinesNeverMiss(lines: seq<string>, b: Buffer)
    requires forall i :: 0 <= i < |lines| ==> 7 <= |lines[i]| && NewlineFree(lines[i])
    requires Build(lines) == Ok(b)
    ensures forall i :: 0 <= i < |lines| ==> !Misses(b, lines[..i], lines[i])
    ensures Scannable(b, lines)
  {
    BuildCountsOccurrences(lines, b);
    forall i | 0 <= i < |lines| ensures !Misses(b, lines[..i], lines[i]) && 7 <= |Normalize(lines[i])| {
      var k := KeyOf(lines[i]).value;
      NormalizeKeepsNewlineFree(lines[i]);
      SrcOccIsOcc(lines[..i], k);
      OccOfPrefix(lines, i + 1, k);
      assert lines[..i + 1][..i] == lines[..i];
    }
  }

  /** Scanning a file against its own target buffer takes every copy. */
  lemma SelfScanTakesEverything(lines: seq<string>, b: Buffer)
    requires forall i :: 0 <= i < |lines| ==> 7 <= |lines[i]| && NewlineFree(lines[i])
    requires Build(lines) == Ok(b)
    ensures Scan(b, lines).Ok?
    ensures Scan(b, lines).value.notFound == []
    ensures forall i :: 0 <= i < |b| ==> Scan(b, lines).value.buffer[i].row.count == 0
  {
    SelfLinesNeverMiss(lines, b);
    ScanIsGreedyConsumption(b, lines);
    BuildCountsOccurrences(lines, b);
    var st := Scan(b, lines).value;
    MissingEmpty(b, lines);
    assert |Raws(st.notFound)| == 0;
    forall i | 0 <= i < |b| ensures st.buffer[i].row.count == 0 {
      var k := b[i].key;
      CountOfEntry(b, i);
      CountOfEntry(st.buffer, i);
      SrcOccIsOcc(lines, k);
    }
  }

  lemma {:induction false} ExhaustedHasNoLeftovers(b: Buffer)
    requires forall i :: 0 <= i < |b| ==> b[i].row.count == 0
    ensures Leftovers(b) == []
    decreases |b|
  {
    if |b| > 0 {
      ExhaustedHasNoLeftovers(b[1..]);
    }
  }

  /** A file reconciled against itself leaves nothing missing and nothing
      over. */
  lemma SelfReconcileIsEmpty(lines: seq<string>)
    requires forall i :: 0 <= i < |lines| ==> 7 <= |lines[i]| && NewlineFree(lines[i])
    ensures Reconcile(lines, lines) == Ok(Outcome([], []))
  {
    var b := Build(lines).value;
    SelfScanTakesEverything(lines, b);
    var st := Scan(b, lines).value;
    ExhaustedHasNoLeftovers(st.buffer);
    assert FindClosest(st.notFound, Leftovers(st.buffer)) == Ok(([], []));
  }

  /** A file compared with itself yields three reports with only their
      headers. */
  lemma SelfComparisonIsClean(lines: seq<string>)
    requires forall i :: 0 <= i < |lines| ==> 7 <= |lines[i]| && NewlineFree(lines[i])
    ensures DoComparison(lines, lines) == Ok(JobReport([MissingHeader], [RawHeader], [UnmatchedHeader]))
  {
    SelfReconcileIsEmpty(lines);
    assert UnmatchedRows([]) == Ok([]);
    assert [UnmatchedHeader] + [] == [UnmatchedHeader];
    assert UnmatchedReport([]) == Ok([UnmatchedHeader]);
    assert MissingReport([]) == [MissingHeader];
    assert RawReport([]) == [RawHeader];
  }

  lemma {:induction false} MissingEmpty(b: Buffer, lines: seq<string>)
    requires forall i :: 0 <= i < |lines| ==> !Misses(b, lines[..i], lines[i])
    ensures Missing(b, lines) == []
    decreases |lines|
  {
    if |lines| > 0 {
      var n := |lines| - 1;
      assert forall i :: 0 <= i < n ==> lines[..n][..i] == lines[..i] && lines[..n][i] == lines[i];
      MissingEmpty(b, lines[..n]);
    }
  }
}
