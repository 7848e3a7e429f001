/** The diff scan of a job (`compareBuffers`): every source line takes one
    remaining copy of its key from the target buffer, or becomes a
    not-found row. Source lines are taken in file order and a copy, once
    taken, is gone, so the earliest source lines win.
 */
module Diff {
  import opened Results
  import opened Codec
  import opened Records
  import opened Staging

  datatype ScanState = ScanState(notFound: seq<NotFoundRow>, buffer: Buffer)

  /** A fresh not-found row: id and type segments of its text, no
      candidates yet. */
  predicate FreshNotFound(r: NotFoundRow) {
    && 10 <= |r.raw|
    && r.row == r.raw[..6]
    && r.typ == r.raw[6..10]
    && r.closest == []
  }

  /** The key of a source line: that of its text after the newline
      substitution (the target side keys the text before it). */
  function SourceKey(line: string): Option<Key>
  {
    KeyOf(Normalize(line))
  }

  /** One iteration of the `compareBuffers` loop. Empty lines are skipped;
      a line too short to key, or a not-found line too short for its id
      and type segments, is a panic. */
  function ScanLine(st: ScanState, line: string): (r: Result<ScanState>)
    ensures r.Ok? ==> SameShape(st.buffer, r.value.buffer)
    ensures r.Ok? ==> |r.value.notFound| >= |st.notFound| && r.value.notFound[..|st.notFound|] == st.notFound
    ensures r.Ok? ==> forall i :: |st.notFound| <= i < |r.value.notFound| ==> FreshNotFound(r.value.notFound[i])
    // each non-empty line is either consumed or reported, never both
    ensures r.Ok? ==>
      (|r.value.notFound| - |st.notFound|) + (Total(st.buffer) - Total(r.value.buffer))
        == (if line == "" then 0 else 1)
    ensures r.Ok? ==> forall i :: 0 <= i < |st.buffer| ==>
      || r.value.buffer[i].row.count == st.buffer[i].row.count
      || 0 < r.value.buffer[i].row.count + 1 == st.buffer[i].row.count
    // a line panics when it is too short to key, or when it is not found
    // and too short for its id and type segments
    ensures r.Err? <==>
      && line != ""
      && (|| |Normalize(line)| < 7
          || (CountOf(st.buffer, SourceKey(line).value) <= 0 && |Normalize(line)| < 10))
    ensures line == "" ==> r == Ok(st)
    // a keyed line takes a copy exactly when its key still holds one;
    // otherwise it is reported, and no other key changes
    ensures r.Ok? && line != "" ==> var k := SourceKey(line).value;
      && (CountOf(st.buffer, k) > 0 ==>
            && r.value.notFound == st.notFound
            && CountOf(r.value.buffer, k) == CountOf(st.buffer, k) - 1)
      && (CountOf(st.buffer, k) <= 0 ==>
            && r.value.buffer == st.buffer
            && |r.value.notFound| == |st.notFound| + 1
            && r.value.notFound[|st.notFound|].raw == Normalize(line))
      && forall k' :: k' != k ==> CountOf(r.value.buffer, k') == CountOf(st.buffer, k')
  {
    if line == "" then Ok(st)
    else
      var text := Normalize(line);
      match KeyOf(text)
      case None => Err(KeySliceOutOfRange(text))
      case Some(k) =>
        var (b', consumed) := Consume(st.buffer, k);
        forall k' ensures CountOf(b', k') == CountOf(st.buffer, k') - (if consumed && k' == k then 1 else 0) {
          ConsumeCountOf(st.buffer, k, k');
        }
        if consumed then Ok(ScanState(st.notFound, b'))
        else if |text| < 10 then Err(SegmentOutOfRange(text))
        else
          var nf := st.notFound + [NotFoundRow(text[..6], text[6..10], text, [])];
          assert nf[..|st.notFound|] == st.notFound;
          Ok(ScanState(nf, st.buffer))
  }

  /** `compareBuffers` over the scanned lines of the source file. */
  function Scan(b: Buffer, lines: seq<string>): (r: Result<ScanState>)
    ensures r.Ok? ==> SameShape(b, r.value.buffer)
    ensures r.Ok? ==> forall i :: 0 <= i < |r.value.notFound| ==> FreshNotFound(r.value.notFound[i])
    // consumed lines plus not-found rows account for every non-empty line
    ensures r.Ok? ==> |r.value.notFound| + (Total(b) - Total(r.value.buffer)) == NonEmptyCount(lines)
    // counts only go down, and never below zero
    ensures r.Ok? ==> forall i :: 0 <= i < |b| ==>
      && r.value.buffer[i].row.count <= b[i].row.count
      && (b[i].row.count >= 0 ==> r.value.buffer[i].row.count >= 0)
  {
    if |lines| == 0 then Ok(ScanState([], b))
    else
      match Scan(b, lines[..|lines| - 1])
      case Err(f) => Err(f)
      case Ok(st) => ScanLine(st, lines[|lines| - 1])
  }

  function NonEmptyCount(lines: seq<string>): nat
  {
    if |lines| == 0 then 0
    else NonEmptyCount(lines[..|lines| - 1]) + (if lines[|lines| - 1] == "" then 0 else 1)
  }

  // Reference description of the scan, line by line, in terms of the
  // buffer it started from.

  /** How many non-empty source lines carry key `k`. */
  function SrcOcc(lines: seq<string>, k: Key): nat
  {
    if |lines| == 0 then 0
    else
      var last := lines[|lines| - 1];
      SrcOcc(lines[..|lines| - 1], k) + (if last != "" && SourceKey(last) == Some(k) then 1 else 0)
  }

  /** The copies of a key left after `used` source lines asked for one. */
  function Remaining(initial: int, used: nat): int
  {
    if initial > used then initial - used else 0
  }

  /** A non-empty source line is not found exactly when the earlier source
      lines with its key have already used up every target copy of it. */
  predicate Misses(b: Buffer, earlier: seq<string>, line: string)
  {
    line != "" && SourceKey(line).Some? && CountOf(b, SourceKey(line).value) <= SrcOcc(earlier, SourceKey(line).value)
  }

  /** The texts of the source lines the scan reports, in file order. */
  function Missing(b: Buffer, lines: seq<string>): seq<string>
  {
    if |lines| == 0 then []
    else
      var prefix := lines[..|lines| - 1];
      Missing(b, prefix) + (if Misses(b, prefix, lines[|lines| - 1]) then [Normalize(lines[|lines| - 1])] else [])
  }

  /** No line of the source panics the scan. */
  predicate Scannable(b: Buffer, lines: seq<string>)
  {
    forall i :: 0 <= i < |lines| && lines[i] != "" ==>
      && 7 <= |Normalize(lines[i])|
      && (Misses(b, lines[..i], lines[i]) ==> 10 <= |Normalize(lines[i])|)
  }

  function Raws(rows: seq<NotFoundRow>): (r: seq<string>)
    ensures |r| == |rows|
    ensures forall i :: 0 <= i < |rows| ==> r[i] == rows[i].raw
  {
    seq(|rows|, i requires 0 <= i < |rows| => rows[i].raw)
  }

  /** What the scan has built after a prefix of the source, in terms of
      the buffer it started from. */
  ghost predicate Agrees(b: Buffer, prefix: seq<string>, st: ScanState)
  {
    && Raws(st.notFound) == Missing(b, prefix)
    && forall k :: CountOf(st.buffer, k) == Remaining(CountOf(b, k), SrcOcc(prefix, k))
  }

  /** Scannability of a source, line by line. */
  lemma ScannableStep(b: Buffer, lines: seq<string>)
    requires |lines| > 0
    ensures var n := |lines| - 1;
      Scannable(b, lines) <==>
        && Scannable(b, lines[..n])
        && (lines[n] != "" ==>
              && 7 <= |Normalize(lines[n])|
              && (Misses(b, lines[..n], lines[n]) ==> 10 <= |Normalize(lines[n])|))
  {
    var n := |lines| - 1;
    var prefix := lines[..n];
    assert forall i :: 0 <= i < n ==> prefix[..i] == lines[..i] && prefix[i] == lines[i];
  }

  /** One scan step keeps the state in agreement with the reference. */
  lemma ScanLineAgrees(b: Buffer, prefix: seq<string>, line: string, st: ScanState)
    requires CountsNonNegative(b)
    requires Agrees(b, prefix, st)
    ensures ScanLine(st, line).Ok? <==>
      (line != "" ==> 7 <= |Normalize(line)| && (Misses(b, prefix, line) ==> 10 <= |Normalize(line)|))
    ensures ScanLine(st, line).Ok? ==> Agrees(b, prefix + [line], ScanLine(st, line).value)
  {
    var lines := prefix + [line];
    assert lines[..|prefix|] == prefix;
    if line != "" && 7 <= |Normalize(line)| {
      var k := SourceKey(line).value;
      var (b', consumed) := Consume(st.buffer, k);
      assert consumed <==> !Misses(b, prefix, line);
      forall k' ensures CountOf(b', k') == Remaining(CountOf(b, k'), SrcOcc(lines, k')) {
        ConsumeCountOf(st.buffer, k, k');
      }
      if !consumed && 10 <= |Normalize(line)| {
        var nf := ScanLine(st, line).value.notFound;
        assert Raws(nf) == Raws(st.notFound) + [Normalize(line)];
      }
    }
  }

  /** The scan is greedy first-come consumption: it succeeds exactly on
      scannable sources, reports exactly the lines `Missing` names, and
      leaves every key with its initial count less the source lines that
      asked for it, floored at zero. */
  lemma {:induction false} ScanIsGreedyConsumption(b: Buffer, lines: seq<string>)
    requires CountsNonNegative(b)
    ensures Scan(b, lines).Ok? <==> Scannable(b, lines)
    ensures Scan(b, lines).Ok? ==> Agrees(b, lines, Scan(b, lines).value)
    decreases |lines|
  {
    if |lines| == 0 {
      forall k ensures CountOf(b, k) == Remaining(CountOf(b, k), 0) {
        match Find(b, k)
        case None =>
        case Some(i) =>
      }
    } else {
      var n := |lines| - 1;
      var prefix := lines[..n];
      ScanIsGreedyConsumption(b, prefix);
      ScannableStep(b, lines);
      assert prefix + [lines[n]] == lines;
      match Scan(b, prefix)
      case Err(_) =>
      case Ok(st) =>
        ScanLineAgrees(b, prefix, lines[n], st);
    }
  }
}
