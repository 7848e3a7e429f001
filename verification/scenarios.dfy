/** Worked jobs: small target and source files run through the per-job
    pipeline, with the outcome each one produces.
 */
module Scenarios {
  import opened Results
  import opened Codec
  import opened Records
  import opened Staging
  import opened Diff
  import opened Matching
  import opened Worker

  /** A well-formed scanned line: long enough for its id and type segments,
      and free of newlines. */
  predicate Scanned(l: string) {
    10 <= |l| && NewlineFree(l)
  }

  lemma BuildOne(l: string)
    requires Scanned(l)
    ensures Build([l]) == Ok([Entry(KeyOf(l).value, StagingRow(1, l))])
  {
    NormalizeKeepsNewlineFree(l);
    var one: seq<string> := [l];
    assert one[..0] == [];
    assert BuildOnto([], one[..0]) == Ok([]);
    var e := Entry(KeyOf(l).value, StagingRow(1, l));
    assert Find([], KeyOf(l).value) == None;
    assert Insert([], l) == Ok([] + [e]);
    assert [] + [e] == [e];
  }

  lemma BuildTwice(l: string)
    requires Scanned(l)
    ensures Build([l, l]) == Ok([Entry(KeyOf(l).value, StagingRow(2, l))])
  {
    BuildOne(l);
    var two: seq<string> := [l, l];
    assert two[..1] == [l];
    var b1 := [Entry(KeyOf(l).value, StagingRow(1, l))];
    assert Find(b1, KeyOf(l).value) == Some(0);
    assert Insert(b1, l) == Ok(Bump(b1, 0, 1));
    assert Bump(b1, 0, 1) == [Entry(KeyOf(l).value, StagingRow(2, l))];
  }

  /** One source line against a one-entry buffer of its own key. */
  lemma ScanTakesOne(l: string, n: int)
    requires Scanned(l) && 0 < n
    ensures Scan([Entry(KeyOf(l).value, StagingRow(n, l))], [l])
      == Ok(ScanState([], [Entry(KeyOf(l).value, StagingRow(n - 1, l))]))
  {
    NormalizeKeepsNewlineFree(l);
    var one: seq<string> := [l];
    assert one[..0] == [];
    var b := [Entry(KeyOf(l).value, StagingRow(n, l))];
    assert Find(b, KeyOf(l).value) == Some(0);
    assert Scan(b, one[..0]) == Ok(ScanState([], b));
    assert Consume(b, KeyOf(l).value) == (Bump(b, 0, -1), true);
    assert Bump(b, 0, -1) == [Entry(KeyOf(l).value, StagingRow(n - 1, l))];
  }

  /** A duplicated target line matched once leaves one copy over, and
      nothing is missing. */
  lemma DuplicateTargetLeavesOneCopy(l: string)
    requires Scanned(l)
    ensures Reconcile([l, l], [l]) == Ok(Outcome([], [StagingRow(1, l)]))
  {
    BuildTwice(l);
    ScanTakesOne(l, 2);
    var b' := [Entry(KeyOf(l).value, StagingRow(1, l))];
    assert Leftovers(b') == [StagingRow(1, l)];
    assert FindClosest([], [StagingRow(1, l)]) == Ok(([], [StagingRow(1, l)]));
  }

  /** A target file holding the line `AAAAAA0001XXXX` twice and a source
      file holding it once: nothing is missing and one copy is left over. */
  lemma DuplicateScenario()
    ensures Reconcile(["AAAAAA0001XXXX", "AAAAAA0001XXXX"], ["AAAAAA0001XXXX"])
      == Ok(Outcome([], [StagingRow(1, "AAAAAA0001XXXX")]))
  {
    DuplicateTargetLeavesOneCopy("AAAAAA0001XXXX");
  }

  /** A source line takes the copy of any target line sharing its key,
      whatever its id and last byte. */
  lemma ScanTakesSameKey(t: string, src: string, n: int)
    requires Scanned(t) && Scanned(src) && KeyOf(t) == KeyOf(src) && 0 < n
    ensures Scan([Entry(KeyOf(t).value, StagingRow(n, t))], [src])
      == Ok(ScanState([], [Entry(KeyOf(t).value, StagingRow(n - 1, t))]))
  {
    NormalizeKeepsNewlineFree(src);
    var one: seq<string> := [src];
    assert one[..0] == [];
    var b := [Entry(KeyOf(t).value, StagingRow(n, t))];
    assert Find(b, KeyOf(t).value) == Some(0);
    assert Scan(b, one[..0]) == Ok(ScanState([], b));
    assert Consume(b, KeyOf(t).value) == (Bump(b, 0, -1), true);
    assert Bump(b, 0, -1) == [Entry(KeyOf(t).value, StagingRow(n - 1, t))];
  }

  /** A source line whose key the one-line target lacks is not found. */
  lemma ScanMissesOtherKey(t: string, src: string)
    requires Scanned(t) && Scanned(src) && KeyOf(t) != KeyOf(src)
    ensures Scan([Entry(KeyOf(t).value, StagingRow(1, t))], [src])
      == Ok(ScanState([NotFoundRow(src[..6], src[6..10], src, [])], [Entry(KeyOf(t).value, StagingRow(1, t))]))
  {
    NormalizeKeepsNewlineFree(src);
    var one: seq<string> := [src];
    assert one[..0] == [];
    var b := [Entry(KeyOf(t).value, StagingRow(1, t))];
    assert Find(b, KeyOf(src).value) == None;
    assert Scan(b, one[..0]) == Ok(ScanState([], b));
    assert Consume(b, KeyOf(src).value) == (b, false);
    var nf := NotFoundRow(src[..6], src[6..10], src, []);
    assert [] + [nf] == [nf];
  }

  /** Two lines that agree from byte 6 up to their last byte match each
      other: neither is reported, even when their ids and last bytes
      differ. */
  lemma SameKeyLinesMatch(t: string, src: string)
    requires Scanned(t) && Scanned(src) && KeyOf(t) == KeyOf(src)
    ensures Reconcile([t], [src]) == Ok(Outcome([], []))
  {
    BuildOne(t);
    ScanTakesSameKey(t, src, 1);
    var b' := [Entry(KeyOf(t).value, StagingRow(0, t))];
    assert Leftovers(b') == [];
    assert FindClosest([], []) == Ok(([], []));
  }

  /** Target `AAAAAA0001AAAA` and source `BBBBBB0001AAAB`: the lines
      differ only in their ids and in their last byte, which the key
      leaves out, so the source line is found. */
  lemma LastByteDifferenceScenario()
    ensures Reconcile(["AAAAAA0001AAAA"], ["BBBBBB0001AAAB"]) == Ok(Outcome([], []))
  {
    var t, src := "AAAAAA0001AAAA", "BBBBBB0001AAAB";
    assert t[6..13] == src[6..13];
    SameKeyLinesMatch(t, src);
  }

  /** Lines of different type codes have different keys, once both are
      long enough for the key to cover the whole type code. */
  lemma OtherTypeOtherKey(t: string, src: string)
    requires 11 <= |t| && 11 <= |src| && t[6..10] != src[6..10]
    ensures KeyOf(t) != KeyOf(src)
  {
    assert KeyOf(t).value[..4] == t[6..10];
    assert KeyOf(src).value[..4] == src[6..10];
  }

  lemma AttachNoOffer(raw: string, row: StagingRow)
    requires Offer(raw, row) == Ok(None)
    ensures Attach(raw, [row]) == Ok(([], [row]))
  {
    var rows: seq<StagingRow> := [row];
    assert rows[1..] == [];
    assert Attach(raw, rows[1..]) == Ok(([], []));
    assert [row] + [] == rows;
  }

  /** The closest-match pass over one not-found row and one leftover that
      offers no candidate. */
  lemma FindClosestNoOffer(nf: NotFoundRow, row: StagingRow)
    requires Offer(nf.raw, row) == Ok(None)
    ensures FindClosest([nf], [row]) == Ok(([nf], [row]))
  {
    AttachNoOffer(nf.raw, row);
    var one: seq<NotFoundRow> := [nf];
    assert one[1..] == [];
    assert FindClosest(one[1..], [row]) == Ok(([], [row]));
    assert nf.(closest := nf.closest + []) == nf;
    assert [nf] + [] == one;
  }

  /** A not-found line and a leftover of another type code: no candidate,
      and the leftover keeps its copy. */
  lemma OtherTypeGetsNoCandidate(t: string, src: string)
    requires Scanned(t) && Scanned(src) && 11 <= |t| && 11 <= |src| && t[6..10] != src[6..10]
    ensures Reconcile([t], [src])
      == Ok(Outcome([NotFoundRow(src[..6], src[6..10], src, [])], [StagingRow(1, t)]))
  {
    BuildOne(t);
    OtherTypeOtherKey(t, src);
    ScanMissesOtherKey(t, src);
    var nf := NotFoundRow(src[..6], src[6..10], src, []);
    var row := StagingRow(1, t);
    assert Leftovers([Entry(KeyOf(t).value, row)]) == [row];
    assert Offer(src, row) == Ok(None);
    FindClosestNoOffer(nf, row);
  }

  /** Target `AAAAAA0001AAAA` and source `BBBBBB0002AAAA`: the source
      line carries another type code, so it is not found and gets no
      candidate, and the target line is left over. */
  lemma OtherTypeScenario()
    ensures Reconcile(["AAAAAA0001AAAA"], ["BBBBBB0002AAAA"])
      == Ok(Outcome([NotFoundRow("BBBBBB", "0002", "BBBBBB0002AAAA", [])], [StagingRow(1, "AAAAAA0001AAAA")]))
  {
    var t, src := "AAAAAA0001AAAA", "BBBBBB0002AAAA";
    assert t[9] != src[9];
    assert Scanned(t) && Scanned(src);
    assert src[..6] == "BBBBBB" && src[6..10] == "0002";
    OtherTypeGetsNoCandidate(t, src);
  }

  lemma FirstTwoDiffer(r: seq<nat>)
    requires Increasing(r)
    ensures 2 <= |r| ==> r[0] != r[1]
  {
  }

  /** An increasing sequence whose only member is `p` is `[p]`. */
  lemma OnlyMember(r: seq<nat>, p: nat)
    requires Increasing(r)
    requires forall x :: x in r <==> x == p
    ensures r == [p]
  {
    assert p in r;
    forall i | 0 <= i < |r| ensures r[i] == p {
      assert r[i] in r;
    }
    FirstTwoDiffer(r);
  }

  /** Lines of one type code that differ in a single compared byte. */
  predicate OneByteApart(t: string, src: string, p: nat) {
    && |t| == |src| && 10 < p < |t| - 1
    && t[6..10] == src[6..10]
    && t[p] != src[p]
    && forall j :: 6 <= j < |t| && j != p ==> t[j] == src[j]
  }

  lemma OneByteApartCompare(t: string, src: string, p: nat)
    requires OneByteApart(t, src, p)
    ensures KeyOf(t) != KeyOf(src)
    ensures CompareString(src, t) == Ok([p])
  {
    assert KeyOf(t).value[p - 6] != KeyOf(src).value[p - 6];
    OnlyMember(CompareString(src, t).value, p);
  }

  lemma AttachOffered(raw: string, row: StagingRow, c: Closest)
    requires Offer(raw, row) == Ok(Some(c))
    ensures Attach(raw, [row]) == Ok(([c], [row.(count := row.count - 1)]))
  {
    var rows: seq<StagingRow> := [row];
    assert rows[1..] == [];
    assert Attach(raw, rows[1..]) == Ok(([], []));
    assert [c] + [] == [c];
    assert [row.(count := row.count - 1)] + [] == [row.(count := row.count - 1)];
  }

  lemma FindClosestOffered(nf: NotFoundRow, row: StagingRow, c: Closest)
    requires nf.closest == []
    requires Offer(nf.raw, row) == Ok(Some(c))
    ensures FindClosest([nf], [row]) == Ok(([nf.(closest := [c])], [row.(count := row.count - 1)]))
  {
    AttachOffered(nf.raw, row, c);
    var one: seq<NotFoundRow> := [nf];
    var row' := row.(count := row.count - 1);
    assert one[1..] == [];
    assert FindClosest(one[1..], [row']) == Ok(([], [row']));
    assert nf.closest + [c] == [c];
    assert [nf.(closest := [c])] + [] == [nf.(closest := [c])];
  }

  /** A not-found line one compared byte away from a leftover of its type
      gets that leftover as its only candidate, which uses up the
      leftover's copy; the candidate's `indices` is the position. */
  lemma OneByteApartGetsCandidate(t: string, src: string, p: nat)
    requires Scanned(t) && Scanned(src) && OneByteApart(t, src, p)
    ensures Reconcile([t], [src]) == Ok(Outcome(
      [NotFoundRow(src[..6], src[6..10], src, [Closest(t[..6], t[6..10], t, Itoa(p))])],
      [StagingRow(0, t)]))
  {
    BuildOne(t);
    OneByteApartCompare(t, src, p);
    ScanMissesOtherKey(t, src);
    var nf := NotFoundRow(src[..6], src[6..10], src, []);
    var row := StagingRow(1, t);
    assert Leftovers([Entry(KeyOf(t).value, row)]) == [row];
    var c := Closest(t[..6], t[6..10], t, Itoa(p));
    assert RenderIndices([p]) == Itoa(p);
    assert Offer(src, row) == Ok(Some(c));
    FindClosestOffered(nf, row, c);
  }

  /** Target `AAAAAA0001AAAA` and source `BBBBBB0001AABA`, which differ
      inside the key at position 12: one not-found line, one candidate,
      one position. */
  lemma OneByteScenario()
    ensures Reconcile(["AAAAAA0001AAAA"], ["BBBBBB0001AABA"]) == Ok(Outcome(
      [NotFoundRow("BBBBBB", "0001", "BBBBBB0001AABA", [Closest("AAAAAA", "0001", "AAAAAA0001AAAA", "12")])],
      [StagingRow(0, "AAAAAA0001AAAA")]))
  {
    var t, src := "AAAAAA0001AAAA", "BBBBBB0001AABA";
    assert Scanned(t) && Scanned(src);
    assert OneByteApart(t, src, 12);
    assert src[..6] == "BBBBBB" && src[6..10] == "0001";
    assert t[..6] == "AAAAAA" && t[6..10] == "0001";
    assert Itoa(12) == "12";
    OneByteApartGetsCandidate(t, src, 12);
  }
}
