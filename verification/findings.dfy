/** Two behaviours of the worker that the per-job model deliberately does
    not copy, each written out as the code has it next to a job whose
    outcome shows the difference.
 */
module Findings {
  import opened Results
  import opened Codec
  import opened Records
  import opened Staging
  import opened Diff
  import opened Matching
  import opened Reports
  import opened Worker
  import opened Scenarios

  // A worker's target buffer outlives its jobs.

  /** Build and scan of a job as the worker runs it: the target buffer is
      created once per worker and never cleared, so each job adds its
      target lines onto whatever copies the previous jobs left. Every copy
      the carried buffer still holds is available to this job's source. */
  function CarriedScan(carried: Buffer, targetLines: seq<string>, sourceLines: seq<string>): (r: Result<ScanState>)
    ensures r.Ok? ==> forall i :: 0 <= i < |targetLines| ==> 7 <= |targetLines[i]|
    ensures r.Ok? ==>
      |r.value.notFound| + (Total(carried) + |targetLines| - Total(r.value.buffer)) == NonEmptyCount(sourceLines)
  {
    match BuildOnto(carried, targetLines)
    case Err(f) => Err(f)
    case Ok(b) => Scan(b, sourceLines)
  }

  /** Two jobs on one worker. The first has the target line `l` and an
      empty source, so `l` is left over. The second has an empty target
      and the source line `l`: run on the carried buffer, `l` is taken
      from the first job's copy and reported nowhere, while on its own
      target (empty) it is a not-found line. */
  lemma StaleBufferHidesMissingLine()
    ensures var l := "AAAAAA0001XXXX";
      var left := [Entry(KeyOf(l).value, StagingRow(1, l))];
      && CarriedScan([], [l], []) == Ok(ScanState([], left))
      && CarriedScan(left, [], [l]) == Ok(ScanState([], [Entry(KeyOf(l).value, StagingRow(0, l))]))
      && Reconcile([], [l]) == Ok(Outcome([NotFoundRow(l[..6], l[6..10], l, [])], []))
  {
    var l := "AAAAAA0001XXXX";
    assert Scanned(l);
    BuildOne(l);
    var left := [Entry(KeyOf(l).value, StagingRow(1, l))];
    assert Scan(left, []) == Ok(ScanState([], left));
    assert BuildOnto(left, []) == Ok(left);
    ScanTakesSameKey(l, l, 1);
    FreshJobReportsMissingLine(l);
  }

  /** On an empty target buffer, a source line is not found. */
  lemma FreshJobReportsMissingLine(l: string)
    requires Scanned(l)
    ensures Reconcile([], [l]) == Ok(Outcome([NotFoundRow(l[..6], l[6..10], l, [])], []))
  {
    var nf := NotFoundRow(l[..6], l[6..10], l, []);
    EmptyTargetMissesLine(l);
    assert Build([]) == Ok([]);
    assert Leftovers([]) == [];
    var nfs: seq<NotFoundRow> := [nf];
    assert Attach(l, []) == Ok(([], []));
    assert nfs[1..] == [];
    assert FindClosest(nfs[1..], []) == Ok(([], []));
    assert nf.(closest := nf.closest + []) == nf;
    assert [nf] + [] == nfs;
  }

  lemma EmptyTargetMissesLine(l: string)
    requires Scanned(l)
    ensures Scan([], [l]) == Ok(ScanState([NotFoundRow(l[..6], l[6..10], l, [])], []))
  {
    NormalizeKeepsNewlineFree(l);
    var one: seq<string> := [l];
    assert one[..0] == [];
    var nf := NotFoundRow(l[..6], l[6..10], l, []);
    assert Find([], KeyOf(l).value) == None;
    assert Scan([], one[..0]) == Ok(ScanState([], []));
    assert [] + [nf] == [nf];
  }

  // The leftover list follows the map's visit order.

  /** `getUnmatched` as written: it ranges over a Go map, whose visit
      order the runtime picks afresh for every range loop. `visit` holds
      the buffer's entries in the order one run visits them; whatever the
      order, the same rows are collected, but in that order. */
  function MapLeftovers(b: Buffer, visit: seq<Entry>): (r: seq<StagingRow>)
    requires multiset(visit) == multiset(b)
    ensures forall x :: x in r <==> exists i :: 0 <= i < |b| && b[i].row == x && x.count > 0
  {
    var r := Leftovers(visit);
    forall x | x in r ensures exists i :: 0 <= i < |b| && b[i].row == x && x.count > 0 {
      var j :| 0 <= j < |visit| && visit[j].row == x && x.count > 0;
      assert visit[j] in multiset(b);
    }
    forall x | exists i :: 0 <= i < |b| && b[i].row == x && x.count > 0 ensures x in r {
      var i :| 0 <= i < |b| && b[i].row == x && x.count > 0;
      assert b[i] in multiset(visit);
      var j :| 0 <= j < |visit| && visit[j] == b[i];
    }
    r
  }

  /** The model's leftover list is one of the lists the map visit can
      produce, and the one the model fixes: leftover `k` is the row of the
      `k`-th live entry, it keeps the text of the first target line of its
      key, and those first lines come in target-file order. */
  lemma LeftoversFollowTargetOrder(lines: seq<string>, b: Buffer)
    requires Build(lines) == Ok(b)
    ensures var r := Leftovers(b); var ps := LiveFrom(b, 0);
      && |r| == |ps|
      && (forall k :: 0 <= k < |r| ==>
            && r[k] == b[ps[k]].row
            && FirstIndex(lines, b[ps[k]].key).Some?
            && r[k].raw == Normalize(lines[FirstIndex(lines, b[ps[k]].key).value]))
      && (forall k, m :: 0 <= k < m < |r| ==>
            FirstIndex(lines, b[ps[k]].key).value < FirstIndex(lines, b[ps[m]].key).value)
  {
    BuildKeepsFirstOccurrence(lines, b);
    LeftoversInBufferOrder(b, 0);
    assert b[0..] == b;
    assert RowsAt(Leftovers(b), b, LiveFrom(b, 0));
  }

  lemma AttachBothOffered(raw: string, r1: StagingRow, r2: StagingRow, c1: Closest, c2: Closest)
    requires Offer(raw, r1) == Ok(Some(c1)) && Offer(raw, r2) == Ok(Some(c2))
    ensures Attach(raw, [r1, r2]) == Ok(([c1, c2], [r1.(count := r1.count - 1), r2.(count := r2.count - 1)]))
  {
    var rows: seq<StagingRow> := [r1, r2];
    assert rows[1..] == [r2];
    AttachOffered(raw, r2, c2);
    assert Attach(raw, rows[1..]) == Ok(([c2], [r2.(count := r2.count - 1)]));
    assert [c1] + [c2] == [c1, c2];
    assert [r1.(count := r1.count - 1)] + [r2.(count := r2.count - 1)]
      == [r1.(count := r1.count - 1), r2.(count := r2.count - 1)];
  }

  lemma FindClosestBothOffered(nf: NotFoundRow, r1: StagingRow, r2: StagingRow, c1: Closest, c2: Closest)
    requires nf.closest == []
    requires Offer(nf.raw, r1) == Ok(Some(c1)) && Offer(nf.raw, r2) == Ok(Some(c2))
    ensures FindClosest([nf], [r1, r2]).Ok?
    ensures FindClosest([nf], [r1, r2]).value.0 == [nf.(closest := [c1, c2])]
  {
    AttachBothOffered(nf.raw, r1, r2, c1, c2);
    var one: seq<NotFoundRow> := [nf];
    assert one[1..] == [];
    var rows' := [r1.(count := r1.count - 1), r2.(count := r2.count - 1)];
    assert FindClosest(one[1..], rows') == Ok(([], rows'));
    assert nf.closest + [c1, c2] == [c1, c2];
    assert [nf.(closest := [c1, c2])] + [] == [nf.(closest := [c1, c2])];
  }

  /** The second row of a raw report, the pick shown for its first
      not-found line, is `[id, raw]`. */
  predicate ShowsPick(t: Table, id: string, raw: string) {
    3 <= |t| && t[2] == [id, raw]
  }

  /** The raw report's pick between two candidates with index texts of one
      length is the first one. */
  lemma RawPickOfTwo(nf: NotFoundRow, c1: Closest, c2: Closest)
    requires nf.closest == [c1, c2] && |c1.indices| == |c2.indices|
    ensures ShowsPick(RawReport([nf]), c1.id, c1.raw)
  {
    assert PickClosest(nf.closest) == 0;
    assert RawBlocks([nf]) == RawBlock(nf) + RawBlocks([]);
  }

  /** A leftover one compared byte away from a not-found text is offered
      with that position as its index text. */
  lemma OneByteOffer(t: string, src: string, p: nat)
    requires OneByteApart(t, src, p)
    ensures Offer(src, StagingRow(1, t)) == Ok(Some(Closest(t[..6], t[6..10], t, Itoa(p))))
  {
    OneByteApartCompare(t, src, p);
    assert RenderIndices([p]) == Itoa(p);
  }

  /** With two candidates offered in a given order and index texts of one
      length, the raw report shows the first. */
  lemma RawPickFollowsOffers(nf: NotFoundRow, r1: StagingRow, r2: StagingRow, c1: Closest, c2: Closest)
    requires nf.closest == []
    requires Offer(nf.raw, r1) == Ok(Some(c1)) && Offer(nf.raw, r2) == Ok(Some(c2))
    requires |c1.indices| == |c2.indices|
    ensures FindClosest([nf], [r1, r2]).Ok?
    ensures ShowsPick(RawReport(FindClosest([nf], [r1, r2]).value.0), c1.id, c1.raw)
  {
    FindClosestBothOffered(nf, r1, r2, c1, c2);
    RawPickOfTwo(nf.(closest := [c1, c2]), c1, c2);
  }

  /** Two lines of one length that agree from byte 6 on except at `p`. */
  lemma OneByteApartBySlices(t: string, src: string, p: nat)
    requires |t| == |src| && 10 < p < |t| - 1
    requires t[6..p] == src[6..p] && t[p + 1..] == src[p + 1..] && t[p] != src[p]
    ensures OneByteApart(t, src, p)
  {
    forall j | 6 <= j < |t| && j != p ensures t[j] == src[j] {
      if j < p {
        assert t[j] == t[6..p][j - 6];
      } else {
        assert t[j] == t[p + 1..][j - p - 1];
      }
    }
    assert t[6..10] == t[6..p][..4];
  }

  /** The offers of the sample job below. */
  lemma SampleOfferA()
    ensures Offer("SSSSSS0001ABCD", StagingRow(1, "AAAAAA0001ABXD"))
      == Ok(Some(Closest("AAAAAA", "0001", "AAAAAA0001ABXD", "12")))
  {
    var src, a := "SSSSSS0001ABCD", "AAAAAA0001ABXD";
    assert a[6..12] == "0001AB" == src[6..12];
    assert a[13..] == "D" == src[13..];
    OneByteApartBySlices(a, src, 12);
    OneByteOffer(a, src, 12);
    assert Itoa(12) == "12";
    assert a[..6] == "AAAAAA" && a[6..10] == "0001";
  }

  lemma SampleOfferB()
    ensures Offer("SSSSSS0001ABCD", StagingRow(1, "BBBBBB0001AXCD"))
      == Ok(Some(Closest("BBBBBB", "0001", "BBBBBB0001AXCD", "11")))
  {
    var src, b := "SSSSSS0001ABCD", "BBBBBB0001AXCD";
    assert b[6..11] == "0001A" == src[6..11];
    assert b[12..] == "CD" == src[12..];
    OneByteApartBySlices(b, src, 11);
    OneByteOffer(b, src, 11);
    assert Itoa(11) == "11";
    assert b[..6] == "BBBBBB" && b[6..10] == "0001";
  }

  /** One run of `getUnmatched` whose visit leaves two offered rows. */
  lemma MapVisitPick(b: Buffer, visit: seq<Entry>, nf: NotFoundRow, r1: StagingRow, r2: StagingRow, c1: Closest, c2: Closest)
    requires multiset(visit) == multiset(b) && Leftovers(visit) == [r1, r2]
    requires nf.closest == []
    requires Offer(nf.raw, r1) == Ok(Some(c1)) && Offer(nf.raw, r2) == Ok(Some(c2))
    requires |c1.indices| == |c2.indices|
    ensures FindClosest([nf], MapLeftovers(b, visit)).Ok?
    ensures ShowsPick(RawReport(FindClosest([nf], MapLeftovers(b, visit)).value.0), c1.id, c1.raw)
  {
    assert MapLeftovers(b, visit) == [r1, r2];
    RawPickFollowsOffers(nf, r1, r2, c1, c2);
  }

  lemma LeftoversOfTwo(e1: Entry, e2: Entry)
    requires e1.row.count > 0 && e2.row.count > 0
    ensures Leftovers([e1, e2]) == [e1.row, e2.row]
  {
    var b := [e1, e2];
    assert b[1..] == [e2];
    assert b[1..][1..] == [];
  }

  /** Two entries whose rows are both offered to one not-found line with
      index texts of one length: the raw report shows the row visited
      first. */
  lemma VisitOrderDecidesRawPick(ea: Entry, eb: Entry, nf: NotFoundRow, ca: Closest, cb: Closest)
    requires ea.row.count > 0 && eb.row.count > 0
    requires nf.closest == []
    requires Offer(nf.raw, ea.row) == Ok(Some(ca)) && Offer(nf.raw, eb.row) == Ok(Some(cb))
    requires |ca.indices| == |cb.indices|
    ensures multiset([eb, ea]) == multiset([ea, eb])
    ensures FindClosest([nf], MapLeftovers([ea, eb], [ea, eb])).Ok?
    ensures FindClosest([nf], MapLeftovers([ea, eb], [eb, ea])).Ok?
    ensures ShowsPick(RawReport(FindClosest([nf], MapLeftovers([ea, eb], [ea, eb])).value.0), ca.id, ca.raw)
    ensures ShowsPick(RawReport(FindClosest([nf], MapLeftovers([ea, eb], [eb, ea])).value.0), cb.id, cb.raw)
  {
    assert multiset([eb, ea]) == multiset([ea, eb]);
    LeftoversOfTwo(ea, eb);
    LeftoversOfTwo(eb, ea);
    MapVisitPick([ea, eb], [ea, eb], nf, ea.row, eb.row, ca, cb);
    MapVisitPick([ea, eb], [eb, ea], nf, eb.row, ea.row, cb, ca);
  }

  /** One not-found line, two leftovers of its type each one byte away
      from it. Both become candidates, in visit order; their index texts
      ("12" and "11") have one length, so the raw report shows whichever
      was visited first, and two runs of the same job can write different
      raw reports. */
  lemma VisitOrderChangesRawReport()
    ensures var src, a, b := "SSSSSS0001ABCD", "AAAAAA0001ABXD", "BBBBBB0001AXCD";
      var ea, eb := Entry(KeyOf(a).value, StagingRow(1, a)), Entry(KeyOf(b).value, StagingRow(1, b));
      var nf := NotFoundRow(src[..6], src[6..10], src, []);
      && multiset([eb, ea]) == multiset([ea, eb])
      && FindClosest([nf], MapLeftovers([ea, eb], [ea, eb])).Ok?
      && FindClosest([nf], MapLeftovers([ea, eb], [eb, ea])).Ok?
      && ShowsPick(RawReport(FindClosest([nf], MapLeftovers([ea, eb], [ea, eb])).value.0), "AAAAAA", a)
      && ShowsPick(RawReport(FindClosest([nf], MapLeftovers([ea, eb], [eb, ea])).value.0), "BBBBBB", b)
  {
    var src, a, b := "SSSSSS0001ABCD", "AAAAAA0001ABXD", "BBBBBB0001AXCD";
    var ea, eb := Entry(KeyOf(a).value, StagingRow(1, a)), Entry(KeyOf(b).value, StagingRow(1, b));
    var nf := NotFoundRow(src[..6], src[6..10], src, []);
    SampleOfferA();
    SampleOfferB();
    VisitOrderDecidesRawPick(ea, eb, nf, Closest("AAAAAA", "0001", a, "12"), Closest("BBBBBB", "0001", b, "11"));
  }
}
