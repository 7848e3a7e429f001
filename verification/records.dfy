/** The record types of the per-job reconciliation (workers/worker.go).

    A `StagingRow` stands for every target line that shares one key, a
    `NotFoundRow` for a source line with no target copy left, and a
    `Closest` for a leftover target line offered as a near match.
 */
module Records {

  /** How many target lines still carry this key, and the text of the
      first of them. */
  datatype StagingRow = StagingRow(count: int, raw: string)

  /** A leftover target line judged close to a not-found source line;
      `indices` lists the differing byte positions, joined by ':'. */
  datatype Closest = Closest(id: string, typ: string, raw: string, indices: string)

  /** A source line with no target copy left, split into its id [0,6) and
      type [6,10) segments, with the candidates attached to it. */
  datatype NotFoundRow = NotFoundRow(row: string, typ: string, raw: string, closest: seq<Closest>)

  /** The copies held by a list of staging rows. */
  function Sum(rows: seq<StagingRow>): int
  {
    if |rows| == 0 then 0 else rows[0].count + Sum(rows[1..])
  }

  lemma {:induction false} SumAppend(rows: seq<StagingRow>, extra: seq<StagingRow>)
    ensures Sum(rows + extra) == Sum(rows) + Sum(extra)
    decreases |rows|
  {
    if |rows| > 0 {
      assert (rows + extra)[1..] == rows[1..] + extra;
      SumAppend(rows[1..], extra);
    } else {
      assert rows + extra == extra;
    }
  }

  predicate NonNegative(rows: seq<StagingRow>) {
    forall i :: 0 <= i < |rows| ==> rows[i].count >= 0
  }
}
