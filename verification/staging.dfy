/** The target buffer of a job (`Worker.TargetBuffer`, built by
    `createTargetBuffer`): a multiset of target lines, one staging row per
    key.

    The Go program keeps it in a `map[string]*StagingRow`, whose iteration
    order is unspecified. Here it is an association list in the order in
    which keys were first inserted, so that enumerating leftovers is
    deterministic.
 */
module Staging {
  import opened Results
  import opened Codec
  import opened Records

  datatype Entry = Entry(key: Key, row: StagingRow)

  /** Entries in first-insertion order; `KeysDistinct` holds of every
      buffer the model builds. */
  type Buffer = seq<Entry>

  predicate KeysDistinct(b: Buffer) {
    forall i, j :: 0 <= i < j < |b| ==> b[i].key != b[j].key
  }

  predicate SameShape(b: Buffer, b': Buffer) {
    |b'| == |b| && forall i :: 0 <= i < |b| ==> b'[i].key == b[i].key && b'[i].row.raw == b[i].row.raw
  }

  predicate CountsNonNegative(b: Buffer) {
    forall i :: 0 <= i < |b| ==> b[i].row.count >= 0
  }

  /** The position of key `k` in the buffer (the map lookup). */
  function Find(b: Buffer, k: Key): (r: Option<nat>)
    ensures r.Some? ==> r.value < |b| && b[r.value].key == k
    ensures r.Some? ==> forall i :: 0 <= i < r.value ==> b[i].key != k
    ensures r.None? <==> forall i :: 0 <= i < |b| ==> b[i].key != k
  {
    if |b| == 0 then None
    else if b[0].key == k then Some(0)
    else match Find(b[1..], k)
      case None => None
      case Some(i) => Some(i + 1)
  }

  /** The count stored under `k`; an absent key holds no copies. */
  function CountOf(b: Buffer, k: Key): int
  {
    match Find(b, k)
    case None => 0
    case Some(i) => b[i].row.count
  }

  lemma CountOfEntry(b: Buffer, i: nat)
    requires KeysDistinct(b) && i < |b|
    ensures CountOf(b, b[i].key) == b[i].row.count
  {
  }

  /** Lookup depends on the keys alone. */
  lemma FindSameKeys(b: Buffer, b': Buffer, k: Key)
    requires |b| == |b'|
    requires forall i :: 0 <= i < |b| ==> b[i].key == b'[i].key
    ensures Find(b, k) == Find(b', k)
  {
    match Find(b, k)
    case None =>
    case Some(i) =>
  }

  lemma {:induction false} FindAppend(b: Buffer, e: Entry, k: Key)
    ensures Find(b + [e], k) ==
      if Find(b, k).Some? then Find(b, k) else if e.key == k then Some(|b|) else None
    decreases |b|
  {
    if |b| > 0 {
      assert (b + [e])[1..] == b[1..] + [e];
      FindAppend(b[1..], e, k);
    }
  }

  /** The copies held by the whole buffer. */
  function Total(b: Buffer): int
  {
    if |b| == 0 then 0 else b[0].row.count + Total(b[1..])
  }

  lemma {:induction false} TotalAppend(b: Buffer, e: Entry)
    ensures Total(b + [e]) == Total(b) + e.row.count
    decreases |b|
  {
    if |b| > 0 {
      assert (b + [e])[1..] == b[1..] + [e];
      TotalAppend(b[1..], e);
    }
  }

  lemma {:induction false} TotalUpdate(b: Buffer, i: nat, row: StagingRow)
    requires i < |b|
    ensures Total(b[i := Entry(b[i].key, row)]) == Total(b) - b[i].row.count + row.count
    decreases |b|
  {
    if i > 0 {
      assert b[i := Entry(b[i].key, row)][1..] == b[1..][i - 1 := Entry(b[i].key, row)];
      TotalUpdate(b[1..], i - 1, row);
    }
  }

  /** Adds one count at entry `i`, keeping the entry's key and raw text. */
  function Bump(b: Buffer, i: nat, delta: int): (r: Buffer)
    requires i < |b|
    ensures SameShape(b, r)
    ensures r[i].row.count == b[i].row.count + delta
    ensures forall j :: 0 <= j < |b| && j != i ==> r[j] == b[j]
    ensures Total(r) == Total(b) + delta
  {
    TotalUpdate(b, i, StagingRow(b[i].row.count + delta, b[i].row.raw));
    b[i := Entry(b[i].key, StagingRow(b[i].row.count + delta, b[i].row.raw))]
  }

  /** One iteration of the `createTargetBuffer` loop. The key is taken
      from the line as scanned, the stored text from the line after the
      newline substitution; a line too short to key is a panic. */
  function Insert(b: Buffer, line: string): (r: Result<Buffer>)
    ensures r.Ok? <==> 7 <= |line|
    ensures r.Ok? ==> Total(r.value) == Total(b) + 1
    ensures r.Ok? && KeysDistinct(b) ==> KeysDistinct(r.value)
    ensures r.Ok? ==> var k := KeyOf(line).value;
      match Find(b, k)
      case Some(i) =>
        // a repeated key only gains one count; its raw text stays the first line's
        && SameShape(b, r.value)
        && r.value[i].row.count == b[i].row.count + 1
        && (forall j :: 0 <= j < |b| && j != i ==> r.value[j] == b[j])
      case None =>
        // a key seen for the first time starts at one copy of this line
        && |r.value| == |b| + 1
        && r.value[..|b|] == b
        && r.value[|b|] == Entry(k, StagingRow(1, Normalize(line)))
  {
    match KeyOf(line)
    case None => Err(KeySliceOutOfRange(line))
    case Some(k) =>
      match Find(b, k)
      case Some(i) => Ok(Bump(b, i, 1))
      case None =>
        var e := Entry(k, StagingRow(1, Normalize(line)));
        TotalAppend(b, e);
        assert (b + [e])[..|b|] == b;
        Ok(b + [e])
  }

  /** `createTargetBuffer` over the scanned lines of the target file, from
      an empty buffer. Every line is keyed, empty ones included, so the
      first line shorter than 7 bytes aborts the build. */
  function Build(lines: seq<string>): (r: Result<Buffer>)
    ensures r.Ok? <==> forall i :: 0 <= i < |lines| ==> 7 <= |lines[i]|
    ensures r.Ok? ==> KeysDistinct(r.value) && Total(r.value) == |lines|
    ensures r.Ok? ==> forall i :: 0 <= i < |r.value| ==> r.value[i].row.count >= 1
  {
    BuildOnto([], lines)
  }

  /** The build loop run over a buffer that already holds entries. */
  function BuildOnto(b: Buffer, lines: seq<string>): (r: Result<Buffer>)
    ensures r.Ok? <==> forall i :: 0 <= i < |lines| ==> 7 <= |lines[i]|
    ensures r.Ok? && KeysDistinct(b) ==> KeysDistinct(r.value)
    ensures r.Ok? ==> Total(r.value) == Total(b) + |lines|
    ensures r.Ok? && (forall i :: 0 <= i < |b| ==> b[i].row.count >= 1) ==>
      forall i :: 0 <= i < |r.value| ==> r.value[i].row.count >= 1
  {
    if |lines| == 0 then Ok(b)
    else
      var prefix := lines[..|lines| - 1];
      assert forall i :: 0 <= i < |prefix| ==> prefix[i] == lines[i];
      match BuildOnto(b, prefix)
      case Err(f) => Err(f)
      case Ok(b') => Insert(b', lines[|lines| - 1])
  }

  /** The consume step of the scan: take one copy of key `k` if the
      buffer still holds one. A missing key and a used-up key both fail,
      so no count ever drops below zero through this step. */
  function Consume(b: Buffer, k: Key): (r: (Buffer, bool))
    ensures r.1 <==> CountOf(b, k) > 0
    ensures SameShape(b, r.0)
    ensures Total(r.0) == Total(b) - (if r.1 then 1 else 0)
    ensures forall i :: 0 <= i < |b| ==>
      r.0[i].row.count == b[i].row.count - (if r.1 && Find(b, k) == Some(i) then 1 else 0)
  {
    match Find(b, k)
    case Some(i) => if b[i].row.count > 0 then (Bump(b, i, -1), true) else (b, false)
    case None => (b, false)
  }

  /** Consuming key `k` takes one copy from `k` and none from any other key. */
  lemma ConsumeCountOf(b: Buffer, k: Key, k': Key)
    ensures CountOf(Consume(b, k).0, k') ==
      CountOf(b, k') - (if Consume(b, k).1 && k' == k then 1 else 0)
  {
    FindSameKeys(b, Consume(b, k).0, k');
  }

  // Reference view of the target lines: occurrences and first occurrences of a key.

  /** How many of the lines carry key `k`. */
  function Occ(lines: seq<string>, k: Key): nat
  {
    if |lines| == 0 then 0
    else Occ(lines[..|lines| - 1], k) + (if KeyOf(lines[|lines| - 1]) == Some(k) then 1 else 0)
  }

  /** The first line that carries key `k`. */
  function FirstIndex(lines: seq<string>, k: Key): (r: Option<nat>)
    ensures r.Some? ==> r.value < |lines| && KeyOf(lines[r.value]) == Some(k)
    ensures r.None? <==> Occ(lines, k) == 0
  {
    if |lines| == 0 then None
    else
      match FirstIndex(lines[..|lines| - 1], k)
      case Some(i) => Some(i)
      case None => if KeyOf(lines[|lines| - 1]) == Some(k) then Some(|lines| - 1) else None
  }

  lemma InsertCountOf(b: Buffer, line: string, b': Buffer, k: Key)
    requires Insert(b, line) == Ok(b')
    ensures CountOf(b', k) == CountOf(b, k) + (if KeyOf(line) == Some(k) then 1 else 0)
  {
    var kl := KeyOf(line).value;
    match Find(b, kl)
    case Some(i) =>
      FindSameKeys(b, b', k);
    case None =>
      assert b' == b + [b'[|b|]];
      FindAppend(b, b'[|b|], k);
  }

  /** Building is count-preserving key by key: every key holds exactly as
      many copies as there are target lines carrying it. */
  lemma {:induction false} BuildCountsOccurrences(lines: seq<string>, b: Buffer)
    requires Build(lines) == Ok(b)
    ensures forall k :: CountOf(b, k) == Occ(lines, k)
    decreases |lines|
  {
    if |lines| > 0 {
      var prefix := lines[..|lines| - 1];
      var b' := Build(prefix).value;
      BuildCountsOccurrences(prefix, b');
      forall k ensures CountOf(b, k) == Occ(lines, k) {
        InsertCountOf(b', lines[|lines| - 1], b, k);
      }
    }
  }

  /** Every entry keeps the text of the first line of its key, and the
      entries sit in the order in which their keys first occur. */
  predicate FirstOccurrenceOrder(lines: seq<string>, b: Buffer)
  {
    && (forall i :: 0 <= i < |b| ==>
          && FirstIndex(lines, b[i].key).Some?
          && b[i].row.raw == Normalize(lines[FirstIndex(lines, b[i].key).value]))
    && (forall i, j :: 0 <= i < j < |b| ==>
          FirstIndex(lines, b[i].key).value < FirstIndex(lines, b[j].key).value)
  }

  lemma FirstIndexExtends(prefix: seq<string>, line: string, k: Key)
    ensures FirstIndex(prefix + [line], k) ==
      if FirstIndex(prefix, k).Some? then FirstIndex(prefix, k)
      else if KeyOf(line) == Some(k) then Some(|prefix|)
      else None
  {
    assert (prefix + [line])[..|prefix|] == prefix;
  }

  /** One build step keeps entries in first-occurrence order. */
  lemma InsertKeepsFirstOccurrence(prefix: seq<string>, line: string, b': Buffer, b: Buffer)
    requires FirstOccurrenceOrder(prefix, b')
    requires forall k :: CountOf(b', k) == Occ(prefix, k)
    requires Insert(b', line) == Ok(b)
    ensures FirstOccurrenceOrder(prefix + [line], b)
  {
    var lines := prefix + [line];
    var n := |prefix|;
    assert forall i :: 0 <= i < n ==> lines[i] == prefix[i];
    forall i | 0 <= i < |b'|
      ensures FirstIndex(lines, b'[i].key) == FirstIndex(prefix, b'[i].key)
    {
      FirstIndexExtends(prefix, line, b'[i].key);
    }
    var k := KeyOf(line).value;
    match Find(b', k)
    case Some(x) =>
      assert forall i :: 0 <= i < |b| ==> b[i].key == b'[i].key && b[i].row.raw == b'[i].row.raw;
    case None =>
      assert CountOf(b', k) == 0;
      FirstIndexExtends(prefix, line, k);
      assert FirstIndex(lines, k) == Some(n);
      assert lines[n] == line;
      assert forall i :: 0 <= i < |b'| ==> b[i] == b'[i];
  }

  /** Entries sit in the order in which their keys first occur among the
      target lines, and each keeps the text of that first line. */
  lemma {:induction false} BuildKeepsFirstOccurrence(lines: seq<string>, b: Buffer)
    requires Build(lines) == Ok(b)
    ensures forall i :: 0 <= i < |b| ==>
      && FirstIndex(lines, b[i].key).Some?
      && b[i].row.raw == Normalize(lines[FirstIndex(lines, b[i].key).value])
    ensures forall i, j :: 0 <= i < j < |b| ==>
      FirstIndex(lines, b[i].key).value < FirstIndex(lines, b[j].key).value
    decreases |lines|
  {
    if |lines| > 0 {
      var n := |lines| - 1;
      var prefix := lines[..n];
      var b' := Build(prefix).value;
      BuildKeepsFirstOccurrence(prefix, b');
      BuildCountsOccurrences(prefix, b');
      assert prefix + [lines[n]] == lines;
      InsertKeepsFirstOccurrence(prefix, lines[n], b', b);
    }
  }

  /** The positions, from `i` on, of the entries still holding copies, in
      increasing order. */
  function LiveFrom(b: Buffer, i: nat): (ps: seq<nat>)
    requires i <= |b|
    ensures forall k :: 0 <= k < |ps| ==> i <= ps[k] < |b| && b[ps[k]].row.count > 0
    ensures forall p :: i <= p < |b| && b[p].row.count > 0 ==> p in ps
    ensures forall k, m :: 0 <= k < m < |ps| ==> ps[k] < ps[m]
    decreases |b| - i
  {
    if i == |b| then []
    else (if b[i].row.count > 0 then [i] else []) + LiveFrom(b, i + 1)
  }

  /** `getUnmatched`: the staging rows still holding copies, in buffer
      order. */
  function Leftovers(b: Buffer): (r: seq<StagingRow>)
    ensures |r| <= |b|
    ensures forall x :: x in r <==> exists i :: 0 <= i < |b| && b[i].row == x && x.count > 0
    ensures NonNegative(r)
  {
    if |b| == 0 then []
    else (if b[0].row.count > 0 then [b[0].row] else []) + Leftovers(b[1..])
  }

  lemma LeftoversStep(b: Buffer, i: nat)
    requires i < |b|
    ensures Leftovers(b[i..]) == (if b[i].row.count > 0 then [b[i].row] else []) + Leftovers(b[i + 1..])
  {
    assert b[i..][1..] == b[i + 1..];
  }

  /** `r` lists the rows of the entries at positions `ps`, in order. */
  predicate RowsAt(r: seq<StagingRow>, b: Buffer, ps: seq<nat>)
  {
    |r| == |ps| && forall k :: 0 <= k < |ps| ==> ps[k] < |b| && r[k] == b[ps[k]].row
  }

  lemma RowsAtCons(r: seq<StagingRow>, b: Buffer, ps: seq<nat>, p: nat)
    requires RowsAt(r, b, ps) && p < |b|
    ensures RowsAt([b[p].row] + r, b, [p] + ps)
  {
    var r' := [b[p].row] + r;
    var ps' := [p] + ps;
    forall k | 1 <= k < |ps'| ensures ps'[k] < |b| && r'[k] == b[ps'[k]].row {
      assert r'[k] == r[k - 1] && ps'[k] == ps[k - 1];
    }
  }

  /** Leftovers keep buffer order: leftover `k` is the row of the `k`-th
      entry that still holds a copy. */
  lemma {:induction false} LeftoversInBufferOrder(b: Buffer, i: nat)
    requires i <= |b|
    ensures RowsAt(Leftovers(b[i..]), b, LiveFrom(b, i))
    decreases |b| - i
  {
    if i < |b| {
      LeftoversInBufferOrder(b, i + 1);
      LeftoversStep(b, i);
      if b[i].row.count > 0 {
        RowsAtCons(Leftovers(b[i + 1..]), b, LiveFrom(b, i + 1), i);
      }
    } else {
      assert b[i..] == [];
    }
  }

  /** Leftovers carry every copy still in a buffer whose counts are not
      negative. */
  lemma {:induction false} LeftoversKeepAllCopies(b: Buffer)
    requires CountsNonNegative(b)
    ensures Sum(Leftovers(b)) == Total(b)
    decreases |b|
  {
    if |b| > 0 {
      LeftoversKeepAllCopies(b[1..]);
      SumAppend(if b[0].row.count > 0 then [b[0].row] else [], Leftovers(b[1..]));
    }
  }
}
