/** Job generation (`GenerateJobs`): every target file is paired with
    every source file of the same type code, in target-major order. The
    type code of a file name is its second `.`-separated piece.

    Directory listings are inputs here: `targets` and `sources` are the
    file names `ioutil.ReadDir` returned, in its order.
 */
module Jobs {
  import opened Results
  import opened Codec

  /** One comparison task: full paths and bare file names of a target
      and a source file. */
  datatype Job = Job(target: string, source: string, targetName: string, sourceName: string)

  /** `strings.Split(name, ".")[1]`; a name without a `.` has no second
      piece and indexing it panics. */
  function TypeCode(name: string): (r: Result<string>)
    ensures r.Ok? <==> '.' in name
    ensures r.Err? ==> r.fault == NoTypeCode(name)
    ensures r.Ok? ==> '.' !in r.value
  {
    SplitPieceCount(name, '.');
    var parts := Split(name, '.');
    if |parts| < 2 then Err(NoTypeCode(name)) else Ok(parts[1])
  }

  /** The type code is the text between the first dot and the next dot
      (or the end of the name). With `TypeCode`'s contract this pins the
      code down for every name. */
  lemma TypeCodeIsSecondPiece(first: string, code: string, rest: string)
    requires '.' !in first && '.' !in code
    requires rest == [] || rest[0] == '.'
    ensures TypeCode(first + "." + code + rest) == Ok(code)
  {
    var name := first + "." + code + rest;
    assert name == first + ['.'] + (code + rest);
    SplitAfterPiece(first, '.', code + rest);
    if rest == [] {
      assert code + rest == code;
      SplitPiece(code, '.');
    } else {
      assert code + rest == code + ['.'] + rest[1..];
      SplitAfterPiece(code, '.', rest[1..]);
    }
  }

  /** A target and a source file pair up when both have a type code and
      the codes are equal. */
  predicate SameType(target: string, source: string) {
    TypeCode(target).Ok? && TypeCode(source).Ok? && TypeCode(target).value == TypeCode(source).value
  }

  function MakeJob(targetPath: string, sourcePath: string, target: string, source: string): (j: Job)
    ensures j.targetName == target && j.sourceName == source
  {
    Job(targetPath + "/" + target, sourcePath + "/" + source, target, source)
  }

  // Reference order: the matching (target, source) index pairs,
  // target-major.

  predicate Before(p: (nat, nat), q: (nat, nat)) {
    p.0 < q.0 || (p.0 == q.0 && p.1 < q.1)
  }

  /** The matching pairs of target `i` with the sources from `k` on. */
  function PairsRow(targets: seq<string>, sources: seq<string>, i: nat, k: nat): (ps: seq<(nat, nat)>)
    requires i < |targets| && k <= |sources|
    ensures forall p :: p in ps <==> p.0 == i && k <= p.1 < |sources| && SameType(targets[i], sources[p.1])
    ensures forall a, b :: 0 <= a < b < |ps| ==> Before(ps[a], ps[b])
    decreases |sources| - k
  {
    if k == |sources| then []
    else
      var rest := PairsRow(targets, sources, i, k + 1);
      assert forall a :: 0 <= a < |rest| ==> rest[a] in rest;
      (if SameType(targets[i], sources[k]) then [(i, k)] else []) + rest
  }

  /** The matching pairs of the targets from `i` on with every source. */
  function PairsFrom(targets: seq<string>, sources: seq<string>, i: nat): (ps: seq<(nat, nat)>)
    requires i <= |targets|
    ensures forall p :: p in ps <==> i <= p.0 < |targets| && p.1 < |sources| && SameType(targets[p.0], sources[p.1])
    ensures forall a, b :: 0 <= a < b < |ps| ==> Before(ps[a], ps[b])
    decreases |targets| - i
  {
    if i == |targets| then []
    else
      var row := PairsRow(targets, sources, i, 0);
      var rest := PairsFrom(targets, sources, i + 1);
      assert forall a :: 0 <= a < |row| ==> row[a] in row;
      assert forall a :: 0 <= a < |rest| ==> rest[a] in rest;
      row + rest
  }

  /** Every matching pair of file indices, each once, in the order the
      nested loops reach them. */
  function Pairs(targets: seq<string>, sources: seq<string>): (ps: seq<(nat, nat)>)
    ensures forall p :: p in ps <==> p.0 < |targets| && p.1 < |sources| && SameType(targets[p.0], sources[p.1])
    ensures forall a, b :: 0 <= a < b < |ps| ==> Before(ps[a], ps[b])
  {
    PairsFrom(targets, sources, 0)
  }

  // The nested loops of `GenerateJobs`.

  /** The inner loop for target `i`, from source `k` on. Both names are
      split on every iteration, target first, so the first source already
      panics on a target without a type code. */
  function JobsFor(targetPath: string, sourcePath: string, targets: seq<string>, sources: seq<string>, i: nat, k: nat): (r: Result<seq<Job>>)
    requires i < |targets| && k <= |sources|
    ensures r.Err? <==> k < |sources| && ('.' !in targets[i] || exists m :: k <= m < |sources| && '.' !in sources[m])
    decreases |sources| - k
  {
    if k == |sources| then Ok([])
    else
      match TypeCode(targets[i])
      case Err(f) => Err(f)
      case Ok(tc) =>
        match TypeCode(sources[k])
        case Err(f) => Err(f)
        case Ok(sc) =>
          match JobsFor(targetPath, sourcePath, targets, sources, i, k + 1)
          case Err(f) => Err(f)
          case Ok(rest) =>
            Ok((if tc == sc then [MakeJob(targetPath, sourcePath, targets[i], sources[k])] else []) + rest)
  }

  /** The outer loop, from target `i` on. */
  function GenerateFrom(targetPath: string, sourcePath: string, targets: seq<string>, sources: seq<string>, i: nat): (r: Result<seq<Job>>)
    requires i <= |targets|
    ensures r.Err? <==>
      && i < |targets| && 0 < |sources|
      && ((exists m :: i <= m < |targets| && '.' !in targets[m]) || (exists m :: 0 <= m < |sources| && '.' !in sources[m]))
    decreases |targets| - i
  {
    if i == |targets| then Ok([])
    else
      match JobsFor(targetPath, sourcePath, targets, sources, i, 0)
      case Err(f) => Err(f)
      case Ok(row) =>
        match GenerateFrom(targetPath, sourcePath, targets, sources, i + 1)
        case Err(f) => Err(f)
        case Ok(rest) => Ok(row + rest)
  }

  /** `GenerateJobs`: the jobs sent to the pool, or the panic that ends
      generation when some file name in a non-empty pairing has no type
      code. */
  function GenerateJobs(targetPath: string, sourcePath: string, targets: seq<string>, sources: seq<string>): (r: Result<seq<Job>>)
    ensures r.Err? <==>
      && 0 < |targets| && 0 < |sources|
      && ((exists m :: 0 <= m < |targets| && '.' !in targets[m]) || (exists m :: 0 <= m < |sources| && '.' !in sources[m]))
  {
    GenerateFrom(targetPath, sourcePath, targets, sources, 0)
  }

  lemma {:induction false} JobsForFollowsRow(targetPath: string, sourcePath: string, targets: seq<string>, sources: seq<string>, i: nat, k: nat)
    requires i < |targets| && k <= |sources|
    requires JobsFor(targetPath, sourcePath, targets, sources, i, k).Ok?
    ensures var jobs := JobsFor(targetPath, sourcePath, targets, sources, i, k).value;
      var ps := PairsRow(targets, sources, i, k);
      && |jobs| == |ps|
      && forall n :: 0 <= n < |jobs| ==> jobs[n] == MakeJob(targetPath, sourcePath, targets[ps[n].0], sources[ps[n].1])
    decreases |sources| - k
  {
    if k < |sources| {
      JobsForFollowsRow(targetPath, sourcePath, targets, sources, i, k + 1);
      var jobs := JobsFor(targetPath, sourcePath, targets, sources, i, k).value;
      var rest := JobsFor(targetPath, sourcePath, targets, sources, i, k + 1).value;
      var ps := PairsRow(targets, sources, i, k);
      var tail := PairsRow(targets, sources, i, k + 1);
      if SameType(targets[i], sources[k]) {
        var j := MakeJob(targetPath, sourcePath, targets[i], sources[k]);
        assert jobs == [j] + rest;
        assert ps == [(i, k)] + tail;
      } else {
        assert jobs == rest;
        assert ps == tail;
      }
    }
  }

  lemma {:induction false} GenerateFromFollowsPairs(targetPath: string, sourcePath: string, targets: seq<string>, sources: seq<string>, i: nat)
    requires i <= |targets|
    requires GenerateFrom(targetPath, sourcePath, targets, sources, i).Ok?
    ensures var jobs := GenerateFrom(targetPath, sourcePath, targets, sources, i).value;
      var ps := PairsFrom(targets, sources, i);
      && |jobs| == |ps|
      && forall n :: 0 <= n < |jobs| ==> jobs[n] == MakeJob(targetPath, sourcePath, targets[ps[n].0], sources[ps[n].1])
    decreases |targets| - i
  {
    if i < |targets| {
      JobsForFollowsRow(targetPath, sourcePath, targets, sources, i, 0);
      GenerateFromFollowsPairs(targetPath, sourcePath, targets, sources, i + 1);
    }
  }

  /** The jobs are exactly the matching (target, source) pairs, each once,
      target-major: job `n` pairs the files of the `n`-th matching pair. */
  lemma GenerateJobsFollowsPairs(targetPath: string, sourcePath: string, targets: seq<string>, sources: seq<string>)
    requires GenerateJobs(targetPath, sourcePath, targets, sources).Ok?
    ensures var jobs := GenerateJobs(targetPath, sourcePath, targets, sources).value;
      var ps := Pairs(targets, sources);
      && |jobs| == |ps|
      && forall n :: 0 <= n < |jobs| ==> jobs[n] == MakeJob(targetPath, sourcePath, targets[ps[n].0], sources[ps[n].1])
  {
    GenerateFromFollowsPairs(targetPath, sourcePath, targets, sources, 0);
  }

  /** Every job pairs two files of one type code, with the configured
      directories in front of their names. */
  lemma JobsShareTypeCode(targetPath: string, sourcePath: string, targets: seq<string>, sources: seq<string>)
    requires GenerateJobs(targetPath, sourcePath, targets, sources).Ok?
    ensures forall j :: j in GenerateJobs(targetPath, sourcePath, targets, sources).value ==>
      && j.targetName in targets && j.sourceName in sources
      && SameType(j.targetName, j.sourceName)
      && j.target == targetPath + "/" + j.targetName
      && j.source == sourcePath + "/" + j.sourceName
  {
    var jobs := GenerateJobs(targetPath, sourcePath, targets, sources).value;
    var ps := Pairs(targets, sources);
    GenerateJobsFollowsPairs(targetPath, sourcePath, targets, sources);
    forall j | j in jobs
      ensures && j.targetName in targets && j.sourceName in sources
              && SameType(j.targetName, j.sourceName)
              && j.target == targetPath + "/" + j.targetName
              && j.source == sourcePath + "/" + j.sourceName
    {
      var n :| 0 <= n < |jobs| && jobs[n] == j;
      assert ps[n] in ps;
    }
  }

  /** An inner-loop step past a source of another type code. */
  lemma JobsForSkips(targetPath: string, sourcePath: string, targets: seq<string>, sources: seq<string>, i: nat, k: nat)
    requires i < |targets| && k < |sources|
    requires TypeCode(targets[i]).Ok? && TypeCode(sources[k]).Ok? && !SameType(targets[i], sources[k])
    ensures JobsFor(targetPath, sourcePath, targets, sources, i, k) == JobsFor(targetPath, sourcePath, targets, sources, i, k + 1)
  {
    var tc := TypeCode(targets[i]).value;
    var sc := TypeCode(sources[k]).value;
    assert TypeCode(targets[i]) == Ok(tc);
    assert TypeCode(sources[k]) == Ok(sc);
    assert tc != sc;
    var empty: seq<Job> := [];
    match JobsFor(targetPath, sourcePath, targets, sources, i, k + 1)
    case Err(f) =>
    case Ok(rest) => assert empty + rest == rest;
  }

  /** An inner-loop step on a source of the target's type code. */
  lemma JobsForTakes(targetPath: string, sourcePath: string, targets: seq<string>, sources: seq<string>, i: nat, k: nat)
    requires i < |targets| && k < |sources|
    requires SameType(targets[i], sources[k])
    requires JobsFor(targetPath, sourcePath, targets, sources, i, k + 1).Ok?
    ensures JobsFor(targetPath, sourcePath, targets, sources, i, k) ==
      Ok([MakeJob(targetPath, sourcePath, targets[i], sources[k])] + JobsFor(targetPath, sourcePath, targets, sources, i, k + 1).value)
  {
    var tc := TypeCode(targets[i]).value;
    assert TypeCode(targets[i]) == Ok(tc);
    assert TypeCode(sources[k]) == Ok(tc);
    var rest := JobsFor(targetPath, sourcePath, targets, sources, i, k + 1).value;
    assert JobsFor(targetPath, sourcePath, targets, sources, i, k + 1) == Ok(rest);
    var j := MakeJob(targetPath, sourcePath, targets[i], sources[k]);
    assert JobsFor(targetPath, sourcePath, targets, sources, i, k) == Ok((if tc == tc then [j] else []) + rest);
    assert (if tc == tc then [j] else []) == [j];
  }

  /** Two targets, the first sharing its type code with both sources and
      the second with neither. */
  lemma PairingOfTwo(targetPath: string, sourcePath: string, a: string, b: string, c: string, d: string)
    requires TypeCode(a).Ok? && TypeCode(b).Ok? && TypeCode(c).Ok? && TypeCode(d).Ok?
    requires TypeCode(c).value == TypeCode(a).value && TypeCode(d).value == TypeCode(a).value
    requires TypeCode(b).value != TypeCode(a).value
    ensures GenerateJobs(targetPath, sourcePath, [a, b], [c, d])
      == Ok([MakeJob(targetPath, sourcePath, a, c), MakeJob(targetPath, sourcePath, a, d)])
  {
    var ts := [a, b];
    var ss := [c, d];
    var ja := MakeJob(targetPath, sourcePath, a, c);
    var jb := MakeJob(targetPath, sourcePath, a, d);
    var none: seq<Job> := [];
    assert ts[0] == a && ts[1] == b && ss[0] == c && ss[1] == d;
    assert !SameType(b, c) && !SameType(b, d) && SameType(a, c) && SameType(a, d);
    assert JobsFor(targetPath, sourcePath, ts, ss, 1, 2) == Ok(none);
    JobsForSkips(targetPath, sourcePath, ts, ss, 1, 1);
    JobsForSkips(targetPath, sourcePath, ts, ss, 1, 0);
    assert JobsFor(targetPath, sourcePath, ts, ss, 1, 0) == Ok(none);
    assert GenerateFrom(targetPath, sourcePath, ts, ss, 2) == Ok(none);
    assert GenerateFrom(targetPath, sourcePath, ts, ss, 1) == Ok(none + none);
    assert none + none == none;
    assert JobsFor(targetPath, sourcePath, ts, ss, 0, 2) == Ok(none);
    JobsForTakes(targetPath, sourcePath, ts, ss, 0, 1);
    assert [jb] + none == [jb];
    assert JobsFor(targetPath, sourcePath, ts, ss, 0, 1) == Ok([jb]);
    JobsForTakes(targetPath, sourcePath, ts, ss, 0, 0);
    assert [ja] + [jb] == [ja, jb];
    assert JobsFor(targetPath, sourcePath, ts, ss, 0, 0) == Ok([ja, jb]);
    assert [ja, jb] + none == [ja, jb];
  }

  /** Pairing by type code, for any dot-free stems `a`..`d`: targets
      `a.100.csv` and `b.200.csv`, sources `c.100.csv` and `d.100.csv`.
      The 200 target pairs with nothing. */
  lemma PairingScenario(targetPath: string, sourcePath: string, a: string, b: string, c: string, d: string)
    requires '.' !in a && '.' !in b && '.' !in c && '.' !in d
    ensures GenerateJobs(targetPath, sourcePath, [a + ".100.csv", b + ".200.csv"], [c + ".100.csv", d + ".100.csv"])
      == Ok([MakeJob(targetPath, sourcePath, a + ".100.csv", c + ".100.csv"),
             MakeJob(targetPath, sourcePath, a + ".100.csv", d + ".100.csv")])
  {
    assert a + ".100.csv" == a + "." + "100" + ".csv";
    assert b + ".200.csv" == b + "." + "200" + ".csv";
    assert c + ".100.csv" == c + "." + "100" + ".csv";
    assert d + ".100.csv" == d + "." + "100" + ".csv";
    TypeCodeIsSecondPiece(a, "100", ".csv");
    TypeCodeIsSecondPiece(b, "200", ".csv");
    TypeCodeIsSecondPiece(c, "100", ".csv");
    TypeCodeIsSecondPiece(d, "100", ".csv");
    assert "100"[0] != "200"[0];
    PairingOfTwo(targetPath, sourcePath, a + ".100.csv", b + ".200.csv", c + ".100.csv", d + ".100.csv");
  }
}
