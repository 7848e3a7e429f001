/** Line-level encoding used by the reconciliation engine: newline
    stripping, the deduplication key, decimal rendering of positions and
    the `strings.Split` / `strings.Join` pair the engine relies on.

    Strings are sequences of bytes in the Go program; here a `char` stands
    for one byte, so every offset below is a byte offset.
 */
module Codec {
  import opened Results

  /** A record key. The Go program keys a line by the hex MD5 digest of
      `line[6 : len(line)-1]`; the model keys it by that slice itself,
      which is an injective hash (MD5 collisions are not modelled). */
  type Key = string

  predicate NewlineFree(s: string) {
    forall i :: 0 <= i < |s| ==> s[i] != '\n'
  }

  /** The substitution of the regular expression `\r?\n` by "" over the
      whole string: matches are leftmost and do not overlap, so "\r\n" goes
      as one match and a lone '\n' as another. */
  function Normalize(s: string): (r: string)
    ensures |r| <= |s|
    ensures NewlineFree(r)
    decreases |s|
  {
    if |s| == 0 then ""
    else if s[0] == '\n' then Normalize(s[1..])
    else if 2 <= |s| && s[0] == '\r' && s[1] == '\n' then Normalize(s[2..])
    else [s[0]] + Normalize(s[1..])
  }

  /** `bufio.ScanLines` never yields a '\n', so on every scanned line the
      substitution changes nothing. */
  lemma {:induction false} NormalizeKeepsNewlineFree(s: string)
    requires NewlineFree(s)
    ensures Normalize(s) == s
    decreases |s|
  {
    if |s| > 0 {
      assert s[0] != '\n';
      assert NewlineFree(s[1..]) by {
        forall i | 0 <= i < |s[1..]| ensures s[1..][i] != '\n' {
          assert s[1..][i] == s[i + 1];
        }
      }
      NormalizeKeepsNewlineFree(s[1..]);
      assert s == [s[0]] + s[1..];
    }
  }

  lemma NormalizeIdempotent(s: string)
    ensures Normalize(Normalize(s)) == Normalize(s)
  {
    NormalizeKeepsNewlineFree(Normalize(s));
  }

  /** `makeKey`: the slice `line[6 : len(line)-1]`, or `None` where that
      slice is out of range in Go (a line shorter than 7 bytes). */
  function KeyOf(line: string): (k: Option<Key>)
    ensures k.Some? <==> 7 <= |line|
    ensures k.Some? ==> |k.value| == |line| - 7
  {
    if 7 <= |line| then Some(line[6..|line| - 1]) else None
  }

  /** Two keyable lines share a key exactly when they agree from byte 6 up
      to, but not including, their last byte. */
  lemma SameKeyIffSameKeyedSlice(a: string, b: string)
    requires 7 <= |a| && 7 <= |b|
    ensures KeyOf(a) == KeyOf(b) <==> a[6..|a| - 1] == b[6..|b| - 1]
  {
  }

  /** The id bytes [0,6) and the final byte do not take part in the key. */
  lemma KeyIgnoresIdAndLastByte(a: string, b: string)
    requires 7 <= |a| == |b|
    requires forall i :: 6 <= i < |a| - 1 ==> a[i] == b[i]
    ensures KeyOf(a) == KeyOf(b)
  {
    assert a[6..|a| - 1] == b[6..|b| - 1];
  }

  // Decimal rendering of a non-negative position, as strconv.Itoa does.

  predicate IsDigit(c: char) {
    '0' <= c <= '9'
  }

  predicate AllDigits(s: string) {
    forall i :: 0 <= i < |s| ==> IsDigit(s[i])
  }

  function DigitChar(d: nat): (c: char)
    requires d < 10
    ensures IsDigit(c)
  {
    ('0' as int + d) as char
  }

  function DigitValue(c: char): (d: nat)
    requires IsDigit(c)
    ensures d < 10
  {
    c as int - '0' as int
  }

  /** `strconv.Itoa` for a non-negative value: decimal digits, most
      significant first, with no leading zero. */
  function Itoa(n: nat): (s: string)
    ensures 1 <= |s|
    ensures AllDigits(s)
    ensures s[0] == '0' ==> n == 0
  {
    if n < 10 then [DigitChar(n)] else Itoa(n / 10) + [DigitChar(n % 10)]
  }

  /** Reads a string of decimal digits back as a number. */
  function Atoi(s: string): nat
    requires AllDigits(s)
  {
    if |s| == 0 then 0 else 10 * Atoi(s[..|s| - 1]) + DigitValue(s[|s| - 1])
  }

  lemma {:induction false} AtoiItoa(n: nat)
    ensures Atoi(Itoa(n)) == n
  {
    var s := Itoa(n);
    if n < 10 {
      assert s[..|s| - 1] == [];
    } else {
      assert s[..|s| - 1] == Itoa(n / 10);
      AtoiItoa(n / 10);
    }
  }

  // strings.Split and strings.Join for a one-byte separator.

  /** `strings.Split(s, sep)`: the pieces between successive separators;
      the empty string splits into one empty piece. */
  function Split(s: string, sep: char): (parts: seq<string>)
    ensures 1 <= |parts|
    ensures forall i :: 0 <= i < |parts| ==> sep !in parts[i]
    decreases |s|
  {
    if |s| == 0 then [""]
    else
      var rest := Split(s[1..], sep);
      if s[0] == sep then [""] + rest
      else [[s[0]] + rest[0]] + rest[1..]
  }

  /** A string splits into two or more pieces exactly when it holds the
      separator. */
  lemma {:induction false} SplitPieceCount(s: string, sep: char)
    ensures 2 <= |Split(s, sep)| <==> sep in s
    decreases |s|
  {
    if |s| > 0 {
      SplitPieceCount(s[1..], sep);
      assert s == [s[0]] + s[1..];
    }
  }

  /** `strings.Join(parts, sep)`. */
  function Join(parts: seq<string>, sep: char): string
  {
    if |parts| == 0 then ""
    else if |parts| == 1 then parts[0]
    else parts[0] + [sep] + Join(parts[1..], sep)
  }

  lemma {:induction false} JoinSplit(s: string, sep: char)
    ensures Join(Split(s, sep), sep) == s
    decreases |s|
  {
    if |s| > 0 {
      var rest := Split(s[1..], sep);
      JoinSplit(s[1..], sep);
      if s[0] == sep {
        assert ([""] + rest)[1..] == rest;
      } else if |rest| == 1 {
        assert Join(rest, sep) == rest[0];
      } else {
        var parts := [[s[0]] + rest[0]] + rest[1..];
        assert parts[1..] == rest[1..];
        assert Join(rest, sep) == rest[0] + [sep] + Join(rest[1..], sep);
      }
    }
  }

  /** Splitting a piece free of the separator, followed by the separator. */
  lemma {:induction false} SplitAfterPiece(p: string, sep: char, tail: string)
    requires sep !in p
    ensures Split(p + [sep] + tail, sep) == [p] + Split(tail, sep)
    decreases |p|
  {
    if |p| == 0 {
      assert p + [sep] + tail == [sep] + tail;
      assert ([sep] + tail)[1..] == tail;
    } else {
      var s := p + [sep] + tail;
      assert s[0] == p[0] && s[1..] == p[1..] + [sep] + tail;
      SplitAfterPiece(p[1..], sep, tail);
      assert [p[0]] + p[1..] == p;
    }
  }

  /** A piece free of the separator splits into itself. */
  lemma {:induction false} SplitPiece(p: string, sep: char)
    requires sep !in p
    ensures Split(p, sep) == [p]
    decreases |p|
  {
    if |p| > 0 {
      SplitPiece(p[1..], sep);
      assert [p[0]] + p[1..] == p;
    }
  }

  /** Split undoes Join when no piece holds the separator. */
  lemma {:induction false} SplitJoin(parts: seq<string>, sep: char)
    requires 1 <= |parts|
    requires forall i :: 0 <= i < |parts| ==> sep !in parts[i]
    ensures Split(Join(parts, sep), sep) == parts
    decreases |parts|
  {
    if |parts| == 1 {
      SplitPiece(parts[0], sep);
    } else {
      SplitJoin(parts[1..], sep);
      SplitAfterPiece(parts[0], sep, Join(parts[1..], sep));
      assert [parts[0]] + parts[1..] == parts;
    }
  }

  // The `Indices` text of a closest candidate: positions joined by ':'.

  function Itoas(ps: seq<nat>): (r: seq<string>)
    ensures |r| == |ps|
    ensures forall i :: 0 <= i < |r| ==> r[i] == Itoa(ps[i])
  {
    if |ps| == 0 then [] else [Itoa(ps[0])] + Itoas(ps[1..])
  }

  /** `strings.Join(indices, ":")` over the decimal positions. */
  function RenderIndices(ps: seq<nat>): string
  {
    Join(Itoas(ps), ':')
  }

  /** Reads an `Indices` text back: `None` unless every ':'-separated piece
      is a non-empty run of digits. */
  function ParseIndices(s: string): Option<seq<nat>>
  {
    ParsePieces(Split(s, ':'))
  }

  function ParsePieces(pieces: seq<string>): Option<seq<nat>>
  {
    if |pieces| == 0 then Some([])
    else if |pieces[0]| == 0 || !AllDigits(pieces[0]) then None
    else
      match ParsePieces(pieces[1..])
      case None => None
      case Some(rest) => Some([Atoi(pieces[0])] + rest)
  }

  lemma {:induction false} ParsePiecesItoas(ps: seq<nat>)
    ensures ParsePieces(Itoas(ps)) == Some(ps)
    decreases |ps|
  {
    if |ps| > 0 {
      var pieces := Itoas(ps);
      assert pieces[1..] == Itoas(ps[1..]);
      ParsePiecesItoas(ps[1..]);
      AtoiItoa(ps[0]);
      assert [ps[0]] + ps[1..] == ps;
    }
  }

  /** A non-empty list of positions is recovered from its rendering. */
  lemma RenderIndicesRoundTrip(ps: seq<nat>)
    requires 1 <= |ps|
    ensures ParseIndices(RenderIndices(ps)) == Some(ps)
  {
    var pieces := Itoas(ps);
    forall i | 0 <= i < |pieces| ensures ':' !in pieces[i] {
      assert AllDigits(pieces[i]);
    }
    SplitJoin(pieces, ':');
    ParsePiecesItoas(ps);
  }

  /** A rendering holds only digits and ':', so never the '|' that the
      missing report uses between candidates. */
  lemma {:induction false} RenderIndicesHasNoBar(ps: seq<nat>)
    ensures '|' !in RenderIndices(ps)
    decreases |ps|
  {
    JoinOfDigitsHasNoBar(Itoas(ps));
  }

  lemma {:induction false} JoinOfDigitsHasNoBar(pieces: seq<string>)
    requires forall i :: 0 <= i < |pieces| ==> AllDigits(pieces[i])
    ensures '|' !in Join(pieces, ':')
    decreases |pieces|
  {
    if |pieces| > 1 {
      JoinOfDigitsHasNoBar(pieces[1..]);
    }
  }
}
