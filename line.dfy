/** The line reducer of the game: one row or column, already oriented so that
    "towards the target edge" means "towards index 0". A value 0 is an empty
    cell; every other value is a tile. */
module Line {

  /** Side length of the board. */
  const SIZE: nat := 4

  /** The total of the values on a line. */
  function Sum(s: seq<int>): int
  {
    if s == [] then 0 else s[0] + Sum(s[1..])
  }

  predicate NoZeros(s: seq<int>)
  {
    forall i :: 0 <= i < |s| ==> s[i] != 0
  }

  /** No two neighbouring entries are equal. */
  predicate NoAdjacentEqual(s: seq<int>)
  {
    forall i :: 0 <= i < |s| - 1 ==> s[i] != s[i + 1]
  }

  function Zeros(n: nat): (z: seq<int>)
    ensures |z| == n
  {
    seq(n, i requires 0 <= i < n => 0)
  }

  function Reverse(s: seq<int>): (r: seq<int>)
    ensures |r| == |s|
    ensures forall i :: 0 <= i < |s| ==> r[i] == s[|s| - 1 - i]
  {
    seq(|s|, i requires 0 <= i < |s| => s[|s| - 1 - i])
  }

  /** A positive power of two (1, 2, 4, 8, ...). */
  predicate IsPowerOfTwo(n: int)
    decreases if n < 0 then 0 else n
  {
    n == 1 || (n >= 2 && n % 2 == 0 && IsPowerOfTwo(n / 2))
  }

  /** Every entry is empty or a power of two: the values the game produces. */
  predicate AllTiles(s: seq<int>)
  {
    forall i :: 0 <= i < |s| ==> s[i] == 0 || IsPowerOfTwo(s[i])
  }

  /** Compaction, the filter that drops the empty cells and keeps the order of
      the others. */
  function Compact(s: seq<int>): (r: seq<int>)
    ensures |r| <= |s|
    ensures NoZeros(r)
  {
    if s == [] then []
    else if s[0] == 0 then Compact(s[1..])
    else [s[0]] + Compact(s[1..])
  }

  /** The single left-to-right merge scan on a compacted line, with the zeros
      it leaves behind already removed: an equal pair becomes one tile of twice
      the value, and a tile made by a merge is never looked at again. At least
      half of the tiles survive (no tile takes part in two merges) and no empty
      cell appears. */
  function MergePairs(c: seq<int>): (r: seq<int>)
    requires NoZeros(c)
    ensures |r| <= |c| <= 2 * |r|
    ensures NoZeros(r)
    decreases |c|
  {
    if |c| < 2 then c
    else if c[0] == c[1] then [2 * c[0]] + MergePairs(c[2..])
    else [c[0]] + MergePairs(c[1..])
  }

  /** The lines `slideAndMerge` handles without throwing: the padding step
      builds an array of length SIZE minus the merged length, which must not
      be negative. Every line of at most SIZE entries fits (`ShortLineFits`). */
  predicate Fits(row: seq<int>)
  {
    |MergePairs(Compact(row))| <= SIZE
  }

  /** Right padding with empty cells up to SIZE. */
  function Pad(s: seq<int>): (r: seq<int>)
    requires |s| <= SIZE
    ensures |r| == SIZE
  {
    s + Zeros(SIZE - |s|)
  }

  /** Every line of at most SIZE cells fits, since neither compaction nor
      merging lengthens a line. */
  lemma ShortLineFits(row: seq<int>)
    requires |row| <= SIZE
    ensures Fits(row)
  {
  }

  /** The reducer: compact, merge each equal adjacent pair once from the left,
      compact again, pad with empty cells to SIZE. */
  function SlideAndMerge(row: seq<int>): (r: seq<int>)
    requires Fits(row)
    ensures |r| == SIZE
  {
    Pad(MergePairs(Compact(row)))
  }

  /** Shallow element equality of two arrays. On arrays of rows it compares
      the rows as references. */
  function ArraysEqual<T(==)>(a: seq<T>, b: seq<T>): (r: bool)
    ensures r <==> a == b
  {
    |a| == |b| && forall i :: 0 <= i < |a| ==> a[i] == b[i]
  }

  /** The reducer as `slideAndMerge` computes it: filter, then an index loop that
      doubles `newRow[i]` and clears `newRow[i + 1]` in place on every equal
      pair, then filter and pad. */
  method SlideAndMergeRow(row: seq<int>) returns (r: seq<int>)
    requires Fits(row)
    ensures r == SlideAndMerge(row)
  {
    var c := Compact(row);
    var newRow := new int[|c|](k requires 0 <= k < |c| => c[k]);
    var i := 0;
    ScanStart(c);
    while i < newRow.Length - 1
      invariant 0 <= i <= if newRow.Length == 0 then 0 else newRow.Length - 1
      invariant newRow.Length == |c|
      invariant ScanState(newRow[..], c, i)
    {
      ScanStep(newRow[..], c, i);
      MergeAt(newRow, i);
      i := i + 1;
    }
    ScanEnd(newRow[..], c, i);
    var merged := Compact(newRow[..]);
    r := merged + Zeros(SIZE - |merged|);
  }

  /** The loop body of `slideAndMerge`: two equal neighbours at `i` and
      `i + 1` become their double at `i` and a hole at `i + 1`. */
  method MergeAt(newRow: array<int>, i: nat)
    requires i + 1 < newRow.Length
    modifies newRow
    ensures newRow[..] == Scanned(old(newRow[..]), i)
  {
    if newRow[i] == newRow[i + 1] {
      newRow[i] := newRow[i] * 2;
      newRow[i + 1] := 0;
    }
  }

  /** What the scan has done after `i` steps: `s[i]` is the original tile or
      was cleared by the merge at `i - 1`, nothing after it has been touched,
      and the tiles already settled before `i`, followed by what the scan will
      produce from `i` on, are the merged line. */
  ghost predicate ScanState(s: seq<int>, c: seq<int>, i: nat)
    requires NoZeros(c)
  {
    |s| == |c| && (|s| == 0 ==> i == 0) &&
    (i < |s| ==>
      (s[i] == c[i] || s[i] == 0) &&
      s[i + 1..] == c[i + 1..] &&
      Compact(s[..i]) + MergePairs(if s[i] == 0 then c[i + 1..] else c[i..]) == MergePairs(c))
  }

  /** One iteration of the scan at index `i`. */
  function Scanned(s: seq<int>, i: nat): seq<int>
    requires i + 1 < |s|
  {
    if s[i] == s[i + 1] then s[i := 2 * s[i]][i + 1 := 0] else s
  }

  lemma ScanStart(c: seq<int>)
    requires NoZeros(c)
    ensures ScanState(c, c, 0)
  {
    CompactNoZeros(c);
    assert c[..0] == [] && c[0..] == c;
  }

  lemma ScanStep(s: seq<int>, c: seq<int>, i: nat)
    requires NoZeros(c) && i + 1 < |s| && ScanState(s, c, i)
    ensures ScanState(Scanned(s, i), c, i + 1)
  {
    assert s[i + 1] == c[i + 1] by { assert s[i + 1..][0] == s[i + 1] && c[i + 1..][0] == c[i + 1]; }
    var t := Scanned(s, i);
    assert t[i + 2..] == c[i + 2..] by {
      assert t[i + 2..] == s[i + 2..];
      assert s[i + 2..] == s[i + 1..][1..];
      assert c[i + 2..] == c[i + 1..][1..];
    }
    assert t[..i + 1] == s[..i] + [t[i]];
    var done := Compact(s[..i]);
    if s[i] == s[i + 1] {
      assert s[i] == c[i];
      MergeStepValue(s, c, i);
    } else if s[i] == 0 {
      CompactSnoc(s[..i], 0);
      assert t[i + 1] == c[i + 1];
    } else {
      KeepStepValue(s, c, i);
    }
  }

  lemma MergeStepValue(s: seq<int>, c: seq<int>, i: nat)
    requires NoZeros(c) && i + 1 < |s| == |c|
    requires s[i] == c[i]
    requires s[i + 1] == c[i + 1] && s[i] == s[i + 1]
    requires Compact(s[..i]) + MergePairs(c[i..]) == MergePairs(c)
    ensures Scanned(s, i)[i + 1] == 0
    ensures Compact(Scanned(s, i)[..i + 1]) + MergePairs(c[i + 2..]) == MergePairs(c)
  {
    var t := Scanned(s, i);
    var v := 2 * c[i];
    MergedPrefix(s, i);
    assert v != 0;
    CompactSnoc(s[..i], v);
    assert Compact(t[..i + 1]) == Compact(s[..i]) + [v];
    MergePairsAt(c, i);
    assert MergePairs(c[i..]) == [v] + MergePairs(c[i + 2..]);
    ShiftOne(Compact(s[..i]), v, MergePairs(c[i + 2..]), MergePairs(c));
  }

  lemma ShiftOne(p: seq<int>, v: int, q: seq<int>, m: seq<int>)
    requires p + ([v] + q) == m
    ensures (p + [v]) + q == m
  {
  }

  /** A merge at `i` leaves the cells before `i` alone, doubles cell `i` and
      clears cell `i + 1`. */
  lemma MergedPrefix(s: seq<int>, i: nat)
    requires i + 1 < |s| && s[i] == s[i + 1]
    ensures Scanned(s, i)[i + 1] == 0
    ensures Scanned(s, i)[..i + 1] == s[..i] + [2 * s[i]]
  {
  }

  lemma KeepStepValue(s: seq<int>, c: seq<int>, i: nat)
    requires NoZeros(c) && i + 1 < |s| == |c|
    requires s[i] == c[i]
    requires s[i + 1] == c[i + 1] && s[i] != s[i + 1]
    requires Compact(s[..i]) + MergePairs(c[i..]) == MergePairs(c)
    ensures Compact(s[..i + 1]) + MergePairs(c[i + 1..]) == MergePairs(c)
  {
    assert s[..i + 1] == s[..i] + [c[i]];
    CompactSnoc(s[..i], c[i]);
    assert Compact(s[..i + 1]) == Compact(s[..i]) + [c[i]];
    MergePairsAt(c, i);
    assert MergePairs(c[i..]) == [c[i]] + MergePairs(c[i + 1..]);
    ShiftOne(Compact(s[..i]), c[i], MergePairs(c[i + 1..]), MergePairs(c));
  }

  lemma ScanEnd(s: seq<int>, c: seq<int>, i: nat)
    requires NoZeros(c) && ScanState(s, c, i)
    requires i >= |s| - 1 && (|s| > 0 ==> i < |s|)
    ensures Compact(s) == MergePairs(c)
  {
    if |s| > 0 {
      assert s == s[..i] + [s[i]];
      CompactSnoc(s[..i], s[i]);
      assert c[i + 1..] == [];
      if s[i] != 0 {
        assert c[i..] == [c[i]];
      }
    } else {
      assert s == [] && c == [];
    }
  }

  // ---------------------------------------------------------------------
  // Helper facts about compaction and the sums of concatenations

  lemma {:induction false} CompactAppend(a: seq<int>, b: seq<int>)
    ensures Compact(a + b) == Compact(a) + Compact(b)
    decreases |a|
  {
    if a == [] {
      assert a + b == b;
    } else {
      assert (a + b)[1..] == a[1..] + b;
      CompactAppend(a[1..], b);
    }
  }

  lemma {:induction false} CompactNoZeros(s: seq<int>)
    requires NoZeros(s)
    ensures Compact(s) == s
    decreases |s|
  {
    if s != [] {
      CompactNoZeros(s[1..]);
      assert [s[0]] + s[1..] == s;
    }
  }

  lemma {:induction false} CompactZeros(n: nat)
    ensures Compact(Zeros(n)) == []
  {
    if n > 0 {
      assert Zeros(n)[1..] == Zeros(n - 1);
      CompactZeros(n - 1);
    }
  }

  lemma {:induction false} SumAppend(a: seq<int>, b: seq<int>)
    ensures Sum(a + b) == Sum(a) + Sum(b)
    decreases |a|
  {
    if a == [] {
      assert a + b == b;
    } else {
      assert (a + b)[1..] == a[1..] + b;
      SumAppend(a[1..], b);
    }
  }

  lemma {:induction false} SumZeros(n: nat)
    ensures Sum(Zeros(n)) == 0
  {
    if n > 0 {
      assert Zeros(n)[1..] == Zeros(n - 1);
      SumZeros(n - 1);
    }
  }

  lemma CompactSnoc(s: seq<int>, x: int)
    ensures Compact(s + [x]) == if x == 0 then Compact(s) else Compact(s) + [x]
  {
    CompactAppend(s, [x]);
    assert [x][1..] == [];
  }

  /** One step of the merge scan, read at position `i` of the compacted line. */
  lemma MergePairsAt(c: seq<int>, i: nat)
    requires NoZeros(c) && i + 1 < |c|
    ensures MergePairs(c[i..]) ==
      if c[i] == c[i + 1] then [2 * c[i]] + MergePairs(c[i + 2..])
      else [c[i]] + MergePairs(c[i + 1..])
  {
    assert c[i..][2..] == c[i + 2..];
    assert c[i..][1..] == c[i + 1..];
  }

  // ---------------------------------------------------------------------
  // Properties of the reducer

  /** The result has exactly SIZE entries: the merged tiles first, in order,
      then only empty cells; an all-empty line stays all-empty. */
  lemma SlideAndMergeShape(row: seq<int>)
    requires Fits(row)
    ensures |SlideAndMerge(row)| == SIZE
    ensures Compact(SlideAndMerge(row)) == MergePairs(Compact(row))
    ensures forall i, j :: 0 <= i < j < SIZE && SlideAndMerge(row)[i] == 0 ==> SlideAndMerge(row)[j] == 0
    ensures (forall i :: 0 <= i < |row| ==> row[i] == 0) ==> SlideAndMerge(row) == Zeros(SIZE)
  {
    var m := MergePairs(Compact(row));
    CompactAppend(m, Zeros(SIZE - |m|));
    CompactNoZeros(m);
    CompactZeros(SIZE - |m|);
    if forall i :: 0 <= i < |row| ==> row[i] == 0 {
      AllZeroCompact(row);
    }
  }

  lemma {:induction false} AllZeroCompact(s: seq<int>)
    requires forall i :: 0 <= i < |s| ==> s[i] == 0
    ensures Compact(s) == []
    decreases |s|
  {
    if s != [] {
      AllZeroCompact(s[1..]);
    }
  }

  /** Reducing a line keeps the total of its values: a merge turns `a, a`
      into `2a, 0`. */
  lemma SlideAndMergeSum(row: seq<int>)
    requires Fits(row)
    ensures Sum(SlideAndMerge(row)) == Sum(row)
  {
    CompactSum(row);
    MergePairsSum(Compact(row));
    var m := MergePairs(Compact(row));
    SumAppend(m, Zeros(SIZE - |m|));
    SumZeros(SIZE - |m|);
  }

  lemma {:induction false} CompactSum(s: seq<int>)
    ensures Sum(Compact(s)) == Sum(s)
    decreases |s|
  {
    if s != [] {
      CompactSum(s[1..]);
      if s[0] != 0 {
        assert ([s[0]] + Compact(s[1..]))[1..] == Compact(s[1..]);
      }
    }
  }

  lemma {:induction false} MergePairsSum(c: seq<int>)
    requires NoZeros(c)
    ensures Sum(MergePairs(c)) == Sum(c)
    decreases |c|
  {
    if |c| >= 2 {
      assert c[1..][1..] == c[2..];
      if c[0] == c[1] {
        MergePairsSum(c[2..]);
        assert ([2 * c[0]] + MergePairs(c[2..]))[1..] == MergePairs(c[2..]);
      } else {
        MergePairsSum(c[1..]);
        assert ([c[0]] + MergePairs(c[1..]))[1..] == MergePairs(c[1..]);
      }
    }
  }

  /** The merge scan returns its input exactly when the input has no equal
      neighbours; otherwise it loses at least one tile. */
  lemma {:induction false} MergePairsUnchanged(c: seq<int>)
    requires NoZeros(c)
    ensures MergePairs(c) == c <==> NoAdjacentEqual(c)
    ensures !NoAdjacentEqual(c) ==> |MergePairs(c)| < |c|
    decreases |c|
  {
    if |c| >= 2 {
      assert c[1..][1..] == c[2..];
      if c[0] == c[1] {
        assert !NoAdjacentEqual(c) by { assert c[0] == c[0 + 1]; }
      } else {
        MergePairsUnchanged(c[1..]);
        assert NoAdjacentEqual(c) <==> NoAdjacentEqual(c[1..]) by {
          if NoAdjacentEqual(c[1..]) {
            forall i | 0 <= i < |c| - 1 ensures c[i] != c[i + 1] {
              if i > 0 { assert c[i] == c[1..][i - 1] && c[i + 1] == c[1..][i]; }
            }
          }
          if NoAdjacentEqual(c) {
            forall i | 0 <= i < |c[1..]| - 1 ensures c[1..][i] != c[1..][i + 1] {
              assert c[1..][i] == c[i + 1] && c[1..][i + 1] == c[i + 2];
            }
          }
        }
        assert [c[0]] + c[1..] == c;
      }
    }
  }

  /** Without an equal pair after compaction the reducer only compacts: the
      tiles come back in their original order, padded with empty cells. With
      one, it returns a different line. */
  lemma SlideAndMergeNoPairs(row: seq<int>)
    requires Fits(row)
    ensures NoAdjacentEqual(Compact(row)) <==>
      |Compact(row)| <= SIZE && SlideAndMerge(row) == Pad(Compact(row))
  {
    var c := Compact(row);
    MergePairsUnchanged(c);
    if !NoAdjacentEqual(c) && |c| <= SIZE {
      var m := MergePairs(c);
      assert SlideAndMerge(row)[|m|] == 0;
      assert Pad(c)[|m|] == c[|m|] != 0;
    }
  }

  /** A line is left as it is exactly when it is full and has no equal
      neighbours (for a line of SIZE entries). */
  lemma SlideAndMergeFullLine(row: seq<int>)
    requires |row| == SIZE && NoZeros(row)
    ensures SlideAndMerge(row) == row <==> NoAdjacentEqual(row)
  {
    CompactNoZeros(row);
    SlideAndMergeNoPairs(row);
    assert Pad(row) == row;
  }

  /** Each output tile is an input tile or twice one. (That a merged tile is
      never merged again is `MergedFrom`, not this lemma.) */
  lemma {:induction false} MergePairsFromInputs(c: seq<int>)
    requires NoZeros(c)
    ensures forall i :: 0 <= i < |MergePairs(c)| ==>
      MergePairs(c)[i] in c || (MergePairs(c)[i] % 2 == 0 && MergePairs(c)[i] / 2 in c)
    decreases |c|
  {
    if |c| >= 2 {
      if c[0] == c[1] {
        MergePairsFromInputs(c[2..]);
        var m := MergePairs(c);
        forall i | 0 <= i < |m| ensures m[i] in c || (m[i] % 2 == 0 && m[i] / 2 in c) {
          if i == 0 {
            assert m[0] / 2 == c[0];
          } else {
            assert m[i] == MergePairs(c[2..])[i - 1];
            assert forall x :: x in c[2..] ==> x in c;
          }
        }
      } else {
        MergePairsFromInputs(c[1..]);
        var m := MergePairs(c);
        forall i | 0 <= i < |m| ensures m[i] in c || (m[i] % 2 == 0 && m[i] / 2 in c) {
          if i > 0 {
            assert m[i] == MergePairs(c[1..])[i - 1];
            assert forall x :: x in c[1..] ==> x in c;
          }
        }
      }
    }
  }

  /** `r` is obtained from `c` by cutting `c` into consecutive blocks, each a
      single tile kept as it is or two equal neighbours replaced by their
      double, every tile of `c` in exactly one block. A tile produced by a
      merge is never merged again. */
  predicate MergedFrom(c: seq<int>, r: seq<int>)
    decreases |c|
  {
    (c == [] && r == []) ||
    (c != [] && r != [] &&
      ((r[0] == c[0] && MergedFrom(c[1..], r[1..])) ||
       (|c| >= 2 && c[0] == c[1] && r[0] == 2 * c[0] && MergedFrom(c[2..], r[1..]))))
  }

  /** The merge scan is such a block decomposition. */
  lemma {:induction false} MergePairsMergedFrom(c: seq<int>)
    requires NoZeros(c)
    ensures MergedFrom(c, MergePairs(c))
    decreases |c|
  {
    if |c| == 1 {
      assert c[1..] == [] && MergePairs(c)[1..] == [];
    } else if |c| >= 2 {
      if c[0] == c[1] {
        MergePairsMergedFrom(c[2..]);
        assert MergePairs(c)[1..] == MergePairs(c[2..]);
      } else {
        MergePairsMergedFrom(c[1..]);
        assert MergePairs(c)[1..] == MergePairs(c[1..]);
      }
    }
  }

  /** Merges do not cascade: the tiles of the result come from the compacted
      line by blocks of one tile or of two equal neighbours, so no tile takes
      part in two merges. Hence at least half of the tiles survive, and each
      output tile is an input tile or twice one. */
  lemma SlideAndMergeNoCascade(row: seq<int>)
    requires Fits(row)
    ensures MergedFrom(Compact(row), Compact(SlideAndMerge(row)))
    ensures var out := Compact(SlideAndMerge(row));
      |out| <= |Compact(row)| <= 2 * |out| &&
      forall i :: 0 <= i < |out| ==>
        out[i] in row || (out[i] % 2 == 0 && out[i] / 2 in row)
  {
    SlideAndMergeShape(row);
    MergePairsMergedFrom(Compact(row));
    MergePairsFromInputs(Compact(row));
    CompactSubset(row);
  }

  /** The block relation tells the reducer apart from a cascading one: from
      the tiles `2, 2, 4, 16` it allows `4, 4, 16` but not `8, 16`, which a
      reducer that merged the new 4 with the next 4 would give. */
  lemma CascadeExcluded()
    ensures MergedFrom([2, 2, 4, 16], [4, 4, 16])
    ensures !MergedFrom([2, 2, 4, 16], [8, 16])
  {
    assert [2, 2, 4, 16][2..] == [4, 16] && [4, 4, 16][1..] == [4, 16];
    assert [4, 16][1..] == [16] && [16][1..] == [];
    assert MergedFrom([16], [16]);
    assert MergedFrom([4, 16], [4, 16]);
  }

  lemma {:induction false} CompactSubset(s: seq<int>)
    ensures forall x :: x in Compact(s) ==> x in s
    decreases |s|
  {
    if s != [] {
      CompactSubset(s[1..]);
    }
  }

  lemma DoublePowerOfTwo(n: int)
    requires IsPowerOfTwo(n)
    ensures IsPowerOfTwo(2 * n)
  {
    assert (2 * n) / 2 == n;
  }

  /** If every non-empty input is a power of two, so is every non-empty
      output. */
  lemma SlideAndMergeTiles(row: seq<int>)
    requires Fits(row) && AllTiles(row)
    ensures AllTiles(SlideAndMerge(row))
  {
    var m := MergePairs(Compact(row));
    CompactSubset(row);
    assert AllTiles(Compact(row)) by {
      var c := Compact(row);
      forall k | 0 <= k < |c| ensures c[k] == 0 || IsPowerOfTwo(c[k]) {
        assert c[k] in row;
      }
    }
    MergePairsTiles(Compact(row));
    var r := SlideAndMerge(row);
    forall i | 0 <= i < SIZE ensures r[i] == 0 || IsPowerOfTwo(r[i]) {
      if i < |m| { assert r[i] == m[i]; }
    }
  }

  lemma {:induction false} MergePairsTiles(c: seq<int>)
    requires NoZeros(c) && AllTiles(c)
    ensures AllTiles(MergePairs(c))
    decreases |c|
  {
    if |c| >= 2 {
      if c[0] == c[1] {
        DoublePowerOfTwo(c[0]);
        MergePairsTiles(c[2..]);
        var m := MergePairs(c);
        forall i | 0 <= i < |m| ensures m[i] == 0 || IsPowerOfTwo(m[i]) {
          if i > 0 { assert m[i] == MergePairs(c[2..])[i - 1]; }
        }
      } else {
        MergePairsTiles(c[1..]);
        var m := MergePairs(c);
        forall i | 0 <= i < |m| ensures m[i] == 0 || IsPowerOfTwo(m[i]) {
          if i > 0 { assert m[i] == MergePairs(c[1..])[i - 1]; }
        }
      }
    }
  }

  /** Merges do not cascade: four equal tiles give two merged tiles. */
  lemma NoCascadeExample()
    ensures SlideAndMerge([2, 2, 2, 2]) == [4, 4, 0, 0]
  {
    CompactNoZeros([2, 2, 2, 2]);
    assert [2, 2, 2, 2][2..] == [2, 2];
    assert [2, 2][2..] == [];
    assert MergePairs([2, 2, 2, 2]) == [4, 4];
  }

  /** Pairs are taken from the left: of three equal tiles the first two
      merge and the third stays. */
  lemma LeftFirstExample()
    ensures SlideAndMerge([2, 2, 2, 0]) == [4, 2, 0, 0]
  {
    CompactSnoc([2, 2, 2], 0);
    CompactNoZeros([2, 2, 2]);
    assert [2, 2, 2][2..] == [2];
  }

  /** Tiles separated by empty cells still meet and merge. */
  lemma GapMergeExample()
    ensures SlideAndMerge([0, 2, 0, 2]) == [4, 0, 0, 0]
  {
    assert [0, 2, 0, 2] == [0, 2] + [0, 2];
    CompactAppend([0, 2], [0, 2]);
    CompactSnoc([0], 2);
    CompactSnoc([], 0);
    assert [0, 2] == [0] + [2] && [0] == [] + [0];
    assert Compact([0, 2, 0, 2]) == [2, 2];
    assert [2, 2][2..] == [];
    assert MergePairs([2, 2]) == [4];
  }

  /** Nothing to merge: the line comes back unchanged. */
  lemma NoPairExample()
    ensures SlideAndMerge([2, 4, 2, 4]) == [2, 4, 2, 4]
  {
    SlideAndMergeFullLine([2, 4, 2, 4]);
  }

  /** Reducing twice is not reducing once: `[2,2,4,0]` gives `[4,4,0,0]`,
      which gives `[8,0,0,0]`. */
  lemma NotIdempotentExample()
    ensures SlideAndMerge([2, 2, 4, 0]) == [4, 4, 0, 0]
    ensures SlideAndMerge(SlideAndMerge([2, 2, 4, 0])) == [8, 0, 0, 0]
  {
    CompactSnoc([2, 2, 4], 0);
    assert [2, 2, 4, 0] == [2, 2, 4] + [0];
    CompactNoZeros([2, 2, 4]);
    assert [2, 2, 4][2..] == [4];
    assert MergePairs([2, 2, 4]) == [4, 4];
    assert [4, 4, 0, 0] == [4, 4] + Zeros(2);
    CompactAppend([4, 4], Zeros(2));
    CompactNoZeros([4, 4]);
    CompactZeros(2);
    assert [4, 4][2..] == [];
    assert MergePairs([4, 4]) == [8];
  }
}
