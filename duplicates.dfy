/** Duplicate detection by hash: a file is a duplicate when an earlier file
    of the list has the same hash. Reading a file is the function `read`
    from a path to its bytes; the hash function is a parameter. */
module Duplicates {
  import opened Bytes

  type Path = string

  /** The hash of every file of the list, in list order. */
  function Hashes(files: seq<Path>, read: Path -> seq<byte>, hash: seq<byte> -> nat): (hs: seq<nat>)
    ensures |hs| == |files|
    ensures forall i :: 0 <= i < |files| ==> hs[i] == hash(read(files[i]))
  {
    seq(|files|, i requires 0 <= i < |files| => hash(read(files[i])))
  }

  /** The positions whose hash already occurs at an earlier position. */
  function DupIndices(hs: seq<nat>): (d: seq<nat>)
    ensures forall k :: 0 <= k < |d| ==> d[k] < |hs|
  {
    if hs == [] then []
    else
      var n := |hs| - 1;
      DupIndices(hs[..n]) + (if hs[n] in hs[..n] then [n] else [])
  }

  /** The distinct hashes of the list. */
  function Distinct(hs: seq<nat>): set<nat>
  {
    set h | h in hs
  }

  /** The first position holding h. */
  function FirstIndex(hs: seq<nat>, h: nat): (i: nat)
    requires h in hs
    ensures i < |hs| && hs[i] == h && h !in hs[..i]
  {
    if hs[0] == h then 0
    else
      var i := FirstIndex(hs[1..], h) + 1;
      assert hs[..i] == [hs[0]] + hs[1..][..i - 1];
      i
  }

  /** FirstIndex is the only position holding h with no h before it. */
  lemma FirstIndexUnique(hs: seq<nat>, h: nat, i: nat)
    requires i < |hs| && hs[i] == h && h !in hs[..i]
    ensures FirstIndex(hs, h) == i
  {
  }

  /** Extending the list by one position extends DupIndices by at most it. */
  lemma DupIndicesPrefix(hs: seq<nat>, i: nat)
    requires i < |hs|
    ensures DupIndices(hs[..i + 1]) == DupIndices(hs[..i]) + (if hs[i] in hs[..i] then [i] else [])
  {
    assert hs[..i + 1][..i] == hs[..i];
  }

  /** i is listed exactly when its hash occurred before it, and the list is
      strictly increasing, so duplicates come out in input order. */
  lemma DupIndicesSpec(hs: seq<nat>)
    ensures forall i: nat :: i in DupIndices(hs) <==> i < |hs| && hs[i] in hs[..i]
    ensures forall k, l :: 0 <= k < l < |DupIndices(hs)| ==> DupIndices(hs)[k] < DupIndices(hs)[l]
  {
    DupIndicesMembers(hs);
    DupIndicesIncreasing(hs);
  }

  lemma {:induction false} DupIndicesMembers(hs: seq<nat>)
    ensures forall i: nat :: i in DupIndices(hs) <==> i < |hs| && hs[i] in hs[..i]
  {
    if hs != [] {
      var n := |hs| - 1;
      var d := DupIndices(hs[..n]);
      var t := if hs[n] in hs[..n] then [n] else [];
      assert DupIndices(hs) == d + t;
      DupIndicesMembers(hs[..n]);
      forall i: nat
        ensures i in d + t <==> i < |hs| && hs[i] in hs[..i]
      {
        if i < n {
          assert hs[..n][i] == hs[i] && hs[..n][..i] == hs[..i];
        } else if i > n {
          assert i !in d;
        }
      }
    }
  }

  lemma {:induction false} DupIndicesIncreasing(hs: seq<nat>)
    ensures forall k, l :: 0 <= k < l < |DupIndices(hs)| ==> DupIndices(hs)[k] < DupIndices(hs)[l]
  {
    if hs != [] {
      var n := |hs| - 1;
      var d := DupIndices(hs[..n]);
      var t := if hs[n] in hs[..n] then [n] else [];
      assert DupIndices(hs) == d + t;
      DupIndicesIncreasing(hs[..n]);
      forall k, l | 0 <= k < l < |d + t|
        ensures (d + t)[k] < (d + t)[l]
      {
        if l >= |d| {
          assert (d + t)[l] == n;
          if k < |d| {
            assert (d + t)[k] == d[k] < n;
          }
        } else {
          assert (d + t)[k] == d[k] && (d + t)[l] == d[l];
        }
      }
    }
  }

  /** Every file either starts a new hash or is a duplicate: the number of
      duplicates is the number of files minus the number of distinct hashes. */
  lemma {:induction false} DuplicateCount(hs: seq<nat>)
    ensures |DupIndices(hs)| + |Distinct(hs)| == |hs|
  {
    if hs != [] {
      var n := |hs| - 1;
      DuplicateCount(hs[..n]);
      assert hs[..n + 1] == hs;
      DupIndicesPrefix(hs, n);
      DistinctStep(hs, n);
    }
  }

  /** One more position adds one distinct hash exactly when it is new. */
  lemma DistinctStep(hs: seq<nat>, n: nat)
    requires n + 1 == |hs|
    ensures |Distinct(hs)| == |Distinct(hs[..n])| + (if hs[n] in hs[..n] then 0 else 1)
  {
    assert hs == hs[..n] + [hs[n]];
    assert Distinct(hs) == Distinct(hs[..n]) + {hs[n]};
    if hs[n] !in hs[..n] {
      assert hs[n] !in Distinct(hs[..n]);
    }
  }

  /** dups lists the files at the duplicate positions among the first i. */
  ghost predicate ListsDuplicates(dups: seq<Path>, files: seq<Path>, hs: seq<nat>, i: nat)
    requires i <= |hs| == |files|
  {
    var d := DupIndices(hs[..i]);
    |dups| == |d| && forall k :: 0 <= k < |d| ==> dups[k] == files[d[k]]
  }

  /** m maps exactly the hashes of the first i files, each to the first file
      of the whole list that has it. */
  ghost predicate MapsToFirst(m: map<nat, Path>, files: seq<Path>, hs: seq<nat>, i: nat)
    requires i <= |hs| == |files|
  {
    (forall h :: h in m <==> h in hs[..i]) &&
    forall h :: h in m ==> h in hs && m[h] == files[FirstIndex(hs, h)]
  }

  lemma ListsDuplicatesStep(dups: seq<Path>, files: seq<Path>, hs: seq<nat>, i: nat)
    requires i < |hs| == |files| && ListsDuplicates(dups, files, hs, i)
    ensures ListsDuplicates(if hs[i] in hs[..i] then dups + [files[i]] else dups, files, hs, i + 1)
  {
    DupIndicesPrefix(hs, i);
  }

  lemma MapsToFirstStep(m: map<nat, Path>, files: seq<Path>, hs: seq<nat>, i: nat)
    requires i < |hs| == |files| && MapsToFirst(m, files, hs, i)
    ensures hs[i] in m <==> hs[i] in hs[..i]
    ensures MapsToFirst(if hs[i] in m then m else m[hs[i] := files[i]], files, hs, i + 1)
  {
    assert hs[..i + 1] == hs[..i] + [hs[i]];
    if hs[i] !in m {
      FirstIndexUnique(hs, hs[i], i);
    }
  }

  /** find_duplicates: walks the files in order; a file whose hash is already
      a key of hashToFile is appended to duplicates, otherwise its hash is
      recorded as pointing to it. */
  method FindDuplicates(files: seq<Path>, read: Path -> seq<byte>, hash: seq<byte> -> nat)
    returns (duplicates: seq<Path>, hashToFile: map<nat, Path>)
    ensures var hs := Hashes(files, read, hash);
            var d := DupIndices(hs);
            |duplicates| == |d| && forall k :: 0 <= k < |d| ==> duplicates[k] == files[d[k]]
    ensures var hs := Hashes(files, read, hash);
            forall h :: h in hashToFile <==> h in hs
    ensures var hs := Hashes(files, read, hash);
            forall h :: h in hashToFile ==> h in hs && hashToFile[h] == files[FirstIndex(hs, h)]
    ensures |duplicates| == |files| - |hashToFile|
  {
    ghost var hs := Hashes(files, read, hash);
    duplicates := [];
    hashToFile := map[];
    for i := 0 to |files|
      invariant ListsDuplicates(duplicates, files, hs, i)
      invariant MapsToFirst(hashToFile, files, hs, i)
    {
      var fileHash := hash(read(files[i]));
      assert fileHash == hs[i];
      ListsDuplicatesStep(duplicates, files, hs, i);
      MapsToFirstStep(hashToFile, files, hs, i);
      if fileHash in hashToFile {
        duplicates := duplicates + [files[i]];
      } else {
        hashToFile := hashToFile[fileHash := files[i]];
      }
    }
    assert hs[..|files|] == hs;
    DuplicateCount(hs);
    assert hashToFile.Keys == Distinct(hs);
  }
}
