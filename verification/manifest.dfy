/**
 The manifest `saveBatch` writes next to a batch's files: the batch path,
 the number of files, their total size (a left-to-right `reduce` from 0)
 and one entry per file with its relative path and size.
 */
module Manifest {

  /** A file handed to `saveBatch`: where it is now, its size, where it goes inside the batch. */
  datatype BatchFile = BatchFile(path: string, size: nat, relativePath: string)

  datatype ManifestEntry = ManifestEntry(path: string, size: nat)

  datatype BatchManifest = BatchManifest(
    batchPath: string,
    fileCount: nat,
    totalSize: nat,
    files: seq<ManifestEntry>)

  /** The reference total: the sizes added up from the last file back. */
  function TotalSize(fs: seq<BatchFile>): nat {
    if |fs| == 0 then 0 else TotalSize(fs[..|fs| - 1]) + fs[|fs| - 1].size
  }

  /** `files.reduce((sum, file) => sum + file.size, acc)`: a left fold, front to back. */
  function ReduceSizes(fs: seq<BatchFile>, acc: nat): nat
    decreases |fs|
  {
    if |fs| == 0 then acc else ReduceSizes(fs[1..], acc + fs[0].size)
  }

  /** The entry list, one entry per file in the same order. */
  function Entries(fs: seq<BatchFile>): (r: seq<ManifestEntry>)
    ensures |r| == |fs|
    ensures forall i :: 0 <= i < |fs| ==> r[i] == ManifestEntry(fs[i].relativePath, fs[i].size)
  {
    if |fs| == 0 then [] else [ManifestEntry(fs[0].relativePath, fs[0].size)] + Entries(fs[1..])
  }

  /** The sizes recorded in the entries, added up. */
  function EntrySizes(es: seq<ManifestEntry>): nat {
    if |es| == 0 then 0 else EntrySizes(es[..|es| - 1]) + es[|es| - 1].size
  }

  /**
   The manifest of a batch: it counts every file, lists every file with its
   relative path and size, and its total is the sum of all the sizes, which
   is also the sum of the sizes the entries record.
   */
  function SaveBatchManifest(fs: seq<BatchFile>, batchPath: string): (m: BatchManifest)
    ensures m.batchPath == batchPath && m.fileCount == |fs| == |m.files|
    ensures forall i :: 0 <= i < |fs| ==> m.files[i].path == fs[i].relativePath && m.files[i].size == fs[i].size
    ensures m.totalSize == TotalSize(fs) == EntrySizes(m.files)
  {
    ReduceIsTotal(fs, 0);
    EntrySizesAgree(fs);
    BatchManifest(batchPath, |fs|, ReduceSizes(fs, 0), Entries(fs))
  }

  /** The sizes of two runs of files add up. */
  lemma {:induction false} TotalSizeConcat(a: seq<BatchFile>, b: seq<BatchFile>)
    ensures TotalSize(a + b) == TotalSize(a) + TotalSize(b)
    decreases |b|
  {
    if |b| == 0 {
      assert a + b == a;
    } else {
      var b' := b[..|b| - 1];
      assert (a + b)[..|a + b| - 1] == a + b';
      TotalSizeConcat(a, b');
    }
  }

  /** Folding from an accumulator adds the accumulator to the total. */
  lemma {:induction false} ReduceIsTotal(fs: seq<BatchFile>, acc: nat)
    ensures ReduceSizes(fs, acc) == acc + TotalSize(fs)
    decreases |fs|
  {
    if |fs| > 0 {
      ReduceIsTotal(fs[1..], acc + fs[0].size);
      assert fs == [fs[0]] + fs[1..];
      TotalSizeConcat([fs[0]], fs[1..]);
      assert TotalSize([fs[0]]) == fs[0].size;
    }
  }

  lemma {:induction false} EntrySizesAgree(fs: seq<BatchFile>)
    ensures EntrySizes(Entries(fs)) == TotalSize(fs)
    decreases |fs|
  {
    if |fs| > 0 {
      var fs' := fs[..|fs| - 1];
      EntrySizesAgree(fs');
      assert Entries(fs)[..|fs| - 1] == Entries(fs');
    }
  }

  /** Every file's size is part of the total. */
  lemma {:induction false} EachSizeWithinTotal(fs: seq<BatchFile>, i: nat)
    requires i < |fs|
    ensures fs[i].size <= TotalSize(fs)
    decreases |fs|
  {
    if i < |fs| - 1 {
      EachSizeWithinTotal(fs[..|fs| - 1], i);
    }
  }

  /** Saving two runs of files as one batch totals their separate manifests. */
  lemma ManifestAdditive(a: seq<BatchFile>, b: seq<BatchFile>, p: string)
    ensures SaveBatchManifest(a + b, p).totalSize == SaveBatchManifest(a, p).totalSize + SaveBatchManifest(b, p).totalSize
    ensures SaveBatchManifest(a + b, p).fileCount == SaveBatchManifest(a, p).fileCount + SaveBatchManifest(b, p).fileCount
  {
    TotalSizeConcat(a, b);
  }
}
