/**
 The batch packer: the loop of `createBatches` that walks the offered files
 once and decides, for each, the batch it is copied into and the
 batch-local folder `<parent>_NN` that receives it. Files larger than the
 batch size open a batch of their own, which later small files may join;
 every other file opens a new batch when it would overflow the current one.
 */
module Packer {
  import opened Wrappers
  import opened Strings
  import opened Constants
  import opened Scanner

  /** `parseInt(process.env.BATCH_SIZE)`: a number, or NaN (None), against which every comparison is false. */
  type Limit = Option<int>

  predicate Exceeds(x: int, limit: Limit) {
    limit.Some? && x > limit.value
  }

  /** The naming key: the immediate parent folder, or `root` for a file at the top. */
  function NamingKey(f: FileDescriptor): string {
    if |f.path| > 1 then f.path[|f.path| - 2] else RootGroup
  }

  /**
   The loop's variables: `batchIndex`, `currentBatchSize`, whether
   `currentBatchPath` is set, `subfolderIndices` and `currentBatchSubfolders`.
   */
  datatype PackState = PackState(
    batchIndex: nat,
    currentBatchSize: nat,
    open: bool,
    subfolderIndices: map<string, nat>,
    currentBatchSubfolders: map<string, nat>)

  const Initial := PackState(0, 0, false, map[], map[])

  /**
   Where one file is copied: batch `batch`, folder `subfolder` with suffix
   `occurrence`. `alone` marks a file larger than the batch size; `drewSuffix`
   marks a copy that drew a new suffix from `subfolderIndices`.
   */
  datatype Placement = Placement(
    file: FileDescriptor,
    batch: nat,
    subfolder: string,
    occurrence: nat,
    alone: bool,
    drewSuffix: bool)

  datatype PackResult = PackResult(state: PackState, placements: seq<Placement>)

  /** The suffix `subfolderIndices[sub]` takes when bumped: 1 the first time. */
  function NextIndex(indices: map<string, nat>, sub: string): nat {
    if sub in indices then indices[sub] + 1 else 1
  }

  /** One iteration of the loop. */
  function Step(st: PackState, f: FileDescriptor, limit: Limit): (PackState, Placement) {
    var sub := NamingKey(f);
    if Exceeds(f.size, limit) then
      var occ := NextIndex(st.subfolderIndices, sub);
      (st.(batchIndex := st.batchIndex + 1, currentBatchSize := 0, open := true,
           subfolderIndices := st.subfolderIndices[sub := occ]),
       Placement(f, st.batchIndex + 1, sub, occ, true, true))
    else
      var opensBatch := !st.open || Exceeds(st.currentBatchSize + f.size, limit);
      var s1 := if opensBatch then
        st.(batchIndex := st.batchIndex + 1, currentBatchSize := 0, open := true, currentBatchSubfolders := map[])
      else st;
      if sub in s1.currentBatchSubfolders then
        (s1.(currentBatchSize := s1.currentBatchSize + f.size),
         Placement(f, s1.batchIndex, sub, s1.currentBatchSubfolders[sub], false, false))
      else
        var occ := NextIndex(s1.subfolderIndices, sub);
        (s1.(currentBatchSize := s1.currentBatchSize + f.size,
             subfolderIndices := s1.subfolderIndices[sub := occ],
             currentBatchSubfolders := s1.currentBatchSubfolders[sub := occ]),
         Placement(f, s1.batchIndex, sub, occ, false, true))
  }

  /** The loop over the offered files, as a left fold. */
  function Run(files: seq<FileDescriptor>, limit: Limit): PackResult
    decreases |files|
  {
    if |files| == 0 then PackResult(Initial, [])
    else
      var r := Run(files[..|files| - 1], limit);
      var (st, p) := Step(r.state, files[|files| - 1], limit);
      PackResult(st, r.placements + [p])
  }

  /** `batch_NN`. */
  function BatchDirName(i: nat): string {
    "batch_" + TwoDigits(i)
  }

  /** `<parent>_NN` (`root_NN` for top-level files). */
  function SubfolderDirName(sub: string, occurrence: nat): string {
    sub + "_" + TwoDigits(occurrence)
  }

  /** The copy's destination below the batches directory. */
  function Target(p: Placement): seq<string> {
    [BatchDirName(p.batch), SubfolderDirName(p.subfolder, p.occurrence), p.file.newName]
  }

  // ---------------------------------------------------------------------------
  // Reference quantities, computed from the placements alone
  // ---------------------------------------------------------------------------

  /** The batch of the last placement, 0 before any. */
  function LastBatch(ps: seq<Placement>): nat {
    if |ps| == 0 then 0 else ps[|ps| - 1].batch
  }

  /** The total size of the files in batch `b` that are not larger than the batch size. */
  function NormalSum(ps: seq<Placement>, b: nat): nat {
    if |ps| == 0 then 0
    else
      var p := ps[|ps| - 1];
      NormalSum(ps[..|ps| - 1], b) + (if p.batch == b && !p.alone then p.file.size else 0)
  }

  /** How many suffixes were drawn for folder `s`. */
  function CountAllocated(ps: seq<Placement>, s: string): nat {
    if |ps| == 0 then 0
    else
      var p := ps[|ps| - 1];
      CountAllocated(ps[..|ps| - 1], s) + (if p.subfolder == s && p.drewSuffix then 1 else 0)
  }

  lemma SnocPrefix(ps: seq<Placement>, p: Placement)
    ensures (ps + [p])[..|ps|] == ps && (ps + [p])[|ps|] == p
  {
  }

  // ---------------------------------------------------------------------------
  // The loop invariant
  // ---------------------------------------------------------------------------

  /** The placements record the files, in order, with their keys and size class. */
  ghost predicate Records(files: seq<FileDescriptor>, limit: Limit, ps: seq<Placement>) {
    && |ps| == |files|
    && forall i :: 0 <= i < |ps| ==>
      && ps[i].file == files[i]
      && ps[i].subfolder == NamingKey(files[i])
      && ps[i].alone == Exceeds(files[i].size, limit)
  }

  /** Batches are numbered 1, 2, ... without gaps, in placement order. */
  ghost predicate Contiguous(ps: seq<Placement>) {
    && (|ps| > 0 ==> ps[0].batch == 1)
    && forall i :: 0 < i < |ps| ==> ps[i].batch == ps[i - 1].batch || ps[i].batch == ps[i - 1].batch + 1
  }

  /** What the batch counters mean in terms of the placements so far. */
  ghost predicate Counters(ps: seq<Placement>, st: PackState) {
    && st.batchIndex == LastBatch(ps)
    && (st.open <==> |ps| > 0)
    && st.currentBatchSize == NormalSum(ps, st.batchIndex)
  }

  /** What the loop variables mean in terms of the placements so far. */
  ghost predicate Tracks(ps: seq<Placement>, st: PackState) {
    && Counters(ps, st)
    && (forall s :: s in st.subfolderIndices <==> CountAllocated(ps, s) > 0)
    && (forall s :: s in st.subfolderIndices ==> st.subfolderIndices[s] == CountAllocated(ps, s))
    && (forall s :: s in st.currentBatchSubfolders ==>
          exists j :: 0 <= j < |ps| && ps[j].subfolder == s && ps[j].drewSuffix && !ps[j].alone
            && ps[j].occurrence == st.currentBatchSubfolders[s] && Uncleared(ps, j, |ps| - 1))
    && (forall i :: 0 <= i < |ps| && !ps[i].alone && Uncleared(ps, i, |ps| - 1) ==>
          ps[i].subfolder in st.currentBatchSubfolders && st.currentBatchSubfolders[ps[i].subfolder] == ps[i].occurrence)
  }

  /**
   No normal file after position `j` up to position `i` opened a batch, so
   the loop did not clear its table of the current batch's folders in
   between (an oversized file opens a batch without clearing it).
   */
  ghost predicate Uncleared(ps: seq<Placement>, j: int, i: int) {
    forall k :: j < k <= i && 0 < k < |ps| ==> ps[k].alone || ps[k].batch == ps[k - 1].batch
  }

  lemma UnclearedSnoc(ps: seq<Placement>, p: Placement, j: nat)
    requires j < |ps|
    ensures Uncleared(ps + [p], j, |ps|) <==> Uncleared(ps, j, |ps| - 1) && (p.alone || p.batch == ps[|ps| - 1].batch)
  {
    var ps' := ps + [p];
    assert forall k :: 0 <= k < |ps| ==> ps'[k] == ps[k];
    assert ps'[|ps|] == p;
  }

  /** Within the first `n` placements, the prefix and the whole agree on `Uncleared`. */
  lemma UnclearedPrefix(ps: seq<Placement>, n: nat, j: nat)
    requires j < n <= |ps|
    ensures Uncleared(ps[..n], j, n - 1) <==> Uncleared(ps, j, n - 1)
  {
    assert forall k :: 0 <= k < n ==> ps[..n][k] == ps[k];
  }

  /** No batch's normal files exceed the limit (a batch may hold none). */
  ghost predicate Bounded(ps: seq<Placement>, limit: Limit) {
    limit.Some? ==> forall b :: NormalSum(ps, b) == 0 || NormalSum(ps, b) <= limit.value
  }

  lemma StepRecords(files: seq<FileDescriptor>, limit: Limit, ps: seq<Placement>, st: PackState, f: FileDescriptor)
    requires Records(files, limit, ps)
    ensures Records(files + [f], limit, ps + [Step(st, f, limit).1])
  {
  }

  lemma StepContiguous(ps: seq<Placement>, st: PackState, f: FileDescriptor, limit: Limit)
    requires Contiguous(ps) && Counters(ps, st)
    ensures Contiguous(ps + [Step(st, f, limit).1])
  {
  }

  lemma StepTracksBatch(ps: seq<Placement>, st: PackState, f: FileDescriptor, limit: Limit)
    requires Contiguous(ps) && Counters(ps, st)
    ensures var (st', p) := Step(st, f, limit);
      && st'.batchIndex == LastBatch(ps + [p])
      && st'.open
      && st'.currentBatchSize == NormalSum(ps + [p], st'.batchIndex)
  {
    var (st', p) := Step(st, f, limit);
    SnocPrefix(ps, p);
    assert NormalSum(ps + [p], st'.batchIndex)
        == NormalSum(ps, st'.batchIndex) + (if !p.alone then p.file.size else 0);
    if st'.batchIndex != st.batchIndex {
      BatchesBelowLast(ps);
      NormalSumOfLaterBatch(ps, st'.batchIndex);
    }
  }

  /** A batch after the last one holds nothing yet. */
  lemma {:induction false} NormalSumOfLaterBatch(ps: seq<Placement>, b: nat)
    requires forall i :: 0 <= i < |ps| ==> ps[i].batch < b
    ensures NormalSum(ps, b) == 0
    decreases |ps|
  {
    if |ps| > 0 {
      NormalSumOfLaterBatch(ps[..|ps| - 1], b);
    }
  }

  lemma StepTracksIndices(ps: seq<Placement>, st: PackState, f: FileDescriptor, limit: Limit)
    requires Tracks(ps, st)
    ensures var (st', p) := Step(st, f, limit);
      && (forall s :: s in st'.subfolderIndices <==> CountAllocated(ps + [p], s) > 0)
      && (forall s :: s in st'.subfolderIndices ==> st'.subfolderIndices[s] == CountAllocated(ps + [p], s))
  {
    var (st', p) := Step(st, f, limit);
    SnocPrefix(ps, p);
    forall s
      ensures CountAllocated(ps + [p], s) == CountAllocated(ps, s) + (if p.subfolder == s && p.drewSuffix then 1 else 0)
    {
    }
  }

  /**
   A step clears the folder table exactly when its file is normal and opens
   a batch; otherwise the table only gains the file's folder.
   */
  lemma StepTable(ps: seq<Placement>, st: PackState, f: FileDescriptor, limit: Limit)
    requires Counters(ps, st)
    ensures var (st', p) := Step(st, f, limit);
      if !p.alone && (|ps| == 0 || p.batch != ps[|ps| - 1].batch) then
        st'.currentBatchSubfolders == map[p.subfolder := p.occurrence] && p.drewSuffix
      else
        && (forall s :: s in st.currentBatchSubfolders ==>
              s in st'.currentBatchSubfolders && st'.currentBatchSubfolders[s] == st.currentBatchSubfolders[s])
        && (forall s :: s in st'.currentBatchSubfolders && s !in st.currentBatchSubfolders ==>
              s == p.subfolder && p.drewSuffix && !p.alone && st'.currentBatchSubfolders[s] == p.occurrence)
  {
  }

  lemma StepTracksTable(ps: seq<Placement>, st: PackState, f: FileDescriptor, limit: Limit)
    requires Tracks(ps, st)
    ensures var (st', p) := Step(st, f, limit);
      var ps' := ps + [p];
      forall s :: s in st'.currentBatchSubfolders ==>
        exists j :: 0 <= j < |ps'| && ps'[j].subfolder == s && ps'[j].drewSuffix && !ps'[j].alone
          && ps'[j].occurrence == st'.currentBatchSubfolders[s] && Uncleared(ps', j, |ps'| - 1)
  {
    var (st', p) := Step(st, f, limit);
    var ps' := ps + [p];
    SnocPrefix(ps, p);
    StepTable(ps, st, f, limit);
    forall s | s in st'.currentBatchSubfolders
      ensures exists j :: 0 <= j < |ps'| && ps'[j].subfolder == s && ps'[j].drewSuffix && !ps'[j].alone
                && ps'[j].occurrence == st'.currentBatchSubfolders[s] && Uncleared(ps', j, |ps'| - 1)
    {
      if s !in st.currentBatchSubfolders || (!p.alone && (|ps| == 0 || p.batch != ps[|ps| - 1].batch)) {
        assert ps'[|ps|] == p && Uncleared(ps', |ps|, |ps|);
      } else {
        var j :| 0 <= j < |ps| && ps[j].subfolder == s && ps[j].drewSuffix && !ps[j].alone
          && ps[j].occurrence == st.currentBatchSubfolders[s] && Uncleared(ps, j, |ps| - 1);
        assert ps'[j] == ps[j];
        UnclearedSnoc(ps, p, j);
      }
    }
  }

  lemma StepTracksRecorded(ps: seq<Placement>, st: PackState, f: FileDescriptor, limit: Limit)
    requires Tracks(ps, st)
    ensures var (st', p) := Step(st, f, limit);
      var ps' := ps + [p];
      forall i :: 0 <= i < |ps'| && !ps'[i].alone && Uncleared(ps', i, |ps'| - 1) ==>
        ps'[i].subfolder in st'.currentBatchSubfolders && st'.currentBatchSubfolders[ps'[i].subfolder] == ps'[i].occurrence
  {
    var (st', p) := Step(st, f, limit);
    var ps' := ps + [p];
    SnocPrefix(ps, p);
    StepTable(ps, st, f, limit);
    forall i | 0 <= i < |ps'| && !ps'[i].alone && Uncleared(ps', i, |ps'| - 1)
      ensures ps'[i].subfolder in st'.currentBatchSubfolders && st'.currentBatchSubfolders[ps'[i].subfolder] == ps'[i].occurrence
    {
      if i < |ps| {
        assert ps'[i] == ps[i];
        UnclearedSnoc(ps, p, i);
      }
    }
  }

  lemma StepBounded(ps: seq<Placement>, st: PackState, f: FileDescriptor, limit: Limit)
    requires Contiguous(ps) && Counters(ps, st) && Bounded(ps, limit)
    ensures Bounded(ps + [Step(st, f, limit).1], limit)
  {
    var (st', p) := Step(st, f, limit);
    SnocPrefix(ps, p);
    if limit.Some? {
      forall b
        ensures NormalSum(ps + [p], b) == 0 || NormalSum(ps + [p], b) <= limit.value
      {
        if p.batch == b && !p.alone && p.batch != st.batchIndex {
          BatchesBelowLast(ps);
          NormalSumOfLaterBatch(ps, b);
        }
      }
    }
  }

  /** Every placement so far lies in a batch no later than the last. */
  lemma BatchesBelowLast(ps: seq<Placement>)
    requires Contiguous(ps)
    ensures forall i :: 0 <= i < |ps| ==> 1 <= ps[i].batch <= LastBatch(ps)
  {
    ContiguousMonotone(ps);
  }

  lemma {:induction false} ContiguousMonotone(ps: seq<Placement>)
    requires Contiguous(ps)
    ensures forall i, j :: 0 <= i <= j < |ps| ==> 1 <= ps[i].batch <= ps[j].batch
    decreases |ps|
  {
    if |ps| > 1 {
      var q := ps[..|ps| - 1];
      assert forall i :: 0 <= i < |q| ==> q[i] == ps[i];
      assert Contiguous(q);
      ContiguousMonotone(q);
      assert ps[|ps| - 2].batch <= ps[|ps| - 1].batch;
    }
  }

  /** The loop keeps all four parts of the invariant. */
  lemma {:induction false} RunInvariant(files: seq<FileDescriptor>, limit: Limit)
    ensures var r := Run(files, limit);
      Records(files, limit, r.placements) && Contiguous(r.placements)
      && Tracks(r.placements, r.state) && Bounded(r.placements, limit)
    decreases |files|
  {
    if |files| > 0 {
      var prefix := files[..|files| - 1];
      var f := files[|files| - 1];
      assert files == prefix + [f];
      RunInvariant(prefix, limit);
      var r := Run(prefix, limit);
      StepInvariant(prefix, limit, r.placements, r.state, f);
    }
  }

  /** One step keeps all four parts of the invariant. */
  lemma StepInvariant(files: seq<FileDescriptor>, limit: Limit, ps: seq<Placement>, st: PackState, f: FileDescriptor)
    requires Records(files, limit, ps) && Contiguous(ps) && Tracks(ps, st) && Bounded(ps, limit)
    ensures var (st', p) := Step(st, f, limit);
      Records(files + [f], limit, ps + [p]) && Contiguous(ps + [p])
      && Tracks(ps + [p], st') && Bounded(ps + [p], limit)
  {
    StepRecords(files, limit, ps, st, f);
    StepContiguous(ps, st, f, limit);
    StepTracksBatch(ps, st, f, limit);
    StepTracksIndices(ps, st, f, limit);
    StepTracksTable(ps, st, f, limit);
    StepTracksRecorded(ps, st, f, limit);
    StepBounded(ps, st, f, limit);
  }

  lemma RunTracks(files: seq<FileDescriptor>, limit: Limit)
    ensures var r := Run(files, limit);
      Tracks(r.placements, r.state)
  {
    RunInvariant(files, limit);
  }

  lemma RunContiguous(files: seq<FileDescriptor>, limit: Limit)
    ensures Contiguous(Run(files, limit).placements)
  {
    RunInvariant(files, limit);
  }

  lemma RunCounters(files: seq<FileDescriptor>, limit: Limit)
    ensures var r := Run(files, limit);
      Counters(r.placements, r.state)
  {
    RunInvariant(files, limit);
  }

  /** The loop's first `n` placements are those it makes on the first `n` files. */
  lemma {:induction false} RunPrefix(files: seq<FileDescriptor>, limit: Limit, n: nat)
    requires n <= |files|
    ensures |Run(files, limit).placements| == |files|
    ensures Run(files, limit).placements[..n] == Run(files[..n], limit).placements
    decreases |files|
  {
    if |files| > 0 {
      var prefix := files[..|files| - 1];
      RunPrefix(prefix, limit, if n < |files| then n else |prefix|);
      if n == |files| {
        assert files[..n] == files;
      } else {
        assert prefix[..n] == files[..n];
      }
    }
  }

  /** The placement of file `i` is the loop's step from the state the first `i` files leave. */
  lemma RunAt(files: seq<FileDescriptor>, limit: Limit, i: nat)
    requires i < |files|
    ensures var r := Run(files[..i], limit);
      |Run(files, limit).placements| == |files|
      && Run(files, limit).placements[i] == Step(r.state, files[i], limit).1
      && Run(files, limit).placements[..i] == r.placements
  {
    RunPrefix(files, limit, i + 1);
    RunPrefix(files, limit, i);
    assert files[..i + 1][..i] == files[..i];
    assert files[..i + 1][i] == files[i];
    RunPrefix(files[..i + 1], limit, i);
  }

  // ---------------------------------------------------------------------------
  // What the packer guarantees
  // ---------------------------------------------------------------------------

  /** `Pack`: the placements of the offered files. */
  function Pack(files: seq<FileDescriptor>, limit: Limit): seq<Placement> {
    Run(files, limit).placements
  }

  /** The number of batches reported at the end (`batchIndex`). */
  function BatchCount(files: seq<FileDescriptor>, limit: Limit): nat {
    Run(files, limit).state.batchIndex
  }

  /** Every offered file is placed exactly once, in order, and nothing else is placed. */
  lemma EveryFilePlacedOnce(files: seq<FileDescriptor>, limit: Limit)
    ensures var ps := Pack(files, limit);
      |ps| == |files| && forall i :: 0 <= i < |ps| ==> ps[i].file == files[i]
    ensures multiset(Files(Pack(files, limit))) == multiset(files)
  {
    RunInvariant(files, limit);
    assert Files(Pack(files, limit)) == files;
  }

  function Files(ps: seq<Placement>): (r: seq<FileDescriptor>)
    ensures |r| == |ps| && forall i :: 0 <= i < |ps| ==> r[i] == ps[i].file
  {
    seq(|ps|, i requires 0 <= i < |ps| => ps[i].file)
  }

  /**
   The first file opens batch 1; every later file opens the next batch
   exactly when it is larger than the batch size or would push the current
   batch's normal files past it, and otherwise joins the current batch.
   */
  lemma NewBatchIff(files: seq<FileDescriptor>, limit: Limit, i: nat)
    requires i < |files|
    ensures var ps := Pack(files, limit);
      |ps| == |files| &&
      (i == 0 ==> ps[0].batch == 1) &&
      (i > 0 ==>
        var opens := Exceeds(files[i].size, limit) || Exceeds(NormalSum(ps[..i], ps[i - 1].batch) + files[i].size, limit);
        ps[i].batch == (if opens then ps[i - 1].batch + 1 else ps[i - 1].batch))
  {
    var r := Run(files[..i], limit);
    RunAt(files, limit, i);
    RunCounters(files[..i], limit);
    StepOpens(r.placements, r.state, files[i], limit);
    var ps := Pack(files, limit);
    assert ps[..i] == r.placements;
    assert ps[i] == Step(r.state, files[i], limit).1;
    if i > 0 {
      assert LastBatch(r.placements) == ps[i - 1].batch;
      assert NormalSum(ps[..i], ps[i - 1].batch) == NormalSum(r.placements, LastBatch(r.placements));
    }
  }

  /** The batch a step places its file in, in terms of the placements before it. */
  lemma StepOpens(ps: seq<Placement>, st: PackState, f: FileDescriptor, limit: Limit)
    requires Counters(ps, st)
    ensures var p := Step(st, f, limit).1;
      var opens := Exceeds(f.size, limit) || Exceeds(NormalSum(ps, LastBatch(ps)) + f.size, limit);
      p.batch == (if |ps| == 0 || opens then LastBatch(ps) + 1 else LastBatch(ps))
  {
  }

  /** With a numeric batch size, the normal files of any batch fit within it. */
  lemma BatchLoadBounded(files: seq<FileDescriptor>, limit: Limit, b: nat)
    requires limit.Some?
    ensures NormalSum(Pack(files, limit), b) == 0 || NormalSum(Pack(files, limit), b) <= limit.value
  {
    RunInvariant(files, limit);
  }

  /** The batches that receive at least one file. */
  function BatchesUsed(ps: seq<Placement>): set<nat> {
    set i | 0 <= i < |ps| :: ps[i].batch
  }

  /**
   Batches are numbered 1 to the reported count without gaps: the batches
   that receive files are exactly 1 to the count, and the count is the
   batch of the last placement.
   */
  lemma BatchesAreOneToCount(files: seq<FileDescriptor>, limit: Limit)
    ensures var ps := Pack(files, limit);
      var n := BatchCount(files, limit);
      && n == LastBatch(ps)
      && (|files| == 0 <==> n == 0)
      && forall b: nat :: b in BatchesUsed(ps) <==> 1 <= b <= n
  {
    RunInvariant(files, limit);
    var ps := Pack(files, limit);
    BatchesBelowLast(ps);
    forall b: nat | 1 <= b <= LastBatch(ps)
      ensures b in BatchesUsed(ps)
    {
      ContiguousCovers(ps, b);
    }
  }

  lemma {:induction false} ContiguousCovers(ps: seq<Placement>, b: nat)
    requires Contiguous(ps) && 1 <= b <= LastBatch(ps)
    ensures b in BatchesUsed(ps)
    decreases |ps|
  {
    var n := |ps| - 1;
    if ps[n].batch != b {
      var q := ps[..n];
      assert n > 0;
      assert forall i :: 0 <= i < |q| ==> q[i] == ps[i];
      assert Contiguous(q);
      ContiguousCovers(q, b);
      var i :| 0 <= i < |q| && q[i].batch == b;
      assert ps[i].batch == b;
    }
  }

  /**
   A file larger than the batch size opens a fresh batch: every earlier
   file lies in an earlier batch, and its own size does not count toward
   the batch's load.
   */
  lemma OversizedOpensFreshBatch(files: seq<FileDescriptor>, limit: Limit, i: nat)
    requires i < |files| && Exceeds(files[i].size, limit)
    ensures var ps := Pack(files, limit);
      |ps| == |files| && ps[i].alone && forall j :: 0 <= j < i ==> ps[j].batch < ps[i].batch
  {
    var r := Run(files[..i], limit);
    RunAt(files, limit, i);
    RunCounters(files[..i], limit);
    RunContiguous(files[..i], limit);
    BatchesBelowLast(r.placements);
    var ps := Pack(files, limit);
    assert ps[i].batch == r.state.batchIndex + 1;
    assert forall j :: 0 <= j < i ==> ps[j] == r.placements[j];
  }

  /**
   An oversized file, and a normal file that opens a batch, draw a new
   suffix for their folder; a newly drawn suffix is one more than the number
   drawn for the folder before, hence larger than every suffix any earlier
   copy into that folder used.
   */
  lemma FreshSuffixExceedsEarlier(files: seq<FileDescriptor>, limit: Limit, i: nat)
    requires i < |files|
    ensures var ps := Pack(files, limit);
      |ps| == |files| &&
      (ps[i].alone ==> ps[i].drewSuffix) &&
      (!ps[i].alone && (i == 0 || ps[i].batch != ps[i - 1].batch) ==> ps[i].drewSuffix) &&
      (ps[i].drewSuffix ==>
        && ps[i].occurrence == CountAllocated(ps[..i], ps[i].subfolder) + 1
        && forall j :: 0 <= j < i && ps[j].subfolder == ps[i].subfolder ==> ps[j].occurrence < ps[i].occurrence)
  {
    var r := Run(files[..i], limit);
    RunAt(files, limit, i);
    RunTracks(files[..i], limit);
    OccurrencesBelowCount(files[..i], limit);
    NewOccurrenceAt(Pack(files, limit), i, r.state, files[i], limit);
  }

  lemma NewOccurrenceAt(ps: seq<Placement>, i: nat, st: PackState, f: FileDescriptor, limit: Limit)
    requires i < |ps| && Tracks(ps[..i], st) && SuffixesDrawn(ps[..i]) && ps[i] == Step(st, f, limit).1
    ensures ps[i].alone ==> ps[i].drewSuffix
    ensures !ps[i].alone && (i == 0 || ps[i].batch != ps[i - 1].batch) ==> ps[i].drewSuffix
    ensures ps[i].drewSuffix ==>
      && ps[i].occurrence == CountAllocated(ps[..i], ps[i].subfolder) + 1
      && forall j :: 0 <= j < i && ps[j].subfolder == ps[i].subfolder ==> ps[j].occurrence < ps[i].occurrence
  {
    NewOccurrence(ps[..i], st, f, limit);
    forall j | 0 <= j < i
      ensures ps[..i][j] == ps[j]
    {
    }
    if i > 0 {
      assert ps[..i][i - 1] == ps[i - 1];
    }
  }

  /** The suffix of the next copy is one drawn so far, and a fresh one is the next in line. */
  lemma NewOccurrence(ps: seq<Placement>, st: PackState, f: FileDescriptor, limit: Limit)
    requires Tracks(ps, st) && SuffixesDrawn(ps)
    ensures var p := Step(st, f, limit).1;
      && 1 <= p.occurrence <= CountAllocated(ps + [p], p.subfolder)
      && (p.drewSuffix ==> p.occurrence == CountAllocated(ps, p.subfolder) + 1)
      && (p.alone ==> p.drewSuffix)
      && (!p.alone && (|ps| == 0 || p.batch != ps[|ps| - 1].batch) ==> p.drewSuffix)
      && (p.drewSuffix ==> forall j :: 0 <= j < |ps| && ps[j].subfolder == p.subfolder ==> ps[j].occurrence < p.occurrence)
  {
    var p := Step(st, f, limit).1;
    var s := p.subfolder;
    SnocPrefix(ps, p);
    assert CountAllocated(ps + [p], s) == CountAllocated(ps, s) + (if p.drewSuffix then 1 else 0);
    StepTable(ps, st, f, limit);
    if p.drewSuffix {
      StepDraws(ps, st, f, limit);
    } else {
      var k :| 0 <= k < |ps| && ps[k].subfolder == s && ps[k].drewSuffix && !ps[k].alone
        && ps[k].occurrence == st.currentBatchSubfolders[s] && Uncleared(ps, k, |ps| - 1);
      assert 1 <= ps[k].occurrence <= CountAllocated(ps, s);
    }
  }

  /** A drawn suffix is one more than the number drawn so far for the folder. */
  lemma StepDraws(ps: seq<Placement>, st: PackState, f: FileDescriptor, limit: Limit)
    requires Tracks(ps, st) && SuffixesDrawn(ps)
    ensures var p := Step(st, f, limit).1;
      p.drewSuffix ==>
        && p.occurrence == CountAllocated(ps, p.subfolder) + 1
        && forall j :: 0 <= j < |ps| && ps[j].subfolder == p.subfolder ==> ps[j].occurrence < p.occurrence
  {
  }

  /** Every suffix used so far for a folder is one of those drawn for it. */
  ghost predicate SuffixesDrawn(ps: seq<Placement>) {
    forall j :: 0 <= j < |ps| ==> 1 <= ps[j].occurrence <= CountAllocated(ps, ps[j].subfolder)
  }

  lemma {:induction false} OccurrencesBelowCount(files: seq<FileDescriptor>, limit: Limit)
    ensures SuffixesDrawn(Run(files, limit).placements)
    decreases |files|
  {
    if |files| > 0 {
      var prefix := files[..|files| - 1];
      OccurrencesBelowCount(prefix, limit);
      RunInvariant(prefix, limit);
      var r := Run(prefix, limit);
      var p := Step(r.state, files[|files| - 1], limit).1;
      NewOccurrence(r.placements, r.state, files[|files| - 1], limit);
      CountGrows(r.placements, p);
    }
  }

  lemma CountGrows(ps: seq<Placement>, p: Placement)
    requires SuffixesDrawn(ps)
    requires 1 <= p.occurrence <= CountAllocated(ps + [p], p.subfolder)
    ensures SuffixesDrawn(ps + [p])
  {
    var ps' := ps + [p];
    SnocPrefix(ps, p);
    forall j | 0 <= j < |ps'|
      ensures 1 <= ps'[j].occurrence <= CountAllocated(ps', ps'[j].subfolder)
    {
      if j < |ps| {
        assert ps'[j] == ps[j];
        assert CountAllocated(ps', ps[j].subfolder) >= CountAllocated(ps, ps[j].subfolder);
      }
    }
  }

  /**
   A copy that draws no new suffix is a normal file that joins the current
   batch and goes into a folder an earlier normal copy created: same parent,
   same suffix, and no normal file opened a batch (clearing the table of the
   batch's folders) after that copy up to this one.
   */
  lemma ReusedSuffixWasDrawnBefore(files: seq<FileDescriptor>, limit: Limit, i: nat)
    requires i < |files|
    ensures var ps := Pack(files, limit);
      |ps| == |files| &&
      (!ps[i].drewSuffix ==>
        && !ps[i].alone
        && exists j :: 0 <= j < i && ps[j].subfolder == ps[i].subfolder && ps[j].drewSuffix && !ps[j].alone
                       && ps[j].occurrence == ps[i].occurrence && Uncleared(ps, j, i))
  {
    var r := Run(files[..i], limit);
    RunAt(files, limit, i);
    RunTracks(files[..i], limit);
    StepReuses(r.placements, r.state, files[i], limit);
    var ps := Pack(files, limit);
    if !ps[i].drewSuffix {
      var j :| 0 <= j < i && r.placements[j].subfolder == ps[i].subfolder && r.placements[j].drewSuffix
        && !r.placements[j].alone && r.placements[j].occurrence == ps[i].occurrence && Uncleared(r.placements, j, i - 1);
      assert ps[j] == r.placements[j];
      UnclearedPrefix(ps, i, j);
      UnclearedExtend(ps, j, i);
    }
  }

  lemma StepReuses(ps: seq<Placement>, st: PackState, f: FileDescriptor, limit: Limit)
    requires Tracks(ps, st)
    ensures var p := Step(st, f, limit).1;
      !p.drewSuffix ==>
        && !p.alone && |ps| > 0 && p.batch == ps[|ps| - 1].batch
        && exists j :: 0 <= j < |ps| && ps[j].subfolder == p.subfolder && ps[j].drewSuffix && !ps[j].alone
                       && ps[j].occurrence == p.occurrence && Uncleared(ps, j, |ps| - 1)
  {
    StepTable(ps, st, f, limit);
  }

  /** `Uncleared` up to `i` is `Uncleared` up to `i - 1` plus the file at `i`. */
  lemma UnclearedExtend(ps: seq<Placement>, j: nat, i: nat)
    requires j < i < |ps|
    ensures Uncleared(ps, j, i) <==> Uncleared(ps, j, i - 1) && (ps[i].alone || ps[i].batch == ps[i - 1].batch)
  {
  }

  /**
   Two normal files from the same parent share one folder as long as no
   normal file after the first, up to the second, opened a batch: the table
   of the current batch's folders still holds the first one's suffix.
   */
  lemma SharedUntilCleared(files: seq<FileDescriptor>, limit: Limit, i: nat, j: nat)
    requires i < j < |files|
    ensures var ps := Pack(files, limit);
      |ps| == |files| &&
      (!ps[i].alone && !ps[j].alone && ps[i].subfolder == ps[j].subfolder && Uncleared(ps, i, j) ==>
        ps[i].occurrence == ps[j].occurrence)
  {
    var r := Run(files[..j], limit);
    RunAt(files, limit, j);
    RunTracks(files[..j], limit);
    var ps := Pack(files, limit);
    assert ps[i] == r.placements[i] && ps[j - 1] == r.placements[j - 1];
    UnclearedPrefix(ps, j, i);
    UnclearedExtend(ps, i, j);
    StepShares(r.placements, r.state, files[j], limit, i);
  }

  /** A normal file that joins the current batch reuses the folder of an earlier normal file the table still records. */
  lemma StepShares(ps: seq<Placement>, st: PackState, f: FileDescriptor, limit: Limit, i: nat)
    requires Tracks(ps, st) && i < |ps|
    ensures var p := Step(st, f, limit).1;
      !ps[i].alone && Uncleared(ps, i, |ps| - 1) && !p.alone && p.batch == ps[|ps| - 1].batch
        && ps[i].subfolder == p.subfolder ==>
        ps[i].occurrence == p.occurrence
  {
    StepTable(ps, st, f, limit);
  }

  /** Two normal files of one batch with the same parent share one folder. */
  lemma SameBatchSameFolder(files: seq<FileDescriptor>, limit: Limit, i: nat, j: nat)
    requires i < j < |files|
    ensures var ps := Pack(files, limit);
      |ps| == |files| &&
      (!ps[i].alone && !ps[j].alone && ps[i].batch == ps[j].batch && ps[i].subfolder == ps[j].subfolder ==>
        ps[i].occurrence == ps[j].occurrence)
  {
    RunInvariant(files, limit);
    var ps := Pack(files, limit);
    ContiguousMonotone(ps);
    SharedUntilCleared(files, limit, i, j);
    if ps[i].batch == ps[j].batch {
      assert Uncleared(ps, i, j) by {
        forall k | i < k <= j && 0 < k < |ps|
          ensures ps[k].batch == ps[k - 1].batch
        {
          assert ps[i].batch <= ps[k - 1].batch <= ps[k].batch <= ps[j].batch;
        }
      }
    }
  }

  /** With a NaN batch size nothing is ever too large, so every file lands in batch 1. */
  lemma NaNBatchSizeMakesOneBatch(files: seq<FileDescriptor>)
    ensures var ps := Pack(files, None);
      forall i :: 0 <= i < |ps| ==> ps[i].batch == 1
  {
    RunInvariant(files, None);
    var ps := Pack(files, None);
    forall i | 0 <= i < |ps|
      ensures ps[i].batch == 1
    {
      BatchOneUpTo(files, i);
    }
  }

  lemma {:induction false} BatchOneUpTo(files: seq<FileDescriptor>, i: nat)
    requires i < |files|
    ensures |Pack(files, None)| == |files| && Pack(files, None)[i].batch == 1
  {
    NewBatchIff(files, None, i);
    if i > 0 {
      BatchOneUpTo(files, i - 1);
    }
  }

  // ---------------------------------------------------------------------------
  // Worked examples
  // ---------------------------------------------------------------------------

  function Photo(parent: string, name: string, size: nat, created: int): FileDescriptor {
    FileDescriptor(["trip", parent, name], size, name, created)
  }

  /** One more file is one more step of the loop. */
  lemma RunSnoc(files: seq<FileDescriptor>, f: FileDescriptor, limit: Limit)
    ensures var r := Run(files, limit);
      var (st, p) := Step(r.state, f, limit);
      Run(files + [f], limit) == PackResult(st, r.placements + [p])
  {
    assert (files + [f])[..|files|] == files;
  }

  lemma FirstNames()
    ensures BatchDirName(1) == "batch_01" && BatchDirName(2) == "batch_02"
    ensures SubfolderDirName("x", 1) == "x_01"
  {
    assert NatToDecimal(1) == "1";
    assert NatToDecimal(2) == "2";
    assert TwoDigits(1) == "01" && TwoDigits(2) == "02";
  }

  /** 600 and 500 bytes against a limit of 1000: the second file overflows and opens batch 2. */
  lemma TwoFilesOverflow()
    ensures var files := [Photo("a", "p.jpg", 600, 1), Photo("a", "q.jpg", 500, 2)];
      var ps := Pack(files, Some(1000));
      && |ps| == 2 && ps[0].batch == 1 && ps[1].batch == 2
      && ps[0].occurrence == 1 && ps[1].occurrence == 2 && ps[1].drewSuffix
      && BatchCount(files, Some(1000)) == 2
  {
    var f1, f2 := Photo("a", "p.jpg", 600, 1), Photo("a", "q.jpg", 500, 2);
    RunSnoc([], f1, Some(1000));
    RunSnoc([f1], f2, Some(1000));
    assert [] + [f1] == [f1] && [f1] + [f2] == [f1, f2];
  }

  /** 600 and 400 bytes fill a limit of 1000 exactly: a load equal to the batch size does not split. */
  lemma ExactFitStaysTogether()
    ensures var files := [Photo("a", "p.jpg", 600, 1), Photo("a", "q.jpg", 400, 2)];
      var ps := Pack(files, Some(1000));
      && |ps| == 2 && ps[0].batch == 1 && ps[1].batch == 1 && ps[1].occurrence == ps[0].occurrence
      && BatchCount(files, Some(1000)) == 1
  {
    var f1, f2 := Photo("a", "p.jpg", 600, 1), Photo("a", "q.jpg", 400, 2);
    RunSnoc([], f1, Some(1000));
    RunSnoc([f1], f2, Some(1000));
    assert [] + [f1] == [f1] && [f1] + [f2] == [f1, f2];
  }

  /**
   A 5000-byte file opens a batch but adds nothing to its load, so the
   10-byte file after it joins the same batch.
   */
  lemma SmallFileJoinsOversizedBatch()
    ensures var files := [Photo("a", "big.mov", 5000, 1), Photo("a", "p.jpg", 10, 2)];
      var ps := Pack(files, Some(1000));
      && |ps| == 2 && ps[0].batch == 1 && ps[0].alone && ps[1].batch == 1
      && ps[0].occurrence == 1 && ps[1].occurrence == 2
      && BatchCount(files, Some(1000)) == 1
  {
    var f1, f2 := Photo("a", "big.mov", 5000, 1), Photo("a", "p.jpg", 10, 2);
    RunSnoc([], f1, Some(1000));
    RunSnoc([f1], f2, Some(1000));
    assert [] + [f1] == [f1] && [f1] + [f2] == [f1, f2];
  }

  /**
   After an oversized file the batch-local folder table is not cleared, so a
   later file from `x` reuses the `x_01` of the previous batch in the new one.
   */
  lemma StaleFolderTableAfterOversized()
    ensures var files := [Photo("x", "p.jpg", 600, 1), Photo("y", "big.mov", 5000, 2), Photo("x", "q.jpg", 100, 3)];
      var ps := Pack(files, Some(1000));
      && |ps| == 3
      && Target(ps[0])[..2] == ["batch_01", "x_01"]
      && Target(ps[2])[..2] == ["batch_02", "x_01"]
      && !ps[2].drewSuffix
  {
    var f1, f2, f3 := Photo("x", "p.jpg", 600, 1), Photo("y", "big.mov", 5000, 2), Photo("x", "q.jpg", 100, 3);
    RunSnoc([], f1, Some(1000));
    RunSnoc([f1], f2, Some(1000));
    RunSnoc([f1, f2], f3, Some(1000));
    assert [] + [f1] == [f1] && [f1] + [f2] == [f1, f2] && [f1, f2] + [f3] == [f1, f2, f3];
    var r2 := Run([f1, f2], Some(1000));
    assert r2.state.batchIndex == 2 && r2.state.currentBatchSize == 0 && r2.state.currentBatchSubfolders == map["x" := 1];
    assert r2.placements[0].batch == 1 && r2.placements[0].occurrence == 1 && r2.placements[0].subfolder == "x";
    FirstNames();
  }

  /**
   Two files with the same name in same-named folders under different
   parents get the same destination, so the second copy replaces the first.
   */
  lemma SameParentNameCollides()
    ensures var files := [FileDescriptor(["a", "x", "p.jpg"], 10, "p.jpg", 1), FileDescriptor(["b", "x", "p.jpg"], 20, "p.jpg", 2)];
      var ps := Pack(files, Some(1000));
      && |ps| == 2 && ps[0].file != ps[1].file
      && Target(ps[0]) == Target(ps[1]) == ["batch_01", "x_01", "p.jpg"]
  {
    var f1, f2 := FileDescriptor(["a", "x", "p.jpg"], 10, "p.jpg", 1), FileDescriptor(["b", "x", "p.jpg"], 20, "p.jpg", 2);
    RunSnoc([], f1, Some(1000));
    RunSnoc([f1], f2, Some(1000));
    assert [] + [f1] == [f1] && [f1] + [f2] == [f1, f2];
    FirstNames();
  }

  // ---------------------------------------------------------------------------
  // Names on disk
  // ---------------------------------------------------------------------------

  /** Distinct batches get distinct directory names. */
  lemma BatchDirNameInjective(m: nat, n: nat)
    ensures BatchDirName(m) == BatchDirName(n) ==> m == n
  {
    if BatchDirName(m) == BatchDirName(n) {
      assert TwoDigits(m) == BatchDirName(m)[6..];
      assert TwoDigits(n) == BatchDirName(n)[6..];
      TwoDigitsInjective(m, n);
    }
  }

  /** Position of the last underscore in `s`, or -1 when there is none. */
  function LastUnderscore(s: string): (r: int)
    ensures -1 <= r < |s|
    ensures r >= 0 ==> s[r] == '_'
  {
    if |s| == 0 then -1
    else if s[|s| - 1] == '_' then |s| - 1
    else LastUnderscore(s[..|s| - 1])
  }

  /** Behind an underscore followed only by digits, that underscore is the last one. */
  lemma {:induction false} LastUnderscoreBeforeDigits(a: string, d: string)
    requires forall i :: 0 <= i < |d| ==> IsDigit(d[i])
    ensures LastUnderscore(a + "_" + d) == |a|
    decreases |d|
  {
    var s := a + "_" + d;
    if |d| > 0 {
      var d' := d[..|d| - 1];
      assert s[|s| - 1] == d[|d| - 1];
      assert s[..|s| - 1] == a + "_" + d';
      LastUnderscoreBeforeDigits(a, d');
    }
  }

  /**
   A folder name determines its parent key and suffix: the suffix holds
   only digits, so the last underscore separates the two.
   */
  lemma SubfolderDirNameInjective(a: string, m: nat, b: string, n: nat)
    ensures SubfolderDirName(a, m) == SubfolderDirName(b, n) ==> a == b && m == n
  {
    var x := SubfolderDirName(a, m);
    if x == SubfolderDirName(b, n) {
      var da := TwoDigits(m);
      var db := TwoDigits(n);
      LastUnderscoreBeforeDigits(a, da);
      LastUnderscoreBeforeDigits(b, db);
      assert |a| == |b|;
      assert a == x[..|a|] == b;
      assert da == x[|a| + 1..] == db;
      TwoDigitsInjective(m, n);
    }
  }
}
