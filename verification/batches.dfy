/**
 `createBatches` end to end: scan the input tree, refuse to run on an empty
 scan or a non-empty output directory, then group, order and pack the
 files. The configuration comes from the environment once, at start-up.
 */
module Batches {
  import opened Wrappers
  import opened Strings
  import opened Paths
  import opened Filters
  import opened Scanner
  import opened Grouping
  import opened Packer

  /** The three environment variables the splitter reads. */
  datatype Environment = Environment(
    batchSize: Limit,
    renameInputFiles: Option<string>,
    allowedExtensions: Option<string>)

  datatype Config = Config(batchSize: Limit, renameFiles: bool, allowed: seq<string>)

  /** Renaming is on only for the exact value `true`; the extension list is normalised once. */
  function ConfigOf(env: Environment): (c: Config)
    ensures c.batchSize == env.batchSize
    ensures c.renameFiles <==> env.renameInputFiles == Some("true")
    ensures env.allowedExtensions.None? ==> c.allowed == ["*"]
  {
    Config(env.batchSize, env.renameInputFiles == Some("true"), AllowedExtensions(env.allowedExtensions))
  }

  /**
   The configured filter admits a file exactly when the variable is unset or
   empty, or some comma-separated piece of it, trimmed and lower-cased,
   admits the file's lower-cased extension (with or without its dot).
   */
  lemma ConfigAdmits(env: Environment, name: string)
    ensures var v := env.allowedExtensions;
      var pieces := if v.Some? then Split(v.value, ',') else [];
      HasAllowedExtension(ConfigOf(env).allowed, name) <==>
        || v.None? || v == Some("")
        || exists i :: 0 <= i < |pieces| && EntryAdmits(pieces[i], ToLower(Extname(name)))
  {
    var v := env.allowedExtensions;
    if v.Some? && v.value != "" {
      AllowedIffSomeEntryAdmits(v.value, name);
    }
  }

  /** An entry of the output directory as `readdirSync` reports it. */
  datatype DirEntry = DirEntry(name: string, isDirectory: bool)

  /** A directory on disk: absent, present but unreadable, or readable with its entries. */
  datatype DirState<T> = Absent | Unreadable | Readable(entries: seq<T>)

  predicate Exists<T>(d: DirState<T>) {
    !d.Absent?
  }

  /** `listDirectoryContents`: one `- name` line per visible entry, `/` marking directories; nothing if unreadable. */
  function ListDirectoryContents(d: DirState<DirEntry>): (r: seq<string>)
    ensures !d.Readable? ==> r == []
  {
    if d.Readable? then Listing(d.entries) else []
  }

  /** The line one entry contributes: none when it is hidden. */
  function Line(e: DirEntry): (r: seq<string>)
    ensures |r| <= 1 && (r == [] <==> !VisibleInListing(e.name))
    ensures forall i :: 0 <= i < |r| ==> StartsWith(r[i], "- ")
  {
    if VisibleInListing(e.name) then
      var line := "- " + e.name + (if e.isDirectory then "/" else "");
      assert line[..2] == "- ";
      [line]
    else []
  }

  function Listing(es: seq<DirEntry>): (r: seq<string>)
    ensures |r| <= |es|
    ensures forall i :: 0 <= i < |r| ==> StartsWith(r[i], "- ")
    ensures r == [] <==> forall i :: 0 <= i < |es| ==> !VisibleInListing(es[i].name)
  {
    if |es| == 0 then []
    else
      assert forall i :: 1 <= i < |es| ==> es[i] == es[1..][i - 1];
      Line(es[0]) + Listing(es[1..])
  }

  /** The listing of two runs of entries is the two listings one after the other. */
  lemma {:induction false} ListingConcat(a: seq<DirEntry>, b: seq<DirEntry>)
    ensures Listing(a + b) == Listing(a) + Listing(b)
    decreases |a|
  {
    if |a| == 0 {
      assert a + b == b;
    } else {
      var ab := a + b;
      assert ab[0] == a[0] && ab[1..] == a[1..] + b;
      ListingCons(ab);
      ListingCons(a);
      ListingConcat(a[1..], b);
      ConcatAssoc(Line(a[0]), Listing(a[1..]), Listing(b));
    }
  }

  lemma ConcatAssoc<T>(x: seq<T>, y: seq<T>, z: seq<T>)
    ensures x + (y + z) == (x + y) + z
  {
  }

  lemma ListingCons(es: seq<DirEntry>)
    requires |es| > 0
    ensures Listing(es) == Line(es[0]) + Listing(es[1..])
  {
  }

  /** A visible entry's line names it; hidden entries and artefacts leave no line. */
  lemma ListingOfOne(e: DirEntry)
    ensures VisibleInListing(e.name) ==> Listing([e]) == ["- " + e.name + (if e.isDirectory then "/" else "")]
    ensures !VisibleInListing(e.name) ==> Listing([e]) == []
  {
    assert [e][1..] == [];
  }

  /** Why `createBatches` stops before copying anything. */
  datatype BatchError = NoValidFiles | OutputNotEmpty(listing: seq<string>) | InputMissing

  /** What a completed run decides: where each file goes and how many batches it reports. */
  datatype Outcome = Outcome(placements: seq<Placement>, batchCount: nat)

  /** The files the scan collects from the input directory. */
  function ScanInput(input: DirState<Entry>, c: Config): seq<FileDescriptor> {
    Scan(if input.Readable? then Some(input.entries) else None, c.renameFiles, c.allowed)
  }

  /**
   `createBatches`: the checks in the order the source makes them (empty
   scan, leftover output, missing input), then the packing of the offered
   files.
   */
  function CreateBatches(input: DirState<Entry>, output: DirState<DirEntry>, env: Environment): (r: Result<Outcome, BatchError>)
    ensures var files := ScanInput(input, ConfigOf(env));
      var listing := ListDirectoryContents(output);
      && (r == Failure(NoValidFiles) <==> |files| == 0)
      && (r.Failure? && r.error.OutputNotEmpty? <==> |files| > 0 && Exists(output) && |listing| > 0)
      && (r.Failure? && r.error.OutputNotEmpty? ==> r.error.listing == listing)
      && (r == Failure(InputMissing) <==> |files| > 0 && (!Exists(output) || |listing| == 0) && !Exists(input))
  {
    var c := ConfigOf(env);
    var files := ScanInput(input, c);
    var listing := ListDirectoryContents(output);
    if |files| == 0 then Failure(NoValidFiles)
    else if Exists(output) && |listing| > 0 then Failure(OutputNotEmpty(listing))
    else if !Exists(input) then Failure(InputMissing)
    else
      var offered := Offering(files);
      Success(Outcome(Pack(offered, c.batchSize), BatchCount(offered, c.batchSize)))
  }

  /**
   A successful run places every scanned file exactly once, in the order of
   the offering, numbers its batches 1 to the reported count, and keeps
   every batch's normal files within a numeric batch size.
   */
  lemma CreateBatchesPlacesEveryFile(input: DirState<Entry>, output: DirState<DirEntry>, env: Environment)
    ensures var r := CreateBatches(input, output, env);
      var c := ConfigOf(env);
      var files := ScanInput(input, c);
      r.Success? ==>
        && multiset(Files(r.value.placements)) == multiset(files)
        && Files(r.value.placements) == Offering(files)
        && (forall b: nat :: b in BatchesUsed(r.value.placements) <==> 1 <= b <= r.value.batchCount)
        && (c.batchSize.Some? ==> forall b :: NormalSum(r.value.placements, b) <= c.batchSize.value || NormalSum(r.value.placements, b) == 0)
  {
    var r := CreateBatches(input, output, env);
    var c := ConfigOf(env);
    var files := ScanInput(input, c);
    if r.Success? {
      var offered := Offering(files);
      EveryFilePlacedOnce(offered, c.batchSize);
      assert Files(Pack(offered, c.batchSize)) == offered;
      OfferingIsPermutation(files);
      BatchesAreOneToCount(offered, c.batchSize);
      if c.batchSize.Some? {
        forall b
          ensures NormalSum(Pack(offered, c.batchSize), b) <= c.batchSize.value || NormalSum(Pack(offered, c.batchSize), b) == 0
        {
          BatchLoadBounded(offered, c.batchSize, b);
        }
      }
    }
  }

  /**
   The input-existence check comes after the scan, and scanning a missing
   directory finds nothing, so a missing input is reported as an empty one.
   */
  lemma MissingInputReportedAsEmpty(output: DirState<DirEntry>, env: Environment)
    ensures CreateBatches(Absent, output, env) == Failure(NoValidFiles)
  {
  }

  /** An output directory holding only hidden entries and artefacts does not stop the run. */
  lemma HiddenLeftoversIgnored(input: DirState<Entry>, es: seq<DirEntry>, env: Environment)
    requires forall i :: 0 <= i < |es| ==> !VisibleInListing(es[i].name)
    requires |ScanInput(input, ConfigOf(env))| > 0 && Exists(input)
    ensures CreateBatches(input, Readable(es), env).Success?
  {
  }
}
