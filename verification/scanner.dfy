/**
 The tree scanner (`getAllFiles`): a recursive walk of the input directory
 that skips ignored entries, keeps files with an allowed extension whose
 `stat` succeeds, and, when renaming is on, renames directories (after their
 contents) and files in place. The filesystem is an immutable tree whose
 nodes carry the answers `readdirSync`, `statSync` and `renameSync` give.
 */
module Scanner {
  import opened Wrappers
  import opened Strings
  import opened Filters
  import opened Naming

  /**
   One directory entry. `size` is the answer of `statSync` (None when it
   throws), `readable` whether `readdirSync` succeeds and `children` what
   it then lists,
   `renameSucceeds` whether `renameSync` would succeed, `created` the
   creation-time key the packer later sorts by. `Other` is anything that is
   neither a regular file nor a directory (a symbolic link, a socket, ...).
   */
  datatype Entry =
    | File(name: string, size: Option<nat>, created: int, renameSucceeds: bool)
    | Dir(name: string, readable: bool, children: seq<Entry>, renameSucceeds: bool)
    | Other(name: string)

  /**
   A discovered file: its current path below the input root as segments,
   its size, the name it will be copied under, and its creation-time key.
   */
  datatype FileDescriptor = FileDescriptor(path: seq<string>, size: nat, newName: string, created: int)

  /**
   `RENAME_INPUT_FILES === 'true'`, the normalised `ALLOWED_EXTENSIONS`, and
   the name generator applied to a path's segments (`generateReadableName`;
   `Scan` below supplies it, the lemmas hold for any generator).
   */
  datatype ScanConfig = ScanConfig(
    renameFiles: bool,
    allowedExtensions: seq<string>,
    readableName: (seq<string>, bool) -> string)

  /**
   The path update for every file found below a directory at depth `k` that
   was renamed: segment `k` becomes the new name. This is the literal
   reading of `file.path.replace(fullPath, newDirPath)`; the source's call
   also expands `$` sequences in the new path, and `PathReplace` states when
   the two agree.
   */
  function ReplaceSegment(files: seq<FileDescriptor>, k: nat, name: string): (r: seq<FileDescriptor>)
    requires forall i :: 0 <= i < |files| ==> k < |files[i].path|
    ensures |r| == |files|
    ensures forall i :: 0 <= i < |r| ==> r[i] == files[i].(path := files[i].path[k := name])
  {
    seq(|files|, i requires 0 <= i < |files| => files[i].(path := files[i].path[k := name]))
  }

  /**
   The loop of `getAllFiles` over the entries of the directory at `dir`.
   Every descriptor found lies strictly below `dir`, whatever was renamed
   further down.
   */
  function ScanEntries(entries: seq<Entry>, dir: seq<string>, cfg: ScanConfig): (r: seq<FileDescriptor>)
    ensures forall i :: 0 <= i < |r| ==> |r[i].path| > |dir| && r[i].path[..|dir|] == dir
    decreases entries
  {
    if |entries| == 0 then []
    else ScanEntry(entries[0], dir, cfg) + ScanEntries(entries[1..], dir, cfg)
  }

  /**
   One iteration of that loop: an ignored entry yields nothing; a directory
   yields its files, with its own segment renamed in their paths when its
   rename succeeds; a file yields one descriptor when its extension is
   allowed and its `stat` succeeds, under the new path only when its rename
   succeeds.
   */
  function ScanEntry(e: Entry, dir: seq<string>, cfg: ScanConfig): (r: seq<FileDescriptor>)
    ensures forall i :: 0 <= i < |r| ==> |r[i].path| > |dir| && r[i].path[..|dir|] == dir
    decreases e
  {
    if ShouldIgnore(e.name) then []
    else match e
      case File(name, size, created, ok) =>
        if !HasAllowedExtension(cfg.allowedExtensions, name) then []
        else
          var newName := if cfg.renameFiles then cfg.readableName(dir + [name], false) else name;
          if size.None? then []
          else
            var path := if cfg.renameFiles && newName != name && ok then dir + [newName] else dir + [name];
            [FileDescriptor(path, size.value, newName, created)]
      case Dir(name, readable, children, ok) =>
        var sub := if readable then ScanEntries(children, dir + [name], cfg) else [];
        var newDirName := cfg.readableName(dir + [name], true);
        if cfg.renameFiles && newDirName != name && ok then
          assert forall i :: 0 <= i < |sub| ==> sub[i].path[..|dir| + 1] == dir + [name];
          ReplaceSegment(sub, |dir|, newDirName)
        else sub
      case Other(_) => []
  }

  /** `getAllFiles(inputDir)`: an unreadable root yields no files. */
  function Scan(root: Option<seq<Entry>>, renameFiles: bool, allowed: seq<string>): (r: seq<FileDescriptor>)
    ensures root.None? ==> r == []
  {
    if root.None? then [] else ScanEntries(root.value, [], ScanConfig(renameFiles, allowed, ReadableName))
  }

  // ---------------------------------------------------------------------------
  // The reference: every file of the tree, in pre-order, with the chain of
  // entries leading to it from the root.
  // ---------------------------------------------------------------------------

  /** The names along a chain of entries. */
  function Names(chain: seq<Entry>): (r: seq<string>)
    ensures |r| == |chain| && forall k :: 0 <= k < |chain| ==> r[k] == chain[k].name
  {
    seq(|chain|, k requires 0 <= k < |chain| => chain[k].name)
  }

  /**
   Every regular file reachable through readable directories, in entry order
   with a directory's files at its position, each as the chain of entries
   from the root (after `ancestors`) down to the file. Nothing is filtered.
   */
  function Walk(entries: seq<Entry>, ancestors: seq<Entry>): (r: seq<seq<Entry>>)
    ensures forall i :: 0 <= i < |r| ==>
      |r[i]| > |ancestors| && r[i][..|ancestors|] == ancestors && r[i][|r[i]| - 1].File?
    decreases entries
  {
    if |entries| == 0 then []
    else WalkEntry(entries[0], ancestors) + Walk(entries[1..], ancestors)
  }

  function WalkEntry(e: Entry, ancestors: seq<Entry>): (r: seq<seq<Entry>>)
    ensures forall i :: 0 <= i < |r| ==>
      |r[i]| > |ancestors| && r[i][..|ancestors|] == ancestors && r[i][|ancestors|] == e
      && r[i][|r[i]| - 1].File?
    ensures e.Dir? ==> forall i :: 0 <= i < |r| ==> |r[i]| > |ancestors| + 1
    decreases e
  {
    match e
    case File(_, _, _, _) => [ancestors + [e]]
    case Dir(_, readable, children, _) =>
      if readable then
        var r := Walk(children, ancestors + [e]);
        assert forall i :: 0 <= i < |r| ==> r[i][..|ancestors| + 1] == ancestors + [e];
        r
      else []
    case Other(_) => []
  }

  /**
   A file the scanner keeps: no entry on its chain is ignored, its extension
   is allowed and its `stat` succeeds.
   */
  predicate Retained(chain: seq<Entry>, allowed: seq<string>) {
    && |chain| > 0
    && chain[|chain| - 1].File?
    && (forall k :: 0 <= k < |chain| ==> !ShouldIgnore(chain[k].name))
    && HasAllowedExtension(allowed, chain[|chain| - 1].name)
    && chain[|chain| - 1].size.Some?
  }

  /** The retained chains, in order. */
  function Retain(chains: seq<seq<Entry>>, allowed: seq<string>): (r: seq<seq<Entry>>)
    ensures forall i :: 0 <= i < |r| ==> Retained(r[i], allowed) && r[i] in chains
    ensures |r| <= |chains|
  {
    if |chains| == 0 then []
    else (if Retained(chains[0], allowed) then [chains[0]] else []) + Retain(chains[1..], allowed)
  }

  predicate RenameSucceeds(e: Entry) {
    match e
    case File(_, _, _, ok) => ok
    case Dir(_, _, _, ok) => ok
    case Other(_) => false
  }

  /**
   The name segment `k` of a chain ends up with: the name generated from the
   original path to it, when that differs and the rename succeeds, else the
   original name.
   */
  function RenamedSegment(chain: seq<Entry>, k: nat, cfg: ScanConfig): string
    requires k < |chain|
  {
    var original := chain[k].name;
    var generated := cfg.readableName(Names(chain[..k + 1]), k < |chain| - 1);
    if generated != original && RenameSucceeds(chain[k]) then generated else original
  }

  /**
   The descriptor of a retained file, with the segments from `depth` on
   renamed when renaming is on (those above `depth` are renamed by callers).
   */
  function Describe(chain: seq<Entry>, cfg: ScanConfig, depth: nat): FileDescriptor
    requires Retained(chain, cfg.allowedExtensions)
  {
    var f := chain[|chain| - 1];
    FileDescriptor(
      seq(|chain|, k requires 0 <= k < |chain| =>
        if cfg.renameFiles && k >= depth then RenamedSegment(chain, k, cfg) else chain[k].name),
      f.size.value,
      if cfg.renameFiles then cfg.readableName(Names(chain), false) else f.name,
      f.created)
  }

  function DescribeAll(chains: seq<seq<Entry>>, cfg: ScanConfig, depth: nat): (r: seq<FileDescriptor>)
    requires forall i :: 0 <= i < |chains| ==> Retained(chains[i], cfg.allowedExtensions)
    ensures |r| == |chains|
    ensures forall i :: 0 <= i < |r| ==> r[i] == Describe(chains[i], cfg, depth)
  {
    seq(|chains|, i requires 0 <= i < |chains| => Describe(chains[i], cfg, depth))
  }

  lemma {:induction false} RetainConcat(a: seq<seq<Entry>>, b: seq<seq<Entry>>, allowed: seq<string>)
    ensures Retain(a + b, allowed) == Retain(a, allowed) + Retain(b, allowed)
    decreases |a|
  {
    if |a| == 0 {
      assert a + b == b;
    } else {
      assert (a + b)[1..] == a[1..] + b;
      RetainConcat(a[1..], b, allowed);
    }
  }

  /** Nothing below an ignored entry is retained. */
  lemma {:induction false} RetainBelowIgnored(chains: seq<seq<Entry>>, prefix: seq<Entry>, allowed: seq<string>)
    requires |prefix| > 0 && ShouldIgnore(prefix[|prefix| - 1].name)
    requires forall i :: 0 <= i < |chains| ==> |chains[i]| >= |prefix| && chains[i][..|prefix|] == prefix
    ensures Retain(chains, allowed) == []
    decreases |chains|
  {
    if |chains| > 0 {
      var c := chains[0];
      assert c[|prefix| - 1] == prefix[|prefix| - 1];
      RetainBelowIgnored(chains[1..], prefix, allowed);
    }
  }

  /**
   Renaming the directory at depth `d` in the scanner's output matches
   describing the files below it with segment `d` renamed as well.
   */
  lemma RenameDirectoryMatches(chains: seq<seq<Entry>>, ancestors: seq<Entry>, e: Entry, cfg: ScanConfig)
    requires e.Dir?
    requires forall i :: 0 <= i < |chains| ==> Retained(chains[i], cfg.allowedExtensions)
    requires forall i :: 0 <= i < |chains| ==>
      |chains[i]| > |ancestors| + 1 && chains[i][..|ancestors|] == ancestors && chains[i][|ancestors|] == e
    ensures var d := |ancestors|;
      var sub := DescribeAll(chains, cfg, d + 1);
      var newDirName := cfg.readableName(Names(ancestors) + [e.name], true);
      (if cfg.renameFiles && newDirName != e.name && e.renameSucceeds
       then ReplaceSegment(sub, d, newDirName) else sub) == DescribeAll(chains, cfg, d)
  {
    var d := |ancestors|;
    var sub := DescribeAll(chains, cfg, d + 1);
    var newDirName := cfg.readableName(Names(ancestors) + [e.name], true);
    var renamed := cfg.renameFiles && newDirName != e.name && e.renameSucceeds;
    var lhs := if renamed then ReplaceSegment(sub, d, newDirName) else sub;
    var rhs := DescribeAll(chains, cfg, d);
    forall i | 0 <= i < |chains|
      ensures lhs[i] == rhs[i]
    {
      RenameOneMatches(chains[i], ancestors, e, cfg);
    }
  }

  lemma RenameOneMatches(c: seq<Entry>, ancestors: seq<Entry>, e: Entry, cfg: ScanConfig)
    requires e.Dir?
    requires Retained(c, cfg.allowedExtensions)
    requires |c| > |ancestors| + 1 && c[..|ancestors|] == ancestors && c[|ancestors|] == e
    ensures var d := |ancestors|;
      var desc := Describe(c, cfg, d + 1);
      var newDirName := cfg.readableName(Names(ancestors) + [e.name], true);
      (if cfg.renameFiles && newDirName != e.name && e.renameSucceeds
       then desc.(path := desc.path[d := newDirName]) else desc) == Describe(c, cfg, d)
  {
    var d := |ancestors|;
    var newDirName := cfg.readableName(Names(ancestors) + [e.name], true);
    SegmentAtDepth(c, ancestors, e);
    RenamedSegmentAtDepth(c, d, newDirName, cfg);
    DescribeOneDeeper(c, cfg, d);
  }

  lemma RenamedSegmentAtDepth(c: seq<Entry>, d: nat, newDirName: string, cfg: ScanConfig)
    requires d + 1 < |c|
    requires newDirName == cfg.readableName(Names(c[..d + 1]), true)
    ensures RenamedSegment(c, d, cfg)
         == if newDirName != c[d].name && RenameSucceeds(c[d]) then newDirName else c[d].name
  {
  }

  /** Describing from depth `d` differs from describing from `d + 1` only in segment `d`. */
  lemma DescribeOneDeeper(c: seq<Entry>, cfg: ScanConfig, d: nat)
    requires Retained(c, cfg.allowedExtensions) && d < |c|
    ensures var desc := Describe(c, cfg, d + 1);
      Describe(c, cfg, d)
        == if cfg.renameFiles then desc.(path := desc.path[d := RenamedSegment(c, d, cfg)]) else desc
  {
    var desc := Describe(c, cfg, d + 1);
    var lhs := Describe(c, cfg, d).path;
    var rhs := if cfg.renameFiles then desc.path[d := RenamedSegment(c, d, cfg)] else desc.path;
    assert |lhs| == |rhs|;
    forall k | 0 <= k < |c|
      ensures lhs[k] == rhs[k]
    {
    }
    assert lhs == rhs;
  }

  lemma SegmentAtDepth(c: seq<Entry>, ancestors: seq<Entry>, e: Entry)
    requires |c| > |ancestors| + 1 && c[..|ancestors|] == ancestors && c[|ancestors|] == e
    ensures Names(c[..|ancestors| + 1]) == Names(ancestors) + [e.name]
  {
    assert c[..|ancestors| + 1] == ancestors + [e];
  }

  lemma DescribeAllConcat(a: seq<seq<Entry>>, b: seq<seq<Entry>>, cfg: ScanConfig, depth: nat)
    requires forall i :: 0 <= i < |a| ==> Retained(a[i], cfg.allowedExtensions)
    requires forall i :: 0 <= i < |b| ==> Retained(b[i], cfg.allowedExtensions)
    ensures forall i :: 0 <= i < |a + b| ==> Retained((a + b)[i], cfg.allowedExtensions)
    ensures DescribeAll(a + b, cfg, depth) == DescribeAll(a, cfg, depth) + DescribeAll(b, cfg, depth)
  {
    assert forall i :: 0 <= i < |a + b| ==> (a + b)[i] == if i < |a| then a[i] else b[i - |a|];
  }

  /**
   The scanner's result is the reference walk, filtered to the retained files
   and described with every segment from the current depth on renamed as
   the source renames it: files in pre-order, ignored entries neither
   returned nor descended into, files with a disallowed extension or failing
   `stat` dropped, unreadable directories empty, and a renamed directory's
   new name in the paths of everything below it.
   */
  lemma {:induction false} ScanIsRetainedWalk(entries: seq<Entry>, ancestors: seq<Entry>, cfg: ScanConfig)
    requires forall k :: 0 <= k < |ancestors| ==> !ShouldIgnore(ancestors[k].name)
    ensures ScanEntries(entries, Names(ancestors), cfg)
         == DescribeAll(Retain(Walk(entries, ancestors), cfg.allowedExtensions), cfg, |ancestors|)
    decreases entries, 2
  {
    if |entries| > 0 {
      var allowed := cfg.allowedExtensions;
      var here := Retain(WalkEntry(entries[0], ancestors), allowed);
      var rest := Retain(Walk(entries[1..], ancestors), allowed);
      RetainConcat(WalkEntry(entries[0], ancestors), Walk(entries[1..], ancestors), allowed);
      ScanEntryIsRetainedWalk(entries[0], ancestors, cfg);
      ScanIsRetainedWalk(entries[1..], ancestors, cfg);
      DescribeAllConcat(here, rest, cfg, |ancestors|);
    }
  }

  lemma {:induction false} ScanEntryIsRetainedWalk(e: Entry, ancestors: seq<Entry>, cfg: ScanConfig)
    requires forall k :: 0 <= k < |ancestors| ==> !ShouldIgnore(ancestors[k].name)
    ensures ScanEntry(e, Names(ancestors), cfg)
         == DescribeAll(Retain(WalkEntry(e, ancestors), cfg.allowedExtensions), cfg, |ancestors|)
    decreases e, 1
  {
    if ShouldIgnore(e.name) {
      ScanOfIgnored(e, Names(ancestors), cfg);
      WalkOfIgnoredRetainsNothing(e, ancestors, cfg.allowedExtensions);
    } else if e.File? {
      ScanFileMatches(e, ancestors, cfg);
    } else if e.Dir? {
      ScanDirIsRetainedWalk(e, ancestors, cfg);
    }
  }

  lemma {:induction false} ScanDirIsRetainedWalk(e: Entry, ancestors: seq<Entry>, cfg: ScanConfig)
    requires e.Dir? && !ShouldIgnore(e.name)
    requires forall k :: 0 <= k < |ancestors| ==> !ShouldIgnore(ancestors[k].name)
    ensures ScanEntry(e, Names(ancestors), cfg)
         == DescribeAll(Retain(WalkEntry(e, ancestors), cfg.allowedExtensions), cfg, |ancestors|)
    decreases e, 0
  {
    var below := ancestors + [e];
    if e.readable {
      assert forall k :: 0 <= k < |below| ==> !ShouldIgnore(below[k].name) by {
        assert forall k :: 0 <= k < |ancestors| ==> below[k] == ancestors[k];
        assert below[|ancestors|] == e;
      }
      ScanIsRetainedWalk(e.children, below, cfg);
    }
    ScanDirMatches(e, ancestors, cfg);
  }

  lemma ScanOfIgnored(e: Entry, dir: seq<string>, cfg: ScanConfig)
    requires ShouldIgnore(e.name)
    ensures ScanEntry(e, dir, cfg) == []
  {
  }

  lemma WalkOfIgnoredRetainsNothing(e: Entry, ancestors: seq<Entry>, allowed: seq<string>)
    requires ShouldIgnore(e.name)
    ensures Retain(WalkEntry(e, ancestors), allowed) == []
  {
    var w := WalkEntry(e, ancestors);
    forall i | 0 <= i < |w|
      ensures |w[i]| >= |ancestors| + 1 && w[i][..|ancestors| + 1] == ancestors + [e]
    {
      assert w[i][..|ancestors| + 1] == w[i][..|ancestors|] + [w[i][|ancestors|]];
    }
    RetainBelowIgnored(w, ancestors + [e], allowed);
  }

  lemma ScanFileMatches(e: Entry, ancestors: seq<Entry>, cfg: ScanConfig)
    requires e.File? && !ShouldIgnore(e.name)
    requires forall k :: 0 <= k < |ancestors| ==> !ShouldIgnore(ancestors[k].name)
    ensures ScanEntry(e, Names(ancestors), cfg)
         == DescribeAll(Retain(WalkEntry(e, ancestors), cfg.allowedExtensions), cfg, |ancestors|)
  {
    var c := ancestors + [e];
    var allowed := cfg.allowedExtensions;
    WalkOfFile(e, ancestors, allowed);
    if Retained(c, allowed) {
      ScanRetainedFile(e, ancestors, cfg);
    } else {
      ScanOfRejectedFile(e, Names(ancestors), cfg);
    }
  }

  lemma ScanRetainedFile(e: Entry, ancestors: seq<Entry>, cfg: ScanConfig)
    requires e.File? && !ShouldIgnore(e.name)
    requires Retained(ancestors + [e], cfg.allowedExtensions)
    ensures ScanEntry(e, Names(ancestors), cfg) == DescribeAll([ancestors + [e]], cfg, |ancestors|)
  {
    DescribeFile(e, ancestors, cfg);
    DescribeOne(ancestors + [e], cfg, |ancestors|);
  }

  lemma DescribeOne(c: seq<Entry>, cfg: ScanConfig, depth: nat)
    requires Retained(c, cfg.allowedExtensions)
    ensures DescribeAll([c], cfg, depth) == [Describe(c, cfg, depth)]
  {
  }

  /** A file the extension filter or `stat` rejects contributes nothing. */
  lemma ScanOfRejectedFile(e: Entry, dir: seq<string>, cfg: ScanConfig)
    requires e.File? && !ShouldIgnore(e.name)
    requires !HasAllowedExtension(cfg.allowedExtensions, e.name) || e.size.None?
    ensures ScanEntry(e, dir, cfg) == []
  {
  }

  lemma WalkOfFile(e: Entry, ancestors: seq<Entry>, allowed: seq<string>)
    requires e.File? && !ShouldIgnore(e.name)
    requires forall k :: 0 <= k < |ancestors| ==> !ShouldIgnore(ancestors[k].name)
    ensures Retained(ancestors + [e], allowed) <==> HasAllowedExtension(allowed, e.name) && e.size.Some?
    ensures Retain(WalkEntry(e, ancestors), allowed)
         == if Retained(ancestors + [e], allowed) then [ancestors + [e]] else []
  {
    var c := ancestors + [e];
    assert WalkEntry(e, ancestors) == [c];
    assert forall k :: 0 <= k < |c| ==> c[k].name == if k < |ancestors| then ancestors[k].name else e.name;
  }

  lemma DescribeFile(e: Entry, ancestors: seq<Entry>, cfg: ScanConfig)
    requires e.File? && !ShouldIgnore(e.name)
    requires Retained(ancestors + [e], cfg.allowedExtensions)
    ensures [Describe(ancestors + [e], cfg, |ancestors|)] == ScanEntry(e, Names(ancestors), cfg)
  {
    var d := |ancestors|;
    var dir := Names(ancestors);
    var c := ancestors + [e];
    assert Names(c) == dir + [e.name];
    var newName := if cfg.renameFiles then cfg.readableName(dir + [e.name], false) else e.name;
    var path := if cfg.renameFiles && newName != e.name && e.renameSucceeds then dir + [newName] else dir + [e.name];
    assert ScanEntry(e, dir, cfg) == [FileDescriptor(path, e.size.value, newName, e.created)];
    LastSegmentRenamed(c, cfg, dir);
  }

  lemma LastSegmentRenamed(c: seq<Entry>, cfg: ScanConfig, dir: seq<string>)
    requires Retained(c, cfg.allowedExtensions)
    requires Names(c) == dir + [c[|c| - 1].name]
    ensures var e := c[|c| - 1];
      var newName := if cfg.renameFiles then cfg.readableName(Names(c), false) else e.name;
      Describe(c, cfg, |c| - 1).path
        == if cfg.renameFiles && newName != e.name && e.renameSucceeds then dir + [newName] else dir + [e.name]
  {
    var d := |c| - 1;
    var e := c[d];
    var newName := if cfg.renameFiles then cfg.readableName(Names(c), false) else e.name;
    var last := if cfg.renameFiles && newName != e.name && e.renameSucceeds then newName else e.name;
    var p := Describe(c, cfg, d).path;
    DescribedFromLast(c, cfg);
    RenamedLast(c, cfg);
    assert p[d] == last;
    assert forall k :: 0 <= k < d ==> p[k] == dir[k] by {
      assert forall k :: 0 <= k < d ==> Names(c)[k] == dir[k];
    }
    assert p == dir + [last];
  }

  /** Described from the last segment on, a path keeps every name above it. */
  lemma DescribedFromLast(c: seq<Entry>, cfg: ScanConfig)
    requires Retained(c, cfg.allowedExtensions)
    ensures var p := Describe(c, cfg, |c| - 1).path;
      && |p| == |c|
      && (forall k :: 0 <= k < |c| - 1 ==> p[k] == c[k].name)
      && p[|c| - 1] == if cfg.renameFiles then RenamedSegment(c, |c| - 1, cfg) else c[|c| - 1].name
  {
  }

  /** The last segment is renamed with the file form of the name of the whole chain. */
  lemma RenamedLast(c: seq<Entry>, cfg: ScanConfig)
    requires |c| > 0 && c[|c| - 1].File?
    ensures var e := c[|c| - 1];
      var generated := cfg.readableName(Names(c), false);
      RenamedSegment(c, |c| - 1, cfg) == if generated != e.name && e.renameSucceeds then generated else e.name
  {
    assert c[..|c|] == c;
  }

  lemma ScanDirMatches(e: Entry, ancestors: seq<Entry>, cfg: ScanConfig)
    requires e.Dir? && !ShouldIgnore(e.name)
    requires forall k :: 0 <= k < |ancestors| ==> !ShouldIgnore(ancestors[k].name)
    requires e.readable ==>
      ScanEntries(e.children, Names(ancestors + [e]), cfg)
      == DescribeAll(Retain(Walk(e.children, ancestors + [e]), cfg.allowedExtensions), cfg, |ancestors| + 1)
    ensures ScanEntry(e, Names(ancestors), cfg)
         == DescribeAll(Retain(WalkEntry(e, ancestors), cfg.allowedExtensions), cfg, |ancestors|)
  {
    assert Names(ancestors + [e]) == Names(ancestors) + [e.name];
    RenameDirectoryMatches(Retain(WalkEntry(e, ancestors), cfg.allowedExtensions), ancestors, e, cfg);
  }

  /** The main theorem at the input root, for the generator the tool uses. */
  lemma ScanMatchesReference(entries: seq<Entry>, renameFiles: bool, allowed: seq<string>)
    ensures Scan(Some(entries), renameFiles, allowed)
         == DescribeAll(Retain(Walk(entries, []), allowed), ScanConfig(renameFiles, allowed, ReadableName), 0)
  {
    ScanIsRetainedWalk(entries, [], ScanConfig(renameFiles, allowed, ReadableName));
  }

  /**
   Renaming changes names only: with renaming on, the scan finds the same
   files in the same order, with the same sizes, creation keys and depths,
   as with renaming off.
   */
  lemma RenamingKeepsFiles(entries: seq<Entry>, allowed: seq<string>)
    ensures var a := Scan(Some(entries), true, allowed);
      var b := Scan(Some(entries), false, allowed);
      && |a| == |b|
      && forall i :: 0 <= i < |a| ==>
        a[i].size == b[i].size && a[i].created == b[i].created && |a[i].path| == |b[i].path|
  {
    ScanMatchesReference(entries, true, allowed);
    ScanMatchesReference(entries, false, allowed);
  }

  /**
   With renaming off, every file keeps its path and its own name is the name
   it is copied under.
   */
  lemma ScanWithoutRenaming(entries: seq<Entry>, allowed: seq<string>)
    ensures var r := Scan(Some(entries), false, allowed);
      var chains := Retain(Walk(entries, []), allowed);
      |r| == |chains| &&
      forall i :: 0 <= i < |r| ==>
        r[i].path == Names(chains[i]) && r[i].newName == chains[i][|chains[i]| - 1].name
  {
    ScanMatchesReference(entries, false, allowed);
  }
}
