/**
 `String.prototype.replace` with a string pattern (section 22.1.3.19 of
 ECMA-262, with GetSubstitution from section 22.1.3.19.1), which the scanner
 uses to move the files found below a renamed directory to its new path:
 only the first occurrence of the pattern is replaced, and the `$`
 sequences of the replacement text are expanded. The scanner's own model
 swaps one path segment; this module relates the two.
 */
module PathReplace {
  import opened Wrappers
  import opened Strings
  import opened Constants
  import opened Naming
  import opened Scanner

  // ---------------------------------------------------------------------------
  // The string operations
  // ---------------------------------------------------------------------------

  /** `pat` occurs in `s` at position `k`. */
  predicate OccursAt(s: string, pat: string, k: int) {
    0 <= k && k + |pat| <= |s| && s[k..k + |pat|] == pat
  }

  /** The first position at or after `from` where `pat` occurs in `s`, if any. */
  function FindFrom(s: string, pat: string, from: nat): (r: Option<nat>)
    ensures r.Some? ==> from <= r.value && OccursAt(s, pat, r.value)
    ensures forall k :: from <= k && (r.None? || k < r.value) ==> !OccursAt(s, pat, k)
    decreases |s| + 1 - from
  {
    if from + |pat| > |s| then None
    else if s[from..from + |pat|] == pat then Some(from)
    else FindFrom(s, pat, from + 1)
  }

  /** `s.indexOf(pat)`, with None for -1. */
  function Find(s: string, pat: string): Option<nat> {
    FindFrom(s, pat, 0)
  }

  /**
   GetSubstitution for a string pattern, which has no capture groups: `$$`
   stands for `$`, `$&` for the matched text, `` $` `` for the text before the
   match and `$'` for the text after it; any other `$` is kept as written.
   */
  function Substitute(rep: string, matched: string, before: string, after: string): string
    decreases |rep|
  {
    if |rep| == 0 then ""
    else if rep[0] == '$' && |rep| > 1 && rep[1] in "$&`'" then
      (if rep[1] == '$' then "$" else if rep[1] == '&' then matched else if rep[1] == '`' then before else after)
      + Substitute(rep[2..], matched, before, after)
    else [rep[0]] + Substitute(rep[1..], matched, before, after)
  }

  /** `s.replace(pat, rep)`: the first occurrence of `pat` gives way to the expanded `rep`. */
  function ReplaceFirst(s: string, pat: string, rep: string): string {
    match Find(s, pat)
    case None => s
    case Some(k) => s[..k] + Substitute(rep, pat, s[..k], s[k + |pat|..]) + s[k + |pat|..]
  }

  /** The same replacement with `rep` taken literally, as the directory rename means it. */
  function ReplaceFirstLiteral(s: string, pat: string, rep: string): string {
    match Find(s, pat)
    case None => s
    case Some(k) => s[..k] + rep + s[k + |pat|..]
  }

  /** A replacement text without `$` stands for itself. */
  lemma {:induction false} NoDollarStandsForItself(rep: string, matched: string, before: string, after: string)
    requires '$' !in rep
    ensures Substitute(rep, matched, before, after) == rep
    decreases |rep|
  {
    if |rep| > 0 {
      assert rep[0] != '$';
      assert forall c :: c in rep[1..] ==> c in rep;
      NoDollarStandsForItself(rep[1..], matched, before, after);
    }
  }

  /** A `$`-free text in front of the rest is copied as it is. */
  lemma {:induction false} DollarFreeFront(a: string, b: string, matched: string, before: string, after: string)
    requires '$' !in a
    ensures Substitute(a + b, matched, before, after) == a + Substitute(b, matched, before, after)
    decreases |a|
  {
    if |a| == 0 {
      assert a + b == b;
    } else {
      assert (a + b)[0] == a[0] != '$';
      assert (a + b)[1..] == a[1..] + b;
      assert forall c :: c in a[1..] ==> c in a;
      assert Substitute(a + b, matched, before, after) == [a[0]] + Substitute(a[1..] + b, matched, before, after);
      DollarFreeFront(a[1..], b, matched, before, after);
      var x := Substitute(b, matched, before, after);
      assert [a[0]] + (a[1..] + x) == ([a[0]] + a[1..]) + x;
      assert a == [a[0]] + a[1..];
    }
  }

  /** Without `$` in the replacement, the replace is the literal one. */
  lemma ReplaceIsLiteralWithoutDollar(s: string, pat: string, rep: string)
    requires '$' !in rep
    ensures ReplaceFirst(s, pat, rep) == ReplaceFirstLiteral(s, pat, rep)
  {
    match Find(s, pat)
    case None =>
    case Some(k) => NoDollarStandsForItself(rep, pat, s[..k], s[k + |pat|..]);
  }

  /** A pattern that starts the string is found at position 0. */
  lemma FoundAtStart(s: string, pat: string)
    requires |pat| <= |s| && s[..|pat|] == pat
    ensures Find(s, pat) == Some(0)
  {
  }

  // ---------------------------------------------------------------------------
  // Paths as strings
  // ---------------------------------------------------------------------------

  /** The segments below a directory, each behind a `/`. */
  function Below(segs: seq<string>): string {
    if |segs| == 0 then "" else "/" + segs[0] + Below(segs[1..])
  }

  /**
   `path.join(root, ...segs)` for segment names that hold no `/` and are
   neither `.` nor `..`, as `readdirSync` reports them.
   */
  function PathString(root: string, segs: seq<string>): string {
    root + Below(segs)
  }

  lemma {:induction false} BelowConcat(a: seq<string>, b: seq<string>)
    ensures Below(a + b) == Below(a) + Below(b)
    decreases |a|
  {
    if |a| == 0 {
      assert a + b == b;
    } else {
      assert (a + b)[0] == a[0] && (a + b)[1..] == a[1..] + b;
      BelowConcat(a[1..], b);
    }
  }

  lemma {:induction false} BelowHasNoDollar(segs: seq<string>)
    requires forall k :: 0 <= k < |segs| ==> '$' !in segs[k]
    ensures '$' !in Below(segs)
    decreases |segs|
  {
    if |segs| > 0 {
      BelowHasNoDollar(segs[1..]);
    }
  }

  /**
   On a path below the directory at depth `d`, replacing the directory's path
   literally by its new path swaps exactly segment `d`.
   */
  lemma LiteralRenameSwapsSegment(root: string, segs: seq<string>, d: nat, n: string)
    requires d < |segs|
    ensures ReplaceFirstLiteral(PathString(root, segs), PathString(root, segs[..d + 1]), PathString(root, segs[..d] + [n]))
         == PathString(root, segs[d := n])
  {
    var rest := segs[d + 1..];
    var swapped := segs[d := n];
    PathSplit(root, segs, d + 1);
    PathSplit(root, swapped, d + 1);
    assert swapped[..d + 1] == segs[..d] + [n] && swapped[d + 1..] == rest;
    LiteralAtStart(PathString(root, segs[..d + 1]), Below(rest), PathString(root, segs[..d] + [n]));
  }

  /** A path is the path of its first `k` segments followed by the rest. */
  lemma PathSplit(root: string, segs: seq<string>, k: nat)
    requires k <= |segs|
    ensures PathString(root, segs) == PathString(root, segs[..k]) + Below(segs[k..])
  {
    assert segs == segs[..k] + segs[k..];
    BelowConcat(segs[..k], segs[k..]);
  }

  /** A pattern that starts the string is replaced there. */
  lemma LiteralAtStart(pat: string, after: string, rep: string)
    ensures ReplaceFirstLiteral(pat + after, pat, rep) == rep + after
  {
    var s := pat + after;
    assert s[..|pat|] == pat;
    FoundAtStart(s, pat);
    assert s[..0] == "" && s[|pat|..] == after;
  }

  /** The same for the replace as written, with the expansion in between. */
  lemma AsWrittenAtStart(pat: string, after: string, rep: string)
    ensures ReplaceFirst(pat + after, pat, rep) == Substitute(rep, pat, "", after) + after
  {
    var s := pat + after;
    assert s[..|pat|] == pat;
    FoundAtStart(s, pat);
    assert s[..0] == "" && s[|pat|..] == after;
    var x := Substitute(rep, pat, "", after);
    assert ReplaceFirst(s, pat, rep) == "" + x + after;
    assert "" + x == x;
  }

  /**
   The replace as written agrees with the segment swap when neither the root
   nor the names above the directory nor the new name hold a `$`.
   */
  lemma RenameAsWrittenSwapsSegment(root: string, segs: seq<string>, d: nat, n: string)
    requires d < |segs|
    requires '$' !in root && '$' !in n && forall k :: 0 <= k < d ==> '$' !in segs[k]
    ensures ReplaceFirst(PathString(root, segs), PathString(root, segs[..d + 1]), PathString(root, segs[..d] + [n]))
         == PathString(root, segs[d := n])
  {
    var upper := segs[..d] + [n];
    assert forall k :: 0 <= k < |upper| ==> '$' !in upper[k] by {
      assert forall k :: 0 <= k < d ==> upper[k] == segs[k];
    }
    BelowHasNoDollar(upper);
    assert '$' !in PathString(root, upper);
    ReplaceIsLiteralWithoutDollar(PathString(root, segs), PathString(root, segs[..d + 1]), PathString(root, upper));
    LiteralRenameSwapsSegment(root, segs, d, n);
  }

  // ---------------------------------------------------------------------------
  // The scanner's path update
  // ---------------------------------------------------------------------------

  /**
   The scanner's segment swap is the literal replacement of the renamed
   directory's path by its new path, on every path found below it, whatever
   the names.
   */
  lemma ReplaceSegmentIsLiteralReplace(files: seq<FileDescriptor>, root: string, dir: seq<string>, name: string, newName: string)
    requires forall i :: 0 <= i < |files| ==> |files[i].path| > |dir| && files[i].path[..|dir| + 1] == dir + [name]
    ensures var r := ReplaceSegment(files, |dir|, newName);
      forall i :: 0 <= i < |files| ==>
        PathString(root, r[i].path)
          == ReplaceFirstLiteral(PathString(root, files[i].path), PathString(root, dir + [name]), PathString(root, dir + [newName]))
  {
    forall i | 0 <= i < |files|
      ensures PathString(root, files[i].path[|dir| := newName])
        == ReplaceFirstLiteral(PathString(root, files[i].path), PathString(root, dir + [name]), PathString(root, dir + [newName]))
    {
      var segs := files[i].path;
      assert segs[..|dir|] == dir;
      assert segs[..|dir|] + [newName] == dir + [newName];
      LiteralRenameSwapsSegment(root, segs, |dir|, newName);
    }
  }

  /**
   The source's `replace` gives the same paths as the segment swap when the
   root and the names of the directories above the renamed one hold no `$`;
   the new name never does, being generated.
   */
  lemma ReplaceSegmentAsWritten(files: seq<FileDescriptor>, root: string, dir: seq<string>, name: string)
    requires forall i :: 0 <= i < |files| ==> |files[i].path| > |dir| && files[i].path[..|dir| + 1] == dir + [name]
    requires name !in UnwantedFiles
    requires '$' !in root && forall k :: 0 <= k < |dir| ==> '$' !in dir[k]
    ensures var newName := ReadableName(dir + [name], true);
      var r := ReplaceSegment(files, |dir|, newName);
      forall i :: 0 <= i < |files| ==>
        PathString(root, r[i].path)
          == ReplaceFirst(PathString(root, files[i].path), PathString(root, dir + [name]), PathString(root, dir + [newName]))
  {
    var newName := ReadableName(dir + [name], true);
    GeneratedDirNameHasNoDollar(dir + [name]);
    forall i | 0 <= i < |files|
      ensures PathString(root, files[i].path[|dir| := newName])
        == ReplaceFirst(PathString(root, files[i].path), PathString(root, dir + [name]), PathString(root, dir + [newName]))
    {
      OnePathAsWritten(files[i].path, root, dir, name, newName);
    }
  }

  lemma OnePathAsWritten(segs: seq<string>, root: string, dir: seq<string>, name: string, newName: string)
    requires |segs| > |dir| && segs[..|dir| + 1] == dir + [name]
    requires '$' !in root && '$' !in newName && forall k :: 0 <= k < |dir| ==> '$' !in dir[k]
    ensures PathString(root, segs[|dir| := newName])
         == ReplaceFirst(PathString(root, segs), PathString(root, dir + [name]), PathString(root, dir + [newName]))
  {
    assert segs[..|dir|] == dir;
    assert segs[..|dir|] + [newName] == dir + [newName];
    assert forall k :: 0 <= k < |dir| ==> segs[k] == dir[k];
    RenameAsWrittenSwapsSegment(root, segs, |dir|, newName);
  }

  /** A generated directory name is made of `[a-z0-9_-]` only, so it holds no `$`. */
  lemma GeneratedDirNameHasNoDollar(parts: seq<string>)
    requires |parts| >= 1 && parts[|parts| - 1] !in UnwantedFiles
    ensures '$' !in ReadableName(parts, true)
  {
    var r := ReadableName(parts, true);
    assert forall i :: 0 <= i < |r| ==> IsDirNameChar(r[i]);
  }

  // ---------------------------------------------------------------------------
  // The discrepancy
  // ---------------------------------------------------------------------------

  /**
   Below a root such as `input_files`, renaming `A$&/B` to `a--_b` moves the
   recorded path of `A$&/B/p.jpg` to one that does not exist: the `$&` in the
   new directory path, copied from the unrenamed parent `A$&`, expands to the
   whole old directory path, where the literal replacement gives
   `A$&/a--_b/p.jpg` below the root.
   */
  lemma DollarInParentBreaksRename(root: string)
    requires '$' !in root
    ensures var s := PathString(root, ["A$&", "B", "p.jpg"]);
      var fullPath := PathString(root, ["A$&", "B"]);
      var newDirPath := PathString(root, ["A$&", "a--_b"]);
      && ReplaceFirst(s, fullPath, newDirPath) == root + "/A" + fullPath + "/a--_b" + "/p.jpg"
      && ReplaceFirstLiteral(s, fullPath, newDirPath) == PathString(root, ["A$&", "a--_b", "p.jpg"])
      && ReplaceFirst(s, fullPath, newDirPath) != ReplaceFirstLiteral(s, fullPath, newDirPath)
  {
    var fullPath := PathString(root, ["A$&", "B"]);
    var newDirPath := PathString(root, ["A$&", "a--_b"]);
    ExampleShapes(root);
    ExampleLiteral(root);
    AsWrittenAtStart(fullPath, "/p.jpg", newDirPath);
    ExampleExpansion(root, fullPath, "/p.jpg");
    var asWritten := root + "/A" + fullPath + "/a--_b" + "/p.jpg";
    assert |asWritten| == 2 * |root| + 20;
  }

  /** The literal replacement in the example swaps the segment `B`. */
  lemma ExampleLiteral(root: string)
    ensures ReplaceFirstLiteral(PathString(root, ["A$&", "B", "p.jpg"]), PathString(root, ["A$&", "B"]), PathString(root, ["A$&", "a--_b"]))
         == PathString(root, ["A$&", "a--_b", "p.jpg"])
  {
    var segs := ["A$&", "B", "p.jpg"];
    assert segs[..2] == ["A$&", "B"] && segs[..1] + ["a--_b"] == ["A$&", "a--_b"];
    assert segs[1 := "a--_b"] == ["A$&", "a--_b", "p.jpg"];
    LiteralRenameSwapsSegment(root, segs, 1, "a--_b");
  }

  lemma ExampleShapes(root: string)
    ensures PathString(root, ["A$&", "B", "p.jpg"]) == PathString(root, ["A$&", "B"]) + "/p.jpg"
    ensures PathString(root, ["A$&", "a--_b"]) == (root + "/A") + ("$&" + "/a--_b")
    ensures |PathString(root, ["A$&", "B"])| == |root| + 6
    ensures |PathString(root, ["A$&", "a--_b", "p.jpg"])| == |root| + 16
  {
    BelowConcat(["A$&", "B"], ["p.jpg"]);
    assert ["A$&", "B"] + ["p.jpg"] == ["A$&", "B", "p.jpg"];
    assert Below(["p.jpg"]) == "/p.jpg";
    assert Below(["a--_b"]) == "/a--_b";
    assert Below(["A$&", "a--_b"]) == "/A$&" + "/a--_b";
    assert "/A$&" + "/a--_b" == "/A" + ("$&" + "/a--_b");
  }

  /** `$&` in the middle of the new directory path expands to the matched old path. */
  lemma ExampleExpansion(root: string, matched: string, after: string)
    requires '$' !in root
    ensures Substitute((root + "/A") + ("$&" + "/a--_b"), matched, "", after) == root + "/A" + matched + "/a--_b"
  {
    assert '$' !in root + "/A";
    DollarFreeFront(root + "/A", "$&" + "/a--_b", matched, "", after);
    AmpersandExpands("/a--_b", matched, after);
    NoDollarStandsForItself("/a--_b", matched, "", after);
  }

  lemma AmpersandExpands(rest: string, matched: string, after: string)
    ensures Substitute("$&" + rest, matched, "", after) == matched + Substitute(rest, matched, "", after)
  {
    var r := "$&" + rest;
    assert r[0] == '$' && r[1] == '&' && r[2..] == rest;
  }

  /** The name the source generates for the directory `A$&/B` is `a--_b`. */
  lemma NameOfDollarDirectory()
    ensures ReadableName(["A$&", "B"], true) == "a--_b"
  {
  }
}
