/**
 The name generator (`generateReadableName`): a normalised, length-bounded
 name for a file or directory, derived from its path below the input root.
 */
module Naming {
  import opened Strings
  import opened Constants
  import opened Paths

  /** The characters a cleaned category may hold: `[a-z0-9-]`. */
  predicate IsCleanChar(c: char) { IsLowerLetter(c) || IsDigit(c) || c == '-' }

  /** The characters a generated directory name may hold: `[a-z0-9_-]`. */
  predicate IsDirNameChar(c: char) { IsCleanChar(c) || c == '_' }

  predicate AllClean(s: string) {
    forall i :: 0 <= i < |s| ==> IsCleanChar(s[i])
  }

  /**
   Whether the pattern `\s*-\s*` matches somewhere in `s`. Both runs of
   whitespace may be empty, so it matches exactly when `s` holds a hyphen.
   */
  predicate MatchesHyphenPattern(s: string) { '-' in s }

  /** `s.replace(/[^a-zA-Z0-9-]/g, '')`: keeps letters, digits and hyphens. */
  function KeepAlnumAndHyphen(s: string): (r: string)
    ensures |r| <= |s|
    ensures forall i :: 0 <= i < |r| ==> IsAlnum(r[i]) || r[i] == '-'
  {
    if |s| == 0 then ""
    else if IsAlnum(s[0]) || s[0] == '-' then [s[0]] + KeepAlnumAndHyphen(s[1..])
    else KeepAlnumAndHyphen(s[1..])
  }

  /** `s.replace(/[^a-zA-Z0-9]/g, '-')`: every other character becomes a hyphen. */
  function HyphenateNonAlnum(s: string): string {
    seq(|s|, i requires 0 <= i < |s| => if IsAlnum(s[i]) then s[i] else '-')
  }

  /**
   The cleaning of a category: with a hyphen present, everything but letters,
   digits and hyphens is dropped; otherwise every other character becomes a
   hyphen; the result is lower-cased. Only `[a-z0-9-]` remains, and the
   result is empty only for an empty category.
   */
  function CleanCategory(c: string): (r: string)
    ensures AllClean(r)
    ensures !MatchesHyphenPattern(c) ==> |r| == |c|
    ensures r == "" <==> c == ""
  {
    if MatchesHyphenPattern(c) then
      KeepKeepsHyphen(c);
      ToLower(KeepAlnumAndHyphen(c))
    else ToLower(HyphenateNonAlnum(c))
  }

  lemma {:induction false} KeepKeepsHyphen(s: string)
    requires '-' in s
    ensures |KeepAlnumAndHyphen(s)| > 0
    decreases |s|
  {
    if s[0] != '-' {
      assert '-' in s[1..];
      KeepKeepsHyphen(s[1..]);
    }
  }

  /** The letters and digits of `s`, in order. */
  function AlnumOnly(s: string): string {
    if |s| == 0 then ""
    else if IsAlnum(s[0]) then [s[0]] + AlnumOnly(s[1..])
    else AlnumOnly(s[1..])
  }

  lemma {:induction false} AlnumOnlyConcat(a: string, b: string)
    ensures AlnumOnly(a + b) == AlnumOnly(a) + AlnumOnly(b)
    decreases |a|
  {
    if |a| == 0 {
      assert a + b == b;
    } else {
      assert (a + b)[1..] == a[1..] + b;
      AlnumOnlyConcat(a[1..], b);
    }
  }

  lemma {:induction false} AlnumOnlyOfKept(s: string)
    ensures AlnumOnly(KeepAlnumAndHyphen(s)) == AlnumOnly(s)
    decreases |s|
  {
    if |s| > 0 {
      AlnumOnlyOfKept(s[1..]);
      if IsAlnum(s[0]) || s[0] == '-' {
        AlnumOnlyConcat([s[0]], KeepAlnumAndHyphen(s[1..]));
      }
    }
  }

  lemma {:induction false} AlnumOnlyOfHyphenated(s: string)
    ensures AlnumOnly(HyphenateNonAlnum(s)) == AlnumOnly(s)
    decreases |s|
  {
    if |s| > 0 {
      assert HyphenateNonAlnum(s) == [HyphenateNonAlnum(s)[0]] + HyphenateNonAlnum(s[1..]);
      AlnumOnlyOfHyphenated(s[1..]);
    }
  }

  lemma {:induction false} AlnumOnlyOfLower(s: string)
    ensures AlnumOnly(ToLower(s)) == ToLower(AlnumOnly(s))
    decreases |s|
  {
    if |s| > 0 {
      assert ToLower(s) == [LowerChar(s[0])] + ToLower(s[1..]);
      AlnumOnlyOfLower(s[1..]);
      if IsAlnum(s[0]) {
        ToLowerConcat([s[0]], AlnumOnly(s[1..]));
      }
    }
  }

  /**
   Cleaning never loses or reorders a letter or digit of the category: its
   letters and digits are exactly those of the category, lower-cased.
   */
  lemma CleanKeepsAlnumContent(c: string)
    ensures AlnumOnly(CleanCategory(c)) == ToLower(AlnumOnly(c))
  {
    if MatchesHyphenPattern(c) {
      AlnumOnlyOfLower(KeepAlnumAndHyphen(c));
      AlnumOnlyOfKept(c);
    } else {
      AlnumOnlyOfLower(HyphenateNonAlnum(c));
      AlnumOnlyOfHyphenated(c);
    }
  }

  lemma {:induction false} KeepCleanUnchanged(s: string)
    requires AllClean(s)
    ensures KeepAlnumAndHyphen(s) == s
    decreases |s|
  {
    if |s| > 0 {
      KeepCleanUnchanged(s[1..]);
    }
  }

  /** Cleaning an already clean category changes nothing. */
  lemma CleanIsIdempotent(c: string)
    ensures CleanCategory(CleanCategory(c)) == CleanCategory(c)
  {
    var r := CleanCategory(c);
    if MatchesHyphenPattern(r) {
      KeepCleanUnchanged(r);
    } else {
      assert HyphenateNonAlnum(r) == r;
    }
  }

  /** The maximal run of ASCII letters that starts `s`. */
  function LeadingLetters(s: string): (r: string)
    ensures StartsWith(s, r)
    ensures forall i :: 0 <= i < |r| ==> IsLetter(r[i])
    ensures |r| < |s| ==> !IsLetter(s[|r|])
  {
    if |s| > 0 && IsLetter(s[0]) then [s[0]] + LeadingLetters(s[1..]) else ""
  }

  /** The maximal run of ASCII digits that starts `s`. */
  function LeadingDigits(s: string): (r: string)
    ensures StartsWith(s, r)
    ensures forall i :: 0 <= i < |r| ==> IsDigit(r[i])
    ensures |r| < |s| ==> !IsDigit(s[|r|])
  {
    if |s| > 0 && IsDigit(s[0]) then [s[0]] + LeadingDigits(s[1..]) else ""
  }

  /**
   The identifier kept from a file stem: the match of `^[A-Za-z]+\d+`, else
   of `^[A-Za-z]+`, else the whole stem. When the stem starts with a letter,
   the identifier is its longest prefix made of letters followed by digits.
   */
  function Identifier(stem: string): (r: string)
    ensures StartsWith(stem, r)
    ensures |stem| == 0 || !IsLetter(stem[0]) ==> r == stem
    ensures |stem| > 0 && IsLetter(stem[0]) ==>
      && |r| > 0
      && (forall i :: 0 <= i < |r| ==> IsAlnum(r[i]))
      && (forall i, j :: 0 <= i < j < |r| && IsDigit(r[i]) ==> IsDigit(r[j]))
      && (|r| < |stem| ==> !IsDigit(stem[|r|]) && (IsDigit(r[|r| - 1]) || !IsLetter(stem[|r|])))
  {
    var letters := LeadingLetters(stem);
    if |letters| == 0 then stem
    else
      var rest := stem[|letters|..];
      var digits := LeadingDigits(rest);
      assert stem[..|letters| + |digits|] == letters + digits;
      letters + digits
  }

  /** `dirName.substring(0, MAX_FILENAME_LENGTH)`. */
  function Truncate(s: string, n: nat): (r: string)
    ensures |r| <= n && StartsWith(s, r)
    ensures |s| <= n ==> r == s
  {
    if |s| <= n then s else s[..n]
  }

  /** The directory form `main_sub`, or `main` alone when there is no subcategory. */
  function DirectoryName(cleanMain: string, cleanSub: string): string {
    Truncate(if cleanSub != "" then cleanMain + "_" + cleanSub else cleanMain, MaxFilenameLength)
  }

  /** The untruncated file form `main_sub_identifier` (the extension follows it). */
  function FileNamePrefix(cleanMain: string, cleanSub: string, last: string): string {
    cleanMain + "_" + cleanSub + "_" + ToLower(Identifier(Stem(last)))
  }

  /**
   The file form: the prefix followed by the lower-cased extension; when that
   exceeds the limit, the prefix is cut to `99 - |ext|` characters (`substring`
   treats a negative end as 0), because the extension already holds its dot.
   */
  function FileName(cleanMain: string, cleanSub: string, last: string): string {
    var ext := ToLower(Extname(last));
    var full := FileNamePrefix(cleanMain, cleanSub, last) + ext;
    if |full| > MaxFilenameLength then
      var baseLength := MaxFilenameLength - |ext| - 1;
      (if baseLength <= 0 then "" else full[..baseLength]) + ext
    else full
  }

  /** The main category of a path: its first segment. */
  function MainCategory(parts: seq<string>): string
    requires |parts| >= 1
  {
    parts[0]
  }

  /** The subcategory of a path: its second segment, or "" for a top-level entry. */
  function SubCategory(parts: seq<string>): string {
    if |parts| > 1 then parts[1] else ""
  }

  /**
   `generateReadableName` for the entry whose path below the input root has
   the segments `parts` (the `index` argument is not used by the source).
   An exact artefact name is returned unchanged. Otherwise a directory gets
   at most 100 characters over `[a-z0-9_-]`, and a file ends with its
   lower-cased extension and is at most 100 characters long unless the
   extension alone is longer.
   */
  function GenerateReadableName(parts: seq<string>, isDirectory: bool): (r: string)
    requires |parts| >= 1
    ensures parts[|parts| - 1] in UnwantedFiles ==> r == parts[|parts| - 1]
    ensures parts[|parts| - 1] !in UnwantedFiles && isDirectory ==>
      |r| <= MaxFilenameLength && forall i :: 0 <= i < |r| ==> IsDirNameChar(r[i])
    ensures parts[|parts| - 1] !in UnwantedFiles && !isDirectory ==>
      var ext := ToLower(Extname(parts[|parts| - 1]));
      EndsWith(r, ext) && (|r| <= MaxFilenameLength || r == ext)
  {
    var fileName := parts[|parts| - 1];
    if fileName in UnwantedFiles then fileName
    else
      var cleanMain := CleanCategory(MainCategory(parts));
      var cleanSub := CleanCategory(SubCategory(parts));
      if isDirectory then DirectoryName(cleanMain, cleanSub)
      else FileName(cleanMain, cleanSub, fileName)
  }

  /** `generateReadableName` as a total function of a path's segments; every caller passes at least one. */
  function ReadableName(parts: seq<string>, isDirectory: bool): string {
    if |parts| == 0 then "" else GenerateReadableName(parts, isDirectory)
  }

  /**
   A generated file name is the category-and-identifier prefix, possibly cut
   short, followed by the lower-cased extension; a cut name is exactly 99
   characters long when the extension is shorter than 100, and an uncut one
   is at most 100.
   */
  lemma FileNameLayout(parts: seq<string>)
    requires |parts| >= 1 && parts[|parts| - 1] !in UnwantedFiles
    ensures var r := GenerateReadableName(parts, false);
      var last := parts[|parts| - 1];
      var ext := ToLower(Extname(last));
      var prefix := FileNamePrefix(CleanCategory(MainCategory(parts)), CleanCategory(SubCategory(parts)), last);
      && EndsWith(r, ext)
      && StartsWith(prefix, r[..|r| - |ext|])
      && (|r| - |ext| == |prefix| ==> |r| <= MaxFilenameLength)
      && (|r| - |ext| < |prefix| && |ext| < MaxFilenameLength ==> |r| == MaxFilenameLength - 1)
  {
    var last := parts[|parts| - 1];
    var cleanMain := CleanCategory(MainCategory(parts));
    var cleanSub := CleanCategory(SubCategory(parts));
    assert GenerateReadableName(parts, false) == FileName(cleanMain, cleanSub, last);
    assert |FileNamePrefix(cleanMain, cleanSub, last)| >= 2;
    FileNameShape(FileNamePrefix(cleanMain, cleanSub, last), ToLower(Extname(last)));
  }

  /** The cut of `prefix + ext` that keeps the extension, over abstract parts. */
  lemma FileNameShape(prefix: string, ext: string)
    requires |prefix| > 0
    ensures var full := prefix + ext;
      var r := if |full| > MaxFilenameLength then
        var baseLength := MaxFilenameLength - |ext| - 1;
        (if baseLength <= 0 then "" else full[..baseLength]) + ext
      else full;
      && EndsWith(r, ext)
      && StartsWith(prefix, r[..|r| - |ext|])
      && (|r| - |ext| == |prefix| ==> |r| <= MaxFilenameLength)
      && (|r| - |ext| < |prefix| && |ext| < MaxFilenameLength ==> |r| == MaxFilenameLength - 1)
  {
    var full := prefix + ext;
    if |full| > MaxFilenameLength {
      var baseLength := MaxFilenameLength - |ext| - 1;
      if baseLength > 0 {
        assert full[..baseLength] == prefix[..baseLength];
      }
    }
  }

  /**
   A generated directory name is `main_sub`, or `main` alone when the cleaned
   subcategory is empty, cut to the first 100 characters.
   */
  lemma DirectoryNameLayout(parts: seq<string>)
    requires |parts| >= 1 && parts[|parts| - 1] !in UnwantedFiles
    ensures var r := GenerateReadableName(parts, true);
      var cleanMain := CleanCategory(MainCategory(parts));
      var cleanSub := CleanCategory(SubCategory(parts));
      var d := if cleanSub != "" then cleanMain + "_" + cleanSub else cleanMain;
      StartsWith(d, r) && |r| == if |d| <= MaxFilenameLength then |d| else MaxFilenameLength
  {
  }

  /**
   A top-level file's main category is its own name (extension included) and
   its subcategory is empty, hence the double underscore.
   */
  lemma TopLevelFilePrefix(name: string)
    requires name !in UnwantedFiles
    ensures FileNamePrefix(CleanCategory(MainCategory([name])), CleanCategory(SubCategory([name])), name)
            == CleanCategory(name) + "__" + ToLower(Identifier(Stem(name)))
  {
    var m := CleanCategory(name);
    var x := ToLower(Identifier(Stem(name)));
    assert MainCategory([name]) == name && SubCategory([name]) == "";
    assert CleanCategory("") == "";
    assert m + "_" + "" + "_" + x == m + "__" + x;
  }

  /** Renaming a top-level directory a second time leaves the generated name as it is. */
  lemma TopLevelDirectoryNameIsStable(name: string)
    requires name !in UnwantedFiles
    ensures var n := GenerateReadableName([name], true);
      GenerateReadableName([n], true) == n
  {
    var n := GenerateReadableName([name], true);
    var c := CleanCategory(name);
    assert n == Truncate(c, MaxFilenameLength);
    assert AllClean(n);
    assert n !in UnwantedFiles by {
      forall u | u in UnwantedFiles ensures n != u {
        assert '.' in u;
      }
    }
    var c2 := CleanCategory(n);
    if MatchesHyphenPattern(n) {
      KeepCleanUnchanged(n);
    } else {
      assert HyphenateNonAlnum(n) == n;
    }
    assert c2 == n;
  }

  /**
   Renaming is not stable for top-level files: the second run folds the first
   run's extension and underscores into the main category again.
   */
  lemma TopLevelFileNameIsNotStable()
    ensures GenerateReadableName(["ab"], false) == "ab__ab"
    ensures GenerateReadableName(["ab__ab"], false) == "ab--ab__ab"
  {
    FirstNameOfAb();
    SecondNameOfAb();
  }

  lemma FirstNameOfAb()
    ensures GenerateReadableName(["ab"], false) == "ab__ab"
  {
    FirstRunOfAb();
  }

  lemma SecondNameOfAb()
    ensures GenerateReadableName(["ab__ab"], false) == "ab--ab__ab"
  {
    SecondRunOfAb();
  }

  lemma FirstRunOfAb()
    ensures CleanCategory("ab") == "ab" && CleanCategory("") == ""
    ensures FileName("ab", "", "ab") == "ab__ab"
  {
    CleanOfAb();
    PrefixOfAb();
    StemOfAb();
  }

  lemma PrefixOfAb()
    ensures FileNamePrefix("ab", "", "ab") == "ab__ab"
  {
    StemOfAb();
    IdentifierOfAb();
    assert ToLower("ab") == "ab";
  }

  lemma CleanOfAb()
    ensures CleanCategory("ab") == "ab" && CleanCategory("") == ""
  {
    assert HyphenateNonAlnum("ab") == "ab";
  }

  lemma StemOfAb()
    ensures Extname("ab") == "" && Stem("ab") == "ab"
  {
    assert '.' !in "ab";
  }

  lemma IdentifierOfAb()
    ensures Identifier("ab") == "ab"
  {
    assert LeadingLetters("ab") == "ab";
    assert LeadingDigits("") == "";
  }

  lemma SecondRunOfAb()
    ensures CleanCategory("ab__ab") == "ab--ab"
    ensures FileName("ab--ab", "", "ab__ab") == "ab--ab__ab"
  {
    CleanOfAbAb();
    FileNameOfAbAb();
  }

  lemma CleanOfAbAb()
    ensures CleanCategory("ab__ab") == "ab--ab"
  {
    assert HyphenateNonAlnum("ab__ab") == "ab--ab";
  }

  lemma FileNameOfAbAb()
    ensures FileName("ab--ab", "", "ab__ab") == "ab--ab__ab"
  {
    PrefixOfAbAb();
    StemOfAbAb();
  }

  lemma PrefixOfAbAb()
    ensures FileNamePrefix("ab--ab", "", "ab__ab") == "ab--ab__ab"
  {
    StemOfAbAb();
    IdentifierOfAbAb();
    assert ToLower("ab") == "ab";
  }

  lemma StemOfAbAb()
    ensures Extname("ab__ab") == "" && Stem("ab__ab") == "ab__ab"
  {
    assert '.' !in "ab__ab";
  }

  lemma IdentifierOfAbAb()
    ensures Identifier("ab__ab") == "ab"
  {
    assert LeadingLetters("ab__ab") == "ab";
    assert LeadingDigits("__ab") == "";
  }
}
