/**
 The scanner's name filters: the ignore rule, the extension allow-list read
 from `ALLOWED_EXTENSIONS`, and the visibility rule of the output-directory listing.
 */
module Filters {
  import opened Wrappers
  import opened Strings
  import opened Constants
  import opened Paths

  /** `shouldIgnore(name)`: an exact artefact name, a hidden name, or any `.DS_Store` variant. */
  predicate ShouldIgnore(name: string) {
    name in UnwantedFiles || StartsWith(name, ".") || Contains(ToLower(name), ".ds_store")
  }

  /**
   Since every artefact name but `thumbs.db` starts with a dot, the ignore rule
   is: the exact name `thumbs.db`, a leading dot, or `.ds_store` in any case.
   */
  lemma ShouldIgnoreCases(name: string)
    ensures ShouldIgnore(name) <==>
      name == "thumbs.db" || (|name| > 0 && name[0] == '.') || Contains(ToLower(name), ".ds_store")
  {
  }

  /** The exact-match list is case-sensitive: `Thumbs.db` is not ignored, `thumbs.db` is. */
  lemma ThumbsDbMatchedCaseSensitively()
    ensures ShouldIgnore("thumbs.db")
    ensures !ShouldIgnore("Thumbs.db")
  {
    var l := ToLower("Thumbs.db");
    assert l == "thumbs.db";
    assert l[0] == 't';
    assert !StartsWith(l, ".ds_store");
    NotContainsShorter(l[1..], ".ds_store");
  }

  lemma NotContainsShorter(s: string, sub: string)
    requires |s| < |sub|
    ensures !Contains(s, sub)
  {
  }

  /** One `ALLOWED_EXTENSIONS` entry, trimmed, lower-cased and given a leading dot unless it is `*`. */
  function NormaliseExtension(entry: string): (r: string)
    ensures r == "*" || (StartsWith(r, ".") && IsLowerCase(r))
    ensures r == "*" <==> ToLower(Trim(entry)) == "*"
    ensures EndsWith(r, ToLower(Trim(entry)))
  {
    var t := ToLower(Trim(entry));
    ToLowerIsLowerCase(Trim(entry));
    if t == "*" then "*"
    else if StartsWith(t, ".") then t
    else
      assert ("." + t)[0] == '.';
      "." + t
  }

  /**
   The allow-list: every comma-separated entry normalised, or the wildcard
   alone when the variable is unset or empty.
   */
  function AllowedExtensions(env: Option<string>): (r: seq<string>)
    ensures |r| >= 1
    ensures forall i :: 0 <= i < |r| ==> r[i] == "*" || (StartsWith(r[i], ".") && IsLowerCase(r[i]))
    ensures env.None? || env == Some("") ==> r == ["*"]
    ensures env.Some? && env.value != "" ==> |r| == |Split(env.value, ',')|
  {
    if env.None? || env.value == "" then ["*"]
    else
      var pieces := Split(env.value, ',');
      seq(|pieces|, i requires 0 <= i < |pieces| => NormaliseExtension(pieces[i]))
  }

  /** `hasAllowedExtension`: the wildcard admits everything, otherwise the lower-cased extension must be listed. */
  predicate HasAllowedExtension(allowed: seq<string>, name: string) {
    "*" in allowed || ToLower(Extname(name)) in allowed
  }

  /** An entry `p` of the variable admits the lower-cased extension `x`. */
  predicate EntryAdmits(p: string, x: string) {
    var t := ToLower(Trim(p));
    t == "*" || (x != "" && (t == x || "." + t == x))
  }

  /** A lower-cased extension is empty or one leading dot followed by no other dot. */
  lemma LowerExtnameShape(name: string)
    ensures var x := ToLower(Extname(name));
      x == "" || (x[0] == '.' && '.' !in x[1..])
  {
    var e := Extname(name);
    var x := ToLower(e);
    if |x| > 0 {
      assert x[1..] == ToLower(e[1..]);
    }
  }

  /** The normalised form of one entry matches an extension exactly when the entry admits it. */
  lemma NormalisedEntryMatches(p: string, x: string)
    requires x == "" || (x[0] == '.' && '.' !in x[1..])
    ensures NormaliseExtension(p) == "*" || (x != "" && NormaliseExtension(p) == x) <==> EntryAdmits(p, x)
  {
    var t := ToLower(Trim(p));
    var n := NormaliseExtension(p);
    if t == "*" {
      assert n == "*";
    } else if StartsWith(t, ".") {
      assert n == t;
      assert ("." + t)[1..] == t && t[0] == '.';
      assert "." + t != x;
    } else {
      assert n == "." + t;
      assert x != "" ==> t != x;
    }
  }

  /**
   A file passes the extension filter exactly when some entry of the variable,
   ignoring surrounding spaces, case and a missing leading dot, names its
   extension, or some entry is the wildcard.
   */
  lemma AllowedIffSomeEntryAdmits(s: string, name: string)
    requires s != ""
    ensures var pieces := Split(s, ',');
      HasAllowedExtension(AllowedExtensions(Some(s)), name) ==>
      exists i :: 0 <= i < |pieces| && EntryAdmits(pieces[i], ToLower(Extname(name)))
    ensures var pieces := Split(s, ',');
      forall i :: 0 <= i < |pieces| && EntryAdmits(pieces[i], ToLower(Extname(name))) ==>
      HasAllowedExtension(AllowedExtensions(Some(s)), name)
  {
    var pieces := Split(s, ',');
    var x := ToLower(Extname(name));
    if HasAllowedExtension(AllowedExtensions(Some(s)), name) {
      var i := AllowedHasAdmittingEntry(s, name);
    }
    forall i | 0 <= i < |pieces| && EntryAdmits(pieces[i], x)
      ensures HasAllowedExtension(AllowedExtensions(Some(s)), name)
    {
      AdmittingEntryAllows(s, name, i);
    }
  }

  lemma AllowedHasAdmittingEntry(s: string, name: string) returns (i: nat)
    requires s != ""
    requires HasAllowedExtension(AllowedExtensions(Some(s)), name)
    ensures i < |Split(s, ',')| && EntryAdmits(Split(s, ',')[i], ToLower(Extname(name)))
  {
    var pieces := Split(s, ',');
    var allowed := AllowedExtensions(Some(s));
    var x := ToLower(Extname(name));
    LowerExtnameShape(name);
    i := Witness(allowed, x);
    NormalisedEntryMatches(pieces[i], x);
  }

  lemma AdmittingEntryAllows(s: string, name: string, i: nat)
    requires s != "" && i < |Split(s, ',')|
    requires EntryAdmits(Split(s, ',')[i], ToLower(Extname(name)))
    ensures HasAllowedExtension(AllowedExtensions(Some(s)), name)
  {
    var pieces := Split(s, ',');
    var allowed := AllowedExtensions(Some(s));
    var x := ToLower(Extname(name));
    LowerExtnameShape(name);
    NormalisedEntryMatches(pieces[i], x);
    assert allowed[i] == NormaliseExtension(pieces[i]);
    assert allowed[i] in allowed;
  }

  /** The position of a wildcard or of `x` in a list of normalised entries. */
  lemma Witness(allowed: seq<string>, x: string) returns (i: nat)
    requires "*" in allowed || x in allowed
    requires forall j :: 0 <= j < |allowed| ==> allowed[j] == "*" || StartsWith(allowed[j], ".")
    ensures i < |allowed| && (allowed[i] == "*" || (x != "" && allowed[i] == x))
  {
    i :| 0 <= i < |allowed| && (allowed[i] == "*" || allowed[i] == x);
    if allowed[i] != "*" {
      assert StartsWith(allowed[i], ".");
    }
  }

  /** With no wildcard entry, a file without an extension never passes the filter. */
  lemma ExtensionlessFileRejected(env: Option<string>, name: string)
    requires "*" !in AllowedExtensions(env)
    requires Extname(name) == ""
    ensures !HasAllowedExtension(AllowedExtensions(env), name)
  {
  }

  /**
   Visibility in the listing of the output directory (`listDirectoryContents`):
   not `.`/`..`, not hidden and not an exact artefact name.
   */
  predicate VisibleInListing(name: string) {
    name != "." && name != ".." && !StartsWith(name, ".") && name !in UnwantedFiles
  }

  /**
   Every name the listing hides is one the scanner ignores; the converse fails
   for a `.DS_Store` variant that does not lead the name.
   */
  lemma HiddenFromListingIsIgnored(name: string)
    ensures !VisibleInListing(name) ==> ShouldIgnore(name)
    ensures VisibleInListing("a.DS_Store") && ShouldIgnore("a.DS_Store")
  {
    var n := "a.DS_Store";
    assert n[0] == 'a' && !StartsWith(n, ".");
    var l := ToLower(n);
    assert l == "a.ds_store";
    assert StartsWith(l[1..], ".ds_store");
  }
}
