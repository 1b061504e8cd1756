/** The parts of Node's `path` module the batch splitter relies on, for one path segment. */
module Paths {
  import opened Strings

  /** The suffix of `s` that starts at its last dot, or "" when `s` has no dot. */
  function DotSuffix(s: string): (r: string)
    ensures r == "" <==> '.' !in s
    ensures r != "" ==> r[0] == '.' && '.' !in r[1..] && EndsWith(s, r)
  {
    if '.' !in s then ""
    else if s[|s| - 1] == '.' then "."
    else
      var r := DotSuffix(s[..|s| - 1]) + [s[|s| - 1]];
      assert s[..|s| - 1] + [s[|s| - 1]] == s;
      r
  }

  /**
   `path.extname(name)` of a base name: from the last dot to the end, or ""
   when there is no dot, the only dot leads the name, or the name is `..`.
   */
  function Extname(name: string): (r: string)
    ensures r == "" || (r[0] == '.' && '.' !in r[1..] && EndsWith(name, r) && |r| < |name|)
    ensures r != "" <==> name != ".." && exists i :: 0 < i < |name| && name[i] == '.'
    ensures r != "" ==> r == DotSuffix(name)
  {
    var d := DotSuffix(name);
    DotSuffixFollowsEveryDot(name);
    if name == ".." || |d| == |name| then "" else d
  }

  /** No dot of `s` lies after the start of its dot suffix. */
  lemma DotSuffixFollowsEveryDot(s: string)
    ensures forall i :: 0 <= i < |s| && s[i] == '.' ==> i <= |s| - |DotSuffix(s)|
  {
    var d := DotSuffix(s);
    if d != "" {
      var p := |s| - |d|;
      assert s[p..] == d;
      assert forall k :: p < k < |s| ==> s[k] == d[1..][k - p - 1];
    }
  }

  /**
   The extension of a name with text before its last dot is that dot and what
   follows (`a.tar.gz` gives `.gz`, `a.` gives `.`); a name whose only dot
   leads it has none (`.bashrc`).
   */
  lemma ExtnameAfterLastDot(a: string, b: string)
    requires '.' !in b
    ensures |a| > 0 && a + "." + b != ".." ==> Extname(a + "." + b) == "." + b
    ensures Extname("." + b) == ""
  {
    DotSuffixAfterLastDot(a, b);
    DotSuffixAfterLastDot("", b);
    assert "" + "." + b == "." + b;
  }

  /** `path.basename(name, path.extname(name))`: the name without its extension. */
  function Stem(name: string): (r: string)
    ensures r + Extname(name) == name
    ensures Extname(name) != "" ==> |r| > 0
  {
    var e := Extname(name);
    var k := |name| - |e|;
    assert name[k..] == e;
    assert name[..k] + name[k..] == name;
    name[..k]
  }

  /** An extension is the text after the last dot of the name, so a stem holding a dot keeps none. */
  lemma ExtnameOfStemWithoutDot(name: string)
    requires Extname(name) != ""
    ensures '.' !in Extname(name)[1..]
    ensures forall i :: |Stem(name)| < i < |name| ==> name[i] != '.'
  {
    var e := Extname(name);
    var st := Stem(name);
    forall i | |st| < i < |name|
      ensures name[i] != '.'
    {
      assert name[i] == e[i - |st|];
      assert e[1..][i - |st| - 1] == e[i - |st|];
    }
  }

  /** The suffix from the last dot is what follows the dot that no later dot follows. */
  lemma {:induction false} DotSuffixAfterLastDot(a: string, b: string)
    requires '.' !in b
    ensures DotSuffix(a + "." + b) == "." + b
    decreases |b|
  {
    var s := a + "." + b;
    assert s[|a|] == '.';
    if |b| > 0 {
      var b' := b[..|b| - 1];
      assert s[..|s| - 1] == a + "." + b';
      DotSuffixAfterLastDot(a, b');
      assert "." + b' + [b[|b| - 1]] == "." + b;
    }
  }
}
