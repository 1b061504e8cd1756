/**
 The order in which the packer is offered the scanned files: grouped by
 their top-level folder in a plain JavaScript object, the groups taken in
 that object's property order (`Object.values`), and each group sorted by
 creation time with a stable sort.
 */
module Grouping {
  import opened Strings
  import opened Constants
  import opened Scanner

  /** The grouping key: the first path segment, or `root` for a file at the top. */
  function GroupKey(f: FileDescriptor): string {
    if |f.path| > 1 then f.path[0] else RootGroup
  }

  /** The files of `s` whose grouping key is `k`, in order. */
  function WithKey(s: seq<FileDescriptor>, k: string): (r: seq<FileDescriptor>)
    ensures forall i :: 0 <= i < |r| ==> GroupKey(r[i]) == k
  {
    if |s| == 0 then []
    else (if GroupKey(s[0]) == k then [s[0]] else []) + WithKey(s[1..], k)
  }

  /** No value occurs twice. */
  ghost predicate Distinct(s: seq<string>) {
    forall x :: multiset(s)[x] <= 1
  }

  // ---------------------------------------------------------------------------
  // The object `filesBySubfolder`
  // ---------------------------------------------------------------------------

  /** One property of `filesBySubfolder`: a key and the files pushed under it. */
  datatype Group = Group(key: string, files: seq<FileDescriptor>)

  /** The object as its properties in creation order. */
  type Groups = seq<Group>

  function Keys(groups: Groups): (r: seq<string>)
    ensures |r| == |groups| && forall i :: 0 <= i < |groups| ==> r[i] == groups[i].key
  {
    seq(|groups|, i requires 0 <= i < |groups| => groups[i].key)
  }

  /**
   One iteration of the grouping loop: the file is pushed onto the group of
   its key, which is created, last, when the key is new.
   */
  function Add(groups: Groups, f: FileDescriptor): (r: Groups)
    ensures |r| == if GroupKey(f) in Keys(groups) then |groups| else |groups| + 1
  {
    if |groups| == 0 then [Group(GroupKey(f), [f])]
    else if groups[0].key == GroupKey(f) then [groups[0].(files := groups[0].files + [f])] + groups[1..]
    else
      assert GroupKey(f) in Keys(groups) <==> GroupKey(f) in Keys(groups[1..]);
      [groups[0]] + Add(groups[1..], f)
  }

  /** The grouping loop over all scanned files. */
  function GroupBy(files: seq<FileDescriptor>): Groups {
    if |files| == 0 then [] else Add(GroupBy(files[..|files| - 1]), files[|files| - 1])
  }

  /** `filesBySubfolder[k]`: the files of the first property named `k`, or none. */
  function Lookup(groups: Groups, k: string): seq<FileDescriptor> {
    if |groups| == 0 then []
    else if groups[0].key == k then groups[0].files
    else Lookup(groups[1..], k)
  }

  /** The distinct grouping keys of `files`, in order of first occurrence. */
  function FirstSeen(files: seq<FileDescriptor>): (r: seq<string>)
    ensures forall i :: 0 <= i < |files| ==> GroupKey(files[i]) in r
  {
    if |files| == 0 then []
    else
      var prefix := FirstSeen(files[..|files| - 1]);
      assert forall i :: 0 <= i < |files| - 1 ==> files[i] == files[..|files| - 1][i];
      var k := GroupKey(files[|files| - 1]);
      if k in prefix then prefix else prefix + [k]
  }

  lemma {:induction false} WithKeyConcat(a: seq<FileDescriptor>, b: seq<FileDescriptor>, k: string)
    ensures WithKey(a + b, k) == WithKey(a, k) + WithKey(b, k)
    decreases |a|
  {
    if |a| == 0 {
      assert a + b == b;
    } else {
      assert (a + b)[1..] == a[1..] + b;
      WithKeyConcat(a[1..], b, k);
    }
  }

  lemma WithKeySnoc(s: seq<FileDescriptor>, f: FileDescriptor, k: string)
    ensures WithKey(s + [f], k) == WithKey(s, k) + (if GroupKey(f) == k then [f] else [])
  {
    WithKeyConcat(s, [f], k);
  }

  /** A key no file has selects no file. */
  lemma {:induction false} WithAbsentKey(s: seq<FileDescriptor>, k: string)
    requires forall i :: 0 <= i < |s| ==> GroupKey(s[i]) != k
    ensures WithKey(s, k) == []
    decreases |s|
  {
    if |s| > 0 {
      WithAbsentKey(s[1..], k);
    }
  }

  /** Selecting the key every file has selects them all. */
  lemma {:induction false} WithCommonKey(s: seq<FileDescriptor>, k: string)
    requires forall i :: 0 <= i < |s| ==> GroupKey(s[i]) == k
    ensures WithKey(s, k) == s
    decreases |s|
  {
    if |s| > 0 {
      WithCommonKey(s[1..], k);
    }
  }

  lemma AddKeepsGroups(groups: Groups, f: FileDescriptor)
    ensures Keys(Add(groups, f)) == if GroupKey(f) in Keys(groups) then Keys(groups) else Keys(groups) + [GroupKey(f)]
    ensures forall k ::
      Lookup(Add(groups, f), k) == if k == GroupKey(f) then Lookup(groups, k) + [f] else Lookup(groups, k)
  {
    AddKeys(groups, f);
    forall k
      ensures Lookup(Add(groups, f), k) == if k == GroupKey(f) then Lookup(groups, k) + [f] else Lookup(groups, k)
    {
      AddLookup(groups, f, k);
    }
  }

  /** A push creates a property, last, only for a new key. */
  lemma {:induction false} AddKeys(groups: Groups, f: FileDescriptor)
    ensures Keys(Add(groups, f)) == if GroupKey(f) in Keys(groups) then Keys(groups) else Keys(groups) + [GroupKey(f)]
    decreases |groups|
  {
    if |groups| > 0 {
      var g := groups[0];
      var rest := groups[1..];
      assert groups == [g] + rest;
      KeysCons(g, rest);
      if g.key == GroupKey(f) {
        KeysCons(g.(files := g.files + [f]), rest);
      } else {
        AddKeys(rest, f);
        KeysCons(g, Add(rest, f));
        var k := GroupKey(f);
        assert k in Keys(groups) <==> k in Keys(rest);
        if k !in Keys(rest) {
          assert [g.key] + (Keys(rest) + [k]) == ([g.key] + Keys(rest)) + [k];
        }
      }
    }
  }

  lemma KeysCons(g: Group, groups: Groups)
    ensures Keys([g] + groups) == [g.key] + Keys(groups)
  {
  }

  /** A push extends the files of its own key and leaves every other key alone. */
  lemma {:induction false} AddLookup(groups: Groups, f: FileDescriptor, k: string)
    ensures Lookup(Add(groups, f), k) == if k == GroupKey(f) then Lookup(groups, k) + [f] else Lookup(groups, k)
    decreases |groups|
  {
    if |groups| > 0 && groups[0].key != GroupKey(f) {
      AddLookup(groups[1..], f, k);
    }
  }

  /**
   The object built by the grouping loop has one property per distinct key,
   created in order of the key's first occurrence, and holds under each key
   exactly the files with that key, in scan order.
   */
  lemma {:induction false} GroupByIsFilter(files: seq<FileDescriptor>)
    ensures Keys(GroupBy(files)) == FirstSeen(files)
    ensures forall k :: Lookup(GroupBy(files), k) == WithKey(files, k)
    decreases |files|
  {
    if |files| > 0 {
      var prefix := files[..|files| - 1];
      var f := files[|files| - 1];
      assert files == prefix + [f];
      GroupByIsFilter(prefix);
      AddKeepsGroups(GroupBy(prefix), f);
      forall k
        ensures Lookup(GroupBy(files), k) == WithKey(files, k)
      {
        WithKeySnoc(prefix, f, k);
      }
    }
  }

  lemma {:induction false} FirstSeenIsDistinct(files: seq<FileDescriptor>)
    ensures Distinct(FirstSeen(files))
    decreases |files|
  {
    if |files| > 0 {
      FirstSeenIsDistinct(files[..|files| - 1]);
    }
  }

  /** Every key in `FirstSeen` belongs to some file. */
  lemma {:induction false} FirstSeenHasFiles(files: seq<FileDescriptor>, k: string)
    requires k !in FirstSeen(files)
    ensures WithKey(files, k) == []
  {
    WithAbsentKey(files, k);
  }

  // ---------------------------------------------------------------------------
  // `Object.values`: property order of an ordinary object
  // ---------------------------------------------------------------------------

  /**
   An array index (section 6.1.7 of ECMA-262): the canonical decimal form of
   an integer below 2^32 - 1, without leading zeros.
   */
  predicate IsArrayIndex(k: string) {
    && |k| >= 1
    && (forall i :: 0 <= i < |k| ==> IsDigit(k[i]))
    && (|k| == 1 || k[0] != '0')
    && ParseDecimal(k) < 0xFFFF_FFFF
  }

  function IndexValue(k: string): nat
    requires IsArrayIndex(k)
  {
    ParseDecimal(k)
  }

  /** The keys of `keys` on which `test` yields `want`, in order. */
  function Select(keys: seq<string>, test: string -> bool, want: bool): (r: seq<string>)
    ensures forall i :: 0 <= i < |r| ==> test(r[i]) == want
  {
    if |keys| == 0 then []
    else (if test(keys[0]) == want then [keys[0]] else []) + Select(keys[1..], test, want)
  }

  function ArrayIndexKeys(keys: seq<string>): (r: seq<string>)
    ensures forall i :: 0 <= i < |r| ==> IsArrayIndex(r[i])
  {
    Select(keys, IsArrayIndex, true)
  }

  function OtherKeys(keys: seq<string>): (r: seq<string>)
    ensures forall i :: 0 <= i < |r| ==> !IsArrayIndex(r[i])
  {
    Select(keys, IsArrayIndex, false)
  }

  predicate Ascending(s: seq<string>)
    requires forall i :: 0 <= i < |s| ==> IsArrayIndex(s[i])
  {
    forall i, j :: 0 <= i < j < |s| ==> IndexValue(s[i]) <= IndexValue(s[j])
  }

  function InsertIndex(k: string, s: seq<string>): (r: seq<string>)
    requires IsArrayIndex(k) && forall i :: 0 <= i < |s| ==> IsArrayIndex(s[i])
    ensures multiset(r) == multiset(s) + multiset{k}
    ensures forall i :: 0 <= i < |r| ==> IsArrayIndex(r[i])
  {
    if |s| == 0 || IndexValue(k) <= IndexValue(s[0]) then [k] + s
    else
      assert s == [s[0]] + s[1..];
      [s[0]] + InsertIndex(k, s[1..])
  }

  function SortIndices(s: seq<string>): (r: seq<string>)
    requires forall i :: 0 <= i < |s| ==> IsArrayIndex(s[i])
    ensures multiset(r) == multiset(s)
    ensures forall i :: 0 <= i < |r| ==> IsArrayIndex(r[i])
  {
    if |s| == 0 then []
    else
      assert s == [s[0]] + s[1..];
      InsertIndex(s[0], SortIndices(s[1..]))
  }

  /**
   The own property keys of an ordinary object (section 10.1.11.1 of
   ECMA-262): array indices in ascending numeric order, then the other
   string keys in creation order.
   */
  function PropertyOrder(keys: seq<string>): seq<string> {
    SortIndices(ArrayIndexKeys(keys)) + OtherKeys(keys)
  }

  /** `Object.values(filesBySubfolder)`. */
  function ObjectValues(groups: Groups): (r: seq<seq<FileDescriptor>>) {
    var order := PropertyOrder(Keys(groups));
    seq(|order|, i requires 0 <= i < |order| => Lookup(groups, order[i]))
  }

  lemma {:induction false} InsertIndexAscending(k: string, s: seq<string>)
    requires IsArrayIndex(k) && forall i :: 0 <= i < |s| ==> IsArrayIndex(s[i])
    requires Ascending(s)
    ensures Ascending(InsertIndex(k, s))
    decreases |s|
  {
    if |s| > 0 && IndexValue(k) > IndexValue(s[0]) {
      var tail := s[1..];
      assert forall i :: 0 <= i < |tail| ==> tail[i] == s[i + 1];
      var rest := InsertIndex(k, tail);
      InsertIndexAscending(k, tail);
      InsertIndexAbove(k, tail, IndexValue(s[0]));
      var r := InsertIndex(k, s);
      assert r == [s[0]] + rest;
      forall i, j | 0 <= i < j < |r|
        ensures IndexValue(r[i]) <= IndexValue(r[j])
      {
        assert r[j] == rest[j - 1];
        if i > 0 {
          assert r[i] == rest[i - 1];
          assert IndexValue(rest[i - 1]) <= IndexValue(rest[j - 1]);
        }
      }
    }
  }

  /** Inserting a key keeps every key at or above a bound that all of them meet. */
  lemma {:induction false} InsertIndexAbove(k: string, s: seq<string>, b: nat)
    requires IsArrayIndex(k) && forall i :: 0 <= i < |s| ==> IsArrayIndex(s[i])
    requires b <= IndexValue(k) && forall i :: 0 <= i < |s| ==> b <= IndexValue(s[i])
    ensures forall i :: 0 <= i < |InsertIndex(k, s)| ==> b <= IndexValue(InsertIndex(k, s)[i])
    decreases |s|
  {
    var r := InsertIndex(k, s);
    if |s| > 0 && IndexValue(k) > IndexValue(s[0]) {
      var tail := s[1..];
      assert forall i :: 0 <= i < |tail| ==> tail[i] == s[i + 1];
      InsertIndexAbove(k, tail, b);
      var rest := InsertIndex(k, tail);
      assert r == [s[0]] + rest;
      forall i | 0 <= i < |r|
        ensures b <= IndexValue(r[i])
      {
        if i > 0 {
          assert r[i] == rest[i - 1] && b <= IndexValue(rest[i - 1]);
        }
      }
    } else {
      assert r == [k] + s;
      assert forall i :: 0 < i < |r| ==> r[i] == s[i - 1];
    }
  }

  lemma {:induction false} SortIndicesAscending(s: seq<string>)
    requires forall i :: 0 <= i < |s| ==> IsArrayIndex(s[i])
    ensures Ascending(SortIndices(s))
    decreases |s|
  {
    if |s| > 0 {
      SortIndicesAscending(s[1..]);
      InsertIndexAscending(s[0], SortIndices(s[1..]));
    }
  }

  /** Every key is selected by exactly one of the two answers. */
  lemma {:induction false} SelectSplit(keys: seq<string>, test: string -> bool)
    ensures multiset(Select(keys, test, true)) + multiset(Select(keys, test, false)) == multiset(keys)
    decreases |keys|
  {
    if |keys| > 0 {
      var rest := keys[1..];
      SelectSplit(rest, test);
      assert keys == [keys[0]] + rest;
      if test(keys[0]) {
        assert Select(keys, test, true) == [keys[0]] + Select(rest, test, true);
        assert Select(keys, test, false) == Select(rest, test, false);
      } else {
        assert Select(keys, test, true) == Select(rest, test, true);
        assert Select(keys, test, false) == [keys[0]] + Select(rest, test, false);
      }
    }
  }

  lemma KeysSplit(keys: seq<string>)
    ensures multiset(ArrayIndexKeys(keys)) + multiset(OtherKeys(keys)) == multiset(keys)
  {
    SelectSplit(keys, IsArrayIndex);
  }

  /**
   The property order lists every key exactly as often as it was created,
   all array indices first and ascending, and the other keys in creation
   order.
   */
  lemma PropertyOrderIsObjectOrder(keys: seq<string>)
    ensures var r := PropertyOrder(keys);
      && multiset(r) == multiset(keys)
      && (forall i, j :: 0 <= i < j < |r| && !IsArrayIndex(r[i]) ==> !IsArrayIndex(r[j]))
      && (forall i, j :: 0 <= i < j < |r| && IsArrayIndex(r[j]) ==> IndexValue(r[i]) <= IndexValue(r[j]))
      && OtherKeys(r) == OtherKeys(keys)
  {
    KeysSplit(keys);
    IndicesFirstAscending(keys);
    OtherKeysKept(keys);
  }

  lemma IndicesFirstAscending(keys: seq<string>)
    ensures var r := PropertyOrder(keys);
      && (forall i, j :: 0 <= i < j < |r| && !IsArrayIndex(r[i]) ==> !IsArrayIndex(r[j]))
      && (forall i, j :: 0 <= i < j < |r| && IsArrayIndex(r[j]) ==> IndexValue(r[i]) <= IndexValue(r[j]))
  {
    var a := SortIndices(ArrayIndexKeys(keys));
    var b := OtherKeys(keys);
    var r := a + b;
    SortIndicesAscending(ArrayIndexKeys(keys));
    forall i, j | 0 <= i < j < |r| && IsArrayIndex(r[j])
      ensures IndexValue(r[i]) <= IndexValue(r[j])
    {
      assert j < |a|;
      assert r[i] == a[i] && r[j] == a[j];
    }
  }

  lemma OtherKeysKept(keys: seq<string>)
    ensures OtherKeys(PropertyOrder(keys)) == OtherKeys(keys)
  {
    var a := SortIndices(ArrayIndexKeys(keys));
    var b := OtherKeys(keys);
    SelectConcat(a, b, IsArrayIndex, false);
    SelectNone(a, IsArrayIndex, false);
    SelectAll(b, IsArrayIndex, false);
  }

  lemma {:induction false} SelectConcat(a: seq<string>, b: seq<string>, test: string -> bool, want: bool)
    ensures Select(a + b, test, want) == Select(a, test, want) + Select(b, test, want)
    decreases |a|
  {
    if |a| == 0 {
      assert a + b == b;
    } else {
      assert (a + b)[1..] == a[1..] + b;
      SelectConcat(a[1..], b, test, want);
    }
  }

  lemma {:induction false} SelectNone(a: seq<string>, test: string -> bool, want: bool)
    requires forall i :: 0 <= i < |a| ==> test(a[i]) != want
    ensures Select(a, test, want) == []
    decreases |a|
  {
    if |a| > 0 {
      SelectNone(a[1..], test, want);
    }
  }

  lemma {:induction false} SelectAll(b: seq<string>, test: string -> bool, want: bool)
    requires forall i :: 0 <= i < |b| ==> test(b[i]) == want
    ensures Select(b, test, want) == b
    decreases |b|
  {
    if |b| > 0 {
      SelectAll(b[1..], test, want);
    }
  }

  lemma ParseYear()
    ensures ParseDecimal("2023") == 2023
  {
    assert "2023"[..3] == "202";
    assert "202"[..2] == "20";
    assert "20"[..1] == "2";
    assert ""[..0] == "";
  }

  /** A top-level folder named like a small number is offered before every other group. */
  lemma NumericFolderComesFirst()
    ensures PropertyOrder(["photos", "2023"]) == ["2023", "photos"]
  {
    assert IsArrayIndex("2023") by {
      ParseYear();
    }
    assert !IsArrayIndex("photos") by {
      assert !IsDigit("photos"[0]);
    }
    assert ArrayIndexKeys(["photos", "2023"]) == ["2023"] by {
      assert ["photos", "2023"][1..] == ["2023"];
    }
    assert OtherKeys(["photos", "2023"]) == ["photos"] by {
      assert ["photos", "2023"][1..] == ["2023"];
    }
  }

  // ---------------------------------------------------------------------------
  // The stable sort by creation time
  // ---------------------------------------------------------------------------

  predicate SortedByCreation(s: seq<FileDescriptor>) {
    forall i, j :: 0 <= i < j < |s| ==> s[i].created <= s[j].created
  }

  /** The files of `s` created at `c`, in order. */
  function CreatedAt(s: seq<FileDescriptor>, c: int): (r: seq<FileDescriptor>) {
    if |s| == 0 then []
    else (if s[0].created == c then [s[0]] else []) + CreatedAt(s[1..], c)
  }

  /** Inserting before the first file created no earlier keeps ties in order. */
  function InsertByCreation(f: FileDescriptor, s: seq<FileDescriptor>): (r: seq<FileDescriptor>)
    ensures multiset(r) == multiset(s) + multiset{f}
  {
    if |s| == 0 || f.created <= s[0].created then [f] + s
    else
      assert s == [s[0]] + s[1..];
      [s[0]] + InsertByCreation(f, s[1..])
  }

  /**
   The stable sort of the files of one folder, oldest first: the source
   compares the `birthtimeMs` that `statSync` reports for each file, here the
   `created` key.
   */
  function SortByCreation(s: seq<FileDescriptor>): (r: seq<FileDescriptor>)
    ensures multiset(r) == multiset(s)
  {
    if |s| == 0 then []
    else
      assert s == [s[0]] + s[1..];
      InsertByCreation(s[0], SortByCreation(s[1..]))
  }

  lemma {:induction false} InsertKeepsSorted(f: FileDescriptor, s: seq<FileDescriptor>)
    requires SortedByCreation(s)
    ensures SortedByCreation(InsertByCreation(f, s))
    decreases |s|
  {
    if |s| > 0 && f.created > s[0].created {
      InsertKeepsSorted(f, s[1..]);
      var r := InsertByCreation(f, s);
      forall j | 0 < j < |r|
        ensures r[0].created <= r[j].created
      {
        assert r[j] in multiset(s[1..]) + multiset{f};
      }
    }
  }

  lemma {:induction false} InsertKeepsTies(f: FileDescriptor, s: seq<FileDescriptor>, c: int)
    requires SortedByCreation(s)
    ensures CreatedAt(InsertByCreation(f, s), c)
         == if f.created == c then [f] + CreatedAt(s, c) else CreatedAt(s, c)
    decreases |s|
  {
    if |s| > 0 && f.created > s[0].created {
      InsertKeepsTies(f, s[1..], c);
    }
  }

  /**
   The sort orders by creation time, keeps every file, and keeps files
   created at the same time in their original order.
   */
  lemma {:induction false} SortIsStable(s: seq<FileDescriptor>, c: int)
    ensures SortedByCreation(SortByCreation(s))
    ensures CreatedAt(SortByCreation(s), c) == CreatedAt(s, c)
    decreases |s|
  {
    if |s| > 0 {
      SortIsStable(s[1..], c);
      InsertKeepsSorted(s[0], SortByCreation(s[1..]));
      InsertKeepsTies(s[0], SortByCreation(s[1..]), c);
    }
  }

  // ---------------------------------------------------------------------------
  // The flattened offering order
  // ---------------------------------------------------------------------------

  function Flatten(ss: seq<seq<FileDescriptor>>): seq<FileDescriptor> {
    if |ss| == 0 then [] else ss[0] + Flatten(ss[1..])
  }

  /**
   `Object.values(filesBySubfolder).flatMap(files => files.sort(...))`: the
   order in which the packer sees the scanned files.
   */
  function Offering(files: seq<FileDescriptor>): seq<FileDescriptor> {
    var values := ObjectValues(GroupBy(files));
    Flatten(seq(|values|, i requires 0 <= i < |values| => SortByCreation(values[i])))
  }

  /** The files of each key of `order`, each run sorted by creation time. */
  function SortedGroups(files: seq<FileDescriptor>, order: seq<string>): (r: seq<seq<FileDescriptor>>)
    ensures |r| == |order| && forall i :: 0 <= i < |order| ==> r[i] == SortByCreation(WithKey(files, order[i]))
  {
    seq(|order|, i requires 0 <= i < |order| => SortByCreation(WithKey(files, order[i])))
  }

  /** The offering order defined directly from the files, without the object. */
  function OfferingByKeys(files: seq<FileDescriptor>): seq<FileDescriptor> {
    Flatten(SortedGroups(files, PropertyOrder(FirstSeen(files))))
  }

  /**
   The offering is the sorted files of each distinct key, the keys taken in
   property order of their first occurrence.
   */
  lemma OfferingIsByKeys(files: seq<FileDescriptor>)
    ensures Offering(files) == OfferingByKeys(files)
  {
    var groups := GroupBy(files);
    GroupByIsFilter(files);
    var values := ObjectValues(groups);
    var order := PropertyOrder(FirstSeen(files));
    assert PropertyOrder(Keys(groups)) == order;
    var a := seq(|values|, i requires 0 <= i < |values| => SortByCreation(values[i]));
    var b := SortedGroups(files, order);
    assert |a| == |b|;
    forall i | 0 <= i < |order|
      ensures a[i] == b[i]
    {
      assert values[i] == Lookup(groups, order[i]);
    }
    assert a == b;
  }

  lemma DistinctTail(keys: seq<string>)
    requires |keys| > 0 && Distinct(keys)
    ensures Distinct(keys[1..]) && keys[0] !in keys[1..]
  {
    var rest := keys[1..];
    assert multiset(keys) == multiset{keys[0]} + multiset(rest) by {
      assert keys == [keys[0]] + rest;
    }
    forall x
      ensures multiset(rest)[x] <= 1
    {
      assert multiset(keys)[x] == multiset{keys[0]}[x] + multiset(rest)[x];
    }
    assert multiset(keys)[keys[0]] == 1 + multiset(rest)[keys[0]];
  }

  lemma {:induction false} WithKeyFlatten(ss: seq<seq<FileDescriptor>>, keys: seq<string>, k: string)
    requires |ss| == |keys| && Distinct(keys)
    requires forall i, j :: 0 <= i < |ss| && 0 <= j < |ss[i]| ==> GroupKey(ss[i][j]) == keys[i]
    ensures forall i :: 0 <= i < |keys| && keys[i] == k ==> WithKey(Flatten(ss), k) == ss[i]
    ensures k !in keys ==> WithKey(Flatten(ss), k) == []
    decreases |ss|
  {
    if |ss| > 0 {
      DistinctTail(keys);
      assert forall i :: 0 < i < |keys| ==> keys[i] == keys[1..][i - 1];
      WithKeyFlatten(ss[1..], keys[1..], k);
      WithKeyConcat(ss[0], Flatten(ss[1..]), k);
      if keys[0] == k {
        WithCommonKey(ss[0], k);
      } else {
        WithAbsentKey(ss[0], k);
      }
    }
  }

  /**
   The files of one key are offered together in the stable creation order of
   their scan order; a key no file has offers nothing.
   */
  lemma OfferingByKey(files: seq<FileDescriptor>, k: string)
    ensures WithKey(Offering(files), k) == SortByCreation(WithKey(files, k))
  {
    OfferingIsByKeys(files);
    var keys := FirstSeen(files);
    var order := PropertyOrder(keys);
    var ss := SortedGroups(files, order);
    OrderIsDistinct(files);
    SortedGroupsKeyed(files, order);
    WithKeyFlatten(ss, order, k);
    if k in order {
      var i :| 0 <= i < |order| && order[i] == k;
    } else {
      FirstSeenHasFiles(files, k);
    }
  }

  /** The property order lists each key of the files once. */
  lemma OrderIsDistinct(files: seq<FileDescriptor>)
    ensures Distinct(PropertyOrder(FirstSeen(files)))
    ensures forall k :: k in PropertyOrder(FirstSeen(files)) <==> k in FirstSeen(files)
  {
    var keys := FirstSeen(files);
    FirstSeenIsDistinct(files);
    PropertyOrderIsObjectOrder(keys);
    var order := PropertyOrder(keys);
    assert multiset(order) == multiset(keys);
    forall k
      ensures k in order <==> k in keys
    {
      assert k in order <==> k in multiset(order);
      assert k in keys <==> k in multiset(keys);
    }
  }

  lemma SortedGroupsKeyed(files: seq<FileDescriptor>, order: seq<string>)
    ensures var ss := SortedGroups(files, order);
      forall i, j :: 0 <= i < |ss| && 0 <= j < |ss[i]| ==> GroupKey(ss[i][j]) == order[i]
  {
    var ss := SortedGroups(files, order);
    forall i, j | 0 <= i < |ss| && 0 <= j < |ss[i]|
      ensures GroupKey(ss[i][j]) == order[i]
    {
      assert ss[i][j] in multiset(WithKey(files, order[i]));
    }
  }

  lemma {:induction false} WithKeyCount(s: seq<FileDescriptor>, x: FileDescriptor)
    ensures multiset(WithKey(s, GroupKey(x)))[x] == multiset(s)[x]
    decreases |s|
  {
    if |s| > 0 {
      WithKeyCount(s[1..], x);
      assert s == [s[0]] + s[1..];
    }
  }

  /** The offering is a permutation of the scanned files: every file is offered exactly once. */
  lemma OfferingIsPermutation(files: seq<FileDescriptor>)
    ensures multiset(Offering(files)) == multiset(files)
  {
    var o := Offering(files);
    forall x
      ensures multiset(o)[x] == multiset(files)[x]
    {
      OfferingByKey(files, GroupKey(x));
      WithKeyCount(o, x);
      WithKeyCount(files, x);
    }
  }

  /** Within each key, the offering is ordered by creation time. */
  lemma OfferingSortedWithinKey(files: seq<FileDescriptor>, k: string)
    ensures SortedByCreation(WithKey(Offering(files), k))
  {
    OfferingByKey(files, k);
    SortIsStable(WithKey(files, k), 0);
  }
}
