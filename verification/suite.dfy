/** The suite driver `test()`: every `.fora` file of the test directory,
    in sorted order, is run through `testModuleStr`; the totals are summed
    and turned into the process exit code. */
module Suite {
  import opened Runner

  // ---------------------------------------------------------------------
  // sorted(): Python 2 orders byte strings lexicographically by byte value

  predicate LexLe(a: string, b: string)
    decreases |a|
  {
    |a| == 0 || (|b| > 0 && (a[0] < b[0] || (a[0] == b[0] && LexLe(a[1..], b[1..]))))
  }

  lemma {:induction false} LexLeReflexive(a: string)
    ensures LexLe(a, a)
    decreases |a|
  {
    if |a| > 0 { LexLeReflexive(a[1..]); }
  }

  lemma {:induction false} LexLeTotal(a: string, b: string)
    ensures LexLe(a, b) || LexLe(b, a)
    decreases |a|
  {
    if |a| > 0 && |b| > 0 && a[0] == b[0] { LexLeTotal(a[1..], b[1..]); }
  }

  lemma {:induction false} LexLeTransitive(a: string, b: string, c: string)
    requires LexLe(a, b) && LexLe(b, c)
    ensures LexLe(a, c)
    decreases |a|
  {
    if |a| > 0 && a[0] == b[0] && b[0] == c[0] { LexLeTransitive(a[1..], b[1..], c[1..]); }
  }

  lemma {:induction false} LexLeAntisymmetric(a: string, b: string)
    requires LexLe(a, b) && LexLe(b, a)
    ensures a == b
    decreases |a|
  {
    if |a| > 0 {
      LexLeAntisymmetric(a[1..], b[1..]);
      assert a == [a[0]] + a[1..] && b == [b[0]] + b[1..];
    }
  }

  ghost predicate Sorted(s: seq<string>) {
    forall i, j :: 0 <= i < j < |s| ==> LexLe(s[i], s[j])
  }

  /** Insert `x` before the first element of `s` not below it. */
  function Insert(x: string, s: seq<string>): (r: seq<string>)
    ensures multiset(r) == multiset(s) + multiset{x}
  {
    if s == [] then [x]
    else if LexLe(x, s[0]) then [x] + s
    else
      assert s == [s[0]] + s[1..];
      [s[0]] + Insert(x, s[1..])
  }

  lemma {:induction false} InsertSorted(x: string, s: seq<string>)
    requires Sorted(s)
    ensures Sorted(Insert(x, s))
  {
    if s == [] {
    } else if LexLe(x, s[0]) {
      var r := [x] + s;
      forall i, j | 0 <= i < j < |r| ensures LexLe(r[i], r[j]) {
        if i == 0 {
          if j > 1 { LexLeTransitive(x, s[0], s[j - 1]); }
        } else {
          assert r[i] == s[i - 1] && r[j] == s[j - 1];
        }
      }
    } else {
      var tail := s[1..];
      assert Sorted(tail) by {
        forall i, j | 0 <= i < j < |tail| ensures LexLe(tail[i], tail[j]) {
          assert tail[i] == s[i + 1] && tail[j] == s[j + 1];
        }
      }
      InsertSorted(x, tail);
      var rest := Insert(x, tail);
      var r := [s[0]] + rest;
      LexLeTotal(x, s[0]);
      forall y | y in rest ensures LexLe(s[0], y) {
        assert y in multiset(rest);
        if y != x {
          assert y in multiset(tail);
          var k :| 0 <= k < |tail| && tail[k] == y;
          assert s[k + 1] == y;
        }
      }
      forall i, j | 0 <= i < j < |r| ensures LexLe(r[i], r[j]) {
        if i == 0 {
          assert r[j] == rest[j - 1];
          assert rest[j - 1] in rest;
        } else {
          assert r[i] == rest[i - 1] && r[j] == rest[j - 1];
        }
      }
    }
  }

  /** `sorted(names)`. */
  function SortNames(names: seq<string>): (r: seq<string>)
    ensures Sorted(r)
  {
    if names == [] then []
    else
      InsertSorted(names[0], SortNames(names[1..]));
      Insert(names[0], SortNames(names[1..]))
  }

  /** Sorting rearranges the names and neither drops nor adds any. */
  lemma {:induction false} SortNamesPermutes(names: seq<string>)
    ensures multiset(SortNames(names)) == multiset(names)
  {
    if names != [] {
      SortNamesPermutes(names[1..]);
      assert names == [names[0]] + names[1..];
    }
  }

  lemma SortedTail(a: seq<string>)
    requires Sorted(a) && |a| > 0
    ensures Sorted(a[1..])
  {
    forall i, j | 0 <= i < j < |a[1..]| ensures LexLe(a[1..][i], a[1..][j]) {
      assert a[1..][i] == a[i + 1] && a[1..][j] == a[j + 1];
    }
  }

  lemma HeadIsLeast(a: seq<string>, y: string)
    requires Sorted(a) && y in a
    ensures LexLe(a[0], y)
  {
    var k :| 0 <= k < |a| && a[k] == y;
    if k == 0 { LexLeReflexive(y); }
  }

  /** A sorted arrangement is fixed by its elements: sorting ignores the
      order in which the directory listing came. */
  lemma {:induction false} SortedUnique(a: seq<string>, b: seq<string>)
    requires Sorted(a) && Sorted(b) && multiset(a) == multiset(b)
    ensures a == b
    decreases |a|
  {
    if a == [] {
      assert |multiset(b)| == 0;
    } else {
      assert |b| == |multiset(b)| == |multiset(a)| == |a|;
      assert a[0] in multiset(b) && b[0] in multiset(a);
      HeadIsLeast(a, b[0]);
      HeadIsLeast(b, a[0]);
      LexLeAntisymmetric(a[0], b[0]);
      assert a == [a[0]] + a[1..] && b == [b[0]] + b[1..];
      assert multiset(a[1..]) == multiset(a) - multiset{a[0]};
      assert multiset(b[1..]) == multiset(b) - multiset{b[0]};
      SortedTail(a);
      SortedTail(b);
      SortedUnique(a[1..], b[1..]);
    }
  }

  // ---------------------------------------------------------------------
  // File selection and paths

  /** `f.endswith(".fora")`. */
  predicate IsForaFile(f: string) {
    |f| >= 5 && f[|f| - 5..] == ".fora"
  }

  /** The `.fora` files of a listing, in listing order. */
  function ForaFiles(s: seq<string>): (r: seq<string>)
    ensures forall f :: f in r <==> f in s && IsForaFile(f)
  {
    if s == [] then []
    else
      var init := s[..|s| - 1];
      var last := s[|s| - 1];
      assert s == init + [last];
      if IsForaFile(last) then ForaFiles(init) + [last] else ForaFiles(init)
  }

  /** Keeping only the `.fora` files keeps a sorted listing sorted. */
  lemma {:induction false} ForaFilesSorted(s: seq<string>)
    requires Sorted(s)
    ensures Sorted(ForaFiles(s))
  {
    if s != [] {
      var init := s[..|s| - 1];
      var last := s[|s| - 1];
      assert Sorted(init) by {
        assert forall i :: 0 <= i < |init| ==> init[i] == s[i];
      }
      ForaFilesSorted(init);
      var rest := ForaFiles(init);
      if IsForaFile(last) {
        forall i | 0 <= i < |rest| ensures LexLe(rest[i], last) {
          assert rest[i] in init;
          var k :| 0 <= k < |init| && init[k] == rest[i];
          assert s[k] == rest[i];
        }
        var r := rest + [last];
        forall i, j | 0 <= i < j < |r| ensures LexLe(r[i], r[j]) {
          assert r[i] == rest[i];
          if j < |rest| { assert r[j] == rest[j]; }
        }
      }
    }
  }

  /** `os.path.join(dir, name)` for POSIX paths. */
  function Join(dir: string, name: string): string {
    if |name| > 0 && name[0] == '/' then name
    else if dir == [] || dir[|dir| - 1] == '/' then dir + name
    else dir + "/" + name
  }

  lemma BaseNameAfterSlash(p: string, name: string)
    requires p == [] || p[|p| - 1] == '/'
    requires '/' !in name
    ensures BaseName(p + name) == name
  {
    var path := p + name;
    var r := BaseName(path);
    forall k | |path| - |r| <= k < |path| ensures path[k] != '/' {
      assert path[k] == r[k - (|path| - |r|)];
    }
    forall k | |p| <= k < |path| ensures path[k] != '/' {
      assert path[k] == name[k - |p|];
    }
    if |r| < |path| {
      assert path[|path| - |r| - 1] == '/';
    }
    if p != [] {
      assert path[|p| - 1] == '/';
    }
    assert |r| == |name|;
  }

  /** A directory entry's name is the display name of the module at the
      joined path. */
  lemma BaseNameOfJoin(dir: string, name: string)
    requires '/' !in name
    ensures BaseName(Join(dir, name)) == name
  {
    if |name| > 0 && name[0] == '/' {
    } else if dir == [] || dir[|dir| - 1] == '/' {
      BaseNameAfterSlash(dir, name);
    } else {
      assert dir + "/" + name == (dir + "/") + name;
      BaseNameAfterSlash(dir + "/", name);
    }
  }

  // ---------------------------------------------------------------------
  // Aggregation

  /** The units of the test directory: `testModuleStr` on each file name. */
  function UnitsOf(h: Harness, dir: string): string -> Raises<Counts> {
    f => TestModuleStr(h, Join(dir, f))
  }

  /** The unit `f` ran to the end without a failure. */
  predicate UnitClean(units: string -> Raises<Counts>, f: string) {
    units(f).Ok? && units(f).value.failed == 0
  }

  /** Reference totals over `files`, in order: the sum of the units'
      counts, or the exception of the first unit that raises. */
  function SumUnits(units: string -> Raises<Counts>, files: seq<string>): (r: Raises<Counts>)
  {
    if files == [] then Ok(Counts(0, 0))
    else
      var init := files[..|files| - 1];
      var last := files[|files| - 1];
      assert forall i :: 0 <= i < |init| ==> init[i] == files[i];
      var prior := SumUnits(units, init);
      if prior.Raise? then prior
      else if units(last).Raise? then units(last)
      else Ok(Add(prior.value, units(last).value))
  }

  /** The run raises exactly when some unit raises. */
  lemma {:induction false} SumUnitsRaisesIff(units: string -> Raises<Counts>, files: seq<string>)
    ensures SumUnits(units, files).Raise? <==> exists i :: 0 <= i < |files| && units(files[i]).Raise?
    decreases |files|
  {
    if files != [] {
      var init := files[..|files| - 1];
      assert forall i :: 0 <= i < |init| ==> init[i] == files[i];
      SumUnitsRaisesIff(units, init);
    }
  }

  /** The totals show no failure exactly when no unit had one. */
  lemma {:induction false} SumUnitsCleanIff(units: string -> Raises<Counts>, files: seq<string>)
    requires SumUnits(units, files).Ok?
    ensures SumUnits(units, files).value.failed == 0 <==> forall i :: 0 <= i < |files| ==> UnitClean(units, files[i])
    decreases |files|
  {
    if files != [] {
      var init := files[..|files| - 1];
      assert forall i :: 0 <= i < |init| ==> init[i] == files[i];
      SumUnitsCleanIff(units, init);
    }
  }

  /** What `test()` reports: the totals and the exit code. */
  datatype SuiteResult = SuiteResult(passed: nat, failed: nat, exitCode: int)

  /** The loop of `test()` as a fold over the sorted listing: files
      that are not `.fora` are skipped, a unit that raises ends the run. */
  function SumListing(units: string -> Raises<Counts>, files: seq<string>): Raises<Counts> {
    if files == [] then Ok(Counts(0, 0))
    else
      var prior := SumListing(units, files[..|files| - 1]);
      var f := files[|files| - 1];
      if prior.Raise? || !IsForaFile(f) then prior
      else if units(f).Raise? then units(f)
      else Ok(Add(prior.value, units(f).value))
  }

  /** Skipping the non-`.fora` entries on the way is the same as summing
      over the `.fora` files alone. */
  lemma {:induction false} SumListingIsSumOfForaFiles(units: string -> Raises<Counts>, files: seq<string>)
    ensures SumListing(units, files) == SumUnits(units, ForaFiles(files))
    decreases |files|
  {
    if files != [] {
      var init := files[..|files| - 1];
      var f := files[|files| - 1];
      SumListingIsSumOfForaFiles(units, init);
      var done := ForaFiles(init);
      if IsForaFile(f) {
        assert ForaFiles(files) == done + [f];
        assert (done + [f])[..|done|] == done;
      } else {
        assert ForaFiles(files) == done;
      }
    }
  }

  /** The loop of `test()`: the `.fora` files among `files`, in order,
      each run as a unit and its counts added to the running totals; a
      unit that raises ends the run. */
  method RunUnits(units: string -> Raises<Counts>, files: seq<string>) returns (r: Raises<Counts>)
    ensures r == SumUnits(units, ForaFiles(files))
  {
    var numPassed: nat, numFailed: nat := 0, 0;
    var i := 0;
    while i < |files|
      invariant 0 <= i <= |files|
      invariant SumListing(units, files[..i]) == Ok(Counts(numPassed, numFailed))
    {
      var f := files[i];
      assert files[..i + 1][..i] == files[..i];
      if IsForaFile(f) {
        var unit := units(f);
        if unit.Raise? {
          ListingStops(units, files, i + 1);
          SumListingIsSumOfForaFiles(units, files);
          return unit;
        }
        numPassed, numFailed := numPassed + unit.value.passed, numFailed + unit.value.failed;
      }
      i := i + 1;
    }
    assert files[..i] == files;
    SumListingIsSumOfForaFiles(units, files);
    r := Ok(Counts(numPassed, numFailed));
  }

  /** Once a unit raises, the rest of the listing changes nothing. */
  lemma {:induction false} ListingStops(units: string -> Raises<Counts>, files: seq<string>, k: nat)
    requires k <= |files| && SumListing(units, files[..k]).Raise?
    ensures SumListing(units, files) == SumListing(units, files[..k])
    decreases |files| - k
  {
    if k < |files| {
      assert files[..k + 1][..k] == files[..k];
      ListingStops(units, files, k + 1);
    } else {
      assert files[..k] == files;
    }
  }

  /** `test()`: run every `.fora` file of the listing in sorted order and
      return 1 when anything failed, 0 otherwise. */
  method Test(h: Harness, dir: string, listing: seq<string>) returns (r: Raises<SuiteResult>)
    ensures var totals := SumUnits(UnitsOf(h, dir), ForaFiles(SortNames(listing)));
            && (totals.Raise? ==> r == Raise(totals.exc))
            && (totals.Ok? ==> r.Ok? && r.value.passed == totals.value.passed && r.value.failed == totals.value.failed)
    ensures r.Ok? ==> (r.value.exitCode == 1 <==> r.value.failed > 0)
                      && (r.value.exitCode == 0 <==> r.value.failed == 0)
  {
    var totals := RunUnits(UnitsOf(h, dir), SortNames(listing));
    if totals.Raise? {
      return Raise(totals.exc);
    }
    var exitCode := if totals.value.failed > 0 then 1 else 0;
    r := Ok(SuiteResult(totals.value.passed, totals.value.failed, exitCode));
  }

  /** Two listings of the same directory, in whatever order, give the
      same run: the same units in the same order and the same totals. */
  lemma SuiteIgnoresListingOrder(h: Harness, dir: string, l1: seq<string>, l2: seq<string>)
    requires multiset(l1) == multiset(l2)
    ensures ForaFiles(SortNames(l1)) == ForaFiles(SortNames(l2))
    ensures SumUnits(UnitsOf(h, dir), ForaFiles(SortNames(l1))) == SumUnits(UnitsOf(h, dir), ForaFiles(SortNames(l2)))
  {
    SortNamesPermutes(l1);
    SortNamesPermutes(l2);
    SortedUnique(SortNames(l1), SortNames(l2));
  }

  /** Sorting keeps exactly the names of the listing. */
  lemma SortedSameNames(listing: seq<string>)
    ensures forall f :: f in SortNames(listing) <==> f in listing
  {
    SortNamesPermutes(listing);
    forall f ensures f in SortNames(listing) <==> f in listing {
      assert f in SortNames(listing) <==> f in multiset(SortNames(listing));
    }
  }

  /** Exit code 0 exactly when every `.fora` unit ran without a failure. */
  lemma ExitZeroIffAllUnitsClean(h: Harness, dir: string, listing: seq<string>)
    ensures var totals := SumUnits(UnitsOf(h, dir), ForaFiles(SortNames(listing)));
            totals.Ok? ==>
              (totals.value.failed == 0 <==> forall f :: f in listing && IsForaFile(f) ==> UnitClean(UnitsOf(h, dir), f))
  {
    var units := UnitsOf(h, dir);
    var files := ForaFiles(SortNames(listing));
    if SumUnits(units, files).Ok? {
      SumUnitsCleanIff(units, files);
      SortedSameNames(listing);
      assert (forall i :: 0 <= i < |files| ==> UnitClean(units, files[i])) <==>
             (forall f :: f in files ==> UnitClean(units, f));
    }
  }
}
