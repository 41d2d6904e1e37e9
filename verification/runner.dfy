/** Running the tests of one FORA module: `executeFORATest`,
    `printTestResults` (its counts and failure text) and `testModuleStr`. */
module Runner {
  import opened Util
  import opened Tags
  import opened Text

  /** The exceptions the driver tells apart. `ParseException` is caught
      only around the module import, `ForaException` (a FORA-level throw)
      only around a test; any other exception is never caught. */
  datatype Exception =
    | ParseException(message: string)
    | ForaException(foraVal: string)
    | OtherException(message: string)

  /** The outcome of a Python call that may raise. */
  datatype Raises<+T> = Ok(value: T) | Raise(exc: Exception)

  /** What a test function returns: Python's `True`, or any other value
      (kept as its printed form). */
  datatype ReturnValue = TrueValue | NonTrue(repr: string)

  /** What `executeFORATest` hands on: the returned value, or the caught
      FORA exception. */
  datatype TestResult = Returned(value: ReturnValue) | Caught(foraVal: string)

  /** A (passed, failed) pair. */
  datatype Counts = Counts(passed: nat, failed: nat)

  function Add(a: Counts, b: Counts): Counts {
    Counts(a.passed + b.passed, a.failed + b.failed)
  }

  /** A loaded FORA module: its members. */
  datatype Module = Module(members: seq<Member>)

  /** The collaborators the driver is given: the module importer, the
      optional test filter (on module path and test name) and the test
      function (plain execution, or reasoning), called with the module,
      its display name and the test name. */
  datatype Harness = Harness(
    importModule: string -> Raises<Module>,
    testFilter: Option<(string, string) -> bool>,
    testFunction: (Module, string, string) -> Raises<ReturnValue>)

  /** A call outcome that escapes `executeFORATest`. */
  predicate Crashes(x: Raises<ReturnValue>) {
    x.Raise? && !x.exc.ForaException?
  }

  /** `executeFORATest`: run one test, turning a FORA exception into the
      test's result; every other exception propagates. */
  function ExecuteFORATest(h: Harness, m: Module, moduleName: string, testName: string): (r: Raises<TestResult>)
    ensures r.Raise? <==> Crashes(h.testFunction(m, moduleName, testName))
    ensures r.Raise? ==> r.exc == h.testFunction(m, moduleName, testName).exc
    ensures r.Ok? && r.value.Returned? ==> h.testFunction(m, moduleName, testName) == Ok(r.value.value)
    ensures r.Ok? && r.value.Caught? ==> h.testFunction(m, moduleName, testName) == Raise(ForaException(r.value.foraVal))
  {
    match h.testFunction(m, moduleName, testName)
    case Ok(v) => Ok(Returned(v))
    case Raise(ForaException(v)) => Ok(Caught(v))
    case Raise(e) => Raise(e)
  }

  /** `printTestResults`, for its counts: one test is one pass or one failure. */
  function PrintTestResults(result: TestResult): (c: Counts)
    ensures c.passed + c.failed == 1
    ensures c.passed == 1 <==> result == Returned(TrueValue)
  {
    if result != Returned(TrueValue) then Counts(0, 1) else Counts(1, 0)
  }

  /** The text `printTestResults` prints after the test name for a failed
      test: the sanitised FORA exception after "throw", or the returned value. */
  function FailureDetail(result: TestResult): (r: Option<string>)
    ensures r.None? <==> PrintTestResults(result).passed == 1
    ensures result.Caught? ==> r.Some? && 6 <= |r.value| <= 6 + 2 * KeepChars + |Ellipsis|
                               && r.value[..6] == "throw "
                               && r.value[6..] == SanitizeErrString(result.foraVal)
                               && '\n' !in r.value[6..] && '\t' !in r.value[6..]
  {
    match result
    case Returned(TrueValue) => None
    case Returned(NonTrue(repr)) => Some(repr)
    case Caught(v) =>
      var text := "throw " + SanitizeErrString(v);
      assert text[6..] == SanitizeErrString(v);
      Some(text)
  }

  /** A test counts as passed exactly when its test function returned
      `True`; a caught FORA exception always counts as a failure. */
  lemma PassIffTrue(h: Harness, m: Module, moduleName: string, testName: string)
    ensures ExecuteFORATest(h, m, moduleName, testName).Ok? ==>
              (PrintTestResults(ExecuteFORATest(h, m, moduleName, testName).value) == Counts(1, 0)
               <==> h.testFunction(m, moduleName, testName) == Ok(TrueValue))
    ensures h.testFunction(m, moduleName, testName).Raise?
            && h.testFunction(m, moduleName, testName).exc.ForaException? ==>
              PrintTestResults(ExecuteFORATest(h, m, moduleName, testName).value) == Counts(0, 1)
  {
  }

  /** `testFilter is None or testFilter(modulePath, testName)`. */
  predicate Accepts(h: Harness, modulePath: string, testName: string) {
    h.testFilter.None? || h.testFilter.value(modulePath, testName)
  }

  /** The test names the filter lets through, in order. */
  function Selected(h: Harness, modulePath: string, names: seq<string>): (r: seq<string>)
    ensures |r| <= |names|
  {
    if names == [] then []
    else if Accepts(h, modulePath, names[0]) then [names[0]] + Selected(h, modulePath, names[1..])
    else Selected(h, modulePath, names[1..])
  }

  /** A name is selected exactly when it is a test name the filter accepts. */
  lemma {:induction false} SelectedMembers(h: Harness, modulePath: string, names: seq<string>)
    ensures forall n :: n in Selected(h, modulePath, names) <==> n in names && Accepts(h, modulePath, n)
  {
    if names != [] {
      SelectedMembers(h, modulePath, names[1..]);
      assert forall n :: n in names <==> n == names[0] || n in names[1..];
    }
  }

  /** Without a filter every test name is selected. */
  lemma {:induction false} NoFilterSelectsAll(h: Harness, modulePath: string, names: seq<string>)
    requires h.testFilter.None?
    ensures Selected(h, modulePath, names) == names
  {
    if names != [] {
      NoFilterSelectsAll(h, modulePath, names[1..]);
      assert names == [names[0]] + names[1..];
    }
  }

  lemma {:induction false} RejectedNamesSelectNothing(h: Harness, modulePath: string, names: seq<string>)
    requires forall n :: n in names ==> !Accepts(h, modulePath, n)
    ensures Selected(h, modulePath, names) == []
  {
    if names != [] {
      assert names[0] in names;
      assert forall n :: n in names[1..] ==> n in names;
      RejectedNamesSelectNothing(h, modulePath, names[1..]);
    }
  }

  /** Reference count: how many of `names` return `True`. */
  function CountTrue(h: Harness, m: Module, moduleName: string, names: seq<string>): nat {
    if names == [] then 0
    else (if h.testFunction(m, moduleName, names[0]) == Ok(TrueValue) then 1 else 0)
         + CountTrue(h, m, moduleName, names[1..])
  }

  /** Reference: the exception escaping from the first of `names` whose
      test function raises something other than a FORA exception. */
  function FirstCrash(h: Harness, m: Module, moduleName: string, names: seq<string>): (r: Option<Exception>)
    ensures r.None? <==> forall i :: 0 <= i < |names| ==> !Crashes(h.testFunction(m, moduleName, names[i]))
    ensures r.Some? ==> exists i :: 0 <= i < |names| && h.testFunction(m, moduleName, names[i]) == Raise(r.value)
                                    && Crashes(h.testFunction(m, moduleName, names[i]))
                                    && forall j :: 0 <= j < i ==> !Crashes(h.testFunction(m, moduleName, names[j]))
  {
    if names == [] then None
    else if Crashes(h.testFunction(m, moduleName, names[0])) then Some(h.testFunction(m, moduleName, names[0]).exc)
    else
      var r := FirstCrash(h, m, moduleName, names[1..]);
      assert forall i :: 1 <= i < |names| ==> names[i] == names[1..][i - 1];
      r
  }

  /** The loop of `testModuleStr` over the test names: each accepted test
      is executed in order and its counts added; an escaping exception
      stops the loop. */
  function RunTests(h: Harness, m: Module, moduleName: string, modulePath: string, names: seq<string>): (r: Raises<Counts>)
    ensures var sel := Selected(h, modulePath, names);
            && (r.Raise? <==> FirstCrash(h, m, moduleName, sel).Some?)
            && (r.Raise? ==> r.exc == FirstCrash(h, m, moduleName, sel).value)
            && (r.Ok? ==> r.value.passed + r.value.failed == |sel|
                          && r.value.passed == CountTrue(h, m, moduleName, sel))
  {
    if names == [] then Ok(Counts(0, 0))
    else if !Accepts(h, modulePath, names[0]) then RunTests(h, m, moduleName, modulePath, names[1..])
    else
      var first := ExecuteFORATest(h, m, moduleName, names[0]);
      var rest := RunTests(h, m, moduleName, modulePath, names[1..]);
      var sel := Selected(h, modulePath, names);
      assert sel == [names[0]] + Selected(h, modulePath, names[1..]);
      assert sel[0] == names[0] && sel[1..] == Selected(h, modulePath, names[1..]);
      if first.Raise? then Raise(first.exc)
      else if rest.Raise? then rest
      else Ok(Add(PrintTestResults(first.value), rest.value))
  }

  /** `os.path.split(path)[-1]`: the part of the path after its last '/'. */
  function BaseName(path: string): (r: string)
    ensures '/' !in r
    ensures |r| <= |path| && r == path[|path| - |r|..]
    ensures |r| < |path| ==> path[|path| - |r| - 1] == '/'
  {
    if path == [] || path[|path| - 1] == '/' then []
    else
      var r := BaseName(path[..|path| - 1]);
      assert path[..|path| - 1][|path| - 1 - |r|..] + [path[|path| - 1]] == path[|path| - |r| - 1..];
      r + [path[|path| - 1]]
  }

  /** `testModuleStr`: import the module (a parse failure is one failed
      test), then run its accepted tests. */
  function TestModuleStr(h: Harness, modulePath: string): (r: Raises<Counts>)
    ensures h.importModule(modulePath).Raise? ==>
              if h.importModule(modulePath).exc.ParseException? then r == Ok(Counts(0, 1))
              else r == Raise(h.importModule(modulePath).exc)
    ensures h.importModule(modulePath).Ok? ==>
              var m := h.importModule(modulePath).value;
              var sel := Selected(h, modulePath, ExtractModuleTestNames(m.members));
              && (r.Raise? <==> FirstCrash(h, m, BaseName(modulePath), sel).Some?)
              && (r.Raise? ==> r.exc == FirstCrash(h, m, BaseName(modulePath), sel).value)
              && (r.Ok? ==> r.value.passed + r.value.failed == |sel|
                            && r.value.passed == CountTrue(h, m, BaseName(modulePath), sel))
  {
    var imported := h.importModule(modulePath);
    if imported.Raise? then
      if imported.exc.ParseException? then Ok(Counts(0, 1)) else Raise(imported.exc)
    else
      var m := imported.value;
      RunTests(h, m, BaseName(modulePath), modulePath, ExtractModuleTestNames(m.members))
  }

  /** A filter that rejects every test leaves a successfully imported
      module with no passes and no failures, however many tests it has. */
  lemma RejectingFilterRunsNothing(h: Harness, modulePath: string)
    requires h.testFilter.Some? && forall p, n :: !h.testFilter.value(p, n)
    requires h.importModule(modulePath).Ok?
    ensures TestModuleStr(h, modulePath) == Ok(Counts(0, 0))
  {
    var m := h.importModule(modulePath).value;
    var names := ExtractModuleTestNames(m.members);
    RejectedNamesSelectNothing(h, modulePath, names);
    var sel := Selected(h, modulePath, names);
    var r := TestModuleStr(h, modulePath);
    assert r.Ok? && r.value.passed == 0 && r.value.failed == 0;
  }
}
