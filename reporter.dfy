/** The failure-tree flattening of `index.js`: from a test-run result, the failing test
    cases of every module that reported an error, each with its failing assertions. */
module Reporter {
  import opened Wrappers
  import opened Seqs

  /** One assertion of a test case; `failure` stands for the truthiness of its `failure` field. */
  datatype Assertion = Assertion(message: string, stackTrace: string, failure: bool)

  /** One completed test case: its assertions in order, and `errorsPerTest`, which is `None`
      when the field is undefined or null. */
  datatype TestCase = TestCase(assertions: seq<Assertion>, errorsPerTest: Option<int>)

  /** One module of the run; `lastError` stands for the truthiness of its `lastError` field. */
  datatype ModuleData = ModuleData(lastError: bool, completed: map<string, TestCase>)

  /** The whole result tree handed to the reporter. */
  datatype Results = Results(lastError: bool, modules: map<string, ModuleData>)

  /** The record built for each test case: `failures`, `errors` and `failed`. */
  datatype FailedTest = FailedTest(failures: seq<Assertion>, errors: Option<int>, failed: bool)

  predicate Failing(assertion: Assertion) {
    assertion.failure
  }

  /** `errors !== undefined && errors > 0`. */
  predicate HasErrors(errors: Option<int>) {
    errors.Some? && errors.value > 0
  }

  /** A test case counts as failed when it has errors or some assertion failed. */
  predicate IsFailed(testCase: TestCase) {
    HasErrors(testCase.errorsPerTest) ||
    exists i :: 0 <= i < |testCase.assertions| && Failing(testCase.assertions[i])
  }

  /** The record kept for a failed test case. */
  function FailureRecord(testCase: TestCase): (r: FailedTest) {
    FailedTest(Filter(testCase.assertions, Failing), testCase.errorsPerTest, true)
  }

  /** The specification of `getTestFailures`: the failed test cases, by name. */
  function TestFailures(moduleData: ModuleData): (r: map<string, FailedTest>) {
    map key | key in moduleData.completed && IsFailed(moduleData.completed[key]) ::
      FailureRecord(moduleData.completed[key])
  }

  /** The body of the `reduce` in `getTestFailures` for one test case: start with
      `failed = errors > 0`, then push every failing assertion and set `failed`. */
  method CollectFailures(testCase: TestCase) returns (testcase: FailedTest)
    ensures testcase.failures == Filter(testCase.assertions, Failing)
    ensures testcase.errors == testCase.errorsPerTest
    ensures testcase.failed <==> IsFailed(testCase)
  {
    var assertions, errors := testCase.assertions, testCase.errorsPerTest;
    var failures: seq<Assertion> := [];
    var failed := errors.Some? && errors.value > 0;
    for i := 0 to |assertions|
      invariant failures == Filter(assertions[..i], Failing)
      invariant failed <==> HasErrors(errors) || exists j :: 0 <= j < i && Failing(assertions[j])
    {
      var assertion := assertions[i];
      assert assertions[..i + 1] == assertions[..i] + [assertion];
      FilterSnoc(assertions[..i], assertion, Failing);
      if assertion.failure {
        failures := failures + [assertion];
        if !failed {
          failed := true;
        }
      }
    }
    assert assertions[..|assertions|] == assertions;
    testcase := FailedTest(failures, errors, failed);
  }

  /** `getTestFailures`: visit every completed test case and keep the failed ones. */
  method GetTestFailures(moduleData: ModuleData) returns (prev: map<string, FailedTest>)
    ensures prev == TestFailures(moduleData)
  {
    var completed := moduleData.completed;
    prev := map[];
    var remaining := completed.Keys;
    while remaining != {}
      invariant remaining <= completed.Keys
      invariant forall key :: key in prev <==> key in completed && key !in remaining && IsFailed(completed[key])
      invariant forall key :: key in prev ==> prev[key] == FailureRecord(completed[key])
      decreases remaining
    {
      var key :| key in remaining;
      var testcase := CollectFailures(completed[key]);
      if testcase.failed {
        prev := prev[key := testcase];
      }
      remaining := remaining - {key};
    }
  }

  /** `getErrorMessages`: nothing when the run had no error; otherwise the failed test cases
      of every module that reported an error, by module name. */
  method GetErrorMessages(results: Results) returns (messages: Option<map<string, map<string, FailedTest>>>)
    ensures messages.None? <==> !results.lastError
    ensures messages.Some? ==>
              forall key :: key in messages.value <==> key in results.modules && results.modules[key].lastError
    ensures messages.Some? ==>
              forall key :: key in messages.value ==> messages.value[key] == TestFailures(results.modules[key])
  {
    if !results.lastError {
      return None;
    }
    var modules := results.modules;
    var prev: map<string, map<string, FailedTest>> := map[];
    var remaining := modules.Keys;
    while remaining != {}
      invariant remaining <= modules.Keys
      invariant forall key :: key in prev <==> key in modules && key !in remaining && modules[key].lastError
      invariant forall key :: key in prev ==> prev[key] == TestFailures(modules[key])
      decreases remaining
    {
      var key :| key in remaining;
      var moduleData := modules[key];
      if moduleData.lastError {
        var testcases := GetTestFailures(moduleData);
        prev := prev[key := testcases];
      }
      remaining := remaining - {key};
    }
    messages := Some(prev);
  }

  /** The failed-test rule: a test case appears iff its `errorsPerTest` is defined and
      positive or one of its assertions failed; no name outside `completed` appears. */
  lemma FailedTestRule(moduleData: ModuleData, key: string)
    ensures key in TestFailures(moduleData) <==>
              key in moduleData.completed &&
              ((moduleData.completed[key].errorsPerTest.Some? && moduleData.completed[key].errorsPerTest.value > 0) ||
               exists i :: 0 <= i < |moduleData.completed[key].assertions| && moduleData.completed[key].assertions[i].failure)
    ensures TestFailures(moduleData).Keys <= moduleData.completed.Keys
  {
  }

  /** A kept test case carries exactly its failing assertions, in their original order (the
      assertions read at strictly increasing positions `idx`, a position being read iff that
      assertion failed), its `errorsPerTest` unchanged and `failed` set; and it has errors or
      at least one failing assertion. */
  lemma FailureRecordExact(moduleData: ModuleData, key: string) returns (idx: seq<nat>)
    requires key in TestFailures(moduleData)
    ensures var assertions := moduleData.completed[key].assertions;
            var record := TestFailures(moduleData)[key];
            |idx| == |record.failures| &&
            (forall j :: 0 <= j < |idx| ==> idx[j] < |assertions| && record.failures[j] == assertions[idx[j]]) &&
            (forall j, k :: 0 <= j < k < |idx| ==> idx[j] < idx[k]) &&
            (forall i :: 0 <= i < |assertions| ==> (assertions[i].failure <==> i in idx)) &&
            record.errors == moduleData.completed[key].errorsPerTest && record.failed &&
            (HasErrors(record.errors) || |record.failures| > 0)
  {
    var testCase := moduleData.completed[key];
    assert TestFailures(moduleData)[key] == FailureRecord(testCase);
    idx := FilterSelects(testCase.assertions, Failing);
    FailedHasCause(testCase);
  }

  /** A failed test case has errors or keeps at least one failing assertion. */
  lemma FailedHasCause(testCase: TestCase)
    requires IsFailed(testCase)
    ensures HasErrors(testCase.errorsPerTest) || |Filter(testCase.assertions, Failing)| > 0
  {
    if !HasErrors(testCase.errorsPerTest) {
      var i :| 0 <= i < |testCase.assertions| && Failing(testCase.assertions[i]);
      var idx := FilterSelects(testCase.assertions, Failing);
      assert i in idx;
    }
  }
}
