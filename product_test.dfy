/**
 * CalculatedProductTest: a product test whose expected results are
 * calculated. Its state machine clones a patient population and enqueues
 * the evaluation of the measures once the test is created; `execute`
 * compares the results reported in an uploaded QRDA Category III file with
 * the expected ones and records a passed or failed test execution.
 *
 * The clone job and the evaluation job run outside this model: the test
 * keeps the log of the jobs it started, in order.
 */
module ProductTest {
  import opened Wrappers
  import opened RubyLib
  import opened Records

  // ---------------------------------------------------------------------
  // State machine
  // ---------------------------------------------------------------------

  datatype TestState = Pending | GeneratingRecords | CalculatingExpectedResults

  datatype Event = GeneratePopulation | Calculate

  /** A BSON object id and its string form. */
  datatype ObjectId = ObjectId(hex: string)

  /** The external jobs a test starts. */
  datatype Effect =
    | ClonePopulation(patientIds: seq<string>, testId: ObjectId)  // PopulationCloneJob#perform
    | EnqueueEvaluation(testKey: string)                          // MeasureEvaluationJob.create

  /** The state an event leads to from s, None when the event is not enabled in s. */
  function Transition(s: TestState, e: Event): (r: Option<TestState>)
    ensures r.Some? <==> (e == GeneratePopulation && s == Pending) || (e == Calculate && s == GeneratingRecords)
    ensures r == Some(GeneratingRecords) <==> e == GeneratePopulation && s == Pending
    ensures r == Some(CalculatingExpectedResults) <==> e == Calculate && s == GeneratingRecords
    ensures r != Some(Pending)
  {
    match e
    case GeneratePopulation => if s == Pending then Some(GeneratingRecords) else None
    case Calculate => if s == GeneratingRecords then Some(CalculatingExpectedResults) else None
  }

  function EventRank(e: Event): nat
  {
    if e == GeneratePopulation then 1 else 0
  }

  function StateRank(s: TestState): nat
  {
    match s
    case Pending => 0
    case GeneratingRecords => 1
    case CalculatingExpectedResults => 2
  }

  /**
   * Firing event e in state s, with the after_transition hooks: whether the
   * event was enabled, the final state and the jobs started. Entering
   * generating_records clones the minimal set of patients and then fires
   * calculate; entering calculating_expected_results enqueues one
   * evaluation keyed by the test id's string.
   */
  function Fire(minimalSet: seq<string>, id: ObjectId, s: TestState, e: Event): (r: (bool, TestState, seq<Effect>))
    ensures r.0 <==> Transition(s, e).Some?
    ensures !r.0 ==> r.1 == s && r.2 == []
    ensures r.0 ==> r.1 == CalculatingExpectedResults
    ensures StateRank(r.1) >= StateRank(s)
    decreases EventRank(e)
  {
    match Transition(s, e)
    case None => (false, s, [])
    case Some(t) =>
      if t == GeneratingRecords then
        var after := Fire(minimalSet, id, t, Calculate);
        (true, after.1, [ClonePopulation(minimalSet, id)] + after.2)
      else if t == CalculatingExpectedResults then
        (true, t, [EnqueueEvaluation(id.hex)])
      else
        (true, t, [])
  }

  /**
   * generate_population from pending clones once and enqueues once, in
   * that order, and ends in calculating_expected_results; calculate from
   * generating_records only enqueues.
   */
  lemma FireEffects(minimalSet: seq<string>, id: ObjectId)
    ensures Fire(minimalSet, id, Pending, GeneratePopulation)
      == (true, CalculatingExpectedResults, [ClonePopulation(minimalSet, id), EnqueueEvaluation(id.hex)])
    ensures Fire(minimalSet, id, GeneratingRecords, Calculate)
      == (true, CalculatingExpectedResults, [EnqueueEvaluation(id.hex)])
  {
    assert Fire(minimalSet, id, GeneratingRecords, Calculate)
      == (true, CalculatingExpectedResults, [EnqueueEvaluation(id.hex)]);
    assert [ClonePopulation(minimalSet, id)] + [EnqueueEvaluation(id.hex)]
      == [ClonePopulation(minimalSet, id), EnqueueEvaluation(id.hex)];
  }

  /** calculating_expected_results is final: no event leaves it or starts a job. */
  lemma FinalStateAbsorbs(minimalSet: seq<string>, id: ObjectId, e: Event)
    ensures Fire(minimalSet, id, CalculatingExpectedResults, e) == (false, CalculatingExpectedResults, [])
  {
  }

  /** Every job a firing starts carries this test's id. */
  lemma {:induction false} FireEffectsCarryTestId(minimalSet: seq<string>, id: ObjectId, s: TestState, e: Event)
    ensures var effects := Fire(minimalSet, id, s, e).2;
      forall k :: 0 <= k < |effects| ==>
        match effects[k]
        case ClonePopulation(p, t) => p == minimalSet && t == id
        case EnqueueEvaluation(t) => t == id.hex
    decreases EventRank(e)
  {
    if Transition(s, e) == Some(GeneratingRecords) {
      FireEffectsCarryTestId(minimalSet, id, GeneratingRecords, Calculate);
      var after := Fire(minimalSet, id, GeneratingRecords, Calculate);
      var effects := Fire(minimalSet, id, s, e).2;
      assert effects == [ClonePopulation(minimalSet, id)] + after.2;
      forall k | 1 <= k < |effects| ensures effects[k] == after.2[k - 1] {
      }
    }
  }

  // ---------------------------------------------------------------------
  // Comparison of expected and reported results
  // ---------------------------------------------------------------------

  /** reported_results[key] || {} */
  function ReportedFor(reported: Results, key: string): Hash<Value>
  {
    match Get(reported, key)
    case None => []
    case Some(r) => r
  }

  /** reported_result[component]: nil when the component is absent. */
  function ReportedValue(reportedResult: Hash<Value>, component: string): Value
  {
    match Get(reportedResult, component)
    case None => Value.Nil
    case Some(v) => v
  }

  /** A component whose reported value differs from the expected one. */
  datatype Mismatch = Mismatch(component: string, expected: Value, reported: Value)

  /** The message execute writes for a mismatch. */
  function Render(m: Mismatch): string
  {
    "expected " + m.component + " value " + ToS(m.expected) + " does not match reported value " + ToS(m.reported)
  }

  /** The messages of a list of mismatches, in order. */
  function RenderAll(ms: seq<Mismatch>): (r: seq<string>)
    ensures |r| == |ms|
    decreases |ms|
  {
    if |ms| == 0 then [] else RenderAll(ms[..|ms| - 1]) + [Render(ms[|ms| - 1])]
  }

  lemma RenderAllSnoc(ms: seq<Mismatch>, m: Mismatch)
    ensures RenderAll(ms + [m]) == RenderAll(ms) + [Render(m)]
  {
    assert (ms + [m])[..|ms|] == ms;
  }

  /** The i-th message renders the i-th mismatch. */
  lemma {:induction false} RenderAllContract(ms: seq<Mismatch>)
    ensures forall i :: 0 <= i < |ms| ==> RenderAll(ms)[i] == Render(ms[i])
    decreases |ms|
  {
    if |ms| > 0 {
      var n := |ms| - 1;
      RenderAllContract(ms[..n]);
      assert forall i :: 0 <= i < n ==> ms[..n][i] == ms[i];
    }
  }

  /** The component `expectedResult[j]` differs from what is reported. */
  predicate Differs(expectedResult: Hash<Value>, reportedResult: Hash<Value>, j: int)
    requires 0 <= j < |expectedResult|
  {
    ReportedValue(reportedResult, expectedResult[j].0) != expectedResult[j].1
  }

  /** The expected and reported values of the component `expectedResult[j]`. */
  function MismatchAt(expectedResult: Hash<Value>, reportedResult: Hash<Value>, j: int): Mismatch
    requires 0 <= j < |expectedResult|
  {
    Mismatch(expectedResult[j].0, expectedResult[j].1, ReportedValue(reportedResult, expectedResult[j].0))
  }

  /** The mismatches of a measure, one per differing component, in the expected result's order. */
  function MismatchList(expectedResult: Hash<Value>, reportedResult: Hash<Value>): seq<Mismatch>
    decreases |expectedResult|
  {
    if |expectedResult| == 0 then []
    else
      var n := |expectedResult| - 1;
      MismatchList(expectedResult[..n], reportedResult)
        + if Differs(expectedResult, reportedResult, n) then [MismatchAt(expectedResult, reportedResult, n)] else []
  }

  /** `errs` of execute for one measure: the messages of its mismatches. */
  function Mismatches(expectedResult: Hash<Value>, reportedResult: Hash<Value>): seq<string>
  {
    RenderAll(MismatchList(expectedResult, reportedResult))
  }

  /**
   * The mismatches are exactly the differing components with their
   * expected and reported values, and there are none exactly when every
   * component matches.
   */
  lemma {:induction false} MismatchListContract(expectedResult: Hash<Value>, reportedResult: Hash<Value>)
    ensures var ms := MismatchList(expectedResult, reportedResult);
      && |ms| <= |expectedResult|
      && (forall m :: m in ms <==>
            exists j :: 0 <= j < |expectedResult| && Differs(expectedResult, reportedResult, j)
                        && m == MismatchAt(expectedResult, reportedResult, j))
      && (ms == [] <==> forall j :: 0 <= j < |expectedResult| ==> !Differs(expectedResult, reportedResult, j))
    decreases |expectedResult|
  {
    if |expectedResult| > 0 {
      var n := |expectedResult| - 1;
      var prefix := expectedResult[..n];
      MismatchListContract(prefix, reportedResult);
      var ms := MismatchList(expectedResult, reportedResult);
      var rest := MismatchList(prefix, reportedResult);
      var last := if Differs(expectedResult, reportedResult, n) then [MismatchAt(expectedResult, reportedResult, n)] else [];
      assert ms == rest + last;
      forall j | 0 <= j < n
        ensures Differs(prefix, reportedResult, j) == Differs(expectedResult, reportedResult, j)
        ensures MismatchAt(prefix, reportedResult, j) == MismatchAt(expectedResult, reportedResult, j)
      {
        assert prefix[j] == expectedResult[j];
      }
      forall m
        ensures m in ms <==>
          exists j :: 0 <= j < |expectedResult| && Differs(expectedResult, reportedResult, j)
                      && m == MismatchAt(expectedResult, reportedResult, j)
      {
        if m in ms {
          if m in rest {
            var j :| 0 <= j < n && Differs(prefix, reportedResult, j) && m == MismatchAt(prefix, reportedResult, j);
            assert Differs(expectedResult, reportedResult, j) && m == MismatchAt(expectedResult, reportedResult, j);
          } else {
            assert m in last;
          }
        }
      }
    }
  }

  /** Every mismatch message is non-empty and names its component. */
  lemma RenderNamesComponent(m: Mismatch)
    ensures |Render(m)| > 0
    ensures Contains(Render(m), m.component)
  {
    var post := " value " + ToS(m.expected) + " does not match reported value " + ToS(m.reported);
    assert Render(m) == "expected " + m.component + post;
    ContainsInContext("expected ", m.component, post);
  }

  /** The separator the mismatch messages of a measure are joined with. */
  const Separator: string := ",  "

  /** `errs` for the expected measure `entry`: a missing reported measure counts as `{}`. */
  function MeasureMismatches(entry: (string, Hash<Value>), reported: Results): seq<string>
  {
    Mismatches(entry.1, ReportedFor(reported, entry.0))
  }

  /** The error-kind error recorded for a measure. */
  function MeasureError(key: string, errs: seq<string>): ExecutionError
  {
    ExecutionError(Join(errs, Separator), Error, None, Some(key), None, {})
  }

  /** The warning-kind error recorded for a validator message. */
  function WarningError(message: string): ExecutionError
  {
    ExecutionError(message, Warning, None, None, None, {})
  }

  /** One warning per validator message, in order. */
  function WarningErrors(qrdaErrors: seq<string>): seq<ExecutionError>
    decreases |qrdaErrors|
  {
    if |qrdaErrors| == 0 then []
    else WarningErrors(qrdaErrors[..|qrdaErrors| - 1]) + [WarningError(qrdaErrors[|qrdaErrors| - 1])]
  }

  /**
   * The errors of the comparison, in the expected results' order. The test
   * `if errs` is on an Array, which Ruby always takes as true.
   */
  function ComparisonErrors(expected: Results, reported: Results): seq<ExecutionError>
    decreases |expected|
  {
    if |expected| == 0 then []
    else
      var n := |expected| - 1;
      var errs := MeasureMismatches(expected[n], reported);
      ComparisonErrors(expected[..n], reported)
        + if Truthy(Array(|errs|)) then [MeasureError(expected[n].0, errs)] else []
  }

  /** validation_errors: the validator's warnings, then the comparison's errors. */
  function ValidationErrors(qrdaErrors: seq<string>, expected: Results, reported: Results): seq<ExecutionError>
  {
    WarningErrors(qrdaErrors) + ComparisonErrors(expected, reported)
  }

  /** The warnings are the validator's messages, one each, in order. */
  lemma {:induction false} WarningErrorsContract(qrdaErrors: seq<string>)
    ensures |WarningErrors(qrdaErrors)| == |qrdaErrors|
    ensures forall i :: 0 <= i < |qrdaErrors| ==> WarningErrors(qrdaErrors)[i] == WarningError(qrdaErrors[i])
    decreases |qrdaErrors|
  {
    if |qrdaErrors| > 0 {
      var n := |qrdaErrors| - 1;
      WarningErrorsContract(qrdaErrors[..n]);
    }
  }

  /**
   * Every expected measure gives exactly one error, whether or not anything
   * mismatched: the i-th carries the i-th measure's id and its mismatch
   * messages joined by the separator.
   */
  lemma {:induction false} ComparisonErrorsContract(expected: Results, reported: Results)
    ensures |ComparisonErrors(expected, reported)| == |expected|
    ensures forall i :: 0 <= i < |expected| ==>
      ComparisonErrors(expected, reported)[i] == MeasureError(expected[i].0, MeasureMismatches(expected[i], reported))
    decreases |expected|
  {
    if |expected| > 0 {
      var n := |expected| - 1;
      var prefix := expected[..n];
      ComparisonErrorsContract(prefix, reported);
      assert forall i :: 0 <= i < n ==> prefix[i] == expected[i];
    }
  }

  /**
   * The message of a measure's error is empty exactly when every component
   * matches, and names every component that does not.
   */
  lemma MeasureMessage(key: string, expectedResult: Hash<Value>, reportedResult: Hash<Value>)
    ensures var message := MeasureError(key, Mismatches(expectedResult, reportedResult)).message;
      && (message == "" <==> forall j :: 0 <= j < |expectedResult| ==> !Differs(expectedResult, reportedResult, j))
      && (forall j :: 0 <= j < |expectedResult| && Differs(expectedResult, reportedResult, j) ==>
            Contains(message, expectedResult[j].0))
  {
    var list := MismatchList(expectedResult, reportedResult);
    var ms := Mismatches(expectedResult, reportedResult);
    MismatchListContract(expectedResult, reportedResult);
    RenderAllContract(list);
    forall k | 0 <= k < |ms| ensures |ms[k]| > 0 {
      RenderNamesComponent(list[k]);
    }
    JoinEmptyIff(ms, Separator);
    forall j | 0 <= j < |expectedResult| && Differs(expectedResult, reportedResult, j)
      ensures Contains(Join(ms, Separator), expectedResult[j].0)
    {
      var m := MismatchAt(expectedResult, reportedResult, j);
      assert m in list;
      var k :| 0 <= k < |list| && list[k] == m;
      JoinContainsParts(ms, Separator, k);
      RenderNamesComponent(m);
      ContainsTransitive(Join(ms, Separator), ms[k], m.component);
    }
  }

  /** The inner loop of execute: `errs` for one measure. */
  method CompareMeasure(expectedResult: Hash<Value>, reportedResult: Hash<Value>) returns (errs: seq<string>)
    ensures errs == Mismatches(expectedResult, reportedResult)
  {
    errs := [];
    var j := 0;
    while j < |expectedResult|
      invariant 0 <= j <= |expectedResult|
      invariant errs == RenderAll(MismatchList(expectedResult[..j], reportedResult))
    {
      var (component, value) := expectedResult[j];
      var rv := ReportedValue(reportedResult, component);
      ghost var prefix := expectedResult[..j + 1];
      assert prefix[..j] == expectedResult[..j] && prefix[j] == (component, value);
      assert Differs(prefix, reportedResult, j) <==> rv != value;
      assert MismatchAt(prefix, reportedResult, j) == Mismatch(component, value, rv);
      if rv != value {
        assert MismatchList(prefix, reportedResult)
          == MismatchList(expectedResult[..j], reportedResult) + [Mismatch(component, value, rv)];
        RenderAllSnoc(MismatchList(expectedResult[..j], reportedResult), Mismatch(component, value, rv));
        errs := errs + [Render(Mismatch(component, value, rv))];
      } else {
        assert MismatchList(prefix, reportedResult) == MismatchList(expectedResult[..j], reportedResult) + [];
        assert MismatchList(prefix, reportedResult) == MismatchList(expectedResult[..j], reportedResult);
      }
      j := j + 1;
    }
    assert expectedResult[..j] == expectedResult;
  }

  /** execute's loops building validation_errors. */
  method BuildValidationErrors(qrdaErrors: seq<string>, expected: Results, reported: Results)
    returns (validationErrors: seq<ExecutionError>)
    ensures validationErrors == ValidationErrors(qrdaErrors, expected, reported)
  {
    validationErrors := [];
    var i := 0;
    while i < |qrdaErrors|
      invariant 0 <= i <= |qrdaErrors|
      invariant validationErrors == WarningErrors(qrdaErrors[..i])
    {
      validationErrors := validationErrors + [WarningError(qrdaErrors[i])];
      assert qrdaErrors[..i + 1][..i] == qrdaErrors[..i];
      i := i + 1;
    }
    assert qrdaErrors[..i] == qrdaErrors;
    ghost var warnings := validationErrors;
    var k := 0;
    while k < |expected|
      invariant 0 <= k <= |expected|
      invariant validationErrors == warnings + ComparisonErrors(expected[..k], reported)
    {
      var (key, expectedResult) := expected[k];
      var errs := CompareMeasure(expectedResult, ReportedFor(reported, key));
      if Truthy(Array(|errs|)) {
        validationErrors := validationErrors + [MeasureError(key, errs)];
      }
      assert expected[..k + 1][..k] == expected[..k];
      assert errs == MeasureMismatches(expected[..k + 1][k], reported);
      k := k + 1;
    }
    assert expected[..k] == expected;
  }

  // ---------------------------------------------------------------------
  // Outcome
  // ---------------------------------------------------------------------

  predicate IsError(e: ExecutionError)
  {
    e.msgType == Error
  }

  /** execution_errors.where(msg_type: :error).count */
  function ErrorCount(errs: seq<ExecutionError>): nat
  {
    |Filter(errs, IsError)|
  }

  /** te.pass when no error-kind error was recorded, te.failed otherwise. */
  function OutcomeOf(errs: seq<ExecutionError>): Outcome
  {
    if ErrorCount(errs) == 0 then Passed else Failed
  }

  /** The outcome passes exactly when no recorded error is of the error kind. */
  lemma OutcomeContract(errs: seq<ExecutionError>)
    ensures OutcomeOf(errs) == Passed <==> forall i :: 0 <= i < |errs| ==> errs[i].msgType == Warning
  {
    var f := Filter(errs, IsError);
    FilterContract(errs, IsError);
    if |f| > 0 {
      assert f[0] in f;
    }
    if exists i :: 0 <= i < |errs| && errs[i].msgType != Warning {
      var i :| 0 <= i < |errs| && errs[i].msgType != Warning;
      assert errs[i] in f;
    }
  }

  /**
   * An execution passes exactly when the test expects no measure: every
   * expected measure contributes an error-kind error, and warnings never
   * make it fail.
   */
  lemma ExecutionPassesIffNothingExpected(qrdaErrors: seq<string>, expected: Results, reported: Results)
    ensures OutcomeOf(ValidationErrors(qrdaErrors, expected, reported)) == Passed <==> |expected| == 0
    ensures OutcomeOf(WarningErrors(qrdaErrors)) == Passed
  {
    var w := WarningErrors(qrdaErrors);
    var c := ComparisonErrors(expected, reported);
    var v := ValidationErrors(qrdaErrors, expected, reported);
    WarningErrorsContract(qrdaErrors);
    ComparisonErrorsContract(expected, reported);
    OutcomeContract(v);
    OutcomeContract(w);
    if |expected| > 0 {
      assert v[|w|] == c[0];
    }
  }

  /** A measure whose numerator was expected to be 5 but is reported as 3. */
  lemma NumeratorMismatchExample()
    ensures ValidationErrors([], [("measureA", [("numerator", Value.Integer(5))])],
                                 [("measureA", [("numerator", Value.Integer(3))])])
      == [ExecutionError("expected " + "numerator" + " value " + "5" + " does not match reported value " + "3",
                         Error, None, Some("measureA"), None, {})]
  {
    var expected: Results := [("measureA", [("numerator", Value.Integer(5))])];
    var reported: Results := [("measureA", [("numerator", Value.Integer(3))])];
    var er: Hash<Value> := [("numerator", Value.Integer(5))];
    var rr: Hash<Value> := [("numerator", Value.Integer(3))];
    var message := "expected " + "numerator" + " value " + "5" + " does not match reported value " + "3";
    assert ReportedFor(reported, "measureA") == rr;
    assert Mismatches(er, rr) == [message] by {
      assert ReportedValue(rr, "numerator") == Value.Integer(3);
      assert er[..0] == [];
      assert MismatchList(er, rr) == [Mismatch("numerator", Value.Integer(5), Value.Integer(3))];
      assert ToS(Value.Integer(5)) == "5" && ToS(Value.Integer(3)) == "3";
      assert Render(Mismatch("numerator", Value.Integer(5), Value.Integer(3))) == message;
    }
    assert expected[..0] == [];
    assert ComparisonErrors(expected, reported) == [MeasureError("measureA", [message])];
  }

  // ---------------------------------------------------------------------
  // The test
  // ---------------------------------------------------------------------

  class Test {
    const id: ObjectId
    const measureIds: seq<string>
    /** PatientPopulation.min_coverage(measure_ids)[:minimal_set] for a list of measures. */
    const minimalSet: seq<string> -> seq<string>
    var state: TestState
    /** The jobs this test started, in order. */
    var effects: seq<Effect>
    var expectedResults: Results
    var executions: seq<Execution>

    /** Firing e with the hooks, as Fire specifies it. */
    method FireEvent(e: Event) returns (fired: bool)
      modifies this
      ensures var r := Fire(minimalSet(measureIds), id, old(state), e);
        fired == r.0 && state == r.1 && effects == old(effects) + r.2
      ensures expectedResults == old(expectedResults) && executions == old(executions)
      decreases EventRank(e)
    {
      var target := Transition(state, e);
      if target.None? {
        return false;
      }
      state := target.value;
      fired := true;
      if state == GeneratingRecords {
        var pIds := minimalSet(measureIds);
        effects := effects + [ClonePopulation(pIds, id)];
        var _ := FireEvent(Event.Calculate);
      } else if state == CalculatingExpectedResults {
        effects := effects + [EnqueueEvaluation(id.hex)];
      }
    }

    /** generate_population */
    method GeneratePopulation() returns (fired: bool)
      modifies this
      ensures var r := Fire(minimalSet(measureIds), id, old(state), Event.GeneratePopulation);
        fired == r.0 && state == r.1 && effects == old(effects) + r.2
      ensures expectedResults == old(expectedResults) && executions == old(executions)
    {
      fired := FireEvent(Event.GeneratePopulation);
    }

    /** calculate */
    method Calculate() returns (fired: bool)
      modifies this
      ensures var r := Fire(minimalSet(measureIds), id, old(state), Event.Calculate);
        fired == r.0 && state == r.1 && effects == old(effects) + r.2
      ensures expectedResults == old(expectedResults) && executions == old(executions)
    {
      fired := FireEvent(Event.Calculate);
    }

    /** A new test in pending with no executions, before its after_create hook. */
    constructor (id: ObjectId, measureIds: seq<string>, minimalSet: seq<string> -> seq<string>, expected: Results)
      ensures this.id == id && this.measureIds == measureIds && this.minimalSet == minimalSet
      ensures state == Pending && effects == [] && expectedResults == expected && executions == []
    {
      this.id := id;
      this.measureIds := measureIds;
      this.minimalSet := minimalSet;
      state := Pending;
      effects := [];
      expectedResults := expected;
      executions := [];
    }

    /**
     * execute(params): reported results and validator messages come from
     * the uploaded file; the artifact store hands back the ids of the saved
     * files. The new execution is appended to the test's executions.
     */
    method Execute(reported: Results, qrdaErrors: seq<string>, savedFileIds: seq<string>) returns (te: Execution)
      modifies this
      ensures fresh(te)
      ensures te.expectedResults == expectedResults && te.reportedResults == reported
      ensures te.executionErrors == ValidationErrors(qrdaErrors, expectedResults, reported)
      ensures te.fileIds == savedFileIds
      ensures te.outcome == (if |expectedResults| == 0 then Passed else Failed)
      ensures te.artifact.None? && te.sibling == null
      ensures executions == old(executions) + [te]
      ensures state == old(state) && effects == old(effects) && expectedResults == old(expectedResults)
    {
      var validationErrors := BuildValidationErrors(qrdaErrors, expectedResults, reported);
      ExecutionPassesIffNothingExpected(qrdaErrors, expectedResults, reported);
      var outcome := OutcomeOf(validationErrors);
      te := new Execution(expectedResults, reported, validationErrors);
      executions := executions + [te];
      te.fileIds := savedFileIds;
      te.outcome := outcome;
    }
  }

  /** CalculatedProductTest.create: the new test, after its after_create hook fired generate_population. */
  method Create(id: ObjectId, measureIds: seq<string>, minimalSet: seq<string> -> seq<string>, expected: Results)
    returns (t: Test)
    ensures fresh(t)
    ensures t.id == id && t.measureIds == measureIds && t.expectedResults == expected && t.executions == []
    ensures t.state == CalculatingExpectedResults
    ensures t.effects == [ClonePopulation(minimalSet(measureIds), id), EnqueueEvaluation(id.hex)]
  {
    t := new Test(id, measureIds, minimalSet, expected);
    var _ := t.GeneratePopulation();
    FireEffects(minimalSet(measureIds), id);
  }
}
