/**
 * The persisted entities the pipeline works on: execution errors, measure
 * results, the stored artifact and the test execution itself.
 */
module Records {
  import opened Wrappers
  import opened RubyLib
  import XmlDocument

  datatype MsgType = Error | Warning

  /**
   * The named scopes that select execution errors by category. Their
   * definitions are not part of this model: each error records which of
   * them it belongs to.
   */
  datatype Scope = QrdaErrors | ReportingErrors | SubmissionErrors | OnlyCmsWarnings | NonCmsWarnings

  /**
   * An ExecutionError. `fileName` is the field the by_file scope selects on
   * (nil for errors that are not about one file of the artifact).
   */
  datatype ExecutionError = ExecutionError(
    message: string,
    msgType: MsgType,
    location: Option<string>,
    measureId: Option<string>,
    fileName: Option<string>,
    scopes: set<Scope>)

  /** The errors of errs that p selects, in order. */
  function Filter(errs: seq<ExecutionError>, p: ExecutionError -> bool): (r: seq<ExecutionError>)
    decreases |errs|
  {
    if |errs| == 0 then []
    else
      var rest := Filter(errs[..|errs| - 1], p);
      var e := errs[|errs| - 1];
      if p(e) then rest + [e] else rest
  }

  /** A scope keeps exactly the errors that satisfy its condition, and never more errors than it was given. */
  lemma {:induction false} FilterContract(errs: seq<ExecutionError>, p: ExecutionError -> bool)
    ensures |Filter(errs, p)| <= |errs|
    ensures forall e :: e in Filter(errs, p) <==> e in errs && p(e)
    decreases |errs|
  {
    if |errs| > 0 {
      FilterContract(errs[..|errs| - 1], p);
      assert errs == errs[..|errs| - 1] + [errs[|errs| - 1]];
    }
  }

  /** errors.by_file(name); by_file(nil) selects the errors that have no file. */
  function ByFile(errs: seq<ExecutionError>, name: Option<string>): seq<ExecutionError>
  {
    Filter(errs, (e: ExecutionError) => e.fileName == name)
  }

  /** errors.qrda_errors, errors.only_cms_warnings, ... */
  function InScope(errs: seq<ExecutionError>, scope: Scope): seq<ExecutionError>
  {
    Filter(errs, (e: ExecutionError) => scope in e.scopes)
  }

  /** A scalar measure result component as the result extractor types it. */
  datatype Value = Nil | Integer(i: int) | Str(s: string)

  /** How a value is interpolated into a string ("#{v}"): nil renders as "". */
  function ToS(v: Value): string
  {
    match v
    case Nil => ""
    case Integer(i) => IntToS(i)
    case Str(s) => s
  }

  /** measure id => (result component name => value). */
  type Results = Hash<Hash<Value>>

  /** The outcome of an execution: not yet decided, passed or failed. */
  datatype Outcome = Incomplete | Passed | Failed

  /** The stored artifact: its file names and what get_file hands back for each. */
  datatype Artifact = Artifact(fileNames: seq<string>, files: map<string, XmlDocument.FileData>)

  /** The documents an artifact hands out already parsed. */
  function ParsedDocs(artifact: Option<Artifact>): set<XmlDocument.Document>
  {
    if artifact.None? then {}
    else set n | n in artifact.value.files && artifact.value.files[n].Parsed? :: artifact.value.files[n].doc
  }

  /** A test execution. */
  class Execution {
    var expectedResults: Results
    var reportedResults: Results
    var executionErrors: seq<ExecutionError>
    var fileIds: seq<string>
    var outcome: Outcome
    var artifact: Option<Artifact>
    var sibling: Execution?

    /** test_executions.build(expected_results:, reported_results:, execution_errors:) */
    constructor (expected: Results, reported: Results, errors: seq<ExecutionError>)
      ensures expectedResults == expected && reportedResults == reported
      ensures executionErrors == errors
      ensures fileIds == [] && outcome == Incomplete && artifact.None? && sibling == null
    {
      expectedResults := expected;
      reportedResults := reported;
      executionErrors := errors;
      fileIds := [];
      outcome := Incomplete;
      artifact := None;
      sibling := null;
    }
  }
}
