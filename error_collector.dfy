/**
 * Cypress::ErrorCollector: the errors of an execution (and of its sibling
 * execution) arranged for display: the messages of errors that are about
 * no file, and for every file of the artifact that has errors, five
 * buckets correlated against that file's document.
 */
module ErrorCollector {
  import opened Wrappers
  import opened Faults
  import opened RubyLib
  import opened XmlDocument
  import opened Records
  import opened Correlator
  import Uuid

  /** The keys of a file's error hash. */
  datatype BucketKey = QrdaKey | ReportingKey | SubmissionKey | CmsWarningsKey | OtherWarningsKey

  /** The string each key is in the Ruby hash. */
  function KeyName(k: BucketKey): (r: string)
    ensures |r| > 0
  {
    match k
    case QrdaKey => "QRDA"
    case ReportingKey => "Reporting"
    case SubmissionKey => "Submission"
    case CmsWarningsKey => "CMS Warnings"
    case OtherWarningsKey => "Other Warnings"
  }

  /** Distinct keys are distinct strings, so the hash has five entries. */
  lemma KeyNameInjective(k1: BucketKey, k2: BucketKey)
    requires k1 != k2
    ensures KeyName(k1) != KeyName(k2)
  {
  }

  /** The keys of every file's error hash. */
  const BucketKeys: set<BucketKey> := {QrdaKey, ReportingKey, SubmissionKey, CmsWarningsKey, OtherWarningsKey}

  /**
   * What a bucket of a file's error hash holds: the integer 0 (error_hash's
   * early return), the placeholder `{execution_errors: []}`, or
   * `{doc:, execution_errors:, error_map:, error_attributes:}`.
   */
  datatype Bucket =
    | Zero
    | Placeholder
    | Correlated(doc: Document, executionErrors: seq<ExecutionError>,
                 errorMap: map<string, string>, errorAttributes: seq<Node>)

  type FileErrorHash = map<BucketKey, Bucket>

  // ---------------------------------------------------------------------
  // error_hash
  // ---------------------------------------------------------------------

  /** A bucket, the document's ids and generator after building it, and what it raised. */
  datatype BucketRun = BucketRun(bucket: Bucket, st: IdState, fault: Option<Fault>)

  /**
   * error_hash(doc, file_errors) from the ids and generator st. Its guard
   * `return 0 unless file_errors.count` tests an Integer, which Ruby
   * always takes as true, so it never returns 0.
   */
  function ErrorHashSpec(doc: Document, st: IdState, fileErrors: seq<ExecutionError>): BucketRun
  {
    if !Truthy(RubyValue.Integer(|fileErrors|)) then BucketRun(Zero, st, None)
    else
      var run := Correlate(doc.shape, st, Locations(fileErrors));
      BucketRun(Correlated(doc, fileErrors, run.acc.errorMap, run.acc.attrs), run.acc.st, run.fault)
  }

  /** error_hash(doc, file_errors) */
  method ErrorHash(doc: Document, fileErrors: seq<ExecutionError>, gen: Uuid.Generator)
    returns (r: Result<Bucket, Fault>)
    modifies doc, gen
    ensures var spec := ErrorHashSpec(doc, IdState(old(doc.errorIds), old(gen.count)), fileErrors);
      && doc.errorIds == spec.st.ids && gen.count == spec.st.minted
      && r == if spec.fault.Some? then Err(spec.fault.value) else Ok(spec.bucket)
  {
    if !Truthy(RubyValue.Integer(|fileErrors|)) {
      return Ok(Zero);
    }
    var m := MatchXmlLocationsToErrorIds(doc, fileErrors, gen);
    if m.Err? {
      return Err(m.error);
    }
    var (errorMap, errorAttributes) := m.value;
    r := Ok(Correlated(doc, fileErrors, errorMap, errorAttributes));
  }

  /** The location resolves to a document node whose document has no root element. */
  predicate MissingRootAt(shape: Shape, location: string)
  {
    Resolve(shape, location).Some? && Target(shape, location).None?
  }

  /** The location of some error of errs hits a missing root. */
  predicate HitsMissingRoot(shape: Shape, errs: seq<ExecutionError>)
    decreases |errs|
  {
    if |errs| == 0 then false
    else (
      var e := errs[|errs| - 1];
      HitsMissingRoot(shape, errs[..|errs| - 1]) || (e.location.Some? && MissingRootAt(shape, e.location.value)))
  }

  lemma {:induction false} HitsMissingRootIff(shape: Shape, errs: seq<ExecutionError>)
    ensures HitsMissingRoot(shape, errs) <==>
      exists e :: e in errs && e.location.Some? && MissingRootAt(shape, e.location.value)
    decreases |errs|
  {
    if |errs| > 0 {
      var p := errs[..|errs| - 1];
      HitsMissingRootIff(shape, p);
      assert errs == p + [errs[|errs| - 1]];
    }
  }

  /** error_hash raises exactly when a location hits a missing root, and then NoMethodError for `[]`. */
  lemma ErrorHashFaultIff(doc: Document, st: IdState, fileErrors: seq<ExecutionError>)
    ensures var b := ErrorHashSpec(doc, st, fileErrors);
      && (b.fault.Some? <==> HitsMissingRoot(doc.shape, fileErrors))
      && (b.fault.Some? ==> b.fault == Some(NilReceiver("[]")))
  {
    var locations := Locations(fileErrors);
    CorrelateFailsOnlyOnRootless(doc.shape, Acc(map[], [], st), locations);
    HitsMissingRootIff(doc.shape, fileErrors);
    if HitsMissingRoot(doc.shape, fileErrors) {
      var e :| e in fileErrors && e.location.Some? && MissingRootAt(doc.shape, e.location.value);
      assert e.location.value in locations;
    }
    if Correlate(doc.shape, st, locations).fault.Some? {
      var k :| k in locations && Resolve(doc.shape, k).Some? && Target(doc.shape, k).None?;
      var e :| e in fileErrors && e.location == Some(k);
      assert MissingRootAt(doc.shape, e.location.value);
    }
  }

  // ---------------------------------------------------------------------
  // create_file_error_hash
  // ---------------------------------------------------------------------

  /** The file's error hash being built, the ids and generator, and what was raised. */
  datatype FileRun = FileRun(hash: FileErrorHash, st: IdState, fault: Option<Fault>)

  /**
   * One assignment `file_error_hash[key] = ...`: the placeholder when
   * correlate is false, otherwise error_hash(doc, errs).
   */
  function AddBucket(doc: Document, fr: FileRun, key: BucketKey, errs: seq<ExecutionError>, correlate: bool): FileRun
  {
    if fr.fault.Some? then fr
    else if !correlate then FileRun(fr.hash[key := Placeholder], fr.st, None)
    else
      var b := ErrorHashSpec(doc, fr.st, errs);
      FileRun(fr.hash[key := b.bucket], b.st, b.fault)
  }

  /** create_file_error_hash(doc, all_errs, related_errs) from the ids and generator st. */
  function FileHashSpec(doc: Document, st: IdState, allErrs: seq<ExecutionError>,
                        relatedErrs: seq<ExecutionError>): FileRun
  {
    var related := |relatedErrs| > 0;
    var f0 := FileRun(map[], st, None);
    var f1 := AddBucket(doc, f0, QrdaKey, InScope(allErrs, QrdaErrors), true);
    var f2 := AddBucket(doc, f1, ReportingKey, InScope(allErrs, ReportingErrors), true);
    var f3 := AddBucket(doc, f2, SubmissionKey, InScope(allErrs, SubmissionErrors), true);
    var f4 := AddBucket(doc, f3, CmsWarningsKey, InScope(relatedErrs, OnlyCmsWarnings), related);
    AddBucket(doc, f4, OtherWarningsKey, InScope(relatedErrs, NonCmsWarnings), related)
  }

  /** create_file_error_hash(doc, all_errs, related_errs) */
  method CreateFileErrorHash(doc: Document, allErrs: seq<ExecutionError>, relatedErrs: seq<ExecutionError>,
                             gen: Uuid.Generator)
    returns (r: Result<FileErrorHash, Fault>)
    modifies doc, gen
    ensures var spec := FileHashSpec(doc, IdState(old(doc.errorIds), old(gen.count)), allErrs, relatedErrs);
      && doc.errorIds == spec.st.ids && gen.count == spec.st.minted
      && r == if spec.fault.Some? then Err(spec.fault.value) else Ok(spec.hash)
  {
    var fileErrorHash: FileErrorHash := map[];
    var b := ErrorHash(doc, InScope(allErrs, QrdaErrors), gen);
    if b.Err? { return Err(b.error); }
    fileErrorHash := fileErrorHash[QrdaKey := b.value];
    b := ErrorHash(doc, InScope(allErrs, ReportingErrors), gen);
    if b.Err? { return Err(b.error); }
    fileErrorHash := fileErrorHash[ReportingKey := b.value];
    b := ErrorHash(doc, InScope(allErrs, SubmissionErrors), gen);
    if b.Err? { return Err(b.error); }
    fileErrorHash := fileErrorHash[SubmissionKey := b.value];
    if |relatedErrs| > 0 {
      b := ErrorHash(doc, InScope(relatedErrs, OnlyCmsWarnings), gen);
      if b.Err? { return Err(b.error); }
    } else {
      b := Ok(Placeholder);
    }
    fileErrorHash := fileErrorHash[CmsWarningsKey := b.value];
    if |relatedErrs| > 0 {
      b := ErrorHash(doc, InScope(relatedErrs, NonCmsWarnings), gen);
      if b.Err? { return Err(b.error); }
    } else {
      b := Ok(Placeholder);
    }
    fileErrorHash := fileErrorHash[OtherWarningsKey := b.value];
    r := Ok(fileErrorHash);
  }

  /** create_file_error_hash raises: one of the buckets it correlates hits a missing root. */
  predicate FileHashRaises(shape: Shape, allErrs: seq<ExecutionError>, relatedErrs: seq<ExecutionError>)
  {
    || HitsMissingRoot(shape, InScope(allErrs, QrdaErrors))
    || HitsMissingRoot(shape, InScope(allErrs, ReportingErrors))
    || HitsMissingRoot(shape, InScope(allErrs, SubmissionErrors))
    || (|relatedErrs| > 0 && HitsMissingRoot(shape, InScope(relatedErrs, OnlyCmsWarnings)))
    || (|relatedErrs| > 0 && HitsMissingRoot(shape, InScope(relatedErrs, NonCmsWarnings)))
  }

  /**
   * create_file_error_hash raises exactly when a bucket it correlates hits
   * a missing root (the placeholders correlate nothing), whatever the ids
   * already on the document, and what it raises is NoMethodError for `[]`.
   */
  lemma FileHashFaultIff(doc: Document, st: IdState, allErrs: seq<ExecutionError>, relatedErrs: seq<ExecutionError>)
    ensures var f := FileHashSpec(doc, st, allErrs, relatedErrs);
      && (f.fault.Some? <==> FileHashRaises(doc.shape, allErrs, relatedErrs))
      && (f.fault.Some? ==> f.fault == Some(NilReceiver("[]")))
  {
    var related := |relatedErrs| > 0;
    var f0 := FileRun(map[], st, None);
    var f1 := AddBucket(doc, f0, QrdaKey, InScope(allErrs, QrdaErrors), true);
    var f2 := AddBucket(doc, f1, ReportingKey, InScope(allErrs, ReportingErrors), true);
    var f3 := AddBucket(doc, f2, SubmissionKey, InScope(allErrs, SubmissionErrors), true);
    var f4 := AddBucket(doc, f3, CmsWarningsKey, InScope(relatedErrs, OnlyCmsWarnings), related);
    ErrorHashFaultIff(doc, f0.st, InScope(allErrs, QrdaErrors));
    ErrorHashFaultIff(doc, f1.st, InScope(allErrs, ReportingErrors));
    ErrorHashFaultIff(doc, f2.st, InScope(allErrs, SubmissionErrors));
    ErrorHashFaultIff(doc, f3.st, InScope(relatedErrs, OnlyCmsWarnings));
    ErrorHashFaultIff(doc, f4.st, InScope(relatedErrs, NonCmsWarnings));
  }

  /** A file's error hash has exactly the five keys. */
  lemma FileHashKeys(doc: Document, st: IdState, allErrs: seq<ExecutionError>, relatedErrs: seq<ExecutionError>)
    requires FileHashSpec(doc, st, allErrs, relatedErrs).fault.None?
    ensures FileHashSpec(doc, st, allErrs, relatedErrs).hash.Keys == BucketKeys
  {
    var related := |relatedErrs| > 0;
    var f0 := FileRun(map[], st, None);
    var f1 := AddBucket(doc, f0, QrdaKey, InScope(allErrs, QrdaErrors), true);
    var f2 := AddBucket(doc, f1, ReportingKey, InScope(allErrs, ReportingErrors), true);
    var f3 := AddBucket(doc, f2, SubmissionKey, InScope(allErrs, SubmissionErrors), true);
    var f4 := AddBucket(doc, f3, CmsWarningsKey, InScope(relatedErrs, OnlyCmsWarnings), related);
    var f5 := AddBucket(doc, f4, OtherWarningsKey, InScope(relatedErrs, NonCmsWarnings), related);
    assert f5.fault.None? && f4.fault.None? && f3.fault.None? && f2.fault.None? && f1.fault.None?;
    AddBucketContract(doc, f0, QrdaKey, InScope(allErrs, QrdaErrors), true);
    AddBucketContract(doc, f1, ReportingKey, InScope(allErrs, ReportingErrors), true);
    AddBucketContract(doc, f2, SubmissionKey, InScope(allErrs, SubmissionErrors), true);
    AddBucketContract(doc, f3, CmsWarningsKey, InScope(relatedErrs, OnlyCmsWarnings), related);
    AddBucketContract(doc, f4, OtherWarningsKey, InScope(relatedErrs, NonCmsWarnings), related);
  }

  /**
   * QRDA, Reporting and Submission always hold the correlation of their
   * scope of the file's errors on the file's document: error_hash's guard
   * never fires.
   */
  lemma FileHashErrorBuckets(doc: Document, st: IdState, allErrs: seq<ExecutionError>, relatedErrs: seq<ExecutionError>)
    requires FileHashSpec(doc, st, allErrs, relatedErrs).fault.None?
    ensures var h := FileHashSpec(doc, st, allErrs, relatedErrs).hash;
      && QrdaKey in h && ReportingKey in h && SubmissionKey in h
      && h[QrdaKey].Correlated? && h[QrdaKey].doc == doc
      && h[QrdaKey].executionErrors == InScope(allErrs, QrdaErrors)
      && h[ReportingKey].Correlated? && h[ReportingKey].doc == doc
      && h[ReportingKey].executionErrors == InScope(allErrs, ReportingErrors)
      && h[SubmissionKey].Correlated? && h[SubmissionKey].doc == doc
      && h[SubmissionKey].executionErrors == InScope(allErrs, SubmissionErrors)
  {
    var related := |relatedErrs| > 0;
    var f0 := FileRun(map[], st, None);
    var f1 := AddBucket(doc, f0, QrdaKey, InScope(allErrs, QrdaErrors), true);
    var f2 := AddBucket(doc, f1, ReportingKey, InScope(allErrs, ReportingErrors), true);
    var f3 := AddBucket(doc, f2, SubmissionKey, InScope(allErrs, SubmissionErrors), true);
    var f4 := AddBucket(doc, f3, CmsWarningsKey, InScope(relatedErrs, OnlyCmsWarnings), related);
    var f5 := AddBucket(doc, f4, OtherWarningsKey, InScope(relatedErrs, NonCmsWarnings), related);
    assert f5.fault.None? && f4.fault.None? && f3.fault.None? && f2.fault.None? && f1.fault.None?;
    AddBucketContract(doc, f0, QrdaKey, InScope(allErrs, QrdaErrors), true);
    AddBucketContract(doc, f1, ReportingKey, InScope(allErrs, ReportingErrors), true);
    AddBucketContract(doc, f2, SubmissionKey, InScope(allErrs, SubmissionErrors), true);
    AddBucketContract(doc, f3, CmsWarningsKey, InScope(relatedErrs, OnlyCmsWarnings), related);
    AddBucketContract(doc, f4, OtherWarningsKey, InScope(relatedErrs, NonCmsWarnings), related);
  }

  /**
   * The two warning buckets are the placeholder exactly when the sibling
   * has no errors for the file, and otherwise hold the correlation of
   * their scope of the sibling's errors on the file's document.
   */
  lemma FileHashWarningBuckets(doc: Document, st: IdState, allErrs: seq<ExecutionError>, relatedErrs: seq<ExecutionError>)
    requires FileHashSpec(doc, st, allErrs, relatedErrs).fault.None?
    ensures var h := FileHashSpec(doc, st, allErrs, relatedErrs).hash;
      && CmsWarningsKey in h && OtherWarningsKey in h
      && (h[CmsWarningsKey] == Placeholder <==> |relatedErrs| == 0)
      && (h[OtherWarningsKey] == Placeholder <==> |relatedErrs| == 0)
      && (|relatedErrs| > 0 ==>
            && h[CmsWarningsKey].Correlated? && h[CmsWarningsKey].doc == doc
            && h[CmsWarningsKey].executionErrors == InScope(relatedErrs, OnlyCmsWarnings)
            && h[OtherWarningsKey].Correlated? && h[OtherWarningsKey].doc == doc
            && h[OtherWarningsKey].executionErrors == InScope(relatedErrs, NonCmsWarnings))
  {
    var related := |relatedErrs| > 0;
    var f0 := FileRun(map[], st, None);
    var f1 := AddBucket(doc, f0, QrdaKey, InScope(allErrs, QrdaErrors), true);
    var f2 := AddBucket(doc, f1, ReportingKey, InScope(allErrs, ReportingErrors), true);
    var f3 := AddBucket(doc, f2, SubmissionKey, InScope(allErrs, SubmissionErrors), true);
    var f4 := AddBucket(doc, f3, CmsWarningsKey, InScope(relatedErrs, OnlyCmsWarnings), related);
    var f5 := AddBucket(doc, f4, OtherWarningsKey, InScope(relatedErrs, NonCmsWarnings), related);
    assert f5.fault.None? && f4.fault.None? && f3.fault.None? && f2.fault.None? && f1.fault.None?;
    AddBucketContract(doc, f0, QrdaKey, InScope(allErrs, QrdaErrors), true);
    AddBucketContract(doc, f1, ReportingKey, InScope(allErrs, ReportingErrors), true);
    AddBucketContract(doc, f2, SubmissionKey, InScope(allErrs, SubmissionErrors), true);
    AddBucketContract(doc, f3, CmsWarningsKey, InScope(relatedErrs, OnlyCmsWarnings), related);
    AddBucketContract(doc, f4, OtherWarningsKey, InScope(relatedErrs, NonCmsWarnings), related);
  }

  /**
   * One assignment of create_file_error_hash: the key is added and holds the
   * placeholder or the correlation of errs on doc; other keys keep their bucket.
   */
  lemma AddBucketContract(doc: Document, fr: FileRun, key: BucketKey, errs: seq<ExecutionError>, correlate: bool)
    requires fr.fault.None?
    ensures var r := AddBucket(doc, fr, key, errs, correlate);
      r.fault.None? ==>
        && r.hash.Keys == fr.hash.Keys + {key}
        && (forall k :: k in fr.hash && k != key ==> r.hash[k] == fr.hash[k])
        && (!correlate ==> r.hash[key] == Placeholder)
        && (correlate ==> r.hash[key].Correlated? && r.hash[key].doc == doc
                          && r.hash[key].executionErrors == errs)
  {
  }

  /** Every location a bucket maps resolves and is mapped to the id its target carries in ids. */
  predicate Agrees(shape: Shape, hash: FileErrorHash, ids: map<Node, string>)
  {
    forall b :: b in hash && hash[b].Correlated? ==>
      forall k :: k in hash[b].errorMap ==>
        Resolve(shape, k).Some? && MapsToTarget(shape, hash[b].errorMap, ids, k)
  }

  /** Adding a bucket keeps the earlier buckets' ids on the document and agrees with them. */
  lemma AddBucketAgrees(doc: Document, fr: FileRun, key: BucketKey, errs: seq<ExecutionError>, correlate: bool)
    requires fr.fault.None? && Agrees(doc.shape, fr.hash, fr.st.ids)
    ensures var r := AddBucket(doc, fr, key, errs, correlate);
      r.fault.None? ==> Extends(fr.st.ids, r.st.ids) && Agrees(doc.shape, r.hash, r.st.ids)
  {
    if correlate {
      var a0 := Acc(map[], [], fr.st);
      var locs := Locations(errs);
      CorrelateKeepsIds(doc.shape, a0, locs);
      CorrelateMapsResolvedLocations(doc.shape, a0, locs);
    }
  }

  /**
   * The five buckets of a file share its document, so two locations whose
   * targets are one node are mapped to the same id even when they are in
   * different buckets.
   */
  lemma FileHashSharesIds(doc: Document, st: IdState, allErrs: seq<ExecutionError>, relatedErrs: seq<ExecutionError>,
                          b1: BucketKey, b2: BucketKey, k1: string, k2: string)
    requires FileHashSpec(doc, st, allErrs, relatedErrs).fault.None?
    requires var h := FileHashSpec(doc, st, allErrs, relatedErrs).hash;
      && b1 in h && h[b1].Correlated? && k1 in h[b1].errorMap
      && b2 in h && h[b2].Correlated? && k2 in h[b2].errorMap
    requires Resolve(doc.shape, k1).Some? && Resolve(doc.shape, k2).Some?
    requires Target(doc.shape, k1) == Target(doc.shape, k2)
    ensures var h := FileHashSpec(doc, st, allErrs, relatedErrs).hash;
      h[b1].errorMap[k1] == h[b2].errorMap[k2]
  {
    var related := |relatedErrs| > 0;
    var f0 := FileRun(map[], st, None);
    var f1 := AddBucket(doc, f0, QrdaKey, InScope(allErrs, QrdaErrors), true);
    var f2 := AddBucket(doc, f1, ReportingKey, InScope(allErrs, ReportingErrors), true);
    var f3 := AddBucket(doc, f2, SubmissionKey, InScope(allErrs, SubmissionErrors), true);
    var f4 := AddBucket(doc, f3, CmsWarningsKey, InScope(relatedErrs, OnlyCmsWarnings), related);
    AddBucketAgrees(doc, f0, QrdaKey, InScope(allErrs, QrdaErrors), true);
    AddBucketAgrees(doc, f1, ReportingKey, InScope(allErrs, ReportingErrors), true);
    AddBucketAgrees(doc, f2, SubmissionKey, InScope(allErrs, SubmissionErrors), true);
    AddBucketAgrees(doc, f3, CmsWarningsKey, InScope(relatedErrs, OnlyCmsWarnings), related);
    AddBucketAgrees(doc, f4, OtherWarningsKey, InScope(relatedErrs, NonCmsWarnings), related);
  }

  // ---------------------------------------------------------------------
  // get_nonfile_errors
  // ---------------------------------------------------------------------

  /** errors.map(&:message) */
  function Messages(errs: seq<ExecutionError>): (r: seq<string>)
    ensures |r| == |errs|
    ensures forall i :: 0 <= i < |errs| ==> r[i] == errs[i].message
    decreases |errs|
  {
    if |errs| == 0 then [] else Messages(errs[..|errs| - 1]) + [errs[|errs| - 1].message]
  }

  /** The errors of a sibling execution, when there is one. */
  function SiblingErrors(execution: Execution): Option<seq<ExecutionError>>
    reads execution, execution.sibling
  {
    if execution.sibling == null then None else Some(execution.sibling.executionErrors)
  }

  /** get_nonfile_errors: the messages of the errors that have no file, then the sibling's, without repetitions. */
  function NonfileErrors(errs: seq<ExecutionError>, siblingErrs: Option<seq<ExecutionError>>): seq<string>
  {
    var messages1 := Messages(ByFile(errs, None));
    var messages2 := if siblingErrs.Some? then Messages(ByFile(siblingErrs.value, None)) else [];
    Uniq(messages1 + messages2)
  }

  /** m is the message of an error of errs that has no file. */
  ghost predicate NonfileMessage(errs: seq<ExecutionError>, m: string)
  {
    exists e :: e in errs && e.fileName.None? && e.message == m
  }

  lemma MessagesOfNonfile(errs: seq<ExecutionError>, m: string)
    ensures m in Messages(ByFile(errs, None)) <==> NonfileMessage(errs, m)
  {
    var ms := Messages(ByFile(errs, None));
    FilterContract(errs, (e: ExecutionError) => e.fileName == None);
    if m in ms {
      var i :| 0 <= i < |ms| && ms[i] == m;
      assert ByFile(errs, None)[i] in ByFile(errs, None);
    }
    if NonfileMessage(errs, m) {
      var e :| e in errs && e.fileName.None? && e.message == m;
      assert e in ByFile(errs, None);
      var i :| 0 <= i < |ByFile(errs, None)| && ByFile(errs, None)[i] == e;
      assert ms[i] == m;
    }
  }

  /**
   * The non-file errors are the messages of the errors without a file, of
   * the execution and, if there is one, of its sibling; each once; the
   * execution's own come first, in their order of first occurrence.
   */
  lemma NonfileErrorsContract(errs: seq<ExecutionError>, siblingErrs: Option<seq<ExecutionError>>)
    ensures var r := NonfileErrors(errs, siblingErrs);
      && NoDuplicates(r)
      && (forall m :: m in r <==>
            NonfileMessage(errs, m) || (siblingErrs.Some? && NonfileMessage(siblingErrs.value, m)))
      && IsPrefix(Uniq(Messages(ByFile(errs, None))), r)
  {
    var messages1 := Messages(ByFile(errs, None));
    var messages2 := if siblingErrs.Some? then Messages(ByFile(siblingErrs.value, None)) else [];
    var s := messages1 + messages2;
    var r := Uniq(s);
    forall m ensures m in r <==> NonfileMessage(errs, m) || (siblingErrs.Some? && NonfileMessage(siblingErrs.value, m)) {
      MessagesOfNonfile(errs, m);
      if siblingErrs.Some? {
        MessagesOfNonfile(siblingErrs.value, m);
      }
      if m in r {
        var i :| 0 <= i < |r| && r[i] == m;
      }
      if m in s {
        var i :| 0 <= i < |s| && s[i] == m;
      }
    }
    UniqPrefix(messages1, messages2);
  }

  // ---------------------------------------------------------------------
  // collected_errors
  // ---------------------------------------------------------------------

  /** {nonfile:, files:} and, after a rescue, exception: */
  datatype Collected = Collected(nonfile: seq<string>, files: Hash<FileErrorHash>, exception: Option<Fault>)

  /** The sibling's errors for the file: `related_errs`. */
  function RelatedErrors(siblingErrs: Option<seq<ExecutionError>>, name: string): seq<ExecutionError>
  {
    if siblingErrs.Some? then ByFile(siblingErrs.value, Some(name)) else []
  }

  /** (all_errs.count + related_errs.count).positive? */
  predicate HasErrors(errs: seq<ExecutionError>, siblingErrs: Option<seq<ExecutionError>>, name: string)
  {
    |ByFile(errs, Some(name))| + |RelatedErrors(siblingErrs, name)| > 0
  }

  /** The shape of the document data_to_doc makes of what get_file hands back. */
  function ShapeOf(data: FileData): Shape
  {
    match data
    case Text(text) => text.shape
    case Parsed(doc) => doc.shape
  }

  /**
   * What the loop body raises for the file, if anything: get_file raises
   * for a file the artifact does not hold, create_file_error_hash for a
   * location that hits a missing root.
   */
  function FileFailure(artifact: Artifact, name: string, allErrs: seq<ExecutionError>,
                       relatedErrs: seq<ExecutionError>): Option<Fault>
  {
    if name !in artifact.files then Some(FileUnavailable(name))
    else if FileHashRaises(ShapeOf(artifact.files[name]), allErrs, relatedErrs) then Some(NilReceiver("[]"))
    else None
  }

  /** The file has errors and the loop body raises for it. */
  predicate Fails(artifact: Artifact, errs: seq<ExecutionError>, siblingErrs: Option<seq<ExecutionError>>, name: string)
  {
    && HasErrors(errs, siblingErrs, name)
    && FileFailure(artifact, name, ByFile(errs, Some(name)), RelatedErrors(siblingErrs, name)).Some?
  }

  /** The names, in order, whose files have errors of their own or of the sibling. */
  function FilesWithErrors(errs: seq<ExecutionError>, siblingErrs: Option<seq<ExecutionError>>,
                           names: seq<string>): seq<string>
    decreases |names|
  {
    if |names| == 0 then []
    else
      var rest := FilesWithErrors(errs, siblingErrs, names[..|names| - 1]);
      var n := names[|names| - 1];
      if HasErrors(errs, siblingErrs, n) then rest + [n] else rest
  }

  /** A name is kept exactly when it is among the names and has errors. */
  lemma {:induction false} FilesWithErrorsContract(errs: seq<ExecutionError>, siblingErrs: Option<seq<ExecutionError>>,
                                                   names: seq<string>)
    ensures forall n :: n in FilesWithErrors(errs, siblingErrs, names) <==> n in names && HasErrors(errs, siblingErrs, n)
    decreases |names|
  {
    if |names| > 0 {
      FilesWithErrorsContract(errs, siblingErrs, names[..|names| - 1]);
      assert names == names[..|names| - 1] + [names[|names| - 1]];
    }
  }

  /** The loop over names: the exception that stops it, if any. */
  function FirstFailure(artifact: Artifact, errs: seq<ExecutionError>, siblingErrs: Option<seq<ExecutionError>>,
                        names: seq<string>): Option<Fault>
    decreases |names|
  {
    if |names| == 0 then None
    else
      var prev := FirstFailure(artifact, errs, siblingErrs, names[..|names| - 1]);
      var n := names[|names| - 1];
      if prev.Some? || !HasErrors(errs, siblingErrs, n) then prev
      else FileFailure(artifact, n, ByFile(errs, Some(n)), RelatedErrors(siblingErrs, n))
  }

  /**
   * The loop raises exactly when some file with errors fails, and what it
   * raises is the failure of the first such file in the artifact's order.
   */
  lemma {:induction false} FirstFailureContract(artifact: Artifact, errs: seq<ExecutionError>,
                                                siblingErrs: Option<seq<ExecutionError>>, names: seq<string>)
    ensures var f := FirstFailure(artifact, errs, siblingErrs, names);
      && (f.Some? <==> exists i :: 0 <= i < |names| && Fails(artifact, errs, siblingErrs, names[i]))
      && (f.Some? ==>
            exists i :: (0 <= i < |names| && Fails(artifact, errs, siblingErrs, names[i])
              && f == FileFailure(artifact, names[i], ByFile(errs, Some(names[i])), RelatedErrors(siblingErrs, names[i]))
              && forall j :: 0 <= j < i ==> !Fails(artifact, errs, siblingErrs, names[j])))
    decreases |names|
  {
    if |names| > 0 {
      var n := |names| - 1;
      var p := names[..n];
      FirstFailureContract(artifact, errs, siblingErrs, p);
      if FirstFailure(artifact, errs, siblingErrs, p).Some? {
        var i :| 0 <= i < |p| && Fails(artifact, errs, siblingErrs, p[i])
          && FirstFailure(artifact, errs, siblingErrs, p)
             == FileFailure(artifact, p[i], ByFile(errs, Some(p[i])), RelatedErrors(siblingErrs, p[i]))
          && forall j :: 0 <= j < i ==> !Fails(artifact, errs, siblingErrs, p[j]);
        assert names[i] == p[i];
        forall j | 0 <= j < i ensures !Fails(artifact, errs, siblingErrs, names[j]) {
          assert names[j] == p[j];
        }
      } else {
        forall j | 0 <= j < n ensures !Fails(artifact, errs, siblingErrs, names[j]) {
          assert names[j] == p[j];
        }
        if !Fails(artifact, errs, siblingErrs, names[n]) {
          forall j | 0 <= j < |names| ensures !Fails(artifact, errs, siblingErrs, names[j]) {
          }
        }
      }
    }
  }

  /** Once a prefix of the names raises, the rest of the loop does not run. */
  lemma {:induction false} FirstFailureStops(artifact: Artifact, errs: seq<ExecutionError>,
                                             siblingErrs: Option<seq<ExecutionError>>, names: seq<string>, i: nat)
    requires i <= |names|
    requires FirstFailure(artifact, errs, siblingErrs, names[..i]).Some?
    ensures FirstFailure(artifact, errs, siblingErrs, names) == FirstFailure(artifact, errs, siblingErrs, names[..i])
    decreases |names|
  {
    if i < |names| {
      var p := names[..|names| - 1];
      assert p[..i] == names[..i];
      FirstFailureStops(artifact, errs, siblingErrs, p, i);
    } else {
      assert names[..i] == names;
    }
  }

  /**
   * The body of collected_errors' loop for one file with errors: get_file
   * (which raises for a file the artifact does not hold), data_to_doc and
   * create_file_error_hash. doc is the document the file's hash is built
   * on: the one the artifact hands out parsed, or a new one parsed from
   * its text.
   */
  method FileErrors(artifact: Artifact, name: string, allErrs: seq<ExecutionError>,
                    relatedErrs: seq<ExecutionError>, gen: Uuid.Generator)
    returns (r: Result<FileErrorHash, Fault>, ghost doc: Document?)
    modifies gen, ParsedDocs(Some(artifact))
    ensures r.Err? <==> FileFailure(artifact, name, allErrs, relatedErrs).Some?
    ensures r.Err? ==> r.error == FileFailure(artifact, name, allErrs, relatedErrs).value
    ensures r.Ok? ==> r.value.Keys == BucketKeys
    ensures name in artifact.files ==>
      var data := artifact.files[name];
      && doc != null && doc.shape == ShapeOf(data)
      && (data.Parsed? ==> doc == data.doc)
      && (data.Text? ==> fresh(doc))
      && var ids0 := if data.Parsed? then old(data.doc.errorIds) else data.text.errorIds;
         var spec := FileHashSpec(doc, IdState(ids0, old(gen.count)), allErrs, relatedErrs);
         && doc.errorIds == spec.st.ids && gen.count == spec.st.minted
         && r == if spec.fault.Some? then Err(spec.fault.value) else Ok(spec.hash)
  {
    doc := null;
    if name !in artifact.files {
      return Err(FileUnavailable(name)), doc;
    }
    var data := artifact.files[name];
    assert data.Parsed? ==> data.doc in ParsedDocs(Some(artifact));
    var d := DataToDoc(data);
    doc := d;
    ghost var st := IdState(d.errorIds, gen.count);
    r := CreateFileErrorHash(d, allErrs, relatedErrs, gen);
    FileHashFaultIff(d, st, allErrs, relatedErrs);
    if r.Ok? {
      FileHashKeys(d, st, allErrs, relatedErrs);
    }
  }

  /**
   * collected_errors(execution). Whatever is raised is rescued into
   * `{nonfile: [], files: {}, exception: e}`: `file_names` on a nil
   * artifact, or the first failure of the loop over the file names.
   * Otherwise the files of the artifact with errors of their own or of the
   * sibling are the keys of `files`, in the artifact's order, each with
   * its five buckets.
   */
  method CollectedErrors(execution: Execution, gen: Uuid.Generator) returns (r: Collected)
    modifies gen, ParsedDocs(execution.artifact)
    ensures r.exception == if execution.artifact.None? then Some(NilReceiver("file_names"))
      else FirstFailure(execution.artifact.value, execution.executionErrors, SiblingErrors(execution),
                        execution.artifact.value.fileNames)
    ensures r.exception.Some? ==> r.nonfile == [] && r.files == []
    ensures r.exception.None? ==>
      && execution.artifact.Some?
      && r.nonfile == NonfileErrors(execution.executionErrors, SiblingErrors(execution))
      && Names(r.files) == Uniq(FilesWithErrors(execution.executionErrors, SiblingErrors(execution),
                                                execution.artifact.value.fileNames))
      && (forall name :: name in Keys(r.files) <==>
            name in execution.artifact.value.fileNames
            && HasErrors(execution.executionErrors, SiblingErrors(execution), name))
      && (forall name :: name in Keys(r.files) ==> Get(r.files, name).Some? && Get(r.files, name).value.Keys == BucketKeys)
  {
    var errs := execution.executionErrors;
    var siblingErrs := SiblingErrors(execution);
    var nonfile := NonfileErrors(errs, siblingErrs);
    if execution.artifact.None? {
      return Collected([], [], Some(NilReceiver("file_names")));
    }
    var files := CollectFiles(execution.artifact.value, errs, siblingErrs, gen);
    if files.Err? {
      return Collected([], [], Some(files.error));
    }
    r := Collected(nonfile, files.value, None);
  }

  /** No file among the names p raised. */
  ghost predicate NoneFails(artifact: Artifact, errs: seq<ExecutionError>, siblingErrs: Option<seq<ExecutionError>>,
                            p: seq<string>)
  {
    forall j :: 0 <= j < |p| ==> !Fails(artifact, errs, siblingErrs, p[j])
  }

  /** A file that does not raise extends the names on which nothing raised. */
  lemma NoneFailsNext(artifact: Artifact, errs: seq<ExecutionError>, siblingErrs: Option<seq<ExecutionError>>,
                      names: seq<string>, i: nat)
    requires i < |names| && NoneFails(artifact, errs, siblingErrs, names[..i])
    requires !Fails(artifact, errs, siblingErrs, names[i])
    ensures NoneFails(artifact, errs, siblingErrs, names[..i + 1])
  {
    var q := names[..i + 1];
    forall j | 0 <= j < |q| ensures !Fails(artifact, errs, siblingErrs, q[j]) {
      if j < i {
        assert q[j] == names[..i][j];
      }
    }
  }

  /**
   * A file with errors that does not raise is added under its name: the
   * keys stay the names so far with errors, in order and without repeats.
   */
  lemma CollectAddNames(errs: seq<ExecutionError>, siblingErrs: Option<seq<ExecutionError>>,
                        names: seq<string>, i: nat, files: Hash<FileErrorHash>, h: FileErrorHash)
    requires i < |names|
    requires Names(files) == Uniq(FilesWithErrors(errs, siblingErrs, names[..i]))
    requires forall name :: name in Keys(files) <==> name in names[..i] && HasErrors(errs, siblingErrs, name)
    requires HasErrors(errs, siblingErrs, names[i])
    ensures Names(Put(files, names[i], h)) == Uniq(FilesWithErrors(errs, siblingErrs, names[..i + 1]))
  {
    var n := names[i];
    var p := names[..i];
    var sp := FilesWithErrors(errs, siblingErrs, p);
    assert FilesWithErrors(errs, siblingErrs, names[..i + 1]) == sp + [n] by {
      assert names[..i + 1] == p + [n];
      assert (p + [n])[..i] == p;
    }
    assert n in Keys(files) <==> n in sp by {
      FilesWithErrorsContract(errs, siblingErrs, p);
    }
    PutUniqNames(files, sp, FilesWithErrors(errs, siblingErrs, names[..i + 1]), n, h);
  }

  /** After adding a file with errors, the keys are exactly the names so far with errors. */
  lemma CollectAddKeys(errs: seq<ExecutionError>, siblingErrs: Option<seq<ExecutionError>>,
                       names: seq<string>, i: nat, files: Hash<FileErrorHash>, h: FileErrorHash)
    requires i < |names|
    requires forall name :: name in Keys(files) <==> name in names[..i] && HasErrors(errs, siblingErrs, name)
    requires HasErrors(errs, siblingErrs, names[i])
    ensures forall name :: name in Keys(Put(files, names[i], h)) <==>
      name in names[..i + 1] && HasErrors(errs, siblingErrs, name)
  {
    var q := names[..i + 1];
    assert q == names[..i] + [names[i]];
    forall name ensures name in Keys(Put(files, names[i], h)) <==> name in q && HasErrors(errs, siblingErrs, name) {
      assert name in q <==> name in names[..i] || name == names[i];
    }
  }

  /** Adding a file's error hash with the five keys keeps every file's five keys. */
  lemma CollectAddBuckets(files: Hash<FileErrorHash>, n: string, h: FileErrorHash)
    requires forall name :: name in Keys(files) ==> Get(files, name).Some? && Get(files, name).value.Keys == BucketKeys
    requires h.Keys == BucketKeys
    ensures forall name :: name in Keys(Put(files, n, h)) ==>
      Get(Put(files, n, h), name).Some? && Get(Put(files, n, h), name).value.Keys == BucketKeys
  {
    forall name | name in Keys(Put(files, n, h))
      ensures Get(Put(files, n, h), name).Some? && Get(Put(files, n, h), name).value.Keys == BucketKeys {
      if name != n {
        assert name in Keys(files);
      }
    }
  }

  /** A file without errors is skipped; the keys of files are still the names so far with errors. */
  lemma CollectSkip(errs: seq<ExecutionError>, siblingErrs: Option<seq<ExecutionError>>,
                    names: seq<string>, i: nat, files: Hash<FileErrorHash>)
    requires i < |names|
    requires Names(files) == Uniq(FilesWithErrors(errs, siblingErrs, names[..i]))
    requires forall name :: name in Keys(files) <==> name in names[..i] && HasErrors(errs, siblingErrs, name)
    requires !HasErrors(errs, siblingErrs, names[i])
    ensures Names(files) == Uniq(FilesWithErrors(errs, siblingErrs, names[..i + 1]))
    ensures forall name :: name in Keys(files) <==> name in names[..i + 1] && HasErrors(errs, siblingErrs, name)
  {
    var p := names[..i];
    var q := names[..i + 1];
    assert q == p + [names[i]];
    assert q[..i] == p;
    assert FilesWithErrors(errs, siblingErrs, q) == FilesWithErrors(errs, siblingErrs, p);
    forall name ensures name in Keys(files) <==> name in q && HasErrors(errs, siblingErrs, name) {
      assert name in q <==> name in p || name == names[i];
    }
  }

  /** A file with errors that raises, after files that did not, makes its failure the loop's outcome. */
  lemma CollectFails(artifact: Artifact, errs: seq<ExecutionError>, siblingErrs: Option<seq<ExecutionError>>,
                     names: seq<string>, i: nat)
    requires i < |names| && NoneFails(artifact, errs, siblingErrs, names[..i])
    requires HasErrors(errs, siblingErrs, names[i])
    requires FileFailure(artifact, names[i], ByFile(errs, Some(names[i])), RelatedErrors(siblingErrs, names[i])).Some?
    ensures FirstFailure(artifact, errs, siblingErrs, names)
      == FileFailure(artifact, names[i], ByFile(errs, Some(names[i])), RelatedErrors(siblingErrs, names[i]))
  {
    FirstFailureContract(artifact, errs, siblingErrs, names);
    assert Fails(artifact, errs, siblingErrs, names[i]);
    var k :| 0 <= k < |names| && Fails(artifact, errs, siblingErrs, names[k])
      && FirstFailure(artifact, errs, siblingErrs, names)
         == FileFailure(artifact, names[k], ByFile(errs, Some(names[k])), RelatedErrors(siblingErrs, names[k]))
      && forall j :: 0 <= j < k ==> !Fails(artifact, errs, siblingErrs, names[j]);
    assert forall j :: 0 <= j < i ==> names[..i][j] == names[j];
  }

  /** When no file of the names raises, the loop raises nothing. */
  lemma CollectDone(artifact: Artifact, errs: seq<ExecutionError>, siblingErrs: Option<seq<ExecutionError>>,
                    names: seq<string>)
    requires NoneFails(artifact, errs, siblingErrs, names)
    ensures FirstFailure(artifact, errs, siblingErrs, names).None?
  {
    FirstFailureContract(artifact, errs, siblingErrs, names);
  }

  /**
   * The loop of collected_errors over the artifact's file names: a file
   * with errors of its own or of the sibling gets its error hash; the first
   * failure stops the loop.
   */
  method CollectFiles(artifact: Artifact, errs: seq<ExecutionError>, siblingErrs: Option<seq<ExecutionError>>,
                      gen: Uuid.Generator)
    returns (r: Result<Hash<FileErrorHash>, Fault>)
    modifies gen, ParsedDocs(Some(artifact))
    ensures var f := FirstFailure(artifact, errs, siblingErrs, artifact.fileNames);
      (r.Err? <==> f.Some?) && (r.Err? ==> r.error == f.value)
    ensures r.Ok? ==>
      && Names(r.value) == Uniq(FilesWithErrors(errs, siblingErrs, artifact.fileNames))
      && (forall name :: name in Keys(r.value) <==> name in artifact.fileNames && HasErrors(errs, siblingErrs, name))
      && (forall name :: name in Keys(r.value) ==> Get(r.value, name).Some? && Get(r.value, name).value.Keys == BucketKeys)
  {
    var files: Hash<FileErrorHash> := [];
    var i := 0;
    while i < |artifact.fileNames|
      invariant 0 <= i <= |artifact.fileNames|
      invariant NoneFails(artifact, errs, siblingErrs, artifact.fileNames[..i])
      invariant Names(files) == Uniq(FilesWithErrors(errs, siblingErrs, artifact.fileNames[..i]))
      invariant forall name :: name in Keys(files) <==> name in artifact.fileNames[..i] && HasErrors(errs, siblingErrs, name)
      invariant forall name :: name in Keys(files) ==> Get(files, name).Some? && Get(files, name).value.Keys == BucketKeys
    {
      var thisName := artifact.fileNames[i];
      var allErrs := ByFile(errs, Some(thisName));
      var relatedErrs := RelatedErrors(siblingErrs, thisName);
      if |allErrs| + |relatedErrs| > 0 {
        var h;
        ghost var d;
        h, d := FileErrors(artifact, thisName, allErrs, relatedErrs, gen);
        if h.Err? {
          CollectFails(artifact, errs, siblingErrs, artifact.fileNames, i);
          return Err(h.error);
        }
        NoneFailsNext(artifact, errs, siblingErrs, artifact.fileNames, i);
        CollectAddNames(errs, siblingErrs, artifact.fileNames, i, files, h.value);
        CollectAddKeys(errs, siblingErrs, artifact.fileNames, i, files, h.value);
        CollectAddBuckets(files, thisName, h.value);
        files := Put(files, thisName, h.value);
      } else {
        NoneFailsNext(artifact, errs, siblingErrs, artifact.fileNames, i);
        CollectSkip(errs, siblingErrs, artifact.fileNames, i, files);
      }
      i := i + 1;
    }
    assert artifact.fileNames[..i] == artifact.fileNames;
    CollectDone(artifact, errs, siblingErrs, artifact.fileNames);
    r := Ok(files);
  }

  // ---------------------------------------------------------------------
  // file_name_and_error_result_from_files
  // ---------------------------------------------------------------------

  /** Mongoid::Errors::DocumentNotFound carrying its message. */
  datatype NotFound = DocumentNotFound(message: string)

  /** [files.first[0], files.first[1]], or DocumentNotFound when files is empty. */
  function FileNameAndErrorResultFromFiles<V>(files: Hash<V>, fileName: string): Result<(string, V), NotFound>
  {
    if |files| == 0 then Err(DocumentNotFound("could not find results for file " + fileName))
    else Ok(files[0])
  }

  /** files.select { |file_name, _| route(file_name) == target } */
  function SelectFiles<V>(files: Hash<V>, route: string -> string, target: string): Hash<V>
    decreases |files|
  {
    if |files| == 0 then []
    else if route(files[0].0) == target then [files[0]] + SelectFiles(files[1..], route, target)
    else SelectFiles(files[1..], route, target)
  }

  /**
   * Selecting by routed name and taking the first pair finds the earliest
   * file whose routed name is the target, and raises DocumentNotFound,
   * naming the file, exactly when there is none.
   */
  lemma {:induction false} LookupFindsFirstMatch<V>(files: Hash<V>, route: string -> string, target: string)
    ensures var r := FileNameAndErrorResultFromFiles(SelectFiles(files, route, target), target);
      && (r.Err? <==> forall i :: 0 <= i < |files| ==> route(files[i].0) != target)
      && (r.Err? ==> r.error == DocumentNotFound("could not find results for file " + target))
      && (r.Ok? ==> exists i :: 0 <= i < |files| && files[i] == r.value && route(files[i].0) == target
                     && forall j :: 0 <= j < i ==> route(files[j].0) != target)
    decreases |files|
  {
    if |files| > 0 && route(files[0].0) != target {
      LookupFindsFirstMatch(files[1..], route, target);
      var r := FileNameAndErrorResultFromFiles(SelectFiles(files, route, target), target);
      if r.Ok? {
        var i :| 0 <= i < |files[1..]| && files[1..][i] == r.value && route(files[1..][i].0) == target
                 && forall j :: 0 <= j < i ==> route(files[1..][j].0) != target;
        assert files[i + 1] == r.value;
        forall j | 0 <= j < i + 1 ensures route(files[j].0) != target {
          if j > 0 { assert files[j] == files[1..][j - 1]; }
        }
      } else {
        forall i | 0 <= i < |files| ensures route(files[i].0) != target {
          if i > 0 { assert files[i] == files[1..][i - 1]; }
        }
      }
    } else if |files| > 0 {
      var r := FileNameAndErrorResultFromFiles(SelectFiles(files, route, target), target);
      assert r.Ok? && r.value == files[0];
    }
  }
}
