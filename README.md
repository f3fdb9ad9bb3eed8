# Cypress error collection and calculated product tests, in Dafny

This project models two parts of Cypress, the certification tool for
electronic clinical quality measures.

- **The error collector** (`Cypress::ErrorCollector`). It arranges the errors of a test
  execution for display. The messages of errors that concern no file come first, with
  duplicates dropped; the sibling execution's messages follow. Every file of the
  submitted artifact that has errors, of its own or of the sibling, gets five buckets:
  QRDA, Reporting, Submission, CMS Warnings and Other Warnings. The first three are always
  correlated against the file's parsed XML document. The two warning buckets are correlated
  when the sibling has errors for the file, and otherwise hold the placeholder
  `{execution_errors: []}`. Correlation cleans every error location of the
  schematron namespace predicate and resolves it to a node. An attribute is redirected to
  its element and the document node to its root element. The target node keeps the
  `error_id` it already carries, or receives a fresh UUID. The location is then mapped to
  that id. Anything raised during collection is rescued into an empty result that carries
  the exception. A lookup helper returns the first collected file whose routed name
  matches, or raises DocumentNotFound.
- **The calculated product test** (`CalculatedProductTest`). Its state machine goes
  `pending → generating_records → calculating_expected_results`. Creating a test fires
  `generate_population`. Entering `generating_records` clones the minimal covering patient
  set and fires `calculate`. Entering `calculating_expected_results` enqueues one measure
  evaluation. `execute` turns every validator message into a warning. It then compares
  every expected measure's components with the reported ones, builds the test execution,
  and marks it passed exactly when it holds no error-kind error.

Modules, following the program's structure:

| file | module | models |
|---|---|---|
| `wrappers.dfy` | `Wrappers` | `Option`, `Result` |
| `ruby_lib.dfy` | `RubyLib` | the Ruby semantics the core depends on: truthiness, `String#gsub(pat, '')`, `Array#uniq`, `Array#join`, `Integer#to_s`, an insertion-ordered `Hash` |
| `faults.dfy` | `Faults` | the exceptions the collector rescues |
| `uuid.dfy` | `Uuid` | the UUID generator |
| `xml_document.dfy` | `XmlDocument` | `NODE_TYPES`, `node_type`, the parsed document, `get_error_id`, `data_to_doc` |
| `records.dfy` | `Records` | `ExecutionError`, its scopes, measure results, the stored artifact, `TestExecution` |
| `correlator.dfy` | `Correlator` | `match_xml_locations_to_error_ids` |
| `error_collector.dfy` | `ErrorCollector` | `error_hash`, `create_file_error_hash`, `get_nonfile_errors`, `collected_errors`, `file_name_and_error_result_from_files` |
| `product_test.dfy` | `ProductTest` | the state machine, `after_create`, `execute` |

Pure Ruby code is modelled as functions with lemmas. Code that updates objects in place
has a class with `modifies` clauses, proved against a specification function of the old
state:

- assigning `error_id` on document nodes (`XmlDocument.Document`);
- the UUID generator (`Uuid.Generator`);
- the test's state and its executions (`ProductTest.Test`).

Each loop of the source (`locations.each`, `file_names.each`, the nested `each_pair` of
`execute`) is a `while` loop over a prefix of its input. The invariants of
`locations.each` and of `execute`'s loops equate the loop's variables with a
specification function applied to that prefix. The invariants of `file_names.each`
(in `ErrorCollector.CollectFiles`) are weaker: no file of the prefix raises
(`ErrorCollector.NoneFails`), the keys collected so far are the prefix's files with
errors, in order, and each holds the five bucket keys. They do not say what the
buckets hold.

The model follows the code where the code does something other than its evident design:

- **One error for every expected measure.** `execute` tests `if errs` on an Array, and
  Ruby treats every Array as true. So every expected measure gets exactly one error-kind
  error, whose message is empty when nothing mismatched. It follows that an execution
  passes exactly when the test expects no measure at all
  (`ProductTest.ExecutionPassesIffNothingExpected`). The intended behaviour was one error
  only for a measure with mismatches.
- **The error buckets never hold a placeholder.** `error_hash` guards with
  `return 0 unless file_errors.count`, and an Integer is always true, so the guard never
  fires. QRDA, Reporting and Submission are therefore always correlated, even when they
  are empty. Only the two warning buckets hold the placeholder, and only when the sibling
  has no errors for the file (`ErrorCollector.FileHashErrorBuckets`,
  `ErrorCollector.FileHashWarningBuckets`).
- **Non-file errors select on the file, not the location.** They are selected with
  `by_file(nil)`, that is, errors with no file. They are not selected by a missing
  location.
- **Locations are not deduplicated.** Every non-nil location is visited, including
  repeats. A repeated location maps to the same id again, and a repeated attribute
  location lists its attribute node twice.

## Model

| member | source | states |
|---|---|---|
| RubyLib.RemoveAll | lib/cypress/error_collector.rb:87 | removing every occurrence of a pattern never lengthens the string |
| RubyLib.RemoveAllNoMatch | lib/cypress/error_collector.rb:87 | a location with no occurrence of the namespace predicate is left unchanged |
| RubyLib.RemoveAllKeepsPrefix | lib/cypress/error_collector.rb:87 | a prefix in which no occurrence starts is kept verbatim; removal continues on the rest |
| RubyLib.RemoveAllLeading | lib/cypress/error_collector.rb:87 | a leading occurrence is removed |
| RubyLib.RemoveAllIgnoresInsertion | lib/cypress/error_collector.rb:87 | inserting one occurrence of the pattern into a string does not change the cleaned result |
| RubyLib.Uniq | lib/cypress/error_collector.rb:45 | `uniq` keeps exactly the elements of its input, each once |
| RubyLib.UniqPrefix | lib/cypress/error_collector.rb:45 | `(a + b).uniq` starts with `a.uniq`: the earlier list's elements keep their first-occurrence order at the front |
| RubyLib.UniqOfDistinct | lib/cypress/error_collector.rb:45 | `uniq` of a list without repetitions is the list itself |
| RubyLib.UniqSnoc | lib/cypress/error_collector.rb:45 | appending an element to a list appends it to the `uniq` of the list unless the list already holds it |
| RubyLib.Truthy | lib/cypress/error_collector.rb:67 | Ruby truthiness: only nil and false are false; ErrorHashSpec and ComparisonErrors test it, and FileHashErrorBuckets and ExecutionPassesIffNothingExpected state what follows |
| RubyLib.Join | app/models/calculated_product_test.rb:65 | `Array#join`; JoinContainsParts and JoinEmptyIff state its contract |
| RubyLib.JoinContainsParts | app/models/calculated_product_test.rb:65 | every joined part occurs in the joined message |
| RubyLib.JoinEmptyIff | app/models/calculated_product_test.rb:65 | joining non-empty parts gives the empty string exactly when there are no parts |
| RubyLib.Decimal | lib/cypress/error_collector.rb:103 | a numeral has at least one digit, and at least two from ten on |
| RubyLib.DecimalDigits | lib/cypress/error_collector.rb:103 | a numeral is made of the digits 0 to 9 only |
| RubyLib.DecimalInjective | lib/cypress/error_collector.rb:103 | distinct numbers have distinct numerals |
| RubyLib.IntToS | app/models/calculated_product_test.rb:61 | `Integer#to_s`; IntToSSign and IntToSInjective state its contract |
| RubyLib.IntToSSign | app/models/calculated_product_test.rb:61 | the text of an integer starts with a minus sign exactly when the integer is negative |
| RubyLib.IntToSInjective | app/models/calculated_product_test.rb:61 | distinct integers are interpolated as distinct texts, so a message tells two integer values apart |
| RubyLib.GetContract | app/models/calculated_product_test.rb:56-60 | `h[k]` is nil exactly when k is not a key, and is otherwise the value of the first pair with key k |
| RubyLib.Get | app/models/calculated_product_test.rb:56-60 | `h[k]`; GetContract states its contract |
| RubyLib.Put | lib/cypress/error_collector.rb:15 | `h[k] = v` adds k to the keys, makes `h[k]` return v, and leaves every other key's value as it was |
| RubyLib.PutNames | lib/cypress/error_collector.rb:15 | `h[k] = v` keeps the order of the keys, and a new key goes last |
| RubyLib.PutUniqNames | lib/cypress/error_collector.rb:15 | assigning the names of a list one by one leaves the keys in the order of the list without repeats |
| Records.FilterContract | lib/cypress/error_collector.rb:10-11 | a scope keeps exactly the errors that satisfy its condition, and never more errors than it was given |
| Records.ByFile | lib/cypress/error_collector.rb:10-11 | `by_file(name)`; FilterContract states its contract |
| Records.InScope | lib/cypress/error_collector.rb:50-54 | the scopes `qrda_errors` to `non_cms_warnings`; FilterContract states its contract |
| Records.ToS | app/models/calculated_product_test.rb:61 | string interpolation of a result value: nil gives the empty string; IntToSInjective states the integer case |
| Records.Execution.constructor | app/models/calculated_product_test.rb:69 | a built execution holds the given expected results, reported results and errors; it has no file ids, no outcome, no artifact and no sibling |
| Uuid.MintDistinct | lib/cypress/error_collector.rb:80-103 | different draws of the generator are different identifiers |
| Uuid.Generator.constructor | lib/cypress/error_collector.rb:80 | a new generator has handed out no identifier |
| Uuid.Generator.Generate | lib/cypress/error_collector.rb:103 | each call returns the next identifier and advances the generator by one |
| XmlDocument.NodeType | lib/cypress/error_collector.rb:107-114 | a type code has a name exactly when it is 1 to 12; it names the document node exactly when it is 9, and the attribute node exactly when it is 2 |
| XmlDocument.Document.Parse | lib/cypress/error_collector.rb:58-60 | parsing text gives its tree and the `error_id` attributes it already holds |
| XmlDocument.DataToDoc | lib/cypress/error_collector.rb:58-64 | text is parsed into a new document; a parsed document is passed through as the same object |
| XmlDocument.Document.GetErrorId | lib/cypress/error_collector.rb:101-105 | the call returns the id and updates the node ids and the generator as GetErrorIdSpec says; when it raises, nothing changes |
| XmlDocument.GetErrorIdContract | lib/cypress/error_collector.rb:101-105 | raises exactly for a document node in a document without a root; otherwise the returned id is on the (redirected) target; an existing id is reused with nothing changed; a missing one is the generator's next identifier; other nodes keep their ids |
| XmlDocument.GetErrorIdSpec | lib/cypress/error_collector.rb:101-105 | `get_error_id` on values; GetErrorIdContract and GetErrorIdIdempotent state its contract |
| XmlDocument.GetErrorIdIdempotent | lib/cypress/error_collector.rb:101-105 | asking a node for its id a second time returns the same id and changes nothing |
| Correlator.Locations | lib/cypress/error_collector.rb:83 | the collected locations are exactly the non-nil locations of the errors |
| Correlator.LocationsInOrder | lib/cypress/error_collector.rb:83 | `compact` keeps the order: the locations of a concatenation are those of its parts in turn, and one error gives its location exactly when it has one |
| Correlator.Clean | lib/cypress/error_collector.rb:87 | `gsub` of the namespace predicate; RemoveAllNoMatch, RemoveAllIgnoresInsertion and NamespacePredicateIgnored state its contract |
| Correlator.Resolve | lib/cypress/error_collector.rb:88-89 | `at_xpath`, nil for a location that selects nothing; CorrelateMapsResolvedLocations states that exactly the resolving locations become keys |
| Correlator.Owner | lib/cypress/error_collector.rb:91-94 | an attribute is replaced by its element; AttributeSharesOwnerId and CorrelateCollectsAttributes state its contract |
| Correlator.Step | lib/cypress/error_collector.rb:85-96 | one iteration of the loop; the Correlate lemmas state its contract |
| Correlator.CorrelateFrom | lib/cypress/error_collector.rb:85-96 | the loop from a given state, stopping at the first exception; CorrelateKeepsIds to CorrelateStopsAtFault state its contract |
| Correlator.Correlate | lib/cypress/error_collector.rb:79-99 | the loop from an empty map and no attributes; MatchXmlLocationsToErrorIds is proved to compute it |
| Correlator.CorrelateKeepsIds | lib/cypress/error_collector.rb:85-103 | an id, once on a node, is never changed or removed, and the generator only advances |
| Correlator.CorrelateMapsResolvedLocations | lib/cypress/error_collector.rb:85-96 | when nothing is raised, the map's keys are exactly the uncleaned locations whose cleaned form resolves; each is mapped to the id its target node carries afterwards |
| Correlator.CorrelateFailsOnlyOnRootless | lib/cypress/error_collector.rb:88-103 | the loop raises exactly when some location resolves to the document node of a root-less document, and then raises NoMethodError for `[]` |
| Correlator.CorrelateCollectsAttributes | lib/cypress/error_collector.rb:91-93 | the error attributes are the resolved attribute nodes, in order |
| Correlator.CorrelateReusesAssignedIds | lib/cypress/error_collector.rb:103 | when every target already carries an id, no identifier is generated and no id changes |
| Correlator.CorrelateIdempotent | lib/cypress/error_collector.rb:79-105 | correlating the same errors again on the same document gives the same map and attributes and generates nothing |
| Correlator.SharedNodeSharesId | lib/cypress/error_collector.rb:95-104 | two locations with the same target node are mapped to the same id |
| Correlator.AttributeSharesOwnerId | lib/cypress/error_collector.rb:91-95 | an attribute's location and its element's location are mapped to the same id |
| Correlator.SharedNodeAcrossCalls | lib/cypress/error_collector.rb:50-54 | a later correlation on the same document maps a location with an earlier location's target node to the earlier id |
| Correlator.NamespacePredicateIgnored | lib/cypress/error_collector.rb:87-95 | two locations that differ only by the namespace predicate are both keys and get the same id |
| Correlator.CorrelateKeepsIdsDistinct | lib/cypress/error_collector.rb:103 | starting from distinct ids that the generator has not yet handed out, ids stay distinct and not yet handed out |
| Correlator.DistinctNodesDistinctIds | lib/cypress/error_collector.rb:95-103 | when the document's ids are distinct and none is one the generator has yet to hand out, locations with different target nodes get different ids; with SharedNodeSharesId, two locations share an id exactly when they share a target |
| Correlator.CorrelateStopsAtFault | lib/cypress/error_collector.rb:85-96 | after an exception the remaining locations are not visited |
| Correlator.MatchXmlLocationsToErrorIds | lib/cypress/error_collector.rb:79-99 | the method returns the map and attributes, or the exception, and leaves the document's ids and the generator as Correlate, the fold of Step over the locations, says |
| ErrorCollector.KeyName | lib/cypress/error_collector.rb:50-54 | the five hash keys `QRDA`, `Reporting`, `Submission`, `CMS Warnings` and `Other Warnings`; its contract says only that a key is non-empty, and KeyNameInjective says they differ |
| ErrorCollector.KeyNameInjective | lib/cypress/error_collector.rb:50-54 | the five bucket keys are five distinct strings |
| ErrorCollector.ErrorHash | lib/cypress/error_collector.rb:66-76 | the bucket, the id updates and the exception are those ErrorHashSpec gives: the document, the errors, and the map and attributes of their correlation |
| ErrorCollector.ErrorHashSpec | lib/cypress/error_collector.rb:66-76 | `error_hash` on values; ErrorHash is proved to compute it, and ErrorHashFaultIff states when it raises |
| ErrorCollector.ErrorHashFaultIff | lib/cypress/error_collector.rb:66-105 | error_hash raises exactly when the location of one of its errors resolves to the document node of a document without a root, and then raises NoMethodError for `[]` |
| ErrorCollector.CreateFileErrorHash | lib/cypress/error_collector.rb:48-56 | the file's hash, id updates and exception are those FileHashSpec gives: the five assignments in order, the first exception stopping it |
| ErrorCollector.FileHashSpec | lib/cypress/error_collector.rb:48-56 | `create_file_error_hash` on values; FileHashKeys, FileHashErrorBuckets, FileHashWarningBuckets, FileHashSharesIds and FileHashFaultIff state its contract |
| ErrorCollector.AddBucket | lib/cypress/error_collector.rb:50-54 | one assignment of the hash; AddBucketContract and AddBucketAgrees state its contract |
| ErrorCollector.FileHashFaultIff | lib/cypress/error_collector.rb:48-56 | the file's hash raises exactly when one of the three error scopes, or, when the sibling has errors for the file, one of the two warning scopes, hits a document node without a root; it raises NoMethodError for `[]` |
| ErrorCollector.AddBucketContract | lib/cypress/error_collector.rb:50-54 | one assignment adds its key, holds the placeholder or the scope's correlation on the document, and keeps the other buckets |
| ErrorCollector.FileHashKeys | lib/cypress/error_collector.rb:48-56 | a file's error hash has exactly the five keys |
| ErrorCollector.FileHashErrorBuckets | lib/cypress/error_collector.rb:50-67 | QRDA, Reporting and Submission always hold the correlation of their scope of the file's errors on the file's document |
| ErrorCollector.FileHashWarningBuckets | lib/cypress/error_collector.rb:53-54 | the warning buckets are the placeholder exactly when the sibling has no errors for the file; otherwise they hold the correlation of their scope of the sibling's errors |
| ErrorCollector.AddBucketAgrees | lib/cypress/error_collector.rb:50-54 | adding a bucket keeps every id on the document, and every bucket's map still agrees with the document's ids |
| ErrorCollector.FileHashSharesIds | lib/cypress/error_collector.rb:48-56 | two locations with the same target node get the same id, even in different buckets of a file |
| ErrorCollector.Messages | lib/cypress/error_collector.rb:42 | `map(&:message)` gives one message per error, position by position |
| ErrorCollector.NonfileErrorsContract | lib/cypress/error_collector.rb:41-46 | the non-file errors are exactly the messages of file-less errors of the execution and its sibling, each once, with the execution's own first in first-occurrence order |
| ErrorCollector.NonfileErrors | lib/cypress/error_collector.rb:41-46 | `get_nonfile_errors`; NonfileErrorsContract states its contract |
| ErrorCollector.FileErrors | lib/cypress/error_collector.rb:14-39 | raises `FileUnavailable` for a file the artifact does not hold, and NoMethodError for `[]` exactly when FileFailure says; otherwise the hash has the five keys and is the one FileHashSpec gives on the document: the one handed out parsed, or a new one parsed from the text |
| ErrorCollector.FilesWithErrors | lib/cypress/error_collector.rb:9-12 | the names, in order, with errors of their own or of the sibling; FilesWithErrorsContract states its contract |
| ErrorCollector.FilesWithErrorsContract | lib/cypress/error_collector.rb:9-12 | a name is kept exactly when it is among the names and has errors of its own or of the sibling |
| ErrorCollector.FirstFailureContract | lib/cypress/error_collector.rb:9-19 | the loop raises exactly when some file with errors raises, and then with the failure of the earliest such file |
| ErrorCollector.FirstFailureStops | lib/cypress/error_collector.rb:9-19 | once a file has raised, the files after it do not change what is rescued |
| ErrorCollector.CollectFiles | lib/cypress/error_collector.rb:9-16 | raises exactly when some file with errors raises, with the failure FirstFailure gives for the earliest; otherwise the keys are the artifact's files with errors of their own or of the sibling, in the artifact's order without repeats, each with the five buckets |
| ErrorCollector.NoneFailsNext | lib/cypress/error_collector.rb:9-16 | a file that does not raise extends the prefix on which nothing has raised |
| ErrorCollector.CollectAddNames | lib/cypress/error_collector.rb:15 | assigning a file with errors under its name keeps the keys equal to the prefix's files with errors, in order without repeats |
| ErrorCollector.CollectAddKeys | lib/cypress/error_collector.rb:12-15 | after assigning a file with errors, a name is a key exactly when it is in the prefix and has errors |
| ErrorCollector.CollectAddBuckets | lib/cypress/error_collector.rb:15 | assigning a hash with the five bucket keys keeps every file's five bucket keys |
| ErrorCollector.CollectSkip | lib/cypress/error_collector.rb:12 | a file without errors is skipped: the keys stay the prefix's files with errors, in order, and exactly those |
| ErrorCollector.CollectFails | lib/cypress/error_collector.rb:14-19 | a file with errors that raises, after files that did not, makes its failure the loop's outcome |
| ErrorCollector.CollectDone | lib/cypress/error_collector.rb:9-17 | when no file raises, the loop has no failure to rescue |
| ErrorCollector.CollectedErrors | lib/cypress/error_collector.rb:6-20 | the exception is NoMethodError for `file_names` on a nil artifact and otherwise the loop's first failure; with an exception, the non-file errors and files are empty; without one, the non-file errors are NonfileErrors and the keys of `files` are the artifact's files with errors, in order without repeats, each with the five buckets |
| ErrorCollector.LookupFindsFirstMatch | lib/cypress/error_collector.rb:25-33 | selecting by routed name and taking the first pair finds the earliest matching file; DocumentNotFound, naming the file, is raised exactly when no file matches |
| ErrorCollector.SelectFiles | lib/cypress/error_collector.rb:25 | the `select` by routed name; LookupFindsFirstMatch states its contract |
| ErrorCollector.FileNameAndErrorResultFromFiles | lib/cypress/error_collector.rb:29-33 | the first pair, or DocumentNotFound naming the file; LookupFindsFirstMatch states its contract |
| ProductTest.Transition | app/models/calculated_product_test.rb:23-29 | generate_population is enabled only in pending and leads to generating_records; calculate is enabled only in generating_records and leads to calculating_expected_results; nothing leads back to pending |
| ProductTest.Fire | app/models/calculated_product_test.rb:3-31 | an event fires exactly when enabled; a disabled event changes nothing and starts no job; an enabled one ends in calculating_expected_results; the state never moves backward |
| ProductTest.FireEffects | app/models/calculated_product_test.rb:5-21 | generate_population from pending clones the minimal set once, then enqueues one evaluation, and ends in calculating_expected_results; calculate alone only enqueues |
| ProductTest.FinalStateAbsorbs | app/models/calculated_product_test.rb:23-29 | no event leaves calculating_expected_results or starts a job from it |
| ProductTest.FireEffectsCarryTestId | app/models/calculated_product_test.rb:13-20 | every job started carries the test's id, and the clone carries the minimal set |
| ProductTest.Test.FireEvent | app/models/calculated_product_test.rb:3-31 | firing an event with its hooks changes the state and the job log as Fire says, and nothing else |
| ProductTest.Test.GeneratePopulation | app/models/calculated_product_test.rb:23-25 | generate_population as Fire says |
| ProductTest.Test.Calculate | app/models/calculated_product_test.rb:27-29 | calculate as Fire says |
| ProductTest.Test.constructor | app/models/calculated_product_test.rb:1-34 | a new test is pending, with no jobs and no executions |
| ProductTest.Create | app/models/calculated_product_test.rb:5-34 | a created test ends in calculating_expected_results, having cloned the minimal set once and then enqueued one evaluation keyed by its id's string |
| ProductTest.RenderAll | app/models/calculated_product_test.rb:59-63 | one message per mismatch |
| ProductTest.RenderAllContract | app/models/calculated_product_test.rb:61 | the i-th message is the rendering of the i-th mismatch |
| ProductTest.Render | app/models/calculated_product_test.rb:61 | one mismatch message; RenderNamesComponent and RenderAllContract state its contract |
| ProductTest.MismatchListContract | app/models/calculated_product_test.rb:56-63 | the mismatches are exactly the components whose reported value (nil when absent) differs from the expected one; there are none exactly when every component matches |
| ProductTest.MismatchList | app/models/calculated_product_test.rb:59-63 | the mismatching components in order; MismatchListContract states its contract |
| ProductTest.RenderNamesComponent | app/models/calculated_product_test.rb:61 | a mismatch message is non-empty and names its component |
| ProductTest.CompareMeasure | app/models/calculated_product_test.rb:57-63 | the inner loop's `errs` are the messages of the measure's mismatches, in order |
| ProductTest.WarningErrorsContract | app/models/calculated_product_test.rb:50-53 | one warning per validator message, with that message, in order |
| ProductTest.ComparisonErrorsContract | app/models/calculated_product_test.rb:55-67 | exactly one error per expected measure, in order, whether or not anything mismatched; the i-th carries the i-th measure's id and its mismatch messages joined by ",  " |
| ProductTest.ComparisonErrors | app/models/calculated_product_test.rb:55-66 | the outer `each_pair`; ComparisonErrorsContract states its contract |
| ProductTest.ValidationErrors | app/models/calculated_product_test.rb:50-67 | the warnings followed by the comparison errors; BuildValidationErrors is proved to compute it |
| ProductTest.MeasureMessage | app/models/calculated_product_test.rb:59-65 | a measure's message is empty exactly when every component matches, and names every component that does not |
| ProductTest.BuildValidationErrors | app/models/calculated_product_test.rb:50-67 | the loops produce the warnings followed by the comparison errors |
| ProductTest.OutcomeContract | app/models/calculated_product_test.rb:76 | an execution passes exactly when none of its errors is of the error kind |
| ProductTest.ErrorCount | app/models/calculated_product_test.rb:76 | the count of error-kind errors; OutcomeContract states its contract |
| ProductTest.OutcomeOf | app/models/calculated_product_test.rb:76 | `te.pass` or `te.failed`; OutcomeContract states its contract |
| ProductTest.ExecutionPassesIffNothingExpected | app/models/calculated_product_test.rb:64-76 | an execution passes exactly when the test expects no measure; warnings alone never make it fail |
| ProductTest.NumeratorMismatchExample | app/models/calculated_product_test.rb:55-66 | a numerator expected as 5 and reported as 3 gives exactly one error, for that measure, reading "expected numerator value 5 does not match reported value 3" |
| ProductTest.Test.Execute | app/models/calculated_product_test.rb:43-78 | the new execution stores the test's expected results, the reported results, the validation errors and the saved file ids; it passes exactly when nothing is expected; it is appended to the test's executions and nothing else changes |

## Left out

- Parsing and XPath evaluation (Nokogiri) are abstracted. A document's shape gives the
  node each location selects, the type code of each node, the element of each attribute
  and the root. The model does not include an XPath syntax error raised by `at_xpath`,
  because the resolver is total.
- The node class test `elem.class == Nokogiri::XML::Attr` is modelled as type code 2.
  Any node of the model can carry an `error_id`.
- UUIDs are modelled as the decimal numerals of one counter shared by every
  correlation. `match_xml_locations_to_error_ids` creates a new `UUID` object on each
  call; UUIDs are unique across generator objects, and the shared counter keeps exactly
  that property. The UUID text format is not modelled.
- The Mongoid scopes `qrda_errors`, `reporting_errors`, `submission_errors`,
  `only_cms_warnings` and `non_cms_warnings` are recorded on each error as the set of
  scopes it belongs to, because their definitions are not part of this model.
  `by_file(name)` selects on the error's file name field.
  `force_encoding('UTF-8')` has no counterpart, because strings are sequences of
  characters.
- `file_name_and_error_result_from_execution` reads the request's `params` and
  `route_file_name` of the controller it runs in. The model keeps only its selection
  and first-match step, with the routing function as a parameter.
- `artifact.get_file` is modelled as a table from file names to texts or parsed
  documents. A name the table does not hold raises. Other storage failures are not
  modelled.
- Exceptions inside `execute` are not modelled. These come from reading the upload,
  `QrdaUtility.extract_results`, `validate_cat3` and `ArtifactManager.save_artifacts`,
  and none of them is rescued in the source. Their results are inputs of
  `ProductTest.Test.Execute`.
- `te.save` and other persistence are not modelled. `test_executions.build` is modelled
  as appending to the test's executions. `te.pass` and `te.failed` set the outcome.
  `ArtifactManager` does not link the artifact to the execution in this model.
- `PopulationCloneJob#perform` and `MeasureEvaluationJob.create` run outside the
  model. The test logs the jobs it started, in order. An exception raised by the clone
  job is not modelled. `PatientPopulation.min_coverage(measure_ids)[:minimal_set]` is a
  function given to the test.
- Measure result values are nil, integers or strings. Booleans and floats are left out.
  The errors `execute` builds have no location, file or scope.
- Ruby hashes are association lists that keep insertion order. A list with a repeated
  key is allowed; `Get` then reads the first pair with that key.
- `expected_Results` (app/models/calculated_product_test.rb:36-38) is left out: it names
  an undefined variable, so it raises whenever it is called. `product_type_measures` is
  left out as a database query.
- ErrorCollector.CollectedErrors: states the exception, the non-file errors, the keys of
  `files` in order and the keys of each file's hash, but not each bucket's contents. The
  ids generated for a file depend on the files before it;
  ErrorCollector.FileErrors states the per-file contents with FileHashSpec.
- ErrorCollector.CollectFiles: the same; its loop invariants carry the bucket keys but
  not the buckets' contents.
- `error_map` is a Dafny map, so the order in which locations were inserted is not
  kept; `error_attributes` keeps its order.
- `expected_results.each_pair` raises NoMethodError when the test's expected results are
  nil. This is the case until the measure evaluation job has filled them in. The model's
  expected results are a Hash and never nil, so this exception is not modelled.
- The initial `pending` state is not declared in this file: its state machine has no
  `initial:` option. It comes from the parent class `ProductTest`, which is not part of
  this model; ProductTest.Test.constructor takes it as given.
