# XML Linter core, modelled in Dafny

This project models `XMLLinterCallable.invoke` of the OSF Builder Suite XML
Linter Jenkins plugin. `invoke` is a sequential batch linter. It has four parts:

1. **Path guard.** The XSDs path and then the XMLs path each go through four
   checks in a fixed order. A path must be non-empty. `new File(dir, path)`
   must still start with the workspace after `normalize()`. The path must exist
   and must be a directory. The first check that fails throws an
   `AbortException`.
2. **Schema phase.** Every walked regular file whose lower-cased name ends in
   `.xsd` is parsed. Its root element's `targetNamespace` then indexes the file
   in a `HashMap` (the last file wins). A file with an empty namespace is only
   logged.
3. **Document phase.** Every walked `.xml` file is parsed. Its literal `xmlns`
   attribute is looked up in that map, and a match is validated against the
   registered schema file.
4. **Errors and verdict.**
   - A `SAXParseException` appends one error record
     `{path, start_line, end_line, annotation_level: "failure", message}` that
     carries its line. Any other `SAXException` appends one with line 0.
   - `IOException` and `ParserConfigurationException` are only logged.
   - After both phases, a non-empty report path is checked, the directory is
     created if needed, and the report is written.
   - The run then fails if and only if the error list is non-empty.

Modules:

- `Paths` (`paths.dfy`) covers path handling:
  - the components of a caller-supplied path string;
  - absolute `UnixPath.normalize` (`.` is dropped, `name/..` cancels, and `..`
    at `/` is absorbed);
  - the component-wise `startsWith` test;
  - the case-insensitive extension filter;
  - lemmas about each of these.
- `Environment` (`environment.dfy`) holds the outside world as given functions:
  - the file-system predicates and the walk (`FileSystem`);
  - the JAXP parser and validator (`Xml`), which return a tagged per-file result
    (a root element or a fault);
  - the error record and the per-file log line;
  - the filtered walk (`Candidates`).
- `Schemas` (`schemas.dfy`) covers the registry loop:
  - the method `LoadSchemas`, a `while` loop over the walk that updates the
    registry map, the error list and the log;
  - the function `SchemaPhase`, a fold over the selected files that specifies it;
  - lemmas about that function.
- `Documents` (`documents.dfy`) covers the lint loop the same way:
  `LintDocuments`, `LintFile` and `DocumentPhase`.
- `Linter` (`linter.dfy`) covers the rest:
  - the guard and the report step;
  - `Invocation`, the whole of `invoke` as a function;
  - the class `XmlLinterCallable` with its constant configuration, whose
    `Invoke` method is proved equal to `Invocation`;
  - the lemmas on guard order, verdict and report.

## Model

| member | source | states |
|---|---|---|
| `Paths.Segments` | src/main/java/org/jenkinsci/plugins/osfbuildersuite/xmllinter/XMLLinterBuilder.java:155 | `new File(dir, path)` splits the path into non-empty, separator-free components |
| `Paths.SegmentsOfSeparator` | src/main/java/org/jenkinsci/plugins/osfbuildersuite/xmllinter/XMLLinterBuilder.java:155 | a `/` splits the string into the components of either side, so pieces left empty by a leading, trailing or doubled `/` add no component |
| `Paths.SegmentsOfName` | src/main/java/org/jenkinsci/plugins/osfbuildersuite/xmllinter/XMLLinterBuilder.java:155 | a path string that is one name is that one component |
| `Paths.SegmentsDropEmptyPieces` | src/main/java/org/jenkinsci/plugins/osfbuildersuite/xmllinter/XMLLinterBuilder.java:155 | for names `a` and `b`, `/a//b/` names `a`, then `b` |
| `Paths.SegmentsOfJoin` | src/main/java/org/jenkinsci/plugins/osfbuildersuite/xmllinter/XMLLinterBuilder.java:195 | joining components with `/` (the relative path string) and splitting again gives the same components back |
| `Paths.NormalizeIdempotent` | src/main/java/org/jenkinsci/plugins/osfbuildersuite/xmllinter/XMLLinterBuilder.java:156 | `normalize()` yields a path with no `.` or `..`, and normalising twice changes nothing |
| `Paths.NormalizeBelowRoot` | src/main/java/org/jenkinsci/plugins/osfbuildersuite/xmllinter/XMLLinterBuilder.java:155-156 | for a normal workspace root, normalising `root/sub` is walking `sub` from the root |
| `Paths.DescendingStaysInside` | src/main/java/org/jenkinsci/plugins/osfbuildersuite/xmllinter/XMLLinterBuilder.java:155-156 | for a normal workspace root, a sub-path without `..` is always accepted and resolves to the root followed by its non-`.` names |
| `Paths.ClimbingOut` | src/main/java/org/jenkinsci/plugins/osfbuildersuite/xmllinter/XMLLinterBuilder.java:173-174 | for a normal workspace root with at least `k` components, after `k` leading `..` and a rest without `..`, the path is accepted exactly when the rest names again the `k` components it climbed out of (both directions) |
| `Paths.DotIsRoot` | src/main/java/org/jenkinsci/plugins/osfbuildersuite/xmllinter/XMLLinterBuilder.java:155-156 | for a normal workspace root, `.` resolves to the root itself and is accepted |
| `Paths.ParentEscapes` | src/main/java/org/jenkinsci/plugins/osfbuildersuite/xmllinter/XMLLinterBuilder.java:354-355 | for a normal, non-empty workspace root, `../outside` is refused when the root's last name is not `outside` |
| `Paths.ExtensionIsLowerSuffix` | src/main/java/org/jenkinsci/plugins/osfbuildersuite/xmllinter/XMLLinterBuilder.java:193 | the name filter holds iff the name's last \|ext\| characters, lower-cased, are the extension |
| `Paths.ExtensionIgnoresCase` | src/main/java/org/jenkinsci/plugins/osfbuildersuite/xmllinter/XMLLinterBuilder.java:193 | lower-casing a name never changes whether it passes the filter; neither does ASCII upper-casing (see `Paths.Upper` under "Left out") |
| `Paths.AnyCaseOfExtensionPasses` | src/main/java/org/jenkinsci/plugins/osfbuildersuite/xmllinter/XMLLinterBuilder.java:269 | any name ending in a case variant of the extension (`A.XML`) passes |
| `Environment.RecordsFor` | src/main/java/org/jenkinsci/plugins/osfbuildersuite/xmllinter/XMLLinterBuilder.java:220-259 | a caught exception gives at most one record, exactly one for a SAX exception. The record has the file's relative path, `"failure"` and the message. Its start and end line are the reported line for a `SAXParseException` and 0 otherwise |
| `Environment.AppendRecord` | src/main/java/org/jenkinsci/plugins/osfbuildersuite/xmllinter/XMLLinterBuilder.java:308-347 | the catch blocks append exactly `RecordsFor` to the error list, and the list is only appended to |
| `Environment.Candidates` | src/main/java/org/jenkinsci/plugins/osfbuildersuite/xmllinter/XMLLinterBuilder.java:191-193 | every processed file is a regular file that passes the extension filter, and every walked entry that passes both filters is processed |
| `Environment.CandidatesAreWalked` | src/main/java/org/jenkinsci/plugins/osfbuildersuite/xmllinter/XMLLinterBuilder.java:267-269 | every processed file is one of the walked entries below the directory, with its root-relative path |
| `Schemas.LoadSchemas` | src/main/java/org/jenkinsci/plugins/osfbuildersuite/xmllinter/XMLLinterBuilder.java:186-260 | the loop over the walk leaves the registry, error list and log equal to the schema phase folded over the selected `.xsd` files |
| `Schemas.RegistryHoldsLastDeclaration` | src/main/java/org/jenkinsci/plugins/osfbuildersuite/xmllinter/XMLLinterBuilder.java:203-219 | registry keys are exactly the non-empty declared target namespaces. Each key maps to the last file in walk order that declares it |
| `Schemas.SchemaErrorsAreFaults` | src/main/java/org/jenkinsci/plugins/osfbuildersuite/xmllinter/XMLLinterBuilder.java:220-259 | the schema phase's error list is exactly the records of the SAX-faulty schema files, in walk order. Files that load, lack a namespace, or fail with I/O or configuration errors add none |
| `Schemas.SchemaStepAppends` | src/main/java/org/jenkinsci/plugins/osfbuildersuite/xmllinter/XMLLinterBuilder.java:232-251 | one more file keeps the earlier errors as a prefix and adds at most one record. It adds one log line, about that file |
| `Schemas.UnreadableSchemaIsOnlyLogged` | src/main/java/org/jenkinsci/plugins/osfbuildersuite/xmllinter/XMLLinterBuilder.java:252-259 | an `IOException` or `ParserConfigurationException` leaves registry and error list unchanged |
| `Schemas.NoNamespaceIsSkipped` | src/main/java/org/jenkinsci/plugins/osfbuildersuite/xmllinter/XMLLinterBuilder.java:207-219 | a schema with an empty or missing `targetNamespace` adds no entry and no error, only a skip line |
| `Schemas.SchemaLogFollowsFiles` | src/main/java/org/jenkinsci/plugins/osfbuildersuite/xmllinter/XMLLinterBuilder.java:194-260 | one log line per schema file, in walk order, about that file |
| `Documents.LintDocuments` | src/main/java/org/jenkinsci/plugins/osfbuildersuite/xmllinter/XMLLinterBuilder.java:265-348 | the loop over the walk appends the document phase's errors to the list the schema phase left. Its validations and log are those of the phase folded over the selected `.xml` files |
| `Documents.LintFile` | src/main/java/org/jenkinsci/plugins/osfbuildersuite/xmllinter/XMLLinterBuilder.java:270-347 | the per-document lambda performs exactly one step of the document phase on the running state |
| `Documents.DocumentErrorsAreFaults` | src/main/java/org/jenkinsci/plugins/osfbuildersuite/xmllinter/XMLLinterBuilder.java:308-347 | the document phase's error list is exactly the records of the documents whose parse, schema compilation or validation throws a SAX exception, in walk order, under the document's path |
| `Documents.ValidatorRunsOnMatchedOnly` | src/main/java/org/jenkinsci/plugins/osfbuildersuite/xmllinter/XMLLinterBuilder.java:283-301 | the validator runs on exactly the documents whose non-empty `xmlns` is a registry key, in walk order, each against the schema file registered for that namespace |
| `Documents.SkippedDocumentAddsNothing` | src/main/java/org/jenkinsci/plugins/osfbuildersuite/xmllinter/XMLLinterBuilder.java:296-307 | a document with an empty or unregistered `xmlns` adds no validation and no error. It adds one skip line with the matching reason |
| `Documents.ValidatedDocumentRecords` | src/main/java/org/jenkinsci/plugins/osfbuildersuite/xmllinter/XMLLinterBuilder.java:284-295 | a matched document is validated against its schema. It adds no error when it conforms and exactly one when validation throws a SAX exception |
| `Documents.UnreadableDocumentIsOnlyLogged` | src/main/java/org/jenkinsci/plugins/osfbuildersuite/xmllinter/XMLLinterBuilder.java:340-347 | an `IOException` or `ParserConfigurationException` on a document adds no error record |
| `Documents.DocumentLogFollowsFiles` | src/main/java/org/jenkinsci/plugins/osfbuildersuite/xmllinter/XMLLinterBuilder.java:270-348 | one log line per document, in walk order, about that document |
| `Linter.CheckDirectory` | src/main/java/org/jenkinsci/plugins/osfbuildersuite/xmllinter/XMLLinterBuilder.java:151-166 | the first failing check among empty / outside workspace / missing / not a directory decides the abort. None fails iff the path is non-empty, inside, existing and a directory |
| `Linter.GuardChecksInOrder` | src/main/java/org/jenkinsci/plugins/osfbuildersuite/xmllinter/XMLLinterBuilder.java:151-184 | the XSDs checks run before the XMLs checks. The guard passes iff both directories pass all four checks, and a failing guard aborts the run with the reason of the first failing check, with no log line, error, report or validation. After a passing guard, a failing report step aborts the run with its own reason |
| `Linter.EscapingPathAborts` | src/main/java/org/jenkinsci/plugins/osfbuildersuite/xmllinter/XMLLinterBuilder.java:155-176 | for a normal, non-empty workspace root whose last name is not `outside`, `../outside` aborts as outside the workspace, with no log line and no error. This holds when it is the XSDs path, and when it is the XMLs path after any XSDs path that passes its four checks |
| `Linter.SchemaErrorsComeFirst` | src/main/java/org/jenkinsci/plugins/osfbuildersuite/xmllinter/XMLLinterBuilder.java:186-348 | the error list is the schema phase's records followed by the document phase's. The log has one line per schema file, then one per document, in walk order |
| `Linter.ReportPathCheckedLast` | src/main/java/org/jenkinsci/plugins/osfbuildersuite/xmllinter/XMLLinterBuilder.java:353-359 | a report path outside the workspace aborts only after every schema file and document has been processed, and no report is written |
| `Linter.ReportWrittenIffRequested` | src/main/java/org/jenkinsci/plugins/osfbuildersuite/xmllinter/XMLLinterBuilder.java:353-383 | a report is written iff a report path is given and the guard and report step pass. It holds the whole error list, and a run failing for recorded errors has written it first. The run passes iff the guard and report step pass and no error was recorded |
| `Linter.VerdictIsErrorListEmptiness` | src/main/java/org/jenkinsci/plugins/osfbuildersuite/xmllinter/XMLLinterBuilder.java:381-383 | once guard and report step pass, the run fails iff the error list is non-empty, and then only with `LintFailed` (the "XMLLint FAILED!" abort); a report, if asked for, holds the whole list |
| `Linter.OneBadDocumentScenario` | src/main/java/org/jenkinsci/plugins/osfbuildersuite/xmllinter/XMLLinterBuilder.java:283-327 | one schema for `urn:a`, a conforming document and a violating one give exactly one record, for the violating document |
| `Linter.XmlLinterCallable.Invoke` | src/main/java/org/jenkinsci/plugins/osfbuildersuite/xmllinter/XMLLinterBuilder.java:147-386 | the method's outcome (abort reason, errors, report, log, validations) is `Invocation` of the configured paths |
| `Linter.XmlLinterCallable.constructor` | src/main/java/org/jenkinsci/plugins/osfbuildersuite/xmllinter/XMLLinterBuilder.java:132-144 | the callable keeps the three configured paths |

## Behaviour worth knowing

- The report path is checked only after both loops (line 355). A report path
  outside the workspace therefore aborts after every file has been processed
  (`ReportPathCheckedLast`).
- An `IOException` or `ParserConfigurationException` on a file is only logged
  (lines 252-259, 340-347). An unreadable file never fails the run.
- The map keeps the XSD `File` (line 208) and compiles it again for every
  matching document (lines 286-290). A schema that parses but does not compile
  gives one record per matching document, filed under the document's path.
- `getLineNumber()` may be -1 when the parser has no line, so `startLine` and
  `endLine` are plain integers.

## Left out

- The Jenkins glue is not part of this model: `perform`, `DescriptorImpl`, the
  `@DataBoundSetter` setters, `MasterToSlaveFileCallable` remoting, and
  `TaskListener` set-up. It is host plumbing with no logic.
- JAXP parsing, schema compilation and validation are foreign library calls.
  They are the given functions `Xml.parse` and `Xml.validate`, with the four
  exception kinds as `Fault`. `Environment.GetAttribute` is part of this
  oracle: it reads the attribute map of the root element and gives `""` for an
  absent attribute. Runtime exceptions from those libraries are not modelled.
  `Xml.validate` may return `NotValid(ConfigurationFault)` although schema
  compilation and validation never throw `ParserConfigurationException`. That
  case records nothing, as `UnreadableDocumentIsOnlyLogged` shows, so the
  over-approximation is harmless.
- The file-system predicates (`exists`, `isDirectory`, `isRegularFile`,
  `mkdirs`) and the walk order of `Files.walk` are given functions. An
  `IOException` thrown by `Files.walk` itself is not modelled; it would leave
  `invoke` uncaught. Symbolic links are invisible to the model, because the
  predicates are applied to the path as built.
- The random UUID file name, the check that the report file exists, and the
  report write are randomness and I/O. The name check is the boolean
  `nameTaken`. The report is the error list it would hold. Gson's JSON encoding
  and a failing write are not modelled.
- `Environment.SourceAt`: it takes `Path.relativize` of a walked path to be the
  caller's path components followed by the walk components. A `relativize` that
  also normalised `.`/`..` would change only the text of the record's `path`.
- Log message text is not modelled. Neither are the banner lines (`[+] Loading
  XSD files …`, ` + Done`). The log is one line kind per file.
- `Paths.Lower`: it lower-cases ASCII letters only, where
  `String.toLowerCase` maps all of Unicode. For the suffixes `.xsd` and `.xml`
  only ASCII letters lower-case into their characters.
- The configured paths are strings and never null. `StringUtils.isEmpty(null)`
  is the same as the empty string here. Only the Unix separator `/` is
  modelled.
- `Paths.Upper`: it upper-cases ASCII letters only. It serves only the second
  half of `ExtensionIgnoresCase`, and line 193 never upper-cases. That half does
  not carry over to Java's `String.toUpperCase`. That method maps `ſ` (U+017F)
  to `S`, so `a.xſd` fails the `.xsd` filter, while its upper-cased form `A.XSD`
  passes.
- The path lemmas (`NormalizeBelowRoot`, `DescendingStaysInside`,
  `ClimbingOut`, `DotIsRoot`, `ParentEscapes`, `EscapingPathAborts`) take the workspace path to be
  absolute and normal, as Jenkins' workspace directory is. For a root holding
  `.` or `..` the code refuses every sub-path, `.` included. `Invocation`
  itself assumes nothing about the root.
- `File.toPath()` throws `InvalidPathException` for a configured path that
  contains a NUL character (lines 156, 174, 355). That exception is not an
  `AbortException` and nothing catches it. It is not modelled: such a path is
  split into ordinary names.
