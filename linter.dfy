/** XMLLinterCallable.invoke: the path guards on the XSDs and XMLs
    directories, the schema phase, the document phase, the optional report and
    the final verdict. Every AbortException the method throws is an `Abort`. */
module Linter {
  import opened Paths
  import opened Environment
  import opened Schemas
  import opened Documents

  /** The three caller-supplied paths. */
  datatype Input = XsdsPath | XmlsPath | ReportPath

  /** Why invoke throws an AbortException. */
  datatype Abort =
    | Missing(input: Input)
    | OutsideWorkspace(input: Input)
    | NotFound(input: Input)
    | NotADirectory(input: Input)
    | ReportDirNotCreated
    | ReportFileExists
    | LintFailed

  /** What one run of invoke produces: how it ends (None when it returns
      normally), the error list it built, the report it wrote (None when it
      wrote none), the per-file log lines of both phases and the pairs
      (document, schema file) it validated. */
  datatype Outcome = Outcome(
    abort: Option<Abort>,
    errors: seq<ErrorRecord>,
    report: Option<seq<ErrorRecord>>,
    log: seq<LogLine>,
    validations: seq<(Path, Path)>)

  /** The four checks of one required directory, in the order of lines
      151-166 (and 169-184): empty, outside the workspace, missing, not a
      directory. The first that fails decides the abort. */
  function CheckDirectory(fs: FileSystem, root: Path, path: string, input: Input): (r: Option<Abort>)
    ensures r == None <==> DirectoryOk(fs, root, path)
    ensures r == Some(Missing(input)) <==> path == ""
    ensures r == Some(OutsideWorkspace(input)) <==> path != "" && !InsideRoot(root, Segments(path))
    ensures r == Some(NotFound(input)) <==>
      path != "" && InsideRoot(root, Segments(path)) && !fs.fileExists(root + Segments(path))
    ensures r == Some(NotADirectory(input)) <==>
      path != "" && InsideRoot(root, Segments(path)) && fs.fileExists(root + Segments(path))
      && !fs.isDirectory(root + Segments(path))
  {
    var dir := root + Segments(path);
    if path == "" then Some(Missing(input))
    else if !StartsWith(Normalize(dir), root) then Some(OutsideWorkspace(input))
    else if !fs.fileExists(dir) then Some(NotFound(input))
    else if !fs.isDirectory(dir) then Some(NotADirectory(input))
    else None
  }

  /** All four checks pass for the path: non-empty, inside the workspace,
      existing, a directory. */
  predicate DirectoryOk(fs: FileSystem, root: Path, path: string) {
    path != "" && InsideRoot(root, Segments(path))
    && fs.fileExists(root + Segments(path)) && fs.isDirectory(root + Segments(path))
  }

  /** The guard of lines 151-184: the XSDs path first, then the XMLs path. */
  function Guard(fs: FileSystem, root: Path, xsdsPath: string, xmlsPath: string): Option<Abort> {
    var xsds := CheckDirectory(fs, root, xsdsPath, XsdsPath);
    if xsds.Some? then xsds else CheckDirectory(fs, root, xmlsPath, XmlsPath)
  }

  /** The files of each phase. */
  function XsdFiles(fs: FileSystem, root: Path, xsdsPath: string): seq<SourceFile> {
    var sub := Segments(xsdsPath);
    Candidates(fs, root, sub, fs.walk(root + sub), XsdExtension)
  }

  function XmlFiles(fs: FileSystem, root: Path, xmlsPath: string): seq<SourceFile> {
    var sub := Segments(xmlsPath);
    Candidates(fs, root, sub, fs.walk(root + sub), XmlExtension)
  }

  /** Lines 353-379: nothing when the report path is empty; otherwise the
      workspace check, creating the directory when it is missing, and refusing
      a report file name that is already taken. `nameTaken` stands for the
      fresh `XMLLint.<uuid>.json` file existing already. */
  function ReportStep(fs: FileSystem, root: Path, reportPath: string, nameTaken: bool): Option<Abort> {
    if reportPath == "" then None
    else
      var dir := root + Segments(reportPath);
      if !InsideRoot(root, Segments(reportPath)) then Some(OutsideWorkspace(ReportPath))
      else if !fs.fileExists(dir) && !fs.mkdirs(dir) then Some(ReportDirNotCreated)
      else if nameTaken then Some(ReportFileExists)
      else None
  }

  /** The whole of invoke, as a function of its inputs. */
  function Invocation(fs: FileSystem, xml: Xml, root: Path, xsdsPath: string, xmlsPath: string,
                      reportPath: string, nameTaken: bool): Outcome
  {
    var guard := Guard(fs, root, xsdsPath, xmlsPath);
    if guard.Some? then Outcome(guard, [], None, [], [])
    else
      var schemas := SchemaPhase(xml, XsdFiles(fs, root, xsdsPath));
      var documents := DocumentPhase(xml, schemas.registry, XmlFiles(fs, root, xmlsPath));
      var errors := schemas.errors + documents.errors;
      var log := schemas.log + documents.log;
      var report := ReportStep(fs, root, reportPath, nameTaken);
      if report.Some? then Outcome(report, errors, None, log, documents.validations)
      else
        Outcome(if errors != [] then Some(LintFailed) else None,
                errors,
                if reportPath != "" then Some(errors) else None,
                log,
                documents.validations)
  }

  /** XMLLinterCallable: the three configured paths, fixed at construction. */
  class XmlLinterCallable {
    const xsdsPath: string
    const xmlsPath: string
    const reportPath: string

    constructor (xsdsPath: string, xmlsPath: string, reportPath: string)
      ensures this.xsdsPath == xsdsPath && this.xmlsPath == xmlsPath && this.reportPath == reportPath
    {
      this.xsdsPath := xsdsPath;
      this.xmlsPath := xmlsPath;
      this.reportPath := reportPath;
    }

    /** invoke(dir): `root` is the workspace directory, `fs` and `xml` the
        file system and the JAXP calls, `nameTaken` the outcome of the report
        file name check. */
    method Invoke(fs: FileSystem, xml: Xml, root: Path, nameTaken: bool) returns (out: Outcome)
      ensures out == Invocation(fs, xml, root, xsdsPath, xmlsPath, reportPath, nameTaken)
    {
      var abort := CheckDirectory(fs, root, xsdsPath, XsdsPath);
      if abort.Some? {
        return Outcome(abort, [], None, [], []);
      }
      abort := CheckDirectory(fs, root, xmlsPath, XmlsPath);
      if abort.Some? {
        return Outcome(abort, [], None, [], []);
      }

      var registry, errors, schemaLog := LoadSchemas(fs, xml, root, Segments(xsdsPath));
      var validations, documentLog;
      errors, validations, documentLog := LintDocuments(fs, xml, registry, root, Segments(xmlsPath), errors);
      var log := schemaLog + documentLog;

      if reportPath != "" {
        var reportSub := Segments(reportPath);
        var reportDir := root + reportSub;
        if !StartsWith(Normalize(reportDir), root) {
          return Outcome(Some(OutsideWorkspace(ReportPath)), errors, None, log, validations);
        }
        if !fs.fileExists(reportDir) {
          if !fs.mkdirs(reportDir) {
            return Outcome(Some(ReportDirNotCreated), errors, None, log, validations);
          }
        }
        if nameTaken {
          return Outcome(Some(ReportFileExists), errors, None, log, validations);
        }
      }
      var report := if reportPath != "" then Some(errors) else None;

      if |errors| > 0 {
        return Outcome(Some(LintFailed), errors, report, log, validations);
      }
      return Outcome(None, errors, report, log, validations);
    }
  }

  /** The guard's checks run in a fixed order, the first failure aborts, and
      then no file has been read: no log line, no error, no report. */
  lemma GuardChecksInOrder(fs: FileSystem, xml: Xml, root: Path, xsdsPath: string, xmlsPath: string,
                           reportPath: string, nameTaken: bool)
    ensures var g := Guard(fs, root, xsdsPath, xmlsPath);
      && (g == None <==> DirectoryOk(fs, root, xsdsPath) && DirectoryOk(fs, root, xmlsPath))
      && (!DirectoryOk(fs, root, xsdsPath) ==> g == CheckDirectory(fs, root, xsdsPath, XsdsPath))
      && (DirectoryOk(fs, root, xsdsPath) ==> g == CheckDirectory(fs, root, xmlsPath, XmlsPath))
    ensures var out := Invocation(fs, xml, root, xsdsPath, xmlsPath, reportPath, nameTaken);
      out.abort == Some(Missing(XsdsPath)) <==> xsdsPath == ""
    ensures var out := Invocation(fs, xml, root, xsdsPath, xmlsPath, reportPath, nameTaken);
      out.abort == Some(Missing(XmlsPath)) <==> DirectoryOk(fs, root, xsdsPath) && xmlsPath == ""
    ensures var out := Invocation(fs, xml, root, xsdsPath, xmlsPath, reportPath, nameTaken);
      !(DirectoryOk(fs, root, xsdsPath) && DirectoryOk(fs, root, xmlsPath)) ==>
        out.log == [] && out.errors == [] && out.report == None && out.validations == [] && out.abort.Some?
    ensures var out := Invocation(fs, xml, root, xsdsPath, xmlsPath, reportPath, nameTaken);
      Guard(fs, root, xsdsPath, xmlsPath).Some? ==> out.abort == Guard(fs, root, xsdsPath, xmlsPath)
    ensures var out := Invocation(fs, xml, root, xsdsPath, xmlsPath, reportPath, nameTaken);
      Guard(fs, root, xsdsPath, xmlsPath) == None && ReportStep(fs, root, reportPath, nameTaken).Some? ==>
        out.abort == ReportStep(fs, root, reportPath, nameTaken)
  {
  }

  /** Once both directories pass the guard and the report step (if any)
      succeeds, the run passes exactly when no error was recorded; when it
      fails for recorded errors, the report, if one was asked for, was written
      first and holds exactly those errors. */
  lemma VerdictIsErrorListEmptiness(fs: FileSystem, xml: Xml, root: Path, xsdsPath: string, xmlsPath: string,
                                    reportPath: string, nameTaken: bool)
    requires Guard(fs, root, xsdsPath, xmlsPath) == None
    requires ReportStep(fs, root, reportPath, nameTaken) == None
    ensures var out := Invocation(fs, xml, root, xsdsPath, xmlsPath, reportPath, nameTaken);
      && (out.abort == None <==> out.errors == [])
      && (out.abort != None <==> out.abort == Some(LintFailed))
      && (out.report.Some? <==> reportPath != "")
      && (out.report.Some? ==> out.report.value == out.errors)
  {
  }

  /** The error list holds the schema phase's records, then the document
      phase's, and the log one line per schema file then one per document. */
  lemma SchemaErrorsComeFirst(fs: FileSystem, xml: Xml, root: Path, xsdsPath: string, xmlsPath: string,
                              reportPath: string, nameTaken: bool)
    requires Guard(fs, root, xsdsPath, xmlsPath) == None
    ensures var out := Invocation(fs, xml, root, xsdsPath, xmlsPath, reportPath, nameTaken);
      var schemas := SchemaPhase(xml, XsdFiles(fs, root, xsdsPath));
      var documents := DocumentPhase(xml, schemas.registry, XmlFiles(fs, root, xmlsPath));
      && out.errors == schemas.errors + documents.errors
      && |out.log| == |XsdFiles(fs, root, xsdsPath)| + |XmlFiles(fs, root, xmlsPath)|
      && (forall k :: 0 <= k < |XsdFiles(fs, root, xsdsPath)| ==>
            out.log[k].path == XsdFiles(fs, root, xsdsPath)[k].relative)
      && (forall k :: 0 <= k < |XmlFiles(fs, root, xmlsPath)| ==>
            out.log[|XsdFiles(fs, root, xsdsPath)| + k].path == XmlFiles(fs, root, xmlsPath)[k].relative)
  {
    var schemas := SchemaPhase(xml, XsdFiles(fs, root, xsdsPath));
    SchemaLogFollowsFiles(xml, XsdFiles(fs, root, xsdsPath));
    DocumentLogFollowsFiles(xml, schemas.registry, XmlFiles(fs, root, xmlsPath));
  }

  /** The report path is checked only after both phases have run: a report
      path outside the workspace aborts the run, but every schema file and
      every document has been processed by then, and no report is written. */
  lemma ReportPathCheckedLast(fs: FileSystem, xml: Xml, root: Path, xsdsPath: string, xmlsPath: string,
                              reportPath: string, nameTaken: bool)
    requires Guard(fs, root, xsdsPath, xmlsPath) == None
    requires reportPath != "" && !InsideRoot(root, Segments(reportPath))
    ensures var out := Invocation(fs, xml, root, xsdsPath, xmlsPath, reportPath, nameTaken);
      && out.abort == Some(OutsideWorkspace(ReportPath))
      && out.report == None
      && |out.log| == |XsdFiles(fs, root, xsdsPath)| + |XmlFiles(fs, root, xmlsPath)|
  {
    SchemaErrorsComeFirst(fs, xml, root, xsdsPath, xmlsPath, reportPath, nameTaken);
  }

  /** A report is written exactly when a report path is given, both guards
      pass and the report step succeeds; it holds the whole error list. */
  lemma ReportWrittenIffRequested(fs: FileSystem, xml: Xml, root: Path, xsdsPath: string, xmlsPath: string,
                                  reportPath: string, nameTaken: bool)
    ensures var out := Invocation(fs, xml, root, xsdsPath, xmlsPath, reportPath, nameTaken);
      && (out.report.Some? <==>
            reportPath != "" && Guard(fs, root, xsdsPath, xmlsPath) == None
            && ReportStep(fs, root, reportPath, nameTaken) == None)
      && (out.report.Some? ==> out.report.value == out.errors)
      && (out.abort == Some(LintFailed) ==> out.errors != [] && (reportPath != "" ==> out.report == Some(out.errors)))
      && (out.abort == None <==>
            Guard(fs, root, xsdsPath, xmlsPath) == None && ReportStep(fs, root, reportPath, nameTaken) == None
            && out.errors == [])
  {
  }

  /** A path that climbs out of the workspace ("../outside") aborts the run
      at the guard, before any file is read: as the XSDs path, or as the XMLs
      path after any XSDs path that passes its checks. */
  lemma EscapingPathAborts(fs: FileSystem, xml: Xml, root: Path, name: string, xsdsPath: string, xmlsPath: string,
                           reportPath: string, nameTaken: bool)
    requires IsNormal(root) && |root| > 0
    requires IsName(name) && name != "." && name != ".." && root[|root| - 1] != name
    ensures var out := Invocation(fs, xml, root, ".." + [Separator] + name, xmlsPath, reportPath, nameTaken);
      out.abort == Some(OutsideWorkspace(XsdsPath)) && out.log == [] && out.errors == []
    ensures DirectoryOk(fs, root, xsdsPath) ==>
      var out := Invocation(fs, xml, root, xsdsPath, ".." + [Separator] + name, reportPath, nameTaken);
      out.abort == Some(OutsideWorkspace(XmlsPath)) && out.log == [] && out.errors == []
  {
    ParentEscapes(root, name);
  }

  /** One schema for urn:a, a conforming document and one that violates it:
      the registry holds urn:a, both documents are validated against it, and
      the error list is exactly one record, for the violating document. */
  lemma OneBadDocumentScenario(xml: Xml, a: SourceFile, good: SourceFile, bad: SourceFile, line: int, message: string)
    requires xml.parse(a.file) == Document(Element(map["targetNamespace" := "urn:a"]))
    requires xml.parse(good.file) == Document(Element(map["xmlns" := "urn:a"]))
    requires xml.parse(bad.file) == Document(Element(map["xmlns" := "urn:a"]))
    requires xml.validate(a.file, good.file) == Valid
    requires xml.validate(a.file, bad.file) == NotValid(SaxParseFault(line, message))
    ensures var schemas := SchemaPhase(xml, [a]);
      var documents := DocumentPhase(xml, schemas.registry, [good, bad]);
      && schemas.registry == map["urn:a" := a.file]
      && schemas.errors + documents.errors == [ErrorRecord(bad.relative, line, line, "failure", message)]
      && documents.validations == [(good.file, a.file), (bad.file, a.file)]
  {
    SchemaPhaseSnoc(xml, [], a);
    assert [] + [a] == [a];
    assert GetAttribute(xml.parse(a.file).root, "targetNamespace") == "urn:a";
    var schemas := SchemaPhase(xml, [a]);
    assert schemas.registry == map["urn:a" := a.file];
    assert schemas.errors == [];
    DocumentPhaseSnoc(xml, schemas.registry, [], good);
    assert [] + [good] == [good];
    DocumentPhaseSnoc(xml, schemas.registry, [good], bad);
    assert [good] + [bad] == [good, bad];
    assert GetAttribute(xml.parse(good.file).root, "xmlns") == "urn:a";
    assert GetAttribute(xml.parse(bad.file).root, "xmlns") == "urn:a";
  }
}
