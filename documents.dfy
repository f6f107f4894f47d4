/** The document phase of the linter: every walked `.xml` file is parsed, its
    root element's literal `xmlns` attribute is looked up in the schema
    registry, and a matched document is validated against the registered
    schema file. A SAX fault, from the parse, the schema compilation or the
    validation, appends one error record under the document's path. */
module Documents {
  import opened Paths
  import opened Environment

  const XmlExtension: string := ".xml"

  /** What the phase has produced so far: the error records it added, the
      (document, schema) pairs it handed to the validator, and its log lines. */
  datatype LintState = LintState(errors: seq<ErrorRecord>, validations: seq<(Path, Path)>, log: seq<LogLine>)

  /** The document has an `xmlns` that the registry knows, so it is validated. */
  predicate Matched(xml: Xml, registry: map<string, Path>, f: SourceFile) {
    xml.parse(f.file).Document? &&
    var ns := GetAttribute(xml.parse(f.file).root, "xmlns");
    ns != "" && ns in registry
  }

  /** The schema file a matched document is validated against. */
  function SchemaFor(xml: Xml, registry: map<string, Path>, f: SourceFile): Path
    requires Matched(xml, registry, f)
  {
    registry[GetAttribute(xml.parse(f.file).root, "xmlns")]
  }

  /** The exception, if any, that processing the document throws. */
  function DocumentFault(xml: Xml, registry: map<string, Path>, f: SourceFile): Option<Fault> {
    match xml.parse(f.file)
    case NotParsed(fault) => Some(fault)
    case Document(_) =>
      if Matched(xml, registry, f) && xml.validate(SchemaFor(xml, registry, f), f.file).NotValid?
      then Some(xml.validate(SchemaFor(xml, registry, f), f.file).fault)
      else None
  }

  /** The body of the forEach lambda for one document. */
  function LintStep(xml: Xml, registry: map<string, Path>, s: LintState, f: SourceFile): LintState {
    match xml.parse(f.file)
    case NotParsed(fault) =>
      LintState(s.errors + RecordsFor(f.relative, fault), s.validations, s.log + [Failed(f.relative, fault)])
    case Document(root) =>
      var ns := GetAttribute(root, "xmlns");
      if ns == "" then
        LintState(s.errors, s.validations, s.log + [Skipped(f.relative, MissingXmlns)])
      else if ns !in registry then
        LintState(s.errors, s.validations, s.log + [Skipped(f.relative, NoMatchingXsd)])
      else
        var validations := s.validations + [(f.file, registry[ns])];
        match xml.validate(registry[ns], f.file)
        case Valid =>
          LintState(s.errors, validations, s.log + [Linted(f.relative)])
        case NotValid(fault) =>
          LintState(s.errors + RecordsFor(f.relative, fault), validations, s.log + [Failed(f.relative, fault)])
  }

  /** The state after processing files in order, from nothing. */
  function DocumentPhase(xml: Xml, registry: map<string, Path>, files: seq<SourceFile>): LintState {
    if files == [] then LintState([], [], [])
    else LintStep(xml, registry, DocumentPhase(xml, registry, files[..|files| - 1]), files[|files| - 1])
  }

  lemma DocumentPhaseSnoc(xml: Xml, registry: map<string, Path>, files: seq<SourceFile>, f: SourceFile)
    ensures DocumentPhase(xml, registry, files + [f]) == LintStep(xml, registry, DocumentPhase(xml, registry, files), f)
  {
    assert (files + [f])[..|files|] == files;
  }

  /** The documents whose processing throws a SAX exception, in walk order. */
  function DocumentFaults(xml: Xml, registry: map<string, Path>, files: seq<SourceFile>): (r: seq<SourceFile>)
    ensures |r| <= |files|
    ensures forall k :: 0 <= k < |r| ==>
      DocumentFault(xml, registry, r[k]).Some? && Recorded(DocumentFault(xml, registry, r[k]).value)
  {
    if files == [] then []
    else
      var f := files[|files| - 1];
      var fault := DocumentFault(xml, registry, f);
      DocumentFaults(xml, registry, files[..|files| - 1])
        + (if fault.Some? && Recorded(fault.value) then [f] else [])
  }

  /** The documents that have a registered `xmlns`, in walk order. */
  function MatchedDocuments(xml: Xml, registry: map<string, Path>, files: seq<SourceFile>): (r: seq<SourceFile>)
    ensures |r| <= |files|
    ensures forall k :: 0 <= k < |r| ==> Matched(xml, registry, r[k])
  {
    if files == [] then []
    else
      var f := files[|files| - 1];
      MatchedDocuments(xml, registry, files[..|files| - 1]) + (if Matched(xml, registry, f) then [f] else [])
  }

  /** s is the phase's state over files, behind the errors `prefix` already held. */
  predicate Continues(xml: Xml, registry: map<string, Path>, files: seq<SourceFile>, prefix: seq<ErrorRecord>, s: LintState) {
    var d := DocumentPhase(xml, registry, files);
    s.errors == prefix + d.errors && s.validations == d.validations && s.log == d.log
  }

  /** The method: the loop of lines 267-348 over the walk of `root/sub`; it
      appends to the error list the schema phase started. */
  method LintDocuments(fs: FileSystem, xml: Xml, registry: map<string, Path>, root: Path, sub: Path,
                       errorsIn: seq<ErrorRecord>)
    returns (errors: seq<ErrorRecord>, validations: seq<(Path, Path)>, log: seq<LogLine>)
    ensures var d := DocumentPhase(xml, registry, Candidates(fs, root, sub, fs.walk(root + sub), XmlExtension));
      errors == errorsIn + d.errors && validations == d.validations && log == d.log
  {
    var walked := fs.walk(root + sub);
    errors, validations, log := errorsIn, [], [];
    var i := 0;
    while i < |walked|
      invariant 0 <= i <= |walked|
      invariant Continues(xml, registry, Candidates(fs, root, sub, walked[..i], XmlExtension), errorsIn,
                          LintState(errors, validations, log))
    {
      var file := root + sub + walked[i];
      ghost var before := LintState(errors, validations, log);
      if fs.isRegularFile(file) && HasExtension(FileName(file), XmlExtension) {
        errors, validations, log := LintFile(xml, registry, SourceFile(file, Join(sub + walked[i])), errors, validations, log);
      }
      LintLoopAdvance(fs, xml, registry, root, sub, walked, i, errorsIn, before, LintState(errors, validations, log));
      i := i + 1;
    }
    assert walked[..i] == walked;
  }

  /** One turn of the loop: the state after entry i is the phase over the
      candidates among the first i + 1 entries. */
  lemma LintLoopAdvance(fs: FileSystem, xml: Xml, registry: map<string, Path>, root: Path, sub: Path,
                        walked: seq<Path>, i: nat, errorsIn: seq<ErrorRecord>, s: LintState, t: LintState)
    requires i < |walked|
    requires Continues(xml, registry, Candidates(fs, root, sub, walked[..i], XmlExtension), errorsIn, s)
    requires t == if Selected(fs, root + sub + walked[i], XmlExtension)
                  then LintStep(xml, registry, s, SourceAt(root, sub, walked[i])) else s
    ensures Continues(xml, registry, Candidates(fs, root, sub, walked[..i + 1], XmlExtension), errorsIn, t)
  {
    CandidatesStep(fs, root, sub, walked, i, XmlExtension);
    if Selected(fs, root + sub + walked[i], XmlExtension) {
      LintLoopStep(xml, registry, Candidates(fs, root, sub, walked[..i], XmlExtension),
                   SourceAt(root, sub, walked[i]), errorsIn, s, t);
    } else {
      assert Candidates(fs, root, sub, walked[..i + 1], XmlExtension)
        == Candidates(fs, root, sub, walked[..i], XmlExtension);
    }
  }

  lemma LintLoopStep(xml: Xml, registry: map<string, Path>, files: seq<SourceFile>, f: SourceFile,
                     errorsIn: seq<ErrorRecord>, s: LintState, t: LintState)
    requires Continues(xml, registry, files, errorsIn, s)
    requires t == LintStep(xml, registry, s, f)
    ensures Continues(xml, registry, files + [f], errorsIn, t)
  {
    DocumentPhaseSnoc(xml, registry, files, f);
    LintStepAppends(xml, registry, errorsIn, DocumentPhase(xml, registry, files), f);
  }

  /** The step only appends to the error list it is given. */
  lemma LintStepAppends(xml: Xml, registry: map<string, Path>, prefix: seq<ErrorRecord>, s: LintState, f: SourceFile)
    ensures LintStep(xml, registry, LintState(prefix + s.errors, s.validations, s.log), f)
      == var t := LintStep(xml, registry, s, f); LintState(prefix + t.errors, t.validations, t.log)
  {
    forall e: seq<ErrorRecord> ensures prefix + s.errors + e == prefix + (s.errors + e) {
    }
  }

  /** The lambda passed to forEach, for one document. */
  method LintFile(xml: Xml, registry: map<string, Path>, f: SourceFile,
                  errorsIn: seq<ErrorRecord>, validationsIn: seq<(Path, Path)>, logIn: seq<LogLine>)
    returns (errors: seq<ErrorRecord>, validations: seq<(Path, Path)>, log: seq<LogLine>)
    ensures LintState(errors, validations, log) == LintStep(xml, registry, LintState(errorsIn, validationsIn, logIn), f)
  {
    errors, validations, log := errorsIn, validationsIn, logIn;
    match xml.parse(f.file)
    case NotParsed(fault) =>
      errors := AppendRecord(errors, f.relative, fault);
      log := log + [Failed(f.relative, fault)];
    case Document(element) =>
      var ns := GetAttribute(element, "xmlns");
      if ns != "" {
        if ns in registry {
          var xsdFile := registry[ns];
          validations := validations + [(f.file, xsdFile)];
          match xml.validate(xsdFile, f.file)
          case Valid =>
            log := log + [Linted(f.relative)];
          case NotValid(fault) =>
            errors := AppendRecord(errors, f.relative, fault);
            log := log + [Failed(f.relative, fault)];
        } else {
          log := log + [Skipped(f.relative, NoMatchingXsd)];
        }
      } else {
        log := log + [Skipped(f.relative, MissingXmlns)];
      }
  }

  /** The phase's errors are the record of each SAX-faulty document, in walk
      order: documents that are skipped, conform, or fail with an IOException
      or a ParserConfigurationException contribute nothing. */
  lemma {:induction false} DocumentErrorsAreFaults(xml: Xml, registry: map<string, Path>, files: seq<SourceFile>)
    ensures |DocumentPhase(xml, registry, files).errors| == |DocumentFaults(xml, registry, files)|
    ensures forall k :: 0 <= k < |DocumentFaults(xml, registry, files)| ==>
      DocumentPhase(xml, registry, files).errors[k]
        == RecordOf(DocumentFaults(xml, registry, files)[k].relative,
                    DocumentFault(xml, registry, DocumentFaults(xml, registry, files)[k]).value)
  {
    if files != [] {
      DocumentErrorsAreFaults(xml, registry, files[..|files| - 1]);
    }
  }

  /** The validator is run on exactly the documents whose `xmlns` is a registry
      key, in walk order, each with the schema file registered for it. */
  lemma {:induction false} ValidatorRunsOnMatchedOnly(xml: Xml, registry: map<string, Path>, files: seq<SourceFile>)
    ensures |DocumentPhase(xml, registry, files).validations| == |MatchedDocuments(xml, registry, files)|
    ensures forall k :: 0 <= k < |MatchedDocuments(xml, registry, files)| ==>
      DocumentPhase(xml, registry, files).validations[k]
        == (MatchedDocuments(xml, registry, files)[k].file,
            SchemaFor(xml, registry, MatchedDocuments(xml, registry, files)[k]))
  {
    if files != [] {
      ValidatorRunsOnMatchedOnly(xml, registry, files[..|files| - 1]);
    }
  }

  /** A document with an empty `xmlns`, or one the registry does not know, is
      skipped: no validation, no error, one skip line. */
  lemma SkippedDocumentAddsNothing(xml: Xml, registry: map<string, Path>, files: seq<SourceFile>, f: SourceFile)
    requires xml.parse(f.file).Document?
    requires var ns := GetAttribute(xml.parse(f.file).root, "xmlns"); ns == "" || ns !in registry
    ensures DocumentPhase(xml, registry, files + [f]).errors == DocumentPhase(xml, registry, files).errors
    ensures DocumentPhase(xml, registry, files + [f]).validations == DocumentPhase(xml, registry, files).validations
    ensures var reason := if GetAttribute(xml.parse(f.file).root, "xmlns") == "" then MissingXmlns else NoMatchingXsd;
      DocumentPhase(xml, registry, files + [f]).log == DocumentPhase(xml, registry, files).log + [Skipped(f.relative, reason)]
  {
    DocumentPhaseSnoc(xml, registry, files, f);
  }

  /** A matched document that conforms adds no error; one whose schema compile
      or validation throws a SAX exception adds exactly one record, under the
      document's path even when the fault is in the schema file. */
  lemma ValidatedDocumentRecords(xml: Xml, registry: map<string, Path>, files: seq<SourceFile>, f: SourceFile)
    requires Matched(xml, registry, f)
    ensures var v := xml.validate(SchemaFor(xml, registry, f), f.file);
      DocumentPhase(xml, registry, files + [f]).errors
        == DocumentPhase(xml, registry, files).errors
           + (if v.NotValid? && Recorded(v.fault) then [RecordOf(f.relative, v.fault)] else [])
    ensures DocumentPhase(xml, registry, files + [f]).validations
      == DocumentPhase(xml, registry, files).validations + [(f.file, SchemaFor(xml, registry, f))]
  {
    DocumentPhaseSnoc(xml, registry, files, f);
  }

  /** An IOException or ParserConfigurationException, from the parse or the
      validation, adds no error record. */
  lemma UnreadableDocumentIsOnlyLogged(xml: Xml, registry: map<string, Path>, files: seq<SourceFile>, f: SourceFile)
    requires DocumentFault(xml, registry, f) == Some(IoFault) || DocumentFault(xml, registry, f) == Some(ConfigurationFault)
    ensures DocumentPhase(xml, registry, files + [f]).errors == DocumentPhase(xml, registry, files).errors
  {
    DocumentPhaseSnoc(xml, registry, files, f);
  }

  /** One log line per document, in walk order. */
  lemma {:induction false} DocumentLogFollowsFiles(xml: Xml, registry: map<string, Path>, files: seq<SourceFile>)
    ensures |DocumentPhase(xml, registry, files).log| == |files|
    ensures forall k :: 0 <= k < |files| ==> DocumentPhase(xml, registry, files).log[k].path == files[k].relative
  {
    if files != [] {
      DocumentLogFollowsFiles(xml, registry, files[..|files| - 1]);
    }
  }
}
