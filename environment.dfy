/** What the linter's invoke method works with besides its own state: the
    file-system queries it makes, the XML parser and schema validator it calls
    (both taken as given functions), and the values it produces per file:
    error records and progress-log lines. */
module Environment {
  import opened Paths

  datatype Option<+T> = None | Some(value: T)

  /** The file-system predicates and the directory walk, as given functions.
      `walk(start)` lists what Files.walk(start) yields, in its order, each entry
      as its components below `start` (the start directory itself is []). */
  datatype FileSystem = FileSystem(
    fileExists: Path -> bool,
    isDirectory: Path -> bool,
    isRegularFile: Path -> bool,
    walk: Path -> seq<Path>,
    mkdirs: Path -> bool)

  /** The root element of a parsed document, reduced to its attributes. */
  datatype Element = Element(attributes: map<string, string>)

  /** Element.getAttribute: the empty string when the attribute is absent. */
  function GetAttribute(e: Element, name: string): string {
    if name in e.attributes then e.attributes[name] else ""
  }

  /** The exceptions the per-file work can throw. */
  datatype Fault =
    | SaxParseFault(line: int, message: string)   // SAXParseException, with its line number
    | SaxFault(message: string)                   // any other SAXException
    | IoFault                                     // IOException
    | ConfigurationFault                          // ParserConfigurationException

  /** DocumentBuilder.parse: the root element, or the exception it threw. */
  datatype Parsed = Document(root: Element) | NotParsed(fault: Fault)

  /** newSchema(schema).newValidator().validate(document): nothing, or the
      exception thrown while compiling the schema or validating. */
  datatype Validated = Valid | NotValid(fault: Fault)

  /** The JAXP calls, as given functions of the files they read. */
  datatype Xml = Xml(parse: Path -> Parsed, validate: (Path, Path) -> Validated)

  /** One element of the JSON error report. */
  datatype ErrorRecord = ErrorRecord(
    path: string,
    startLine: int,
    endLine: int,
    annotationLevel: string,
    message: string)

  const FailureLevel: string := "failure"

  /** The faults the linter turns into an error record; the others are only logged. */
  predicate Recorded(fault: Fault) {
    fault.SaxParseFault? || fault.SaxFault?
  }

  /** The error record a caught SAX exception becomes. */
  function RecordOf(relative: string, fault: Fault): (r: ErrorRecord)
    requires Recorded(fault)
  {
    match fault
    case SaxParseFault(line, message) => ErrorRecord(relative, line, line, FailureLevel, message)
    case SaxFault(message) => ErrorRecord(relative, 0, 0, FailureLevel, message)
  }

  /** What a caught exception appends to the error list: one record or none. */
  function RecordsFor(relative: string, fault: Fault): (r: seq<ErrorRecord>)
    ensures |r| <= 1
    ensures |r| == 1 <==> fault.SaxParseFault? || fault.SaxFault?
    ensures forall k :: 0 <= k < |r| ==>
      r[k].path == relative && r[k].annotationLevel == "failure" && r[k].message == fault.message
    ensures forall k :: 0 <= k < |r| ==>
      if fault.SaxParseFault? then r[k].startLine == fault.line && r[k].endLine == fault.line
      else r[k].startLine == 0 && r[k].endLine == 0
  {
    if Recorded(fault) then [RecordOf(relative, fault)] else []
  }

  datatype SkipReason = MissingTargetNamespace | MissingXmlns | NoMatchingXsd

  /** The kind of progress-log line printed for one file. */
  datatype LogLine =
    | Loaded(path: string)
    | Linted(path: string)
    | Skipped(path: string, reason: SkipReason)
    | Failed(path: string, fault: Fault)

  /** A walked file the phase processes: where it is, and its path relative to
      the workspace root as printed and reported. */
  datatype SourceFile = SourceFile(file: Path, relative: string)

  /** The stream filters `Files::isRegularFile` and the lower-cased extension. */
  predicate Selected(fs: FileSystem, file: Path, ext: string) {
    fs.isRegularFile(file) && HasExtension(FileName(file), ext)
  }

  /** The walked entry `entry` below `root/sub`, as a SourceFile: its relative
      path is `sub` followed by the entry, as Path.relativize gives it. */
  function SourceAt(root: Path, sub: Path, entry: Path): SourceFile {
    SourceFile(root + sub + entry, Join(sub + entry))
  }

  /** The files a phase processes: the walked entries that pass both filters,
      in walk order. */
  function Candidates(fs: FileSystem, root: Path, sub: Path, walked: seq<Path>, ext: string): (r: seq<SourceFile>)
    ensures |r| <= |walked|
    ensures forall k :: 0 <= k < |r| ==> Selected(fs, r[k].file, ext)
    ensures forall i :: 0 <= i < |walked| && Selected(fs, root + sub + walked[i], ext) ==>
      SourceAt(root, sub, walked[i]) in r
  {
    if walked == [] then []
    else
      var n := |walked| - 1;
      var e := walked[n];
      var prev := Candidates(fs, root, sub, walked[..n], ext);
      assert forall i :: 0 <= i < n ==> walked[..n][i] == walked[i];
      prev + (if Selected(fs, root + sub + e, ext) then [SourceAt(root, sub, e)] else [])
  }

  /** Every file a phase processes is one of the walked entries. */
  lemma {:induction false} CandidatesAreWalked(fs: FileSystem, root: Path, sub: Path, walked: seq<Path>, ext: string)
    ensures forall k :: 0 <= k < |Candidates(fs, root, sub, walked, ext)| ==>
      exists i :: 0 <= i < |walked| && Candidates(fs, root, sub, walked, ext)[k] == SourceAt(root, sub, walked[i])
  {
    if walked != [] {
      var n := |walked| - 1;
      CandidatesAreWalked(fs, root, sub, walked[..n], ext);
      var r := Candidates(fs, root, sub, walked, ext);
      var prev := Candidates(fs, root, sub, walked[..n], ext);
      assert r == prev + (if Selected(fs, root + sub + walked[n], ext) then [SourceAt(root, sub, walked[n])] else []);
      forall k | 0 <= k < |r|
        ensures exists i :: 0 <= i < |walked| && Candidates(fs, root, sub, walked, ext)[k] == SourceAt(root, sub, walked[i])
      {
        if k < |prev| {
          assert r[k] == prev[k];
          var i :| 0 <= i < n && prev[k] == SourceAt(root, sub, walked[..n][i]);
          assert walked[..n][i] == walked[i];
        } else {
          assert r[k] == SourceAt(root, sub, walked[n]);
        }
      }
    } else {
      assert Candidates(fs, root, sub, walked, ext) == [];
    }
  }

  lemma CandidatesStep(fs: FileSystem, root: Path, sub: Path, walked: seq<Path>, i: nat, ext: string)
    requires i < |walked|
    ensures Candidates(fs, root, sub, walked[..i + 1], ext)
      == Candidates(fs, root, sub, walked[..i], ext)
         + (if Selected(fs, root + sub + walked[i], ext) then [SourceAt(root, sub, walked[i])] else [])
  {
    assert walked[..i + 1][..i] == walked[..i];
  }

  /** The catch blocks shared by both loops: a SAXParseException is recorded
      with its line, any other SAXException with line 0, and an IOException or
      ParserConfigurationException is not recorded. */
  method AppendRecord(errors: seq<ErrorRecord>, relative: string, fault: Fault) returns (r: seq<ErrorRecord>)
    ensures r == errors + RecordsFor(relative, fault)
  {
    match fault
    case SaxParseFault(line, message) =>
      r := errors + [ErrorRecord(relative, line, line, FailureLevel, message)];
    case SaxFault(message) =>
      r := errors + [ErrorRecord(relative, 0, 0, FailureLevel, message)];
    case IoFault =>
      r := errors;
    case ConfigurationFault =>
      r := errors;
  }
}
