/** The schema phase of the linter: every walked `.xsd` file is parsed, and its
    root element's `targetNamespace` indexes the file in the registry (the
    `xsdsMap` HashMap); a SAX fault appends one error record. */
module Schemas {
  import opened Paths
  import opened Environment

  const XsdExtension: string := ".xsd"

  /** What the phase has built so far: the registry from namespace to schema
      file, the error list and the per-file log lines. */
  datatype SchemaState = SchemaState(registry: map<string, Path>, errors: seq<ErrorRecord>, log: seq<LogLine>)

  /** The file declares the non-empty target namespace ns. */
  predicate Declares(xml: Xml, f: SourceFile, ns: string) {
    xml.parse(f.file).Document? && ns != "" && GetAttribute(xml.parse(f.file).root, "targetNamespace") == ns
  }

  /** files[j] declares ns and no later file does. */
  predicate LastDeclaration(xml: Xml, files: seq<SourceFile>, ns: string, j: int) {
    0 <= j < |files| && Declares(xml, files[j], ns) &&
    forall k :: j < k < |files| ==> !Declares(xml, files[k], ns)
  }

  /** The body of the forEach lambda for one schema file. */
  function LoadStep(xml: Xml, s: SchemaState, f: SourceFile): SchemaState {
    match xml.parse(f.file)
    case Document(root) =>
      var ns := GetAttribute(root, "targetNamespace");
      if ns != "" then SchemaState(s.registry[ns := f.file], s.errors, s.log + [Loaded(f.relative)])
      else SchemaState(s.registry, s.errors, s.log + [Skipped(f.relative, MissingTargetNamespace)])
    case NotParsed(fault) =>
      SchemaState(s.registry, s.errors + RecordsFor(f.relative, fault), s.log + [Failed(f.relative, fault)])
  }

  /** The state after processing files in order, from an empty registry and list. */
  function SchemaPhase(xml: Xml, files: seq<SourceFile>): SchemaState {
    if files == [] then SchemaState(map[], [], [])
    else LoadStep(xml, SchemaPhase(xml, files[..|files| - 1]), files[|files| - 1])
  }

  /** The schema files whose parse threw a SAX exception, in walk order. */
  function SchemaFaults(xml: Xml, files: seq<SourceFile>): (r: seq<SourceFile>)
    ensures |r| <= |files|
    ensures forall k :: 0 <= k < |r| ==> xml.parse(r[k].file).NotParsed? && Recorded(xml.parse(r[k].file).fault)
  {
    if files == [] then []
    else
      var f := files[|files| - 1];
      SchemaFaults(xml, files[..|files| - 1])
        + (if xml.parse(f.file).NotParsed? && Recorded(xml.parse(f.file).fault) then [f] else [])
  }

  /** The method: the loop of lines 190-260 over the walk of `root/sub`. */
  method LoadSchemas(fs: FileSystem, xml: Xml, root: Path, sub: Path)
    returns (registry: map<string, Path>, errors: seq<ErrorRecord>, log: seq<LogLine>)
    ensures SchemaState(registry, errors, log)
      == SchemaPhase(xml, Candidates(fs, root, sub, fs.walk(root + sub), XsdExtension))
  {
    var walked := fs.walk(root + sub);
    registry, errors, log := map[], [], [];
    var i := 0;
    while i < |walked|
      invariant 0 <= i <= |walked|
      invariant SchemaState(registry, errors, log)
        == SchemaPhase(xml, Candidates(fs, root, sub, walked[..i], XsdExtension))
    {
      ghost var before := SchemaState(registry, errors, log);
      CandidatesStep(fs, root, sub, walked, i, XsdExtension);
      var file := root + sub + walked[i];
      if fs.isRegularFile(file) && HasExtension(FileName(file), XsdExtension) {
        var relative := Join(sub + walked[i]);
        SchemaPhaseSnoc(xml, Candidates(fs, root, sub, walked[..i], XsdExtension), SourceFile(file, relative));
        match xml.parse(file)
        case Document(element) =>
          var ns := GetAttribute(element, "targetNamespace");
          if ns != "" {
            registry := registry[ns := file];
            log := log + [Loaded(relative)];
          } else {
            log := log + [Skipped(relative, MissingTargetNamespace)];
          }
        case NotParsed(fault) =>
          errors := AppendRecord(errors, relative, fault);
          log := log + [Failed(relative, fault)];
        assert SchemaState(registry, errors, log) == LoadStep(xml, before, SourceFile(file, relative));
        assert SourceFile(file, relative) == SourceAt(root, sub, walked[i]);
        assert Candidates(fs, root, sub, walked[..i + 1], XsdExtension)
          == Candidates(fs, root, sub, walked[..i], XsdExtension) + [SourceFile(file, relative)];
      } else {
        assert Candidates(fs, root, sub, walked[..i + 1], XsdExtension)
          == Candidates(fs, root, sub, walked[..i], XsdExtension);
      }
      i := i + 1;
    }
    assert walked[..i] == walked;
  }

  lemma SchemaPhaseSnoc(xml: Xml, files: seq<SourceFile>, f: SourceFile)
    ensures SchemaPhase(xml, files + [f]) == LoadStep(xml, SchemaPhase(xml, files), f)
  {
    assert (files + [f])[..|files|] == files;
  }

  /** After the phase the registry holds exactly the non-empty declared
      namespaces, each mapped to the last file in walk order declaring it. */
  lemma {:induction false} RegistryHoldsLastDeclaration(xml: Xml, files: seq<SourceFile>)
    ensures forall ns :: ns in SchemaPhase(xml, files).registry ==> ns != ""
    ensures forall ns :: ns in SchemaPhase(xml, files).registry <==>
      exists j :: 0 <= j < |files| && Declares(xml, files[j], ns)
    ensures forall ns :: ns in SchemaPhase(xml, files).registry ==>
      exists j :: LastDeclaration(xml, files, ns, j) && SchemaPhase(xml, files).registry[ns] == files[j].file
  {
    if files != [] {
      var n := |files| - 1;
      var init := files[..n];
      var f := files[n];
      RegistryHoldsLastDeclaration(xml, init);
      var before := SchemaPhase(xml, init).registry;
      var after := SchemaPhase(xml, files).registry;
      assert forall j :: 0 <= j < n ==> init[j] == files[j];
      forall ns | ns in after
        ensures ns != ""
        ensures exists j :: LastDeclaration(xml, files, ns, j) && after[ns] == files[j].file
      {
        if Declares(xml, f, ns) {
          assert LastDeclaration(xml, files, ns, n);
        } else {
          assert ns in before && after[ns] == before[ns];
          var j :| LastDeclaration(xml, init, ns, j) && before[ns] == init[j].file;
          assert LastDeclaration(xml, files, ns, j);
        }
      }
      forall ns | exists j :: 0 <= j < |files| && Declares(xml, files[j], ns)
        ensures ns in after
      {
        var j :| 0 <= j < |files| && Declares(xml, files[j], ns);
        if j < n {
          assert Declares(xml, init[j], ns);
        }
      }
      forall ns | ns in after
        ensures exists j :: 0 <= j < |files| && Declares(xml, files[j], ns)
      {
        var j :| LastDeclaration(xml, files, ns, j) && after[ns] == files[j].file;
      }
    }
  }

  /** The error list is the record of each SAX-faulty schema file, in walk
      order: files that load, lack a namespace, or fail with an IOException or
      a ParserConfigurationException contribute nothing. */
  lemma {:induction false} SchemaErrorsAreFaults(xml: Xml, files: seq<SourceFile>)
    ensures |SchemaPhase(xml, files).errors| == |SchemaFaults(xml, files)|
    ensures forall k :: 0 <= k < |SchemaFaults(xml, files)| ==>
      SchemaPhase(xml, files).errors[k]
        == RecordOf(SchemaFaults(xml, files)[k].relative, xml.parse(SchemaFaults(xml, files)[k].file).fault)
  {
    if files != [] {
      SchemaErrorsAreFaults(xml, files[..|files| - 1]);
    }
  }

  /** Processing one more file keeps the earlier errors as a prefix and adds at
      most one record; the log gains exactly one line, about that file. */
  lemma SchemaStepAppends(xml: Xml, files: seq<SourceFile>, f: SourceFile)
    ensures SchemaPhase(xml, files).errors <= SchemaPhase(xml, files + [f]).errors
    ensures |SchemaPhase(xml, files + [f]).errors| <= |SchemaPhase(xml, files).errors| + 1
    ensures SchemaPhase(xml, files).log <= SchemaPhase(xml, files + [f]).log
    ensures |SchemaPhase(xml, files + [f]).log| == |files| + 1
    ensures SchemaPhase(xml, files + [f]).log[|files|].path == f.relative
  {
    assert (files + [f])[..|files|] == files;
    SchemaLogFollowsFiles(xml, files);
  }

  /** An IOException or ParserConfigurationException while parsing a schema
      file changes neither the registry nor the error list. */
  lemma UnreadableSchemaIsOnlyLogged(xml: Xml, files: seq<SourceFile>, f: SourceFile)
    requires xml.parse(f.file) == NotParsed(IoFault) || xml.parse(f.file) == NotParsed(ConfigurationFault)
    ensures SchemaPhase(xml, files + [f]).registry == SchemaPhase(xml, files).registry
    ensures SchemaPhase(xml, files + [f]).errors == SchemaPhase(xml, files).errors
  {
    assert (files + [f])[..|files|] == files;
  }

  /** A schema file without a target namespace adds no entry and no error. */
  lemma NoNamespaceIsSkipped(xml: Xml, files: seq<SourceFile>, f: SourceFile)
    requires xml.parse(f.file).Document? && GetAttribute(xml.parse(f.file).root, "targetNamespace") == ""
    ensures SchemaPhase(xml, files + [f]).registry == SchemaPhase(xml, files).registry
    ensures SchemaPhase(xml, files + [f]).errors == SchemaPhase(xml, files).errors
    ensures SchemaPhase(xml, files + [f]).log == SchemaPhase(xml, files).log + [Skipped(f.relative, MissingTargetNamespace)]
  {
    assert (files + [f])[..|files|] == files;
  }

  /** One log line per schema file, in walk order. */
  lemma {:induction false} SchemaLogFollowsFiles(xml: Xml, files: seq<SourceFile>)
    ensures |SchemaPhase(xml, files).log| == |files|
    ensures forall k :: 0 <= k < |files| ==> SchemaPhase(xml, files).log[k].path == files[k].relative
  {
    if files != [] {
      SchemaLogFollowsFiles(xml, files[..|files| - 1]);
    }
  }
}
