// The end of `declarePackage`: the records are grouped by source, keeping the
// order in which sources first appear, and the groups are written out as one
// `declare module` block.

module Declare {
  import opened JsString
  import opened Normalize
  import opened Resolve
  import opened Scan
  import opened Classifier

  // ---------------------------------------------------------------------------
  // Grouping, as functions

  /** `findIndex` on the source: the first position holding `source`, or -1. */
  function IndexOfSource(xs: seq<ExportStatement>, source: string): (r: int)
    ensures -1 <= r < |xs|
    ensures 0 <= r ==> xs[r].source == source && forall j :: 0 <= j < r ==> xs[j].source != source
    ensures r == -1 ==> forall j :: 0 <= j < |xs| ==> xs[j].source != source
  {
    if xs == [] then -1
    else if xs[0].source == source then 0
    else
      var k := IndexOfSource(xs[1..], source);
      if k == -1 then -1 else k + 1
  }

  /** One step of the `forEach`: a record whose source is already grouped
      has its names appended to that group; otherwise it opens a new group
      at the end. */
  function AddRecord(groups: seq<ExportStatement>, record: ExportStatement): seq<ExportStatement> {
    var i := IndexOfSource(groups, record.source);
    if i > -1 then groups[i := ExportStatement(groups[i].statements + record.statements, groups[i].source)]
    else groups + [ExportStatement(record.statements, record.source)]
  }

  /** `groupedStatements` after all records. */
  function Grouped(records: seq<ExportStatement>): seq<ExportStatement> {
    if records == [] then [] else AddRecord(Grouped(records[..|records| - 1]), records[|records| - 1])
  }

  /** The names of all records with `source`, in record order, duplicates kept. */
  function NamesFor(records: seq<ExportStatement>, source: string): seq<string> {
    if records == [] then []
    else
      var last := records[|records| - 1];
      NamesFor(records[..|records| - 1], source) + (if last.source == source then last.statements else [])
  }

  // ---------------------------------------------------------------------------
  // Grouping, as the script runs it

  method FindIndex(groups: seq<ExportStatement>, source: string) returns (r: int)
    ensures r == IndexOfSource(groups, source)
  {
    r := 0;
    while r < |groups|
      invariant 0 <= r <= |groups|
      invariant forall j :: 0 <= j < r ==> groups[j].source != source
    {
      if groups[r].source == source {
        IndexOfSourceIsFirst(groups, source, r);
        return;
      }
      r := r + 1;
    }
    r := -1;
  }

  method GroupBySource(records: seq<ExportStatement>) returns (groups: seq<ExportStatement>)
    ensures groups == Grouped(records)
  {
    groups := [];
    var i := 0;
    while i < |records|
      invariant 0 <= i <= |records|
      invariant groups == Grouped(records[..i])
    {
      var record := records[i];
      var found := FindIndex(groups, record.source);
      if found > -1 {
        groups := groups[found := ExportStatement(groups[found].statements + record.statements, groups[found].source)];
      } else {
        groups := groups + [ExportStatement(record.statements, record.source)];
      }
      assert records[..i + 1][..i] == records[..i];
      i := i + 1;
    }
    assert records[..|records|] == records;
  }

  // ---------------------------------------------------------------------------
  // Properties of the grouping

  /** A position holding `source` with none before it is what `findIndex` gives. */
  lemma IndexOfSourceIsFirst(xs: seq<ExportStatement>, source: string, i: nat)
    requires i < |xs| && xs[i].source == source
    requires forall j :: 0 <= j < i ==> xs[j].source != source
    ensures IndexOfSource(xs, source) == i
  {
  }

  /** Appending keeps every earlier first position; only a source not seen
      before is found at the new end. */
  lemma IndexOfSourceSnoc(xs: seq<ExportStatement>, x: ExportStatement, source: string)
    ensures IndexOfSource(xs + [x], source)
            == if IndexOfSource(xs, source) >= 0 then IndexOfSource(xs, source)
               else if x.source == source then |xs| else -1
  {
    var ys := xs + [x];
    var i := IndexOfSource(xs, source);
    if i >= 0 {
      IndexOfSourceIsFirst(ys, source, i);
    } else if x.source == source {
      IndexOfSourceIsFirst(ys, source, |xs|);
    } else {
      assert forall j :: 0 <= j < |ys| ==> ys[j].source != source by {
        forall j | 0 <= j < |ys| ensures ys[j].source != source {
          if j < |xs| { assert ys[j] == xs[j]; }
        }
      }
    }
  }

  /** Overwriting a group without changing its source keeps every first position. */
  lemma IndexOfSourceUpdate(xs: seq<ExportStatement>, i: nat, y: ExportStatement, source: string)
    requires i < |xs| && y.source == xs[i].source
    ensures IndexOfSource(xs[i := y], source) == IndexOfSource(xs, source)
  {
    var ys := xs[i := y];
    var k := IndexOfSource(xs, source);
    if k >= 0 {
      IndexOfSourceIsFirst(ys, source, k);
    } else {
      assert forall j :: 0 <= j < |ys| ==> ys[j].source != source;
    }
  }

  /** Sources are distinct: for each group `findIndex` finds that very group. */
  predicate DistinctSources(groups: seq<ExportStatement>) {
    forall i :: 0 <= i < |groups| ==> IndexOfSource(groups, groups[i].source) == i
  }

  /** `groups` has a group for exactly the sources `records` has, their
      sources are pairwise distinct, and they appear in the order in which
      each source first appears among the records. */
  ghost predicate GroupsSourcesOf(groups: seq<ExportStatement>, records: seq<ExportStatement>) {
    && DistinctSources(groups)
    && (forall s :: IndexOfSource(groups, s) >= 0 <==> IndexOfSource(records, s) >= 0)
    && (forall i, j :: 0 <= i < j < |groups| ==>
          IndexOfSource(records, groups[i].source) < IndexOfSource(records, groups[j].source))
  }

  /** A record whose source is grouped adds only names. */
  lemma MergeKeepsSources(groups: seq<ExportStatement>, records: seq<ExportStatement>, record: ExportStatement)
    requires GroupsSourcesOf(groups, records)
    requires IndexOfSource(groups, record.source) > -1
    ensures GroupsSourcesOf(AddRecord(groups, record), records + [record])
  {
    var found := IndexOfSource(groups, record.source);
    var merged := ExportStatement(groups[found].statements + record.statements, groups[found].source);
    assert AddRecord(groups, record) == groups[found := merged];
    UpdateKeepsIndex(groups, found, merged);
    SnocSeenKeepsIndex(records, record);
    RelabelKeepsSources(groups, groups[found := merged], records, records + [record]);
  }

  lemma UpdateKeepsIndex(groups: seq<ExportStatement>, i: nat, y: ExportStatement)
    requires i < |groups| && y.source == groups[i].source
    ensures forall s :: IndexOfSource(groups[i := y], s) == IndexOfSource(groups, s)
  {
    forall s ensures IndexOfSource(groups[i := y], s) == IndexOfSource(groups, s) {
      IndexOfSourceUpdate(groups, i, y, s);
    }
  }

  /** Appending a record whose source was seen moves no first position. */
  lemma SnocSeenKeepsIndex(records: seq<ExportStatement>, record: ExportStatement)
    requires IndexOfSource(records, record.source) >= 0
    ensures forall s :: IndexOfSource(records + [record], s) == IndexOfSource(records, s)
  {
    forall s ensures IndexOfSource(records + [record], s) == IndexOfSource(records, s) {
      IndexOfSourceSnoc(records, record, s);
    }
  }

  /** Groups with the same sources at the same places, and records with the
      same first positions, are grouped alike. */
  lemma RelabelKeepsSources(groups: seq<ExportStatement>, after: seq<ExportStatement>,
                            records: seq<ExportStatement>, extended: seq<ExportStatement>)
    requires GroupsSourcesOf(groups, records)
    requires |after| == |groups| && forall i :: 0 <= i < |groups| ==> after[i].source == groups[i].source
    requires forall s :: IndexOfSource(after, s) == IndexOfSource(groups, s)
    requires forall s :: IndexOfSource(extended, s) == IndexOfSource(records, s)
    ensures GroupsSourcesOf(after, extended)
  {
  }

  /** A record with a new source opens the last group. */
  lemma OpenKeepsSources(groups: seq<ExportStatement>, records: seq<ExportStatement>, record: ExportStatement)
    requires GroupsSourcesOf(groups, records)
    requires IndexOfSource(groups, record.source) == -1
    ensures GroupsSourcesOf(AddRecord(groups, record), records + [record])
  {
    var newGroup := ExportStatement(record.statements, record.source);
    var after := AddRecord(groups, record);
    var extended := records + [record];
    assert after == groups + [newGroup];
    forall s ensures IndexOfSource(after, s) == if IndexOfSource(groups, s) >= 0 then IndexOfSource(groups, s)
                                                else if record.source == s then |groups| else -1 {
      IndexOfSourceSnoc(groups, newGroup, s);
    }
    forall s ensures IndexOfSource(extended, s) == if IndexOfSource(records, s) >= 0 then IndexOfSource(records, s)
                                                   else if record.source == s then |records| else -1 {
      IndexOfSourceSnoc(records, record, s);
    }
    OpenKeepsOrder(groups, records, record);
  }

  lemma OpenKeepsOrder(groups: seq<ExportStatement>, records: seq<ExportStatement>, record: ExportStatement)
    requires GroupsSourcesOf(groups, records)
    requires IndexOfSource(groups, record.source) == -1
    ensures var after, extended := AddRecord(groups, record), records + [record];
            forall i, j :: 0 <= i < j < |after| ==>
              IndexOfSource(extended, after[i].source) < IndexOfSource(extended, after[j].source)
  {
    var after, extended := AddRecord(groups, record), records + [record];
    IndexOfSourceSnoc(records, record, record.source);
    assert IndexOfSource(extended, record.source) == |records|;
    forall i | 0 <= i < |groups|
      ensures IndexOfSource(extended, after[i].source) == IndexOfSource(records, groups[i].source) < |records|
    {
      assert after[i] == groups[i];
      assert IndexOfSource(groups, groups[i].source) >= 0;
      IndexOfSourceSnoc(records, record, groups[i].source);
    }
  }

  /** The grouping of the records is a grouping by source in first-seen order. */
  lemma {:induction false} GroupedSources(records: seq<ExportStatement>)
    ensures GroupsSourcesOf(Grouped(records), records)
  {
    if records != [] {
      var prefix, last := records[..|records| - 1], records[|records| - 1];
      assert records == prefix + [last];
      GroupedSources(prefix);
      if IndexOfSource(Grouped(prefix), last.source) > -1 {
        MergeKeepsSources(Grouped(prefix), prefix, last);
      } else {
        OpenKeepsSources(Grouped(prefix), prefix, last);
      }
    }
  }

  /** Each group holds the names of every record with its source, in record
      order, duplicates kept. */
  ghost predicate GroupsNamesOf(groups: seq<ExportStatement>, records: seq<ExportStatement>) {
    forall i :: 0 <= i < |groups| ==> groups[i].statements == NamesFor(records, groups[i].source)
  }

  lemma NamesForSnoc(records: seq<ExportStatement>, record: ExportStatement, source: string)
    ensures NamesFor(records + [record], source)
            == NamesFor(records, source) + (if record.source == source then record.statements else [])
  {
    assert (records + [record])[..|records|] == records;
  }

  /** One step of the grouping keeps every group's names those of its source. */
  lemma AddRecordKeepsNames(groups: seq<ExportStatement>, records: seq<ExportStatement>, record: ExportStatement)
    requires GroupsSourcesOf(groups, records) && GroupsNamesOf(groups, records)
    ensures GroupsNamesOf(AddRecord(groups, record), records + [record])
  {
    var after := AddRecord(groups, record);
    var found := IndexOfSource(groups, record.source);
    forall i | 0 <= i < |after| ensures after[i].statements == NamesFor(records + [record], after[i].source) {
      NamesForSnoc(records, record, after[i].source);
      if found > -1 {
        assert after[i].source == groups[i].source;
        if i != found {
          assert IndexOfSource(groups, groups[i].source) == i;
        }
      } else if i == |groups| {
        NoNamesWithoutSource(records, record.source);
      } else {
        assert after[i] == groups[i];
      }
    }
  }

  lemma {:induction false} GroupedNames(records: seq<ExportStatement>)
    ensures GroupsNamesOf(Grouped(records), records)
  {
    if records != [] {
      var prefix, last := records[..|records| - 1], records[|records| - 1];
      assert records == prefix + [last];
      GroupedNames(prefix);
      GroupedSources(prefix);
      AddRecordKeepsNames(Grouped(prefix), prefix, last);
    }
  }

  /** A source no record has collects no names. */
  lemma {:induction false} NoNamesWithoutSource(records: seq<ExportStatement>, source: string)
    requires IndexOfSource(records, source) == -1
    ensures NamesFor(records, source) == []
  {
    if records != [] {
      var prefix := records[..|records| - 1];
      IndexOfSourceSnoc(prefix, records[|records| - 1], source);
      assert records == prefix + [records[|records| - 1]];
      NoNamesWithoutSource(prefix, source);
    }
  }

  /** There is a group exactly when there is a record, and never more groups
      than records. */
  lemma {:induction false} GroupedCount(records: seq<ExportStatement>)
    ensures |Grouped(records)| <= |records|
    ensures |Grouped(records)| == 0 <==> |records| == 0
  {
    if records != [] {
      GroupedCount(records[..|records| - 1]);
    }
  }

  // ---------------------------------------------------------------------------
  // The declaration text

  /** The first line of the block. */
  function Opening(packageName: string): string {
    "declare module '" + packageName + "' {"
  }

  /** The line a group becomes: its names joined with `, `, then its source. */
  function ExportLine(group: ExportStatement): string {
    "  export { " + JoinWith(group.statements, ", ") + " } from '" + group.source + "';"
  }

  /** The lines of the block, in order. */
  function DeclarationLines(packageName: string, groups: seq<ExportStatement>): (lines: seq<string>)
    ensures |lines| == |groups| + 2
    ensures lines[0] == Opening(packageName) && lines[|lines| - 1] == "}"
    ensures forall i :: 0 <= i < |groups| ==> lines[i + 1] == ExportLine(groups[i])
  {
    [Opening(packageName)] + ExportLines(groups) + ["}"]
  }

  function ExportLines(groups: seq<ExportStatement>): (lines: seq<string>)
    ensures |lines| == |groups| && forall i :: 0 <= i < |groups| ==> lines[i] == ExportLine(groups[i])
  {
    if groups == [] then [] else ExportLines(groups[..|groups| - 1]) + [ExportLine(groups[|groups| - 1])]
  }

  /** Lines each ended by `\n`. */
  function Terminated(lines: seq<string>): string {
    if lines == [] then "" else Terminated(lines[..|lines| - 1]) + lines[|lines| - 1] + "\n"
  }

  /** `declareStatement` once complete. */
  function Declaration(packageName: string, groups: seq<ExportStatement>): string {
    Terminated(DeclarationLines(packageName, groups))
  }

  /** `declareStatement` built up with `+=`. */
  method EmitDeclaration(packageName: string, groups: seq<ExportStatement>) returns (text: string)
    ensures text == Declaration(packageName, groups)
  {
    var lines := DeclarationLines(packageName, groups);
    text := Opening(packageName) + "\n";
    TerminatedPrefix(lines, 0);
    var i := 0;
    while i < |groups|
      invariant 0 <= i <= |groups|
      invariant text == Terminated(lines[..i + 1])
    {
      text := text + ExportLine(groups[i]) + "\n";
      TerminatedPrefix(lines, i + 1);
      i := i + 1;
    }
    text := text + "}\n";
    TerminatedPrefix(lines, |groups| + 1);
    assert lines[..|groups| + 2] == lines;
  }

  /** One more line of a list ends the text with itself and `\n`. */
  lemma TerminatedPrefix(lines: seq<string>, i: nat)
    requires i < |lines|
    ensures Terminated(lines[..i + 1]) == Terminated(lines[..i]) + lines[i] + "\n"
  {
    assert lines[..i + 1][..i] == lines[..i];
  }

  // ---------------------------------------------------------------------------
  // Reading the text back

  lemma TerminatedSnoc(lines: seq<string>, line: string)
    ensures Terminated(lines + [line]) == Terminated(lines) + line + "\n"
  {
    assert (lines + [line])[..|lines|] == lines;
  }

  lemma TerminatedCons(line: string, lines: seq<string>)
    ensures Terminated([line] + lines) == line + "\n" + Terminated(lines)
    decreases |lines|
  {
    if lines == [] {
      assert [line] + lines == [line];
      assert ([line] + lines)[..0] == [];
    } else {
      var prefix, last := lines[..|lines| - 1], lines[|lines| - 1];
      assert [line] + lines == ([line] + prefix) + [last];
      TerminatedSnoc([line] + prefix, last);
      TerminatedCons(line, prefix);
      TerminatedSnoc(prefix, last);
      assert lines == prefix + [last];
    }
  }

  /** Splitting lines ended by `\n` at `\n` gives the lines back, then the empty
      text after the last one. */
  lemma {:induction false} SplitTerminated(lines: seq<string>)
    requires forall i :: 0 <= i < |lines| ==> '\n' !in lines[i]
    ensures SplitOn(Terminated(lines), "\n") == lines + [""]
    decreases |lines|
  {
    if lines == [] {
      assert SplitOn("", "\n") == [""];
    } else {
      TerminatedCons(lines[0], lines[1..]);
      assert [lines[0]] + lines[1..] == lines;
      SplitOnAfterHead(lines[0], '\n', Terminated(lines[1..]));
      assert lines[0] + "\n" + Terminated(lines[1..]) == lines[0] + ['\n'] + Terminated(lines[1..]);
      SplitTerminated(lines[1..]);
    }
  }

  /** No name, no source and not the package name breaks a line. */
  predicate SingleLineParts(packageName: string, groups: seq<ExportStatement>) {
    && '\n' !in packageName
    && forall i :: 0 <= i < |groups| ==>
         && '\n' !in groups[i].source
         && forall k :: 0 <= k < |groups[i].statements| ==> '\n' !in groups[i].statements[k]
  }

  lemma ExportLineIsOneLine(group: ExportStatement)
    requires '\n' !in group.source
    requires forall k :: 0 <= k < |group.statements| ==> '\n' !in group.statements[k]
    ensures '\n' !in ExportLine(group)
  {
    JoinWithAvoids(group.statements, ", ", '\n');
  }

  lemma DeclarationLinesAreSingle(packageName: string, groups: seq<ExportStatement>)
    requires SingleLineParts(packageName, groups)
    ensures var lines := DeclarationLines(packageName, groups);
            forall i :: 0 <= i < |lines| ==> '\n' !in lines[i]
  {
    var lines := DeclarationLines(packageName, groups);
    forall i | 0 <= i < |lines| ensures '\n' !in lines[i] {
      if 0 < i <= |groups| {
        ExportLineIsOneLine(groups[i - 1]);
      }
    }
  }

  /** The block reads back as its opening line, one `export { … } from '…';`
      line per group in group order, the closing `}`, and nothing after the
      final newline. */
  lemma DeclarationReadsBack(packageName: string, groups: seq<ExportStatement>)
    requires SingleLineParts(packageName, groups)
    ensures var lines := SplitOn(Declaration(packageName, groups), "\n");
            && |lines| == |groups| + 3
            && lines[0] == Opening(packageName)
            && (forall i :: 0 <= i < |groups| ==> lines[i + 1] == ExportLine(groups[i]))
            && lines[|groups| + 1] == "}" && lines[|groups| + 2] == ""
  {
    var lines := DeclarationLines(packageName, groups);
    DeclarationLinesAreSingle(packageName, groups);
    SplitTerminated(lines);
    var split := lines + [""];
    assert SplitOn(Declaration(packageName, groups), "\n") == split;
    assert forall i :: 0 <= i < |lines| ==> split[i] == lines[i];
  }

  // ---------------------------------------------------------------------------
  // `declarePackage` from a located package path on

  /** How `declarePackage` ends: no package was located, its entry file could
      not be read, the `export * from` recursion overflowed the call stack
      (the `catch` reports it and exits), or it ran to the end, appending
      `text` (possibly nothing) to the declarations file. */
  datatype Outcome = PackageNotFound | ReadFailure | DepthExceeded | Appended(text: string)

  /** `packagePath` made to point inside `src` unless it already mentions it. */
  function SourceRoot(located: string, env: Env): string {
    if !Contains(located, "src") then env.join([located, "src"]) else located
  }

  /** What is appended for the collected records: a newline and the block, or
      nothing when there is no record or imports are handled elsewhere. */
  function AppendedText(packageName: string, records: seq<ExportStatement>, handleImports: bool): string {
    if records == [] || handleImports then "" else "\n" + Declaration(packageName, Grouped(records))
  }

  /** The outcome of `declarePackage` for the path `locatePackage` gave. */
  function DeclarationOutcome(packageName: string, located: string, env: Env, handleImports: bool, fuel: nat): Outcome {
    if located == "" then PackageNotFound
    else
      var packagePath := SourceRoot(located, env);
      if packagePath == "" then Appended("")
      else
        var entry := env.join([packagePath, "index.ts"]);
        if entry !in env.files then ReadFailure
        else
          match FixFileContent(env.files[entry])
          case None => Appended("")
          case Some(content) =>
            if content == "" then Appended("")
            else if !FileWithinDepth(content, packagePath, env, Declared, fuel) then DepthExceeded
            else Appended(AppendedText(packageName, FileExports(content, packagePath, env, Declared, fuel), handleImports))
  }

  method DeclarePackage(packageName: string, located: string, env: Env, handleImports: bool, fuel: nat) returns (outcome: Outcome)
    ensures outcome == DeclarationOutcome(packageName, located, env, handleImports, fuel)
  {
    if located == "" {
      return PackageNotFound;
    }
    var packagePath := SourceRoot(located, env);
    if packagePath == "" {
      return Appended("");
    }
    var entry := env.join([packagePath, "index.ts"]);
    if entry !in env.files {
      return ReadFailure;
    }
    var fileContent := FixFileContent(env.files[entry]);
    if fileContent.None? || fileContent.value == "" {
      return Appended("");
    }
    var acc := new StatementList();
    var complete := FindExportStatement(fileContent.value, packagePath, env, Declared, fuel, acc);
    if !complete {
      return DepthExceeded;
    }
    var records := acc.items;
    assert records == FileExports(fileContent.value, packagePath, env, Declared, fuel);
    var text := DeclareRecords(packageName, records, handleImports);
    outcome := Appended(text);
  }

  /** Lines 248-270: group the records and, when there is a group and imports
      are not handled elsewhere, produce the newline and the block. */
  method DeclareRecords(packageName: string, records: seq<ExportStatement>, handleImports: bool) returns (text: string)
    ensures text == AppendedText(packageName, records, handleImports)
  {
    text := "";
    if |records| > 0 {
      var groups := GroupBySource(records);
      GroupedCount(records);
      if |groups| > 0 {
        var declaration := EmitDeclaration(packageName, groups);
        if !handleImports {
          text := "\n" + declaration;
        }
      }
    }
  }

  /** The package is reported missing exactly when none was located; with
      imports handled elsewhere nothing is ever appended; and whatever is
      appended is a newline followed by the block for the grouped records of
      the entry file. */
  lemma OutcomeCases(packageName: string, located: string, env: Env, handleImports: bool, fuel: nat)
    ensures var outcome := DeclarationOutcome(packageName, located, env, handleImports, fuel);
            && (outcome == PackageNotFound <==> located == "")
            && (outcome == ReadFailure ==> env.join([SourceRoot(located, env), "index.ts"]) !in env.files)
            && (outcome == DepthExceeded ==>
                  var packagePath := SourceRoot(located, env);
                  var entry := env.join([packagePath, "index.ts"]);
                  && entry in env.files && FixFileContent(env.files[entry]).Some?
                  && !FileWithinDepth(FixFileContent(env.files[entry]).value, packagePath, env, Declared, fuel))
            && (handleImports && outcome.Appended? ==> outcome.text == "")
            && (outcome.Appended? && outcome.text != "" ==>
                  exists records :: records != [] && outcome.text == "\n" + Declaration(packageName, Grouped(records)))
  {
    var outcome := DeclarationOutcome(packageName, located, env, handleImports, fuel);
    if outcome.Appended? && outcome.text != "" {
      var packagePath := SourceRoot(located, env);
      var content := FixFileContent(env.files[env.join([packagePath, "index.ts"])]).value;
      var records := FileExports(content, packagePath, env, Declared, fuel);
      assert records != [] && outcome.text == "\n" + Declaration(packageName, Grouped(records));
    }
  }

  /** A package whose entry file leads, through an `export * from` line, to a
      file that leads back to itself fails at every depth, whether or not
      imports are handled elsewhere.  This is `export * from './index'` in
      `src/index.ts`: from `src` the line resolves to `src/index.ts`, and from
      there to `src/index.ts` again (through `<d>/<spec>.ts`). */
  lemma SelfReexportingPackageFails(packageName: string, located: string, env: Env, handleImports: bool, fuel: nat,
                                    i: nat, target: Nested, j: nat)
    requires located != "" && SourceRoot(located, env) != ""
    requires env.join([SourceRoot(located, env), "index.ts"]) in env.files
    requires var content := FixFileContent(env.files[env.join([SourceRoot(located, env), "index.ts"])]);
             && content.Some? && content.value != "" && i < |SplitOn(content.value, "\n")|
             && var line := SplitOn(content.value, "\n")[i];
                Classify(line) == StarFrom && StarFile(line, SourceRoot(located, env), env) == Some(target)
    requires j < |SplitOn(target.content, "\n")|
    requires var line := SplitOn(target.content, "\n")[j];
             Classify(line) == StarFrom && StarFile(line, target.path, env) == Some(target)
    ensures DeclarationOutcome(packageName, located, env, handleImports, fuel) == DepthExceeded
  {
    var packagePath := SourceRoot(located, env);
    var content := FixFileContent(env.files[env.join([packagePath, "index.ts"])]).value;
    ReexportOfSelfReexportExceedsEveryDepth(content, packagePath, env, Declared, i, target, j, fuel);
  }
}
