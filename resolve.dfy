// What `findExportStatement` decides about one line of a normalised index
// file: the file an `export * from` line leads to, and the record any other
// export line adds.

module Resolve {
  import opened JsString
  import opened Normalize
  import opened Patterns
  import opened Classifier

  /** One record of the accumulator: exported names and the module path they
      are re-exported from. */
  datatype ExportStatement = ExportStatement(statements: seq<string>, source: string)

  /** What the scan sees of the outside world: the files that exist, with
      their contents, and the two path functions it calls (`path.join` on a
      list of segments and `path.relative(from, to)`). */
  datatype Env = Env(files: map<string, string>, join: seq<string> -> string, relative: (string, string) -> string)

  /** A file an `export * from` line leads to, and its normalised content. */
  datatype Nested = Nested(path: string, content: string)

  // ---------------------------------------------------------------------------
  // Resolving the target of `export * from '<spec>'`

  /** `pathMatch[1].replace("'", '')`. */
  function Unquote(q: string): string {
    ReplaceFirst(q, "'", "")
  }

  /** The text between the quotes has no quote, so removing one changes nothing. */
  lemma UnquoteQuotedIsIdentity(line: string)
    requires QuotedText(line).Some?
    ensures Unquote(QuotedText(line).value) == QuotedText(line).value
  {
    ContainsChar(QuotedText(line).value, '\'');
  }

  /** The paths probed for `spec`, in the order the `existsSync` chain tries
      them: next to the package path, then next to its directory (the path
      with its first `index.ts` removed), then inside a folder named `spec`. */
  function Candidates(packagePath: string, spec: string, join: seq<string> -> string): seq<string> {
    var dir := ReplaceFirst(packagePath, "index.ts", "");
    [ join([packagePath, spec + ".ts"]),
      join([packagePath, spec + ".tsx"]),
      join([packagePath, spec, "index.ts"]),
      join([dir, spec + ".ts"]),
      join([dir, spec + ".tsx"]),
      join([dir, spec, "index.ts"]),
      join([dir, spec, spec + ".ts"]),
      join([dir, spec, spec + ".tsx"]) ]
  }

  /** The first index from `i` on whose path exists. */
  function FirstPresent(paths: seq<string>, files: map<string, string>, i: nat): (r: Option<nat>)
    ensures r.Some? ==> i <= r.value < |paths| && paths[r.value] in files
    ensures r.Some? ==> forall j :: i <= j < r.value ==> paths[j] !in files
    ensures r.None? ==> forall j :: i <= j < |paths| ==> paths[j] !in files
    decreases |paths| - i
  {
    if i >= |paths| then None else if paths[i] in files then Some(i) else FirstPresent(paths, files, i + 1)
  }

  /** `filePath`: the first candidate that exists, or `""` when none does. */
  function StarTarget(packagePath: string, spec: string, env: Env): (r: string)
    ensures r != "" ==> r in env.files
    ensures (forall j :: 0 <= j < 8 ==> Candidates(packagePath, spec, env.join)[j] !in env.files) ==> r == ""
    ensures forall i :: 0 <= i < 8 && Candidates(packagePath, spec, env.join)[i] in env.files
                        && (forall j :: 0 <= j < i ==> Candidates(packagePath, spec, env.join)[j] !in env.files)
                        ==> r == Candidates(packagePath, spec, env.join)[i]
  {
    var paths := Candidates(packagePath, spec, env.join);
    match FirstPresent(paths, env.files, 0)
    case None => ""
    case Some(i) => paths[i]
  }

  /** The file an `export * from` line is followed into: only when the line
      has a quoted path, a candidate exists, and the normalised content of
      that file is not empty. */
  function StarFile(line: string, packagePath: string, env: Env): (r: Option<Nested>)
    ensures r.Some? ==> r.value.path != "" && r.value.path in env.files
                        && FixFileContent(env.files[r.value.path]) == Some(r.value.content) && r.value.content != ""
    ensures QuotedText(line).None? ==> r.None?
    ensures QuotedText(line).Some? && StarTarget(packagePath, Unquote(QuotedText(line).value), env) == "" ==> r.None?
    ensures r.Some? ==> r.value.path == StarTarget(packagePath, Unquote(QuotedText(line).value), env)
    ensures QuotedText(line).Some? ==>
              var target := StarTarget(packagePath, Unquote(QuotedText(line).value), env);
              target != "" && FixFileContent(env.files[target]).Some? && FixFileContent(env.files[target]).value != ""
              ==> r == Some(Nested(target, FixFileContent(env.files[target]).value))
  {
    match QuotedText(line)
    case None => None
    case Some(q) =>
      var target := StarTarget(packagePath, Unquote(q), env);
      if target == "" then None
      else
        match FixFileContent(env.files[target])
        case None => None
        case Some(content) => if content == "" then None else Some(Nested(target, content))
  }

  // ---------------------------------------------------------------------------
  // Records

  /** The `source` of a record: the target, relative to `./@types`, with its
      first `index.ts` removed and then cleaned by `fixLine`.  The target is
      the quoted path joined to the package path when there is one. */
  function SourceOf(packagePath: string, quoted: Option<string>, env: Env): string {
    var target := match quoted
      case Some(q) => env.join([packagePath, Unquote(q)])
      case None => packagePath;
    FixLine(ReplaceFirst(env.relative("./@types", target), "index.ts", ""))
  }

  /** The record a line that is not `export * from` adds, if any.  An
      `export const` line always takes its source from the package path; the
      other kinds use the first quoted text of the line when there is one. */
  function LineRecord(line: string, k: LineKind, packagePath: string, env: Env): (r: Option<ExportStatement>)
    ensures k in {NotExport, StarFrom, Unrecognized} ==> r.None?
    ensures r.Some? <==> StatementsOf(line, k).Some?
    ensures r.Some? ==> r.value.statements == StatementsOf(line, k).value
    ensures r.Some? ==> |r.value.statements| >= 1
    ensures r.Some? && k == Const ==> r.value.source == SourceOf(packagePath, None, env)
    ensures r.Some? && k != Const ==> r.value.source == SourceOf(packagePath, QuotedText(line), env)
  {
    match StatementsOf(line, k)
    case None => None
    case Some(names) =>
      var quoted := if k == Const then None else QuotedText(line);
      Some(ExportStatement(names, SourceOf(packagePath, quoted, env)))
  }

  // ---------------------------------------------------------------------------
  // The per-line decisions, as one value

  /** The three decisions the scan makes about a line: its kind, the record a
      line other than `export * from` adds, and the file an `export * from`
      line leads to.  The scan itself is stated over any such value. */
  datatype Rules = Rules(
    classify: string -> LineKind,
    record: (string, LineKind, string, Env) -> Option<ExportStatement>,
    star: (string, string, Env) -> Option<Nested>)

  /** The decisions the script makes. */
  const Declared: Rules := Rules(Classify, LineRecord, StarFile)

  /** `path.relative` never yields a line terminator. */
  ghost predicate RelativeStaysOnOneLine(env: Env) {
    forall a, b, c :: c in env.relative(a, b) ==> !IsLineTerminator(c)
  }

  /** A record names at least one export and its source carries no `.ts`. */
  predicate WellFormedRecord(r: ExportStatement) {
    |r.statements| >= 1 && !Contains(r.source, ".ts")
  }

  lemma SourceHasNoTsExtension(packagePath: string, quoted: Option<string>, env: Env)
    requires RelativeStaysOnOneLine(env)
    ensures !Contains(SourceOf(packagePath, quoted, env), ".ts")
  {
    var target := match quoted
      case Some(q) => env.join([packagePath, Unquote(q)])
      case None => packagePath;
    var relative := env.relative("./@types", target);
    FixLineCutsTsExtension(ReplaceFirst(relative, "index.ts", ""));
  }

  /** Every record the rules can add under `env` is well formed. */
  ghost predicate RecordsWellFormed(rules: Rules, env: Env) {
    forall line, k, packagePath :: rules.record(line, k, packagePath, env).Some? ==>
      WellFormedRecord(rules.record(line, k, packagePath, env).value)
  }

  /** When `path.relative` stays on one line, every record the script builds
      names at least one export and has a source without `.ts`. */
  lemma DeclaredRecordsWellFormed(env: Env)
    requires RelativeStaysOnOneLine(env)
    ensures RecordsWellFormed(Declared, env)
  {
    forall line, k, packagePath | Declared.record(line, k, packagePath, env).Some?
      ensures WellFormedRecord(Declared.record(line, k, packagePath, env).value)
    {
      RecordHasNoTsExtension(line, k, packagePath, env);
    }
  }

  lemma RecordHasNoTsExtension(line: string, k: LineKind, packagePath: string, env: Env)
    requires RelativeStaysOnOneLine(env)
    requires LineRecord(line, k, packagePath, env).Some?
    ensures WellFormedRecord(LineRecord(line, k, packagePath, env).value)
  {
    if k == Const {
      SourceHasNoTsExtension(packagePath, None, env);
    } else {
      SourceHasNoTsExtension(packagePath, QuotedText(line), env);
    }
  }
}
