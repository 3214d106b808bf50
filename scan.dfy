// `findExportStatement`: the scan of a normalised index file, line by line,
// that follows `export * from` lines into the files they name and appends one
// record per recognised export line to a shared accumulator.  The scan is
// stated over the per-line decisions (`Rules`); `Resolve.Declared` holds the
// script's own.

module Scan {
  import opened JsString
  import opened Classifier
  import opened Resolve

  // ---------------------------------------------------------------------------
  // The scan, as functions.  `fuel` bounds how deep `export * from` lines are
  // followed.

  /** The records a whole file adds. */
  function FileExports(content: string, packagePath: string, env: Env, rules: Rules, fuel: nat): seq<ExportStatement>
    decreases fuel, 1, 0
  {
    LinesExports(SplitOn(content, "\n"), packagePath, env, rules, fuel)
  }

  /** The records a run of lines adds, in line order. */
  function LinesExports(lines: seq<string>, packagePath: string, env: Env, rules: Rules, fuel: nat): seq<ExportStatement>
    decreases fuel, 0, |lines|
  {
    if lines == [] then []
    else LinesExports(lines[..|lines| - 1], packagePath, env, rules, fuel)
         + LineExports(lines[|lines| - 1], packagePath, env, rules, fuel)
  }

  /** The records one line adds: those of the file it leads to for an
      `export * from` line, otherwise at most one. */
  function LineExports(line: string, packagePath: string, env: Env, rules: Rules, fuel: nat): seq<ExportStatement>
    decreases fuel, 0, 0
  {
    var k := rules.classify(line);
    if k == StarFrom then
      match rules.star(line, packagePath, env)
      case None => []
      case Some(nested) => if fuel == 0 then [] else FileExports(nested.content, nested.path, env, rules, fuel - 1)
    else
      match rules.record(line, k, packagePath, env)
      case None => []
      case Some(record) => [record]
  }

  /** The scan of a file stays within `fuel` nested `export * from` files.
      Past that depth the script's recursion exhausts the call stack and the
      scan fails as a whole. */
  predicate FileWithinDepth(content: string, packagePath: string, env: Env, rules: Rules, fuel: nat)
    decreases fuel, 2
  {
    LinesWithinDepth(SplitOn(content, "\n"), packagePath, env, rules, fuel)
  }

  predicate LinesWithinDepth(lines: seq<string>, packagePath: string, env: Env, rules: Rules, fuel: nat)
    decreases fuel, 1
  {
    forall i :: 0 <= i < |lines| ==> LineWithinDepth(lines[i], packagePath, env, rules, fuel)
  }

  /** Only an `export * from` line that leads to a file goes one level deeper. */
  predicate LineWithinDepth(line: string, packagePath: string, env: Env, rules: Rules, fuel: nat)
    decreases fuel, 0
  {
    rules.classify(line) == StarFrom && rules.star(line, packagePath, env).Some? ==>
      var nested := rules.star(line, packagePath, env).value;
      fuel > 0 && FileWithinDepth(nested.content, nested.path, env, rules, fuel - 1)
  }

  // ---------------------------------------------------------------------------
  // The scan, as the script runs it: a loop over the lines that pushes onto
  // one shared list and calls itself for `export * from` lines.

  /** The `exportStatements` array. */
  class StatementList {
    var items: seq<ExportStatement>

    constructor ()
      ensures items == []
    {
      items := [];
    }

    method Push(s: ExportStatement)
      modifies this
      ensures items == old(items) + [s]
    {
      items := items + [s];
    }
  }

  /** `findExportStatement`: `complete` is false when the recursion went
      deeper than `fuel`, the point where the script's stack overflows; the
      scan then stops, as the exception it throws would stop it. */
  method FindExportStatement(fileContent: string, packagePath: string, env: Env, rules: Rules, fuel: nat, acc: StatementList)
    returns (complete: bool)
    modifies acc
    ensures complete == FileWithinDepth(fileContent, packagePath, env, rules, fuel)
    ensures complete ==> acc.items == old(acc.items) + FileExports(fileContent, packagePath, env, rules, fuel)
    decreases fuel, 2
  {
    var lines := SplitOn(fileContent, "\n");
    complete := ScanLines(lines, packagePath, env, rules, fuel, acc);
  }

  /** The `for ... of` loop over the lines of the file. */
  method ScanLines(lines: seq<string>, packagePath: string, env: Env, rules: Rules, fuel: nat, acc: StatementList)
    returns (complete: bool)
    modifies acc
    ensures complete == LinesWithinDepth(lines, packagePath, env, rules, fuel)
    ensures complete ==> acc.items == old(acc.items) + LinesExports(lines, packagePath, env, rules, fuel)
    decreases fuel, 1
  {
    var i := 0;
    while i < |lines|
      invariant 0 <= i <= |lines|
      invariant forall j :: 0 <= j < i ==> LineWithinDepth(lines[j], packagePath, env, rules, fuel)
      invariant acc.items == old(acc.items) + LinesExports(lines[..i], packagePath, env, rules, fuel)
    {
      var ok := ScanLine(lines[i], packagePath, env, rules, fuel, acc);
      if !ok {
        return false;
      }
      LinesExportsPrefix(lines, i, packagePath, env, rules, fuel);
      i := i + 1;
    }
    assert lines[..|lines|] == lines;
    complete := true;
  }

  /** The body of the loop: follow an `export * from` line into its file, or
      push the record of any other line. */
  method ScanLine(line: string, packagePath: string, env: Env, rules: Rules, fuel: nat, acc: StatementList)
    returns (complete: bool)
    modifies acc
    ensures complete == LineWithinDepth(line, packagePath, env, rules, fuel)
    ensures complete ==> acc.items == old(acc.items) + LineExports(line, packagePath, env, rules, fuel)
    decreases fuel, 0
  {
    complete := true;
    var k := rules.classify(line);
    if k == StarFrom {
      var nested := rules.star(line, packagePath, env);
      if nested.Some? {
        if fuel == 0 {
          complete := false;
        } else {
          complete := FindExportStatement(nested.value.content, nested.value.path, env, rules, fuel - 1, acc);
        }
      }
    } else {
      var record := rules.record(line, k, packagePath, env);
      if record.Some? {
        acc.Push(record.value);
      }
    }
  }

  // ---------------------------------------------------------------------------
  // Properties of the scan

  /** One more line adds its own records at the end. */
  lemma LinesExportsSnoc(lines: seq<string>, line: string, packagePath: string, env: Env, rules: Rules, fuel: nat)
    ensures LinesExports(lines + [line], packagePath, env, rules, fuel)
            == LinesExports(lines, packagePath, env, rules, fuel) + LineExports(line, packagePath, env, rules, fuel)
  {
    assert (lines + [line])[..|lines|] == lines;
  }

  /** The records of the first `i + 1` lines: those of the first `i`, then line `i`'s. */
  lemma LinesExportsPrefix(lines: seq<string>, i: nat, packagePath: string, env: Env, rules: Rules, fuel: nat)
    requires i < |lines|
    ensures LinesExports(lines[..i + 1], packagePath, env, rules, fuel)
            == LinesExports(lines[..i], packagePath, env, rules, fuel) + LineExports(lines[i], packagePath, env, rules, fuel)
  {
    assert lines[..i + 1][..i] == lines[..i];
  }

  /** The records of two runs of lines are those of the first run followed by
      those of the second. */
  lemma {:induction false} LinesExportsAppend(a: seq<string>, b: seq<string>, packagePath: string, env: Env, rules: Rules, fuel: nat)
    ensures LinesExports(a + b, packagePath, env, rules, fuel)
            == LinesExports(a, packagePath, env, rules, fuel) + LinesExports(b, packagePath, env, rules, fuel)
    decreases |b|
  {
    if b == [] {
      assert a + b == a;
    } else {
      var b', last := b[..|b| - 1], b[|b| - 1];
      assert a + b == (a + b') + [last];
      assert b == b' + [last];
      LinesExportsSnoc(a + b', last, packagePath, env, rules, fuel);
      LinesExportsSnoc(b', last, packagePath, env, rules, fuel);
      LinesExportsAppend(a, b', packagePath, env, rules, fuel);
    }
  }

  /** Whatever the depth, every record of a file is one the rules build. */
  lemma {:induction false} FileRecordsWellFormed(content: string, packagePath: string, env: Env, rules: Rules, fuel: nat)
    requires RecordsWellFormed(rules, env)
    ensures forall r :: r in FileExports(content, packagePath, env, rules, fuel) ==> WellFormedRecord(r)
    decreases fuel, 1, 0
  {
    LinesRecordsWellFormed(SplitOn(content, "\n"), packagePath, env, rules, fuel);
  }

  lemma {:induction false} LinesRecordsWellFormed(lines: seq<string>, packagePath: string, env: Env, rules: Rules, fuel: nat)
    requires RecordsWellFormed(rules, env)
    ensures forall r :: r in LinesExports(lines, packagePath, env, rules, fuel) ==> WellFormedRecord(r)
    decreases fuel, 0, |lines|
  {
    if lines != [] {
      LinesRecordsWellFormed(lines[..|lines| - 1], packagePath, env, rules, fuel);
      LineRecordsWellFormed(lines[|lines| - 1], packagePath, env, rules, fuel);
    }
  }

  lemma {:induction false} LineRecordsWellFormed(line: string, packagePath: string, env: Env, rules: Rules, fuel: nat)
    requires RecordsWellFormed(rules, env)
    ensures forall r :: r in LineExports(line, packagePath, env, rules, fuel) ==> WellFormedRecord(r)
    decreases fuel, 0, 0
  {
    var k := rules.classify(line);
    if k == StarFrom {
      var nested := rules.star(line, packagePath, env);
      if nested.Some? && fuel > 0 {
        FileRecordsWellFormed(nested.value.content, nested.value.path, env, rules, fuel - 1);
      }
    }
  }

  /** Files are followed only through `export * from` lines: without such a
      line the depth bound plays no part. */
  lemma {:induction false} NoStarLinesFuelIrrelevant(lines: seq<string>, packagePath: string, env: Env, rules: Rules, fuel: nat, fuel': nat)
    requires forall i :: 0 <= i < |lines| ==> rules.classify(lines[i]) != StarFrom
    ensures LinesExports(lines, packagePath, env, rules, fuel) == LinesExports(lines, packagePath, env, rules, fuel')
    decreases |lines|
  {
    if lines != [] {
      NoStarLinesFuelIrrelevant(lines[..|lines| - 1], packagePath, env, rules, fuel, fuel');
    }
  }

  /** A depth that suffices for a file suffices at every larger depth, and
      the records do not depend on which one is used. */
  lemma {:induction false} FileDepthMonotone(content: string, packagePath: string, env: Env, rules: Rules, fuel: nat, fuel': nat)
    requires FileWithinDepth(content, packagePath, env, rules, fuel) && fuel <= fuel'
    ensures FileWithinDepth(content, packagePath, env, rules, fuel')
    ensures FileExports(content, packagePath, env, rules, fuel') == FileExports(content, packagePath, env, rules, fuel)
    decreases fuel, 2, 0
  {
    LinesDepthMonotone(SplitOn(content, "\n"), packagePath, env, rules, fuel, fuel');
  }

  lemma {:induction false} LinesDepthMonotone(lines: seq<string>, packagePath: string, env: Env, rules: Rules, fuel: nat, fuel': nat)
    requires LinesWithinDepth(lines, packagePath, env, rules, fuel) && fuel <= fuel'
    ensures LinesWithinDepth(lines, packagePath, env, rules, fuel')
    ensures LinesExports(lines, packagePath, env, rules, fuel') == LinesExports(lines, packagePath, env, rules, fuel)
    decreases fuel, 1, |lines|
  {
    if lines != [] {
      var prefix := lines[..|lines| - 1];
      assert LinesWithinDepth(prefix, packagePath, env, rules, fuel) by {
        forall i | 0 <= i < |prefix| ensures LineWithinDepth(prefix[i], packagePath, env, rules, fuel) {
          assert prefix[i] == lines[i];
        }
      }
      LinesDepthMonotone(prefix, packagePath, env, rules, fuel, fuel');
      LineDepthMonotone(lines[|lines| - 1], packagePath, env, rules, fuel, fuel');
      forall i | 0 <= i < |lines| ensures LineWithinDepth(lines[i], packagePath, env, rules, fuel') {
        if i < |prefix| {
          assert prefix[i] == lines[i];
        }
      }
    }
  }

  lemma {:induction false} LineDepthMonotone(line: string, packagePath: string, env: Env, rules: Rules, fuel: nat, fuel': nat)
    requires LineWithinDepth(line, packagePath, env, rules, fuel) && fuel <= fuel'
    ensures LineWithinDepth(line, packagePath, env, rules, fuel')
    ensures LineExports(line, packagePath, env, rules, fuel') == LineExports(line, packagePath, env, rules, fuel)
    decreases fuel, 0, 0
  {
    var nested := rules.star(line, packagePath, env);
    if rules.classify(line) == StarFrom && nested.Some? {
      FileDepthMonotone(nested.value.content, nested.value.path, env, rules, fuel - 1, fuel' - 1);
    }
  }

  /** A file with an `export * from` line that leads back to itself is never
      within depth: the script's recursion on it does not end. */
  lemma {:induction false} SelfReexportExceedsEveryDepth(content: string, packagePath: string, env: Env, rules: Rules,
                                                         i: nat, fuel: nat)
    requires i < |SplitOn(content, "\n")|
    requires var line := SplitOn(content, "\n")[i];
             rules.classify(line) == StarFrom && rules.star(line, packagePath, env) == Some(Nested(packagePath, content))
    ensures !FileWithinDepth(content, packagePath, env, rules, fuel)
  {
    if fuel > 0 {
      SelfReexportExceedsEveryDepth(content, packagePath, env, rules, i, fuel - 1);
    }
    assert !LineWithinDepth(SplitOn(content, "\n")[i], packagePath, env, rules, fuel);
  }

  /** A file with an `export * from` line that leads to such a self
      re-exporting file is never within depth either. */
  lemma ReexportOfSelfReexportExceedsEveryDepth(content: string, packagePath: string, env: Env, rules: Rules,
                                                i: nat, target: Nested, j: nat, fuel: nat)
    requires i < |SplitOn(content, "\n")|
    requires var line := SplitOn(content, "\n")[i];
             rules.classify(line) == StarFrom && rules.star(line, packagePath, env) == Some(target)
    requires j < |SplitOn(target.content, "\n")|
    requires var line := SplitOn(target.content, "\n")[j];
             rules.classify(line) == StarFrom && rules.star(line, target.path, env) == Some(target)
    ensures !FileWithinDepth(content, packagePath, env, rules, fuel)
  {
    if fuel > 0 {
      SelfReexportExceedsEveryDepth(target.content, target.path, env, rules, j, fuel - 1);
    }
    assert !LineWithinDepth(SplitOn(content, "\n")[i], packagePath, env, rules, fuel);
  }

  // ---------------------------------------------------------------------------
  // The script's own rules

  /** A line other than `export * from` adds at most one record, a line that is
      not an export or not recognised adds none, and so does an
      `export * from` line whose target is not followed. */
  lemma LineExportsShape(line: string, packagePath: string, env: Env, fuel: nat)
    ensures var r := LineExports(line, packagePath, env, Declared, fuel);
            && (Classify(line) != StarFrom ==> |r| <= 1)
            && (Classify(line) in {NotExport, Unrecognized} ==> r == [])
            && (Classify(line) == StarFrom && StarFile(line, packagePath, env).None? ==> r == [])
  {
  }

  /** Every record the script collects, at any depth, names at least one export
      and has a source without `.ts`. */
  lemma DeclaredFileRecordsWellFormed(content: string, packagePath: string, env: Env, fuel: nat)
    requires RelativeStaysOnOneLine(env)
    ensures forall r :: r in FileExports(content, packagePath, env, Declared, fuel) ==> WellFormedRecord(r)
  {
    DeclaredRecordsWellFormed(env);
    FileRecordsWellFormed(content, packagePath, env, Declared, fuel);
  }
}
