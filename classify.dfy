// The classifier chain of `findExportStatement` and, for every kind of export
// line, the statement names it contributes.

module Classifier {
  import opened JsString
  import opened Patterns

  /** What a line of the normalised file is, as the chain of `startsWith`
      tests on the trimmed line decides. */
  datatype LineKind = NotExport | StarFrom | StarAs | Braces | Const | Type | Function | Interface | Unrecognized

  /** The prefixes the chain tests, in its order, and the kind each selects. */
  const Keywords: seq<string> :=
    ["export * from", "export * as", "export {", "export const", "export type", "export function", "export interface"]
  const Kinds: seq<LineKind> := [StarFrom, StarAs, Braces, Const, Type, Function, Interface]

  /** The place of a kind in the chain. */
  function Rank(k: LineKind): nat {
    match k
    case StarFrom => 0
    case StarAs => 1
    case Braces => 2
    case Const => 3
    case Type => 4
    case Function => 5
    case Interface => 6
    case _ => 7
  }

  lemma RankOfKinds()
    ensures forall i :: 0 <= i < |Kinds| ==> Rank(Kinds[i]) == i
  {
    forall i | 0 <= i < |Kinds| ensures Rank(Kinds[i]) == i {
      if i == 0 {} else if i == 1 {} else if i == 2 {} else if i == 3 {} else if i == 4 {} else if i == 5 {}
    }
  }

  /** The first keyword from `i` on that `t` starts with, or `|Keywords|`. */
  function KeywordIndex(t: string, i: nat): (r: nat)
    requires i <= |Keywords|
    ensures i <= r <= |Keywords|
    ensures r < |Keywords| ==> StartsWith(t, Keywords[r])
    ensures forall j :: i <= j < r ==> !StartsWith(t, Keywords[j])
    decreases |Keywords| - i
  {
    if i == |Keywords| || StartsWith(t, Keywords[i]) then i else KeywordIndex(t, i + 1)
  }

  /** The chain of `startsWith` tests on the trimmed line: a line that does not
      start with `export` is skipped, otherwise the first keyword it starts
      with decides its kind. */
  function Classify(line: string): LineKind {
    KindOf(Trim(line))
  }

  /** The chain on an already trimmed line. */
  function KindOf(t: string): LineKind {
    if !StartsWith(t, "export") then NotExport
    else
      var r := KeywordIndex(t, 0);
      if r < |Kinds| then Kinds[r] else Unrecognized
  }

  lemma KindOfIsFirstKeyword(t: string)
    ensures var k := KindOf(t);
            && (k == NotExport <==> !StartsWith(t, "export"))
            && (k == Unrecognized <==>
                  StartsWith(t, "export") && forall i :: 0 <= i < |Keywords| ==> !StartsWith(t, Keywords[i]))
            && (forall i :: 0 <= i < |Kinds| && k == Kinds[i] ==>
                  StartsWith(t, Keywords[i]) && forall j :: 0 <= j < i ==> !StartsWith(t, Keywords[j]))
  {
    RankOfKinds();
    var k := KindOf(t);
    if StartsWith(t, "export") {
      var r := KeywordIndex(t, 0);
      forall i | 0 <= i < |Kinds| && k == Kinds[i] ensures i == r {
        assert Rank(Kinds[i]) == i;
      }
    }
  }

  /** A line is an export exactly when its trimmed text starts with `export`;
      it is unrecognised exactly when no keyword fits, and otherwise its kind
      is that of the first keyword it starts with. */
  lemma ClassifyIsFirstKeyword(line: string)
    ensures var k := Classify(line);
            && (k == NotExport <==> !StartsWith(Trim(line), "export"))
            && (k == Unrecognized <==>
                  StartsWith(Trim(line), "export") && forall i :: 0 <= i < |Keywords| ==> !StartsWith(Trim(line), Keywords[i]))
            && (forall i :: 0 <= i < |Kinds| && k == Kinds[i] ==>
                  StartsWith(Trim(line), Keywords[i]) && forall j :: 0 <= j < i ==> !StartsWith(Trim(line), Keywords[j]))
  {
    KindOfIsFirstKeyword(Trim(line));
  }

  // ---------------------------------------------------------------------------
  // Statements of each kind; `None` when the kind's pattern does not match,
  // in which case the line contributes no record.

  /** `export * as X from '...'`: the one name after `as`. */
  function StarAsStatements(line: string): (r: Option<seq<string>>)
    ensures r.Some? <==> exists p, q :: StarAsSpan(line, p, q)
    ensures r.Some? ==> exists p, q :: FirstStarAs(line, p, q) && r.value == [line[p..q]]
  {
    FindStarAsIsFirstMatch(line);
    match FindStarAs(line)
    case None => None
    case Some(h) =>
      assert FirstStarAs(line, h.at, h.end);
      Some([Captured(line, h)])
  }

  /** `export { a, b } from '...'`: the braces' contents cut at `, `. */
  function BraceStatements(line: string): (r: Option<seq<string>>)
    ensures r.Some? <==> exists p, s, e :: BraceSpan(line, p, s, e)
    ensures r.Some? ==> exists p, s, e :: FirstBrace(line, p, s, e) && JoinWith(r.value, ", ") == line[s..e]
    ensures r.Some? ==> |r.value| >= 1 && forall k :: 0 <= k < |r.value| ==> !Contains(r.value[k], ", ")
  {
    FindBraceIsFirstMatch(line);
    match FindBrace(line)
    case None => None
    case Some(h) =>
      assert FirstBrace(line, h.at, h.mid, h.end);
      Some(SplitOn(Captured(line, h), ", "))
  }

  // `s.replace(/:.*/, '')`: the first `:` and the rest of its line go; on
  // one line, exactly the text before the first `:` is kept.
  function CutFromColon(s: string): (r: string)
    ensures ':' !in s ==> r == s
    ensures ':' in s ==> exists i, j :: 0 <= i < j <= |s| && s[i] == ':' && ':' !in s[..i]
                                        && NoLineTerminatorIn(s, i, j) && (j == |s| || IsLineTerminator(s[j]))
                                        && r == s[..i] + s[j..]
    ensures NoLineTerminatorIn(s, 0, |s|) ==> ':' !in r && StartsWith(s, r)
    ensures NoLineTerminatorIn(s, 0, |s|) && ':' in s ==> |r| < |s| && s[|r|] == ':'
  {
    match CharFrom(s, ':', 0)
    case None => s
    case Some(i) =>
      LineEndIsFirst(s, i);
      var j := LineEnd(s, i);
      assert ':' !in s[..i] && !IsLineTerminator(s[i]);
      s[..i] + s[j..]
  }

  /** Group 1 of `/\[(.*?)]/i`. */
  function BracketCapture(line: string): (r: Option<string>)
    ensures r.Some? ==> NoLineTerminatorIn(r.value, 0, |r.value|)
    ensures r.Some? <==> exists p, e :: BracketSpan(line, p, e)
    ensures r.Some? ==> exists p, e :: FirstBracket(line, p, e) && r.value == line[p + 1..e]
  {
    FindBracketIsFirstMatch(line);
    match FindBracket(line)
    case None => None
    case Some(h) =>
      assert FirstBracket(line, h.at, h.end);
      Some(Captured(line, h))
  }

  /** Group 1 of `/=\s*(\w+)/i`: a word, so no line terminator. */
  function EqWordCapture(line: string): (r: Option<string>)
    ensures r.Some? ==> NoLineTerminatorIn(r.value, 0, |r.value|)
    ensures r.Some? <==> exists p, s, t :: EqWordSpan(line, p, s, t)
    ensures r.Some? ==> exists p, s, t :: FirstEqWord(line, p, s, t) && r.value == line[s..t]
  {
    FindEqWordIsFirstMatch(line);
    match FindEqWord(line)
    case None => None
    case Some(h) =>
      assert FirstEqWord(line, h.at, h.mid, h.end);
      Some(Captured(line, h))
  }

  /** Group 1 of `/export\s+const\s+(.*?)\s*=/i`. */
  function ConstDeclCapture(line: string): (r: Option<string>)
    ensures r.Some? ==> NoLineTerminatorIn(r.value, 0, |r.value|)
    ensures r.Some? <==> exists p, c, s, e :: ConstSpan(line, p, c, s, e)
    ensures r.Some? ==> exists p, c, s, e :: FirstConst(line, p, c, s, e) && r.value == line[s..e]
  {
    FindConstIsFirstMatch(line);
    match FindConst(line)
    case None => None
    case Some(h) =>
      var c :| ConstSpan(line, h.at, c, h.mid, h.end);
      assert FirstConst(line, h.at, c, h.mid, h.end);
      Some(Captured(line, h))
  }

  /** Group 1 of the pattern an `export const` line picks by its own (untrimmed)
      start: the bracket contents for `export const [`, the word after `=` for
      `export const {`, and otherwise what lies between `const` and `=`. */
  function ConstCapture(line: string): (r: Option<string>)
    ensures r.Some? ==> NoLineTerminatorIn(r.value, 0, |r.value|)
    ensures StartsWith(line, "export const [") ==> (r.Some? <==> exists p, e :: BracketSpan(line, p, e))
    ensures !StartsWith(line, "export const [") && StartsWith(line, "export const {") ==>
              (r.Some? <==> exists p, s, t :: EqWordSpan(line, p, s, t))
    ensures !StartsWith(line, "export const [") && !StartsWith(line, "export const {") ==>
              (r.Some? <==> exists p, c, s, e :: ConstSpan(line, p, c, s, e))
    ensures StartsWith(line, "export const [") ==> r == BracketCapture(line)
    ensures !StartsWith(line, "export const [") && StartsWith(line, "export const {") ==> r == EqWordCapture(line)
    ensures !StartsWith(line, "export const [") && !StartsWith(line, "export const {") ==> r == ConstDeclCapture(line)
  {
    if StartsWith(line, "export const [") then BracketCapture(line)
    else if StartsWith(line, "export const {") then EqWordCapture(line)
    else ConstDeclCapture(line)
  }

  /** `export const ...`: the capture with its type annotation cut off, then
      cut at `, `; no name keeps a `:`. */
  function ConstStatements(line: string): (r: Option<seq<string>>)
    ensures r.Some? <==> ConstCapture(line).Some?
    ensures r.Some? ==> JoinWith(r.value, ", ") == CutFromColon(ConstCapture(line).value)
                        && forall k :: 0 <= k < |r.value| ==> !Contains(r.value[k], ", ")
    ensures r.Some? ==> |r.value| >= 1 && forall k :: 0 <= k < |r.value| ==> ':' !in r.value[k]
  {
    match ConstCapture(line)
    case None => None
    case Some(cap) =>
      Some(SplitOn(CutFromColon(cap), ", "))
  }

  /** Each name prefixed with `prefix`. */
  function Prefixed(prefix: string, names: seq<string>): (r: seq<string>)
    ensures |r| == |names| && forall k :: 0 <= k < |r| ==> r[k] == prefix + names[k]
  {
    if names == [] then [] else [prefix + names[0]] + Prefixed(prefix, names[1..])
  }

  /** `export type ...`: the whole match, when it is not empty, cut at `, `,
      each piece marked as a type. */
  function TypeStatements(line: string): (r: Option<seq<string>>)
    ensures r.Some? <==> exists p, e :: FirstType(line, p, e) && p < e
    ensures r.Some? ==> exists p, e, names :: FirstType(line, p, e) && p < e && 0 <= p <= e <= |line|
                          && JoinWith(names, ", ") == line[p..e]
                          && (forall k :: 0 <= k < |names| ==> !Contains(names[k], ", "))
                          && r.value == Prefixed("type ", names)
    ensures r.Some? ==> |r.value| >= 1
    ensures r.Some? ==> forall k :: 0 <= k < |r.value| ==>
                          StartsWith(r.value[k], "type ") && !Contains(r.value[k][5..], ", ")
  {
    FindTypeIsFirstType(line);
    match FindType(line)
    case None => None
    case Some(h) =>
      if h.at == h.end then
        assert forall p, e :: FirstType(line, p, e) ==> p == e by {
          forall p, e | FirstType(line, p, e) ensures p == e {
            FirstTypeIsUnique(line, p, e, h.at, h.end);
          }
        }
        None
      else
        var names := SplitOn(Captured(line, h), ", ");
        var typed := Prefixed("type ", names);
        assert forall k :: 0 <= k < |typed| ==> typed[k][5..] == names[k];
        Some(typed)
  }

  /** `export function f(...)`: the one function name, a non-empty word. */
  function FunctionStatements(line: string): (r: Option<seq<string>>)
    ensures r.Some? <==> exists f, p, t :: FunctionSpan(line, f, p, t)
    ensures r.Some? ==> exists f, p, t :: FirstFunction(line, f, p, t) && r.value == [line[p..t]]
    ensures r.Some? ==> |r.value| == 1 && r.value[0] != "" && AllWord(r.value[0], 0, |r.value[0]|)
  {
    FindFunctionIsFirstMatch(line);
    match FindFunction(line)
    case None => None
    case Some(h) =>
      var f := h.at - SpaceRunBack(line, h.at);
      assert FirstFunction(line, f, h.mid, h.end);
      SliceOfWord(line, h.mid, h.end);
      Some([Captured(line, h)])
  }

  /** A stretch of word characters, cut out, is a word. */
  lemma SliceOfWord(line: string, p: int, t: int)
    requires 0 <= p <= t <= |line| && AllWord(line, p, t)
    ensures AllWord(line[p..t], 0, t - p)
  {
    forall k | 0 <= k < t - p ensures IsWordChar(line[p..t][k]) {
      assert line[p..t][k] == line[p + k];
    }
  }

  /** `export interface I {`: the one interface name, marked as a type. */
  function InterfaceStatements(line: string): (r: Option<seq<string>>)
    ensures r.Some? <==> exists p, t :: InterfaceSpan(line, p, t)
    ensures r.Some? ==> exists p, t :: FirstInterface(line, p, t) && r.value == ["type " + line[p..t]]
    ensures r.Some? ==> |r.value| == 1 && StartsWith(r.value[0], "type ") && |r.value[0]| > 5
  {
    FindInterfaceIsFirstMatch(line);
    match FindInterface(line)
    case None => None
    case Some(h) =>
      assert FirstInterface(line, h.at, h.end);
      Some(["type " + Captured(line, h)])
  }

  /** The statements a non-`export * from` line contributes, by its kind. */
  function StatementsOf(line: string, k: LineKind): (r: Option<seq<string>>)
    ensures k in {NotExport, StarFrom, Unrecognized} ==> r.None?
    ensures k == StarAs ==> r == StarAsStatements(line)
    ensures k == Braces ==> r == BraceStatements(line)
    ensures k == Const ==> r == ConstStatements(line)
    ensures k == Type ==> r == TypeStatements(line)
    ensures k == Function ==> r == FunctionStatements(line)
    ensures k == Interface ==> r == InterfaceStatements(line)
    ensures r.Some? ==> |r.value| >= 1
  {
    match k
    case StarAs => StarAsStatements(line)
    case Braces => BraceStatements(line)
    case Const => ConstStatements(line)
    case Type => TypeStatements(line)
    case Function => FunctionStatements(line)
    case Interface => InterfaceStatements(line)
    case _ => None
  }
}
