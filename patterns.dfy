/** The regular expressions of the declaration script, each written as a
    scanner. A span predicate says when the pattern matches a given stretch
    of the line; the scanner returns the match `RegExp.prototype.exec`
    returns from index 0: the leftmost start and, at that start, the choice a
    backtracking engine tries first (greedy quantifiers longest first, lazy
    ones shortest first, alternatives left to right).

    Each pattern has a per-position function (what the engine finds when it
    tries to match from `p`), a search for the first position where that
    succeeds, and a lemma `...IsFirstMatch` that states the search's result
    in terms of the span predicate. */
module Patterns {
  import opened JsString

  /** A match that starts at `at` and whose reported text is `line[mid..end]`. */
  datatype Hit = Hit(at: nat, mid: nat, end: nat)

  predicate HitIn(line: string, h: Hit) {
    h.at <= h.mid <= h.end <= |line|
  }

  function Captured(line: string, h: Hit): string
    requires HitIn(line, h)
  {
    line[h.mid..h.end]
  }

  // ---------------------------------------------------------------------------
  // pathRegex, /'([^']*)'/i: a quoted stretch; group 1 is what is inside.

  /** `line[p..e + 1]` is a quote, a stretch without quotes and a quote. */
  predicate QuotedSpan(line: string, p: int, e: int) {
    0 <= p < e < |line| && line[p] == '\'' && line[e] == '\''
    && forall j :: p < j < e ==> line[j] != '\''
  }

  function FindQuoted(line: string): (r: Option<Hit>)
    ensures r.Some? ==> r.value.mid == r.value.at + 1 && QuotedSpan(line, r.value.at, r.value.end)
    ensures r.Some? ==> forall p, e :: QuotedSpan(line, p, e) ==>
                          r.value.at < p || (r.value.at == p && r.value.end == e)
    ensures r.None? ==> forall p, e :: !QuotedSpan(line, p, e)
  {
    match CharFrom(line, '\'', 0)
    case None => None
    case Some(p) =>
      match CharFrom(line, '\'', p + 1)
      case None => None
      case Some(e) => Some(Hit(p, p + 1, e))
  }

  /** Group 1 of `pathRegex.exec(line)`, when there is a match. */
  function QuotedText(line: string): (r: Option<string>)
    ensures r.Some? ==> '\'' !in r.value
    ensures r.Some? ==> exists p, e :: QuotedSpan(line, p, e) && r.value == line[p + 1..e]
                                        && forall p', e' :: QuotedSpan(line, p', e') ==> p < p' || (p == p' && e == e')
    ensures r.None? <==> forall p, e :: !QuotedSpan(line, p, e)
  {
    match FindQuoted(line)
    case None => None
    case Some(h) => Some(line[h.mid..h.end])
  }

  // ---------------------------------------------------------------------------
  // /(?<=\bas\b\s)(.*?)(?=\sfrom)/gi: the name of an `export * as` line.

  /** The lookbehind `\bas\b\s` holds at `p`. */
  predicate AsBefore(line: string, p: int) {
    3 <= p <= |line| && IsBoundary(line, p - 3) && CiAt(line, p - 3, "as")
    && IsBoundary(line, p - 1) && IsJsSpace(line[p - 1])
  }

  /** The lookahead `\sfrom` holds at `q`. */
  predicate FromAhead(line: string, q: int) {
    0 <= q && q + 5 <= |line| && IsJsSpace(line[q]) && CiAt(line, q + 1, "from")
  }

  /** The pattern matches `line[p..q]`. */
  predicate StarAsSpan(line: string, p: int, q: int) {
    AsBefore(line, p) && p <= q <= |line| && NoLineTerminatorIn(line, p, q) && FromAhead(line, q)
  }

  /** The lazy end of a match from `p`. */
  function StarAsEnd(line: string, p: nat): (r: Option<nat>)
    requires p <= |line|
    ensures r.Some? ==> StarAsSpan(line, p, r.value)
    ensures r.Some? ==> forall q :: StarAsSpan(line, p, q) ==> r.value <= q
    ensures r.None? ==> forall q :: !StarAsSpan(line, p, q)
  {
    LineEndIsFirst(line, p);
    var ahead := (q: nat) => FromAhead(line, q);
    assert forall q: nat :: ahead(q) == FromAhead(line, q);
    if AsBefore(line, p) then FirstIn(p, LineEnd(line, p), ahead) else None
  }

  function FindStarAs(line: string): (r: Option<Hit>)
    ensures r.Some? ==> var p := r.value.at;
                        p <= |line| && StarAsEnd(line, p).Some? && r.value == Hit(p, p, StarAsEnd(line, p).value)
    ensures r.Some? ==> forall p: nat :: p < r.value.at ==> StarAsEnd(line, p).None?
    ensures r.None? ==> forall p: nat :: p <= |line| ==> StarAsEnd(line, p).None?
  {
    var starts := (p: nat) => p <= |line| && StarAsEnd(line, p).Some?;
    assert forall p: nat :: starts(p) == (p <= |line| && StarAsEnd(line, p).Some?);
    match FirstIn(0, |line|, starts)
    case None => None
    case Some(p) => Some(Hit(p, p, StarAsEnd(line, p).value))
  }

  lemma FindStarAsIsFirstMatch(line: string)
    ensures var r := FindStarAs(line);
            && (r.Some? ==> StarAsSpan(line, r.value.at, r.value.end) && r.value.mid == r.value.at)
            && (r.Some? ==> forall p, q :: StarAsSpan(line, p, q) ==>
                              r.value.at < p || (r.value.at == p && r.value.end <= q))
            && (r.None? ==> forall p, q :: !StarAsSpan(line, p, q))
  {
    var r := FindStarAs(line);
    forall p, q | StarAsSpan(line, p, q) ensures r.Some? && r.value.at <= p {
      assert StarAsEnd(line, p).Some?;
    }
  }

  /** The match the engine reports: the leftmost start and, there, the
      shortest group. */
  ghost predicate FirstStarAs(line: string, p: int, q: int) {
    StarAsSpan(line, p, q) && forall p', q' :: StarAsSpan(line, p', q') ==> p < p' || (p == p' && q <= q')
  }

  // ---------------------------------------------------------------------------
  // /(?<={)\s*\b(.*?)\b\s*(?=})/i: the names of an `export {` line.

  /** After the `{` at `p - 1`: white space up to `s`, then group 1 is `line[s..e]`. */
  predicate BraceSpan(line: string, p: int, s: int, e: int) {
    1 <= p <= s <= e <= |line| && line[p - 1] == '{' && AllSpace(line, p, s)
    && IsBoundary(line, s) && NoLineTerminatorIn(line, s, e)
    && IsBoundary(line, e) && SpaceThen(line, e, '}')
  }

  /** Backtracking into the leading `\s*` never helps: a match from `p` takes
      all the white space there is. */
  lemma BraceSpaceIsForced(line: string, p: int, s: int, e: int)
    requires BraceSpan(line, p, s, e)
    ensures s == p + SpaceRun(line, p)
  {
    SpaceRunIsLongest(line, p, s);
    if s < p + SpaceRun(line, p) {
      SpaceIsNotWord(line[s]);
      SpaceIsNotWord(line[s - 1]);
    }
  }

  /** `\b\s*(?=})` holds at `e`. */
  predicate CloseAt(line: string, e: int) {
    0 <= e <= |line| && IsBoundary(line, e) && SpaceThen(line, e, '}')
  }

  /** The lazy `(.*?)` before `\b\s*(?=})`, from `s`: the nearest end on the line. */
  function CloseFrom(line: string, s: nat): (r: Option<nat>)
    requires s <= |line|
    ensures r.Some? ==> s <= r.value <= |line| && NoLineTerminatorIn(line, s, r.value) && CloseAt(line, r.value)
    ensures forall e :: s <= e <= |line| && NoLineTerminatorIn(line, s, e) && CloseAt(line, e) ==>
                          r.Some? && r.value <= e
  {
    LineEndIsFirst(line, s);
    var ends := (e: nat) => CloseAt(line, e);
    assert forall e: nat :: ends(e) == CloseAt(line, e);
    FirstIn(s, LineEnd(line, s), ends)
  }

  /** A match from `p` is the white space after the brace and then a lazy
      stretch that `CloseFrom` searches. */
  lemma BraceSpanFrom(line: string, p: nat)
    requires p <= |line|
    ensures forall s, e :: BraceSpan(line, p, s, e) <==>
              (s == p + SpaceRun(line, p) && 1 <= p && line[p - 1] == '{' && IsBoundary(line, s)
               && s <= e <= |line| && NoLineTerminatorIn(line, s, e) && CloseAt(line, e))
  {
    forall s, e | BraceSpan(line, p, s, e) ensures s == p + SpaceRun(line, p) {
      BraceSpaceIsForced(line, p, s, e);
    }
  }

  function BraceEnd(line: string, p: nat): (r: Option<nat>)
    requires p <= |line|
    ensures r.Some? ==> BraceSpan(line, p, p + SpaceRun(line, p), r.value)
    ensures r.Some? ==> forall s, e :: BraceSpan(line, p, s, e) ==>
                          s == p + SpaceRun(line, p) && r.value <= e
    ensures r.None? ==> forall s, e :: !BraceSpan(line, p, s, e)
  {
    var s := p + SpaceRun(line, p);
    BraceSpanFrom(line, p);
    if 1 <= p && line[p - 1] == '{' && IsBoundary(line, s) then CloseFrom(line, s) else None
  }

  function FindBrace(line: string): (r: Option<Hit>)
    ensures r.Some? ==> var p := r.value.at;
                        p <= |line| && BraceEnd(line, p).Some?
                        && r.value == Hit(p, p + SpaceRun(line, p), BraceEnd(line, p).value)
    ensures r.Some? ==> forall p: nat :: p < r.value.at ==> BraceEnd(line, p).None?
    ensures r.None? ==> forall p: nat :: p <= |line| ==> BraceEnd(line, p).None?
  {
    var starts := (p: nat) => p <= |line| && BraceEnd(line, p).Some?;
    assert forall p: nat :: starts(p) == (p <= |line| && BraceEnd(line, p).Some?);
    match FirstIn(0, |line|, starts)
    case None => None
    case Some(p) => Some(Hit(p, p + SpaceRun(line, p), BraceEnd(line, p).value))
  }

  lemma FindBraceIsFirstMatch(line: string)
    ensures var r := FindBrace(line);
            && (r.Some? ==> BraceSpan(line, r.value.at, r.value.mid, r.value.end))
            && (r.Some? ==> forall p, s, e :: BraceSpan(line, p, s, e) ==>
                              r.value.at < p || (r.value.at == p && r.value.mid == s && r.value.end <= e))
            && (r.None? ==> forall p, s, e :: !BraceSpan(line, p, s, e))
  {
    BraceSearchIsFirstMatch(line, FindBrace(line));
  }

  /** The same, for any result that has the search's contract. */
  lemma BraceSearchIsFirstMatch(line: string, r: Option<Hit>)
    requires r.Some? ==> var p := r.value.at;
                         p <= |line| && BraceEnd(line, p).Some?
                         && r.value == Hit(p, p + SpaceRun(line, p), BraceEnd(line, p).value)
    requires r.Some? ==> forall p: nat :: p < r.value.at ==> BraceEnd(line, p).None?
    requires r.None? ==> forall p: nat :: p <= |line| ==> BraceEnd(line, p).None?
    ensures r.Some? ==> BraceSpan(line, r.value.at, r.value.mid, r.value.end)
    ensures r.Some? ==> forall p, s, e :: BraceSpan(line, p, s, e) ==>
                          r.value.at < p || (r.value.at == p && r.value.mid == s && r.value.end <= e)
    ensures r.None? ==> forall p, s, e :: !BraceSpan(line, p, s, e)
  {
    forall p, s, e | BraceSpan(line, p, s, e)
      ensures r.Some? && (r.value.at < p || (r.value.at == p && r.value.mid == s && r.value.end <= e))
    {
      BraceSpanMatches(line, p, s, e);
    }
  }

  /** A match from `p` bounds what the engine finds there. */
  lemma BraceSpanMatches(line: string, p: int, s: int, e: int)
    requires BraceSpan(line, p, s, e)
    ensures BraceEnd(line, p).Some? && s == p + SpaceRun(line, p) && BraceEnd(line, p).value <= e
  {
  }

  /** The match the engine reports: the leftmost start and, there, the
      shortest group. */
  ghost predicate FirstBrace(line: string, p: int, s: int, e: int) {
    BraceSpan(line, p, s, e)
    && forall p', s', e' :: BraceSpan(line, p', s', e') ==> p < p' || (p == p' && s == s' && e <= e')
  }

  // ---------------------------------------------------------------------------
  // /\[(.*?)]/i: the names of an `export const [` line.

  /** `[` at `p`, group 1 is `line[p + 1..e]`, `]` at `e`. */
  predicate BracketSpan(line: string, p: int, e: int) {
    0 <= p < e < |line| && line[p] == '[' && NoLineTerminatorIn(line, p + 1, e) && line[e] == ']'
  }

  function BracketEnd(line: string, p: nat): (r: Option<nat>)
    requires p <= |line|
    ensures r.Some? ==> BracketSpan(line, p, r.value)
    ensures r.Some? ==> forall e :: BracketSpan(line, p, e) ==> r.value <= e
    ensures r.None? ==> forall e :: !BracketSpan(line, p, e)
  {
    if p < |line| && line[p] == '[' then
      LineEndIsFirst(line, p + 1);
      var ends := (e: nat) => e < |line| && line[e] == ']';
      assert forall e: nat :: ends(e) == (e < |line| && line[e] == ']');
      FirstIn(p + 1, LineEnd(line, p + 1), ends)
    else None
  }

  function FindBracket(line: string): (r: Option<Hit>)
    ensures r.Some? ==> var p := r.value.at;
                        p <= |line| && BracketEnd(line, p).Some? && r.value == Hit(p, p + 1, BracketEnd(line, p).value)
    ensures r.Some? ==> forall p: nat :: p < r.value.at ==> BracketEnd(line, p).None?
    ensures r.None? ==> forall p: nat :: p <= |line| ==> BracketEnd(line, p).None?
  {
    var starts := (p: nat) => p <= |line| && BracketEnd(line, p).Some?;
    assert forall p: nat :: starts(p) == (p <= |line| && BracketEnd(line, p).Some?);
    match FirstIn(0, |line|, starts)
    case None => None
    case Some(p) => Some(Hit(p, p + 1, BracketEnd(line, p).value))
  }

  lemma FindBracketIsFirstMatch(line: string)
    ensures var r := FindBracket(line);
            && (r.Some? ==> BracketSpan(line, r.value.at, r.value.end) && r.value.mid == r.value.at + 1)
            && (r.Some? ==> forall p, e :: BracketSpan(line, p, e) ==>
                              r.value.at < p || (r.value.at == p && r.value.end <= e))
            && (r.None? ==> forall p, e :: !BracketSpan(line, p, e))
  {
    var r := FindBracket(line);
    forall p, e | BracketSpan(line, p, e) ensures r.Some? && r.value.at <= p {
      assert BracketEnd(line, p).Some?;
    }
  }

  /** The match the engine reports: the leftmost `[` and the nearest `]`. */
  ghost predicate FirstBracket(line: string, p: int, e: int) {
    BracketSpan(line, p, e) && forall p', e' :: BracketSpan(line, p', e') ==> p < p' || (p == p' && e <= e')
  }

  // ---------------------------------------------------------------------------
  // /=\s*(\w+)/i: the name after `=` of an `export const {` line.

  /** `=` at `p`, white space up to `s`, group 1 is the word `line[s..t]`. */
  predicate EqWordSpan(line: string, p: int, s: int, t: int) {
    0 <= p < s < t <= |line| && line[p] == '=' && AllSpace(line, p + 1, s) && AllWord(line, s, t)
  }

  /** Both quantifiers are greedy and a word never starts inside white space,
      so a match from `p` takes all the white space and the whole word. */
  lemma EqWordIsForced(line: string, p: int, s: int, t: int)
    requires EqWordSpan(line, p, s, t)
    ensures s == p + 1 + SpaceRun(line, p + 1)
    ensures t <= s + WordRun(line, s)
  {
    SpaceRunIsLongest(line, p + 1, s);
    if s < p + 1 + SpaceRun(line, p + 1) { SpaceIsNotWord(line[s]); }
    WordRunIsLongest(line, s, t);
  }

  function EqWordEnd(line: string, p: nat): (r: Option<nat>)
    requires p <= |line|
    ensures r.Some? ==> p < |line| && EqWordSpan(line, p, p + 1 + SpaceRun(line, p + 1), r.value)
    ensures r.Some? ==> forall s, t :: EqWordSpan(line, p, s, t) ==>
                          s == p + 1 + SpaceRun(line, p + 1) && t <= r.value
    ensures r.None? ==> forall s, t :: !EqWordSpan(line, p, s, t)
  {
    if p < |line| && line[p] == '=' then
      var s := p + 1 + SpaceRun(line, p + 1);
      var w := WordRun(line, s);
      assert forall s', t :: EqWordSpan(line, p, s', t) ==> s' == s && t <= s + w by {
        forall s', t | EqWordSpan(line, p, s', t) ensures s' == s && t <= s + w {
          EqWordIsForced(line, p, s', t);
        }
      }
      if w >= 1 then Some(s + w) else None
    else None
  }

  function FindEqWord(line: string): (r: Option<Hit>)
    ensures r.Some? ==> var p := r.value.at;
                        p < |line| && EqWordEnd(line, p).Some?
                        && r.value == Hit(p, p + 1 + SpaceRun(line, p + 1), EqWordEnd(line, p).value)
    ensures r.Some? ==> forall p: nat :: p < r.value.at ==> EqWordEnd(line, p).None?
    ensures r.None? ==> forall p: nat :: p <= |line| ==> EqWordEnd(line, p).None?
  {
    var starts := (p: nat) => p <= |line| && EqWordEnd(line, p).Some?;
    assert forall p: nat :: starts(p) == (p <= |line| && EqWordEnd(line, p).Some?);
    match FirstIn(0, |line|, starts)
    case None => None
    case Some(p) => Some(Hit(p, p + 1 + SpaceRun(line, p + 1), EqWordEnd(line, p).value))
  }

  lemma FindEqWordIsFirstMatch(line: string)
    ensures var r := FindEqWord(line);
            && (r.Some? ==> EqWordSpan(line, r.value.at, r.value.mid, r.value.end))
            && (r.Some? ==> forall p, s, t :: EqWordSpan(line, p, s, t) ==>
                              r.value.at < p || (r.value.at == p && r.value.mid == s && t <= r.value.end))
            && (r.None? ==> forall p, s, t :: !EqWordSpan(line, p, s, t))
  {
    var r := FindEqWord(line);
    forall p, s, t | EqWordSpan(line, p, s, t) ensures r.Some? && r.value.at <= p {
      assert EqWordEnd(line, p).Some?;
    }
  }

  /** The match the engine reports: the leftmost `=` and, there, the whole word. */
  ghost predicate FirstEqWord(line: string, p: int, s: int, t: int) {
    EqWordSpan(line, p, s, t)
    && forall p', s', t' :: EqWordSpan(line, p', s', t') ==> p < p' || (p == p' && s == s' && t' <= t)
  }

  // ---------------------------------------------------------------------------
  // /export\s+const\s+(.*?)\s*=/i: the names of any other `export const` line.

  /** `export` at `p`, white space, `const` at `c`, white space up to `s`. */
  predicate ConstHead(line: string, p: int, c: int, s: int) {
    0 <= p && p + 6 < c && c + 5 < s <= |line|
    && CiAt(line, p, "export") && AllSpace(line, p + 6, c)
    && CiAt(line, c, "const") && AllSpace(line, c + 5, s)
  }

  /** The whole pattern: after the head, group 1 is `line[s..e]`, then white
      space and `=`. */
  predicate ConstSpan(line: string, p: int, c: int, s: int, e: int) {
    ConstHead(line, p, c, s) && s <= e <= |line|
    && NoLineTerminatorIn(line, s, e) && SpaceThen(line, e, '=')
  }

  /** `const` cannot start inside white space, so the first `\s+` is forced;
      the second one is greedy. */
  lemma ConstHeadIsForced(line: string, p: int, c: int, s: int)
    requires ConstHead(line, p, c, s)
    ensures c == p + 6 + SpaceRun(line, p + 6)
    ensures s <= c + 5 + SpaceRun(line, c + 5)
  {
    SpaceRunIsLongest(line, p + 6, c);
    if c < p + 6 + SpaceRun(line, p + 6) {
      CiAtChar(line, c, "const", 0);
    }
    SpaceRunIsLongest(line, c + 5, s);
  }

  /** Whenever a shorter second `\s+` leads to a match, the longest one does
      too, so the engine never backtracks into it. */
  lemma ConstLongestHeadMatches(line: string, p: int, c: int, s: int, e: int)
    requires ConstSpan(line, p, c, s, e)
    ensures var m := c + 5 + SpaceRun(line, c + 5);
            ConstSpan(line, p, c, m, if e < m then m else e)
  {
    ConstHeadIsForced(line, p, c, s);
    var m := c + 5 + SpaceRun(line, c + 5);
    if e < m {
      SpaceRunExact(line, e, m);
    }
  }

  /** Where group 1 starts when the head matches from `p`. */
  function ConstGroupStart(line: string, p: nat): (r: Option<nat>)
    requires p <= |line|
    ensures r.Some? ==> p + 6 <= |line|
    ensures r.Some? ==> var c := p + 6 + SpaceRun(line, p + 6);
                        c + 5 <= |line| && r.value == c + 5 + SpaceRun(line, c + 5) && ConstHead(line, p, c, r.value)
  {
    if p + 6 <= |line| && CiAt(line, p, "export") then
      var c := p + 6 + SpaceRun(line, p + 6);
      if p + 6 < c && CiAt(line, c, "const") && c + 5 < c + 5 + SpaceRun(line, c + 5) then
        Some(c + 5 + SpaceRun(line, c + 5))
      else None
    else None
  }

  /** Whenever the head matches from `p`, group 1 starts there, after all the
      white space that follows `const`. */
  lemma ConstHeadGivesGroupStart(line: string, p: nat, c: int, s: int)
    requires ConstHead(line, p, c, s)
    ensures ConstGroupStart(line, p) == Some(c + 5 + SpaceRun(line, c + 5))
  {
    ConstHeadIsForced(line, p, c, s);
  }

  function ConstEnd(line: string, p: nat): (r: Option<nat>)
    requires p <= |line|
    ensures r.Some? ==> ConstGroupStart(line, p).Some? && r.value <= |line|
                        && ConstGroupStart(line, p).value <= r.value
                        && NoLineTerminatorIn(line, ConstGroupStart(line, p).value, r.value)
                        && SpaceThen(line, r.value, '=')
    ensures r.Some? ==> forall e :: (ConstGroupStart(line, p).value <= e <= |line|
                                      && NoLineTerminatorIn(line, ConstGroupStart(line, p).value, e)
                                      && SpaceThen(line, e, '=')) ==> r.value <= e
    ensures r.None? && ConstGroupStart(line, p).Some? ==>
              forall e :: ConstGroupStart(line, p).value <= e <= |line|
                ==> !(NoLineTerminatorIn(line, ConstGroupStart(line, p).value, e) && SpaceThen(line, e, '='))
  {
    match ConstGroupStart(line, p)
    case None => None
    case Some(m) => EqualsFrom(line, m)
  }

  /** The lazy `(.*?)` before `\s*=`, from `s`: the nearest end on the line. */
  function EqualsFrom(line: string, s: nat): (r: Option<nat>)
    requires s <= |line|
    ensures r.Some? ==> s <= r.value <= |line| && NoLineTerminatorIn(line, s, r.value) && SpaceThen(line, r.value, '=')
    ensures forall e :: s <= e <= |line| && NoLineTerminatorIn(line, s, e) && SpaceThen(line, e, '=') ==>
                          r.Some? && r.value <= e
  {
    LineEndIsFirst(line, s);
    var ends := (e: nat) => e <= |line| && SpaceThen(line, e, '=');
    assert forall e: nat :: ends(e) == (e <= |line| && SpaceThen(line, e, '='));
    FirstIn(s, LineEnd(line, s), ends)
  }

  /** At one start the engine takes the longest head and then the shortest group. */
  lemma ConstEndIsFirstMatch(line: string, p: nat)
    requires p <= |line|
    ensures var r := ConstEnd(line, p);
            && (r.Some? ==> ConstSpan(line, p, p + 6 + SpaceRun(line, p + 6), ConstGroupStart(line, p).value, r.value))
            && (r.Some? ==> forall c, s, e :: ConstSpan(line, p, c, s, e) ==>
                              s <= ConstGroupStart(line, p).value
                              && (s == ConstGroupStart(line, p).value ==> r.value <= e))
            && (r.None? ==> forall c, s, e :: !ConstSpan(line, p, c, s, e))
  {
    forall c, s, e | ConstSpan(line, p, c, s, e)
      ensures ConstEnd(line, p).Some? && s <= ConstGroupStart(line, p).value
      ensures s == ConstGroupStart(line, p).value ==> ConstEnd(line, p).value <= e
    {
      ConstSpanIsBounded(line, p, c, s, e);
    }
  }

  /** Any match from `p` starts its group no later than the engine's and,
      starting it there, ends no earlier. */
  lemma ConstSpanIsBounded(line: string, p: nat, c: int, s: int, e: int)
    requires ConstSpan(line, p, c, s, e)
    ensures ConstGroupStart(line, p).Some? && ConstEnd(line, p).Some?
    ensures s <= ConstGroupStart(line, p).value
    ensures s == ConstGroupStart(line, p).value ==> ConstEnd(line, p).value <= e
  {
    ConstHeadIsForced(line, p, c, s);
    ConstLongestHeadMatches(line, p, c, s, e);
  }

  function FindConst(line: string): (r: Option<Hit>)
    ensures r.Some? ==> var p := r.value.at;
                        p <= |line| && ConstEnd(line, p).Some?
                        && r.value == Hit(p, ConstGroupStart(line, p).value, ConstEnd(line, p).value)
    ensures r.Some? ==> forall p: nat :: p < r.value.at ==> ConstEnd(line, p).None?
    ensures r.None? ==> forall p: nat :: p <= |line| ==> ConstEnd(line, p).None?
  {
    var starts := (p: nat) => p <= |line| && ConstEnd(line, p).Some?;
    assert forall p: nat :: starts(p) == (p <= |line| && ConstEnd(line, p).Some?);
    match FirstIn(0, |line|, starts)
    case None => None
    case Some(p) => Some(Hit(p, ConstGroupStart(line, p).value, ConstEnd(line, p).value))
  }

  lemma FindConstIsFirstMatch(line: string)
    ensures var r := FindConst(line);
            && (r.Some? ==> exists c :: ConstSpan(line, r.value.at, c, r.value.mid, r.value.end))
            && (r.Some? ==> forall p, c, s, e :: ConstSpan(line, p, c, s, e) ==>
                              r.value.at < p
                              || (r.value.at == p && s <= r.value.mid && (s == r.value.mid ==> r.value.end <= e)))
            && (r.None? ==> forall p, c, s, e :: !ConstSpan(line, p, c, s, e))
  {
    var r := FindConst(line);
    if r.Some? {
      ConstEndIsFirstMatch(line, r.value.at);
    }
    forall p, c, s, e | ConstSpan(line, p, c, s, e)
      ensures r.Some? && r.value.at <= p
      ensures r.Some? && r.value.at == p ==> s <= r.value.mid && (s == r.value.mid ==> r.value.end <= e)
    {
      ConstEndIsFirstMatch(line, p);
    }
  }

  /** The match the engine reports: the leftmost start, there the longest
      head and then the shortest group. */
  ghost predicate FirstConst(line: string, p: int, c: int, s: int, e: int) {
    ConstSpan(line, p, c, s, e)
    && forall p', c', s', e' :: ConstSpan(line, p', c', s', e') ==>
         p < p' || (p == p' && s' <= s && (s' == s ==> e <= e'))
  }

  // ---------------------------------------------------------------------------
  // /(?<={\s*)\b(.*?)\b(?=\s*})|(?<=\bexport\stype\s)\b\w+\b\s*(?=(?:\s=)|<|:\s*)/gi:
  // the names of an `export type` line; the script uses the whole match.

  /** First alternative: `{` at `b - 1`, white space up to `p`, the match is
      `line[p..e]`, then white space and `}`. */
  predicate TypeBraceSpan(line: string, b: int, p: int, e: int) {
    1 <= b <= p <= e <= |line| && line[b - 1] == '{' && AllSpace(line, b, p)
    && IsBoundary(line, p) && NoLineTerminatorIn(line, p, e)
    && IsBoundary(line, e) && SpaceThen(line, e, '}')
  }

  /** The lookbehind `\bexport\stype\s` holds at `p`. */
  predicate ExportTypeBefore(line: string, p: int) {
    12 <= p <= |line| && IsBoundary(line, p - 12) && CiAt(line, p - 12, "export")
    && IsJsSpace(line[p - 6]) && CiAt(line, p - 5, "type") && IsJsSpace(line[p - 1])
  }

  /** The lookahead `(?:\s=)|<|:\s*` holds at `t`. */
  predicate TypeAhead(line: string, t: int) {
    0 <= t < |line| &&
    ((IsJsSpace(line[t]) && t + 1 < |line| && line[t + 1] == '=') || line[t] == '<' || line[t] == ':')
  }

  /** Second alternative: the word `line[p..w]`, white space up to `t`; the
      match is `line[p..t]`. */
  predicate TypeNameSpan(line: string, p: int, w: int, t: int) {
    ExportTypeBefore(line, p) && IsBoundary(line, p) && p < w <= t <= |line|
    && AllWord(line, p, w) && IsBoundary(line, w) && AllSpace(line, w, t) && TypeAhead(line, t)
  }

  /** In the first alternative the white space before the match is all there is. */
  lemma TypeBraceIsForced(line: string, b: int, p: int, e: int)
    requires TypeBraceSpan(line, b, p, e)
    ensures b == p - SpaceRunBack(line, p)
  {
    SpaceRunBackExact(line, b, p);
  }

  /** In the second alternative `\w+\b` takes the whole word. */
  lemma TypeNameIsForced(line: string, p: int, w: int, t: int)
    requires TypeNameSpan(line, p, w, t)
    ensures w == p + WordRun(line, p)
    ensures t <= w + SpaceRun(line, w)
  {
    WordRunIsLongest(line, p, w);
    SpaceRunIsLongest(line, w, t);
  }

  /** What the first alternative finds from `p`: the lazy end. */
  function TypeBraceEnd(line: string, p: nat): (r: Option<nat>)
    requires p <= |line|
    ensures r.Some? ==> TypeBraceSpan(line, p - SpaceRunBack(line, p), p, r.value)
    ensures r.Some? ==> forall b, e :: TypeBraceSpan(line, b, p, e) ==> r.value <= e
    ensures r.None? ==> forall b, e :: !TypeBraceSpan(line, b, p, e)
  {
    var b := p - SpaceRunBack(line, p);
    assert forall b', e :: TypeBraceSpan(line, b', p, e) ==> b' == b by {
      forall b', e | TypeBraceSpan(line, b', p, e) ensures b' == b { TypeBraceIsForced(line, b', p, e); }
    }
    if 1 <= b && line[b - 1] == '{' && IsBoundary(line, p) then CloseFrom(line, p) else None
  }

  /** What the second alternative finds from `p`: the greedy end. */
  function TypeNameEnd(line: string, p: nat): (r: Option<nat>)
    requires p <= |line|
    ensures r.Some? ==> TypeNameSpan(line, p, p + WordRun(line, p), r.value)
    ensures r.Some? ==> forall w, t :: TypeNameSpan(line, p, w, t) ==> t <= r.value
    ensures r.None? ==> forall w, t :: !TypeNameSpan(line, p, w, t)
  {
    var w := p + WordRun(line, p);
    assert forall w', t :: TypeNameSpan(line, p, w', t) ==> w' == w && t <= w + SpaceRun(line, w) by {
      forall w', t | TypeNameSpan(line, p, w', t) ensures w' == w && t <= w + SpaceRun(line, w) {
        TypeNameIsForced(line, p, w', t);
      }
    }
    var ahead := (t: nat) => TypeAhead(line, t);
    assert forall t: nat :: ahead(t) == TypeAhead(line, t);
    if ExportTypeBefore(line, p) && IsBoundary(line, p) && p < w then LastIn(w, w + SpaceRun(line, w), ahead)
    else None
  }

  /** The alternation: the first alternative when it matches from `p`, else the second. */
  function TypeEnd(line: string, p: nat): Option<nat>
    requires p <= |line|
  {
    if TypeBraceEnd(line, p).Some? then TypeBraceEnd(line, p) else TypeNameEnd(line, p)
  }

  function FindType(line: string): (r: Option<Hit>)
    ensures r.Some? ==> var p := r.value.at;
                        p <= |line| && TypeEnd(line, p).Some? && r.value == Hit(p, p, TypeEnd(line, p).value)
    ensures r.Some? ==> forall p: nat :: p < r.value.at ==> TypeEnd(line, p).None?
    ensures r.None? ==> forall p: nat :: p <= |line| ==> TypeEnd(line, p).None?
  {
    var starts := (p: nat) => p <= |line| && TypeEnd(line, p).Some?;
    assert forall p: nat :: starts(p) == (p <= |line| && TypeEnd(line, p).Some?);
    match FirstIn(0, |line|, starts)
    case None => None
    case Some(p) => Some(Hit(p, p, TypeEnd(line, p).value))
  }

  lemma FindTypeIsFirstMatch(line: string)
    ensures var r := FindType(line);
            && (r.Some? ==> r.value.mid == r.value.at)
            && (r.Some? && TypeBraceEnd(line, r.value.at).Some? ==>
                  TypeBraceSpan(line, r.value.at - SpaceRunBack(line, r.value.at), r.value.at, r.value.end))
            && (r.Some? && TypeBraceEnd(line, r.value.at).None? ==>
                  TypeNameSpan(line, r.value.at, r.value.at + WordRun(line, r.value.at), r.value.end))
            && (r.Some? ==> forall b, p, e :: TypeBraceSpan(line, b, p, e) ==>
                              r.value.at < p || (r.value.at == p && r.value.end <= e))
            && (r.Some? ==> forall p, w, t :: TypeNameSpan(line, p, w, t) ==>
                              r.value.at < p
                              || (r.value.at == p && (TypeBraceEnd(line, p).Some? || t <= r.value.end)))
            && (r.None? ==> (forall b, p, e :: !TypeBraceSpan(line, b, p, e))
                            && (forall p, w, t :: !TypeNameSpan(line, p, w, t)))
  {
    TypeSearchIsFirstMatch(line, FindType(line));
  }

  /** The same, for any result that has the search's contract. */
  lemma TypeSearchIsFirstMatch(line: string, r: Option<Hit>)
    requires r.Some? ==> var p := r.value.at;
                         p <= |line| && TypeEnd(line, p).Some? && r.value == Hit(p, p, TypeEnd(line, p).value)
    requires r.Some? ==> forall p: nat :: p < r.value.at ==> TypeEnd(line, p).None?
    requires r.None? ==> forall p: nat :: p <= |line| ==> TypeEnd(line, p).None?
    ensures r.Some? ==> r.value.mid == r.value.at
    ensures r.Some? && TypeBraceEnd(line, r.value.at).Some? ==>
              TypeBraceSpan(line, r.value.at - SpaceRunBack(line, r.value.at), r.value.at, r.value.end)
    ensures r.Some? && TypeBraceEnd(line, r.value.at).None? ==>
              TypeNameSpan(line, r.value.at, r.value.at + WordRun(line, r.value.at), r.value.end)
    ensures r.Some? ==> forall b, p, e :: TypeBraceSpan(line, b, p, e) ==>
                          r.value.at < p || (r.value.at == p && r.value.end <= e)
    ensures r.Some? ==> forall p, w, t :: TypeNameSpan(line, p, w, t) ==>
                          r.value.at < p
                          || (r.value.at == p && (TypeBraceEnd(line, p).Some? || t <= r.value.end))
    ensures r.None? ==> (forall b, p, e :: !TypeBraceSpan(line, b, p, e))
                        && (forall p, w, t :: !TypeNameSpan(line, p, w, t))
  {
    if r.Some? {
      TypeEndIsSpan(line, r.value.at);
    }
    forall b, p, e | TypeBraceSpan(line, b, p, e)
      ensures r.Some? && (r.value.at < p || (r.value.at == p && r.value.end <= e))
    {
      TypeBraceSpanMatches(line, b, p, e);
    }
    forall p, w, t | TypeNameSpan(line, p, w, t)
      ensures r.Some? && (r.value.at < p || (r.value.at == p && (TypeBraceEnd(line, p).Some? || t <= r.value.end)))
    {
      TypeNameSpanMatches(line, p, w, t);
    }
  }

  /** What the engine finds from `p` is a match of the first alternative when
      that one matches, and of the second otherwise. */
  lemma TypeEndIsSpan(line: string, p: nat)
    requires p <= |line| && TypeEnd(line, p).Some?
    ensures TypeBraceEnd(line, p).Some? ==> TypeBraceSpan(line, p - SpaceRunBack(line, p), p, TypeEnd(line, p).value)
    ensures TypeBraceEnd(line, p).None? ==> TypeNameSpan(line, p, p + WordRun(line, p), TypeEnd(line, p).value)
  {
  }

  /** A match of the first alternative from `p` bounds what the engine finds there. */
  lemma TypeBraceSpanMatches(line: string, b: int, p: int, e: int)
    requires TypeBraceSpan(line, b, p, e)
    ensures TypeBraceEnd(line, p).Some? && TypeEnd(line, p) == TypeBraceEnd(line, p) && TypeEnd(line, p).value <= e
  {
  }

  /** A match of the second alternative from `p` means the engine finds one
      there too: the first alternative's, or one at least as long. */
  lemma TypeNameSpanMatches(line: string, p: int, w: int, t: int)
    requires TypeNameSpan(line, p, w, t)
    ensures TypeEnd(line, p).Some?
    ensures TypeBraceEnd(line, p).None? ==> TypeEnd(line, p) == TypeNameEnd(line, p) && t <= TypeEnd(line, p).value
  {
  }

  /** What the alternation reports from `p`: the shortest match of the first
      alternative when there is one, otherwise the longest of the second. */
  ghost predicate TypeMatchAt(line: string, p: int, e: int) {
    ((exists b :: TypeBraceSpan(line, b, p, e)) && forall b, e' :: TypeBraceSpan(line, b, p, e') ==> e <= e')
    || ((forall b, e' :: !TypeBraceSpan(line, b, p, e'))
        && (exists w :: TypeNameSpan(line, p, w, e)) && forall w, t :: TypeNameSpan(line, p, w, t) ==> t <= e)
  }

  /** The match the engine reports, `line[p..e]`: the leftmost start of
      either alternative and what the alternation reports there. */
  ghost predicate FirstType(line: string, p: int, e: int) {
    TypeMatchAt(line, p, e)
    && (forall b, p', e' :: TypeBraceSpan(line, b, p', e') ==> p <= p')
    && (forall p', w, t :: TypeNameSpan(line, p', w, t) ==> p <= p')
  }

  /** The engine's match is the only one with that description. */
  lemma FirstTypeIsUnique(line: string, p: int, e: int, p': int, e': int)
    requires FirstType(line, p, e) && FirstType(line, p', e')
    ensures p == p' && e == e'
  {
  }

  /** The search reports the engine's match, and finds one exactly when there is one. */
  lemma FindTypeIsFirstType(line: string)
    ensures FindType(line).Some? ==> FirstType(line, FindType(line).value.at, FindType(line).value.end)
    ensures FindType(line).None? ==> forall p, e :: !FirstType(line, p, e)
  {
    FindTypeIsFirstMatch(line);
  }

  // ---------------------------------------------------------------------------
  // /(?<=\bfunction\b\s*)(\w+)(?=(?:\s*)\(|<)/i: the name of an `export function` line.

  /** `function` ends at `f`, white space up to `p`, group 1 is the word
      `line[p..t]`, then `(` after white space, or `<`. */
  predicate FunctionSpan(line: string, f: int, p: int, t: int) {
    8 <= f <= p < t <= |line| && IsBoundary(line, f - 8) && CiAt(line, f - 8, "function")
    && IsBoundary(line, f) && AllSpace(line, f, p) && AllWord(line, p, t)
    && (SpaceThen(line, t, '(') || (t < |line| && line[t] == '<'))
  }

  /** The lookbehind takes all the white space before the name, and `\w+`
      takes the whole word: a word character is neither white space, `(` nor `<`. */
  lemma FunctionIsForced(line: string, f: int, p: int, t: int)
    requires FunctionSpan(line, f, p, t)
    ensures f == p - SpaceRunBack(line, p)
    ensures t == p + WordRun(line, p)
    ensures FunctionAt(line, p)
  {
    CiAtChar(line, f - 8, "function", 7);
    SpaceRunBackExact(line, f, p);
    WordRunIsLongest(line, p, t);
    if t < p + WordRun(line, p) {
      SpaceIsNotWord(line[t]);
    }
  }

  /** The pattern matches from `p`. */
  predicate FunctionAt(line: string, p: nat)
    requires p <= |line|
  {
    p < p + WordRun(line, p) && FunctionSpan(line, p - SpaceRunBack(line, p), p, p + WordRun(line, p))
  }

  function FindFunction(line: string): (r: Option<Hit>)
    ensures r.Some? ==> var p := r.value.at;
                        p <= |line| && FunctionAt(line, p) && r.value == Hit(p, p, p + WordRun(line, p))
    ensures r.Some? ==> forall p: nat :: p < r.value.at ==> !FunctionAt(line, p)
    ensures r.None? ==> forall p: nat :: p <= |line| ==> !FunctionAt(line, p)
  {
    var starts := (p: nat) => p <= |line| && FunctionAt(line, p);
    assert forall p: nat :: starts(p) == (p <= |line| && FunctionAt(line, p));
    match FirstIn(0, |line|, starts)
    case None => None
    case Some(p) => Some(Hit(p, p, p + WordRun(line, p)))
  }

  lemma FindFunctionIsFirstMatch(line: string)
    ensures var r := FindFunction(line);
            && (r.Some? ==> FunctionSpan(line, r.value.at - SpaceRunBack(line, r.value.at), r.value.at, r.value.end)
                            && r.value.mid == r.value.at)
            && (r.Some? ==> forall f, p, t :: FunctionSpan(line, f, p, t) ==>
                              r.value.at < p || (r.value.at == p && r.value.end == t))
            && (r.None? ==> forall f, p, t :: !FunctionSpan(line, f, p, t))
  {
    var r := FindFunction(line);
    forall f, p, t | FunctionSpan(line, f, p, t) ensures t == p + WordRun(line, p) && r.Some? && r.value.at <= p {
      FunctionIsForced(line, f, p, t);
    }
  }

  /** The match the engine reports: the leftmost name. */
  ghost predicate FirstFunction(line: string, f: int, p: int, t: int) {
    FunctionSpan(line, f, p, t)
    && forall f', p', t' :: FunctionSpan(line, f', p', t') ==> p < p' || (p == p' && t == t')
  }

  // ---------------------------------------------------------------------------
  // /(?<=\binterface\b\s)(\w+)(?=\s*[<{])/gi: the name of an `export interface` line.

  /** `interface` and one white-space character before `p`, the word
      `line[p..t]`, then white space and `<` or `{`. */
  predicate InterfaceSpan(line: string, p: int, t: int) {
    10 <= p < t <= |line| && IsBoundary(line, p - 10) && CiAt(line, p - 10, "interface")
    && IsBoundary(line, p - 1) && IsJsSpace(line[p - 1]) && AllWord(line, p, t)
    && (SpaceThen(line, t, '<') || SpaceThen(line, t, '{'))
  }

  lemma InterfaceIsForced(line: string, p: int, t: int)
    requires InterfaceSpan(line, p, t)
    ensures t == p + WordRun(line, p)
    ensures InterfaceAt(line, p)
  {
    WordRunIsLongest(line, p, t);
    if t < p + WordRun(line, p) {
      SpaceIsNotWord(line[t]);
    }
  }

  /** The pattern matches from `p`. */
  predicate InterfaceAt(line: string, p: nat)
    requires p <= |line|
  {
    InterfaceSpan(line, p, p + WordRun(line, p))
  }

  function FindInterface(line: string): (r: Option<Hit>)
    ensures r.Some? ==> var p := r.value.at;
                        p <= |line| && InterfaceAt(line, p) && r.value == Hit(p, p, p + WordRun(line, p))
    ensures r.Some? ==> forall p: nat :: p < r.value.at ==> !InterfaceAt(line, p)
    ensures r.None? ==> forall p: nat :: p <= |line| ==> !InterfaceAt(line, p)
  {
    var starts := (p: nat) => p <= |line| && InterfaceAt(line, p);
    assert forall p: nat :: starts(p) == (p <= |line| && InterfaceAt(line, p));
    match FirstIn(0, |line|, starts)
    case None => None
    case Some(p) => Some(Hit(p, p, p + WordRun(line, p)))
  }

  lemma FindInterfaceIsFirstMatch(line: string)
    ensures var r := FindInterface(line);
            && (r.Some? ==> InterfaceSpan(line, r.value.at, r.value.end) && r.value.mid == r.value.at)
            && (r.Some? ==> forall p, t :: InterfaceSpan(line, p, t) ==>
                              r.value.at < p || (r.value.at == p && r.value.end == t))
            && (r.None? ==> forall p, t :: !InterfaceSpan(line, p, t))
  {
    var r := FindInterface(line);
    forall p, t | InterfaceSpan(line, p, t) ensures t == p + WordRun(line, p) && r.Some? && r.value.at <= p {
      InterfaceIsForced(line, p, t);
    }
  }

  /** The match the engine reports: the leftmost name. */
  ghost predicate FirstInterface(line: string, p: int, t: int) {
    InterfaceSpan(line, p, t) && forall p', t' :: InterfaceSpan(line, p', t') ==> p < p' || (p == p' && t == t')
  }
}
