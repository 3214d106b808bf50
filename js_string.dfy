/** The JavaScript string primitives the declaration script relies on: the
    character classes of its regular expressions, `trim`, `startsWith`,
    `indexOf`, `split`, `join` and `replace` with a string pattern, plus the
    searches the regular-expression scanners are built from. */
module JsString {

  datatype Option<T> = None | Some(value: T)

  // ---------------------------------------------------------------------------
  // Character classes

  /** ECMAScript LineTerminator: the characters `.` does not match and after
      which `^` matches in multiline mode. */
  predicate IsLineTerminator(c: char) {
    c == '\n' || c == '\r' || c == '\U{2028}' || c == '\U{2029}'
  }

  /** ECMAScript WhiteSpace or LineTerminator: what `\s` matches and what
      `String.prototype.trim` removes. */
  predicate IsJsSpace(c: char) {
    || IsLineTerminator(c)
    || c == '\t' || c == '\U{000B}' || c == '\U{000C}' || c == ' '
    || c == '\U{00A0}' || c == '\U{1680}' || ('\U{2000}' <= c <= '\U{200A}')
    || c == '\U{202F}' || c == '\U{205F}' || c == '\U{3000}' || c == '\U{FEFF}'
  }

  /** What `\w` matches (also under the `i` flag without `u`). */
  predicate IsWordChar(c: char) {
    ('a' <= c <= 'z') || ('A' <= c <= 'Z') || ('0' <= c <= '9') || c == '_'
  }

  /** ASCII lower case; the `i` flag without `u` never folds a non-ASCII
      character onto an ASCII one, so this is all the folding the script's
      patterns see. */
  function LowerAscii(c: char): (r: char)
    ensures IsWordChar(r) <==> IsWordChar(c)
    ensures !IsJsSpace(c) ==> !IsJsSpace(r)
  {
    if 'A' <= c <= 'Z' then (c as int + 32) as char else c
  }

  /** `w` (written in lower case) occurs at `i` of `s`, ignoring ASCII case. */
  predicate CiAt(s: string, i: int, w: string) {
    0 <= i && i + |w| <= |s| && forall j :: 0 <= j < |w| ==> LowerAscii(s[i + j]) == w[j]
  }

  lemma CiAtChar(s: string, i: int, w: string, j: int)
    requires CiAt(s, i, w) && 0 <= j < |w|
    ensures LowerAscii(s[i + j]) == w[j]
  {
  }

  /** `\b` at position `i`: exactly one of the characters around `i` is a word character. */
  predicate IsBoundary(s: string, i: int)
    requires 0 <= i <= |s|
  {
    (i > 0 && IsWordChar(s[i - 1])) != (i < |s| && IsWordChar(s[i]))
  }

  predicate AllSpace(s: string, i: int, j: int)
    requires 0 <= i <= j <= |s|
  {
    forall k :: i <= k < j ==> IsJsSpace(s[k])
  }

  predicate AllWord(s: string, i: int, j: int)
    requires 0 <= i <= j <= |s|
  {
    forall k :: i <= k < j ==> IsWordChar(s[k])
  }

  /** `.` may cover `s[i..j]`: no line terminator in it. */
  predicate NoLineTerminatorIn(s: string, i: int, j: int)
    requires 0 <= i <= j <= |s|
  {
    forall k :: i <= k < j ==> !IsLineTerminator(s[k])
  }

  // ---------------------------------------------------------------------------
  // Searches

  /** The least `i` in `[lo, hi]` with `p(i)`. */
  function FirstIn(lo: nat, hi: nat, p: nat -> bool): (r: Option<nat>)
    ensures r.Some? ==> lo <= r.value <= hi && p(r.value)
    ensures r.Some? ==> forall j :: lo <= j < r.value ==> !p(j)
    ensures r.None? ==> forall j :: lo <= j <= hi ==> !p(j)
    decreases hi + 1 - lo
  {
    if lo > hi then None else if p(lo) then Some(lo) else FirstIn(lo + 1, hi, p)
  }

  /** Any witness bounds the first one from above. */
  lemma FirstInIsLeast(lo: nat, hi: nat, p: nat -> bool, j: nat)
    requires lo <= j <= hi && p(j)
    ensures FirstIn(lo, hi, p).Some? && FirstIn(lo, hi, p).value <= j
  {
  }

  /** The greatest `i` in `[lo, hi]` with `p(i)`. */
  function LastIn(lo: nat, hi: nat, p: nat -> bool): (r: Option<nat>)
    ensures r.Some? ==> lo <= r.value <= hi && p(r.value)
    ensures r.Some? ==> forall j :: r.value < j <= hi ==> !p(j)
    ensures r.None? ==> forall j :: lo <= j <= hi ==> !p(j)
    decreases hi + 1 - lo
  {
    if lo > hi then None else if p(hi) then Some(hi) else if hi == lo then None else LastIn(lo, hi - 1, p)
  }

  /** Length of the longest run of `\s` characters starting at `i`. */
  function SpaceRun(s: string, i: nat): (n: nat)
    requires i <= |s|
    ensures i + n <= |s| && AllSpace(s, i, i + n)
    ensures i + n == |s| || !IsJsSpace(s[i + n])
    decreases |s| - i
  {
    if i < |s| && IsJsSpace(s[i]) then 1 + SpaceRun(s, i + 1) else 0
  }

  /** Length of the longest run of `\s` characters ending just before `i`. */
  function SpaceRunBack(s: string, i: nat): (n: nat)
    requires i <= |s|
    ensures n <= i && AllSpace(s, i - n, i)
    ensures n == i || !IsJsSpace(s[i - n - 1])
  {
    if i > 0 && IsJsSpace(s[i - 1]) then 1 + SpaceRunBack(s, i - 1) else 0
  }

  /** Length of the longest run of `\w` characters starting at `i`. */
  function WordRun(s: string, i: nat): (n: nat)
    requires i <= |s|
    ensures i + n <= |s| && AllWord(s, i, i + n)
    ensures i + n == |s| || !IsWordChar(s[i + n])
    decreases |s| - i
  {
    if i < |s| && IsWordChar(s[i]) then 1 + WordRun(s, i + 1) else 0
  }

  /** The first line terminator at or after `i`, or `|s|`: where a `.*` or a
      lazy `.*?` started at `i` must stop. */
  function LineEnd(s: string, i: nat): (j: nat)
    requires i <= |s|
    ensures i <= j <= |s| && NoLineTerminatorIn(s, i, j)
    ensures j == |s| || IsLineTerminator(s[j])
    decreases |s| - i
  {
    if i == |s| || IsLineTerminator(s[i]) then i else LineEnd(s, i + 1)
  }

  lemma SpaceRunIsLongest(s: string, i: nat, j: nat)
    requires i <= j <= |s| && AllSpace(s, i, j)
    ensures j <= i + SpaceRun(s, i)
  {
  }

  lemma WordRunIsLongest(s: string, i: nat, j: nat)
    requires i <= j <= |s| && AllWord(s, i, j)
    ensures j <= i + WordRun(s, i)
  {
  }

  lemma LineEndIsFirst(s: string, i: nat)
    requires i <= |s|
    ensures forall j :: i <= j <= |s| ==> (NoLineTerminatorIn(s, i, j) <==> j <= LineEnd(s, i))
  {
  }

  /** A run of white space that cannot be extended is the longest one. */
  lemma SpaceRunExact(s: string, i: nat, j: nat)
    requires i <= j <= |s| && AllSpace(s, i, j) && (j == |s| || !IsJsSpace(s[j]))
    ensures SpaceRun(s, i) == j - i
  {
    SpaceRunIsLongest(s, i, j);
  }

  /** A run of white space ending at `j` that cannot be extended backwards
      is the longest one. */
  lemma SpaceRunBackExact(s: string, i: nat, j: nat)
    requires i <= j <= |s| && AllSpace(s, i, j) && (i == 0 || !IsJsSpace(s[i - 1]))
    ensures SpaceRunBack(s, j) == j - i
    decreases j - i
  {
    if i < j { SpaceRunBackExact(s, i, j - 1); }
  }

  /** A run of word characters that cannot be extended is the longest one. */
  lemma WordRunExact(s: string, i: nat, j: nat)
    requires i <= j <= |s| && AllWord(s, i, j) && (j == |s| || !IsWordChar(s[j]))
    ensures WordRun(s, i) == j - i
  {
    WordRunIsLongest(s, i, j);
  }

  lemma SpaceIsNotWord(c: char)
    ensures IsJsSpace(c) ==> !IsWordChar(c)
  {
  }

  /** The first `c` in `s` at or after `from`. */
  function CharFrom(s: string, c: char, from: nat): (r: Option<nat>)
    ensures r.Some? ==> from <= r.value < |s| && s[r.value] == c
    ensures r.Some? ==> forall j :: from <= j < r.value ==> s[j] != c
    ensures r.None? ==> forall j :: from <= j < |s| ==> s[j] != c
    decreases |s| - from
  {
    if from >= |s| then None else if s[from] == c then Some(from) else CharFrom(s, c, from + 1)
  }

  /** `\s*` followed by (a lookahead for) the character `c` at `i`.  A greedy
      `\s*` can only succeed by taking the whole run, since `c` is then the
      next character, so the run is the longest one. */
  predicate SpaceThen(s: string, i: nat, c: char)
    requires i <= |s|
  {
    i + SpaceRun(s, i) < |s| && s[i + SpaceRun(s, i)] == c
  }

  // ---------------------------------------------------------------------------
  // startsWith, indexOf, split, join, replace

  predicate StartsWith(s: string, prefix: string) {
    |prefix| <= |s| && s[..|prefix|] == prefix
  }

  predicate OccursAt(s: string, pat: string, i: int) {
    0 <= i && i + |pat| <= |s| && s[i..i + |pat|] == pat
  }

  predicate Contains(s: string, pat: string) {
    exists i :: 0 <= i <= |s| && OccursAt(s, pat, i)
  }

  /** `s.indexOf(pat, from)`, as an option: the first occurrence at or after `from`. */
  function IndexOfFrom(s: string, pat: string, from: nat): (r: Option<nat>)
    ensures r.Some? ==> from <= r.value && OccursAt(s, pat, r.value)
    ensures r.Some? ==> forall j :: from <= j < r.value ==> !OccursAt(s, pat, j)
    ensures r.None? ==> forall j :: from <= j ==> !OccursAt(s, pat, j)
    decreases |s| - from
  {
    if from + |pat| > |s| then None
    else if s[from..from + |pat|] == pat then Some(from)
    else IndexOfFrom(s, pat, from + 1)
  }

  function IndexOf(s: string, pat: string): (r: Option<nat>)
    ensures r.Some? ==> OccursAt(s, pat, r.value) && forall j :: 0 <= j < r.value ==> !OccursAt(s, pat, j)
    ensures r.None? <==> !Contains(s, pat)
  {
    IndexOfFrom(s, pat, 0)
  }

  lemma ContainsChar(s: string, c: char)
    ensures Contains(s, [c]) <==> c in s
  {
    if c in s {
      var i :| 0 <= i < |s| && s[i] == c;
      assert OccursAt(s, [c], i);
    }
    if Contains(s, [c]) {
      var i :| 0 <= i <= |s| && OccursAt(s, [c], i);
      assert s[i..i + 1] == [c];
      assert s[i] == c;
    }
  }

  /** `parts.join(sep)`. */
  function JoinWith(parts: seq<string>, sep: string): string {
    if |parts| == 0 then "" else if |parts| == 1 then parts[0] else parts[0] + sep + JoinWith(parts[1..], sep)
  }

  /** `s.split(sep)` for a non-empty string separator: cut at every occurrence,
      scanning left to right. */
  function SplitOn(s: string, sep: string): (parts: seq<string>)
    requires |sep| > 0
    ensures |parts| >= 1
    ensures forall k :: 0 <= k < |parts| ==> !Contains(parts[k], sep)
    ensures forall k, c :: 0 <= k < |parts| && c in parts[k] ==> c in s
    ensures JoinWith(parts, sep) == s
    decreases |s|
  {
    match IndexOf(s, sep)
    case None => [s]
    case Some(i) =>
      var rest := SplitOn(s[i + |sep|..], sep);
      SplitStep(s, sep, i, rest, [s[..i]] + rest);
      [s[..i]] + rest
  }

  lemma SplitStep(s: string, sep: string, i: nat, rest: seq<string>, parts: seq<string>)
    requires |sep| > 0 && OccursAt(s, sep, i) && forall j :: 0 <= j < i ==> !OccursAt(s, sep, j)
    requires |rest| >= 1 && parts == [s[..i]] + rest
    requires forall k :: 0 <= k < |rest| ==> !Contains(rest[k], sep)
    requires forall k, c :: 0 <= k < |rest| && c in rest[k] ==> c in s[i + |sep|..]
    requires JoinWith(rest, sep) == s[i + |sep|..]
    ensures forall k :: 0 <= k < |parts| ==> !Contains(parts[k], sep)
    ensures forall k, c :: 0 <= k < |parts| && c in parts[k] ==> c in s
    ensures JoinWith(parts, sep) == s
  {
    JoinCons(s[..i], rest, sep);
    CutAround(s, i, |sep|);
    HeadAvoidsSeparator(s, sep, i);
    assert forall k :: 0 <= k < |parts| ==> !Contains(parts[k], sep) by {
      forall k | 0 <= k < |parts| ensures !Contains(parts[k], sep) {
        if k > 0 { assert parts[k] == rest[k - 1]; }
      }
    }
    SplitStepChars(s, i, |sep|, rest, parts);
  }

  /** A text is what lies before, at and after a stretch of it. */
  lemma CutAround(s: string, i: nat, n: nat)
    requires i + n <= |s|
    ensures s == s[..i] + s[i..i + n] + s[i + n..]
  {
    assert s == s[..i] + s[i..];
    assert s[i..] == s[i..i + n] + s[i + n..];
  }

  lemma SplitStepChars(s: string, i: nat, n: nat, rest: seq<string>, parts: seq<string>)
    requires i + n <= |s| && parts == [s[..i]] + rest
    requires forall k, c :: 0 <= k < |rest| && c in rest[k] ==> c in s[i + n..]
    ensures forall k, c :: 0 <= k < |parts| && c in parts[k] ==> c in s
  {
    forall k, c | 0 <= k < |parts| && c in parts[k] ensures c in s {
      if k == 0 {
        SliceCharIn(s, 0, i, c);
      } else {
        assert parts[k] == rest[k - 1];
        SliceCharIn(s, i + n, |s|, c);
      }
    }
  }

  lemma JoinCons(head: string, rest: seq<string>, sep: string)
    requires |rest| >= 1
    ensures JoinWith([head] + rest, sep) == head + sep + JoinWith(rest, sep)
  {
    assert ([head] + rest)[1..] == rest;
  }

  lemma HeadAvoidsSeparator(s: string, sep: string, i: nat)
    requires |sep| > 0 && i <= |s| && forall j :: 0 <= j < i ==> !OccursAt(s, sep, j)
    ensures !Contains(s[..i], sep)
  {
    forall j | 0 <= j <= i && OccursAt(s[..i], sep, j) ensures false {
      assert s[j..j + |sep|] == s[..i][j..j + |sep|];
      assert OccursAt(s, sep, j);
    }
  }

  lemma SliceCharIn(s: string, i: nat, j: nat, c: char)
    requires i <= j <= |s| && c in s[i..j]
    ensures c in s
  {
    var k :| 0 <= k < j - i && s[i..j][k] == c;
    assert s[i + k] == c;
  }

  /** Cutting at the first separator: a head free of the separator character comes off whole. */
  lemma SplitOnAfterHead(head: string, c: char, rest: string)
    requires c !in head
    ensures SplitOn(head + [c] + rest, [c]) == [head] + SplitOn(rest, [c])
  {
    var s := head + [c] + rest;
    assert OccursAt(s, [c], |head|);
    forall j | 0 <= j < |head| ensures !OccursAt(s, [c], j) {
      assert s[j] == head[j];
    }
    var i := IndexOf(s, [c]);
    assert i == Some(|head|);
    assert s[..|head|] == head;
    assert s[|head| + 1..] == rest;
  }

  /** A leading separator character splits off an empty string. */
  lemma SplitOnLeadingSeparator(c: char, rest: string)
    ensures SplitOn([c] + rest, [c]) == [""] + SplitOn(rest, [c])
  {
    assert [] + [c] + rest == [c] + rest;
    SplitOnAfterHead([], c, rest);
  }

  lemma JoinDoubledHead(parts: seq<string>, c: char)
    requires |parts| > 1
    ensures JoinWith(parts, [c, c]) == parts[0] + [c] + ([c] + JoinWith(parts[1..], [c, c]))
  {
    var rest := JoinWith(parts[1..], [c, c]);
    assert parts[0] + [c, c] + rest == parts[0] + [c] + ([c] + rest);
  }

  /** Splitting at the first doubled separator gives the first part and an
      empty string. */
  lemma SplitJoinedDoubledStep(parts: seq<string>, c: char)
    requires |parts| > 1 && c !in parts[0]
    ensures SplitOn(JoinWith(parts, [c, c]), [c])
            == [parts[0], ""] + SplitOn(JoinWith(parts[1..], [c, c]), [c])
  {
    var rest := JoinWith(parts[1..], [c, c]);
    JoinDoubledHead(parts, c);
    SplitOnAfterHead(parts[0], c, [c] + rest);
    SplitOnLeadingSeparator(c, rest);
  }

  /** A lone part without the separator character splits to itself. */
  lemma SplitLonePart(part: string, c: char)
    requires c !in part
    ensures SplitOn(part, [c]) == [part]
  {
    ContainsChar(part, c);
  }

  /** What the later parts split to is empty or one of the parts. */
  lemma SplitRestLines(parts: seq<string>, lines: seq<string>)
    requires |parts| > 1
    requires forall line :: line in lines ==> line == "" || line in parts[1..]
    ensures forall line :: line in [parts[0], ""] + lines ==> line == "" || line in parts
  {
    forall line | line in [parts[0], ""] + lines ensures line == "" || line in parts {
      if line != "" && line != parts[0] {
        assert line in lines;
        var k :| 0 <= k < |parts[1..]| && parts[1..][k] == line;
        assert parts[k + 1] == line;
      }
    }
  }

  /** Splitting text joined with a doubled separator character gives back the
      parts, each followed by one empty string. */
  lemma {:induction false} SplitJoinedDoubled(parts: seq<string>, c: char)
    requires forall k :: 0 <= k < |parts| ==> c !in parts[k]
    ensures forall line :: line in SplitOn(JoinWith(parts, [c, c]), [c]) ==> line == "" || line in parts
  {
    if |parts| == 0 {
      SplitLonePart("", c);
    } else if |parts| == 1 {
      SplitLonePart(parts[0], c);
    } else {
      SplitJoinedDoubledStep(parts, c);
      SplitJoinedDoubled(parts[1..], c);
      SplitRestLines(parts, SplitOn(JoinWith(parts[1..], [c, c]), [c]));
    }
  }

  /** A character in neither the parts nor the separator is not in the join. */
  lemma {:induction false} JoinWithAvoids(parts: seq<string>, sep: string, c: char)
    requires c !in sep
    requires forall k :: 0 <= k < |parts| ==> c !in parts[k]
    ensures c !in JoinWith(parts, sep)
  {
    if |parts| > 1 {
      JoinWithAvoids(parts[1..], sep, c);
    }
  }

  /** `s.replace(pat, rep)` with a string pattern: only the first occurrence. */
  function ReplaceFirst(s: string, pat: string, rep: string): (r: string)
    ensures !Contains(s, pat) ==> r == s
    ensures Contains(s, pat) ==> |r| == |s| - |pat| + |rep|
    ensures Contains(s, pat) ==> exists i :: OccursAt(s, pat, i) && (forall j :: 0 <= j < i ==> !OccursAt(s, pat, j))
                                            && r == s[..i] + rep + s[i + |pat|..]
  {
    match IndexOf(s, pat)
    case None => s
    case Some(i) => s[..i] + rep + s[i + |pat|..]
  }

  // ---------------------------------------------------------------------------
  // trim

  function TrimStart(s: string): (r: string)
    ensures |r| <= |s| && r == s[|s| - |r|..]
    ensures AllSpace(s, 0, |s| - |r|)
    ensures r == [] || !IsJsSpace(r[0])
  {
    if s != [] && IsJsSpace(s[0]) then TrimStart(s[1..]) else s
  }

  function TrimEnd(s: string): (r: string)
    ensures |r| <= |s| && r == s[..|r|]
    ensures AllSpace(s, |r|, |s|)
    ensures r == [] || !IsJsSpace(r[|r| - 1])
  {
    if s != [] && IsJsSpace(s[|s| - 1]) then TrimEnd(s[..|s| - 1]) else s
  }

  /** Cutting trailing white space off a suffix of `s` leaves a slice of `s`
      followed by white space. */
  lemma TrimSlice(s: string, t: string, r: string)
    requires |t| <= |s| && t == s[|s| - |t|..]
    requires |r| <= |t| && r == t[..|r|] && AllSpace(t, |r|, |t|)
    ensures r == s[|s| - |t|..|s| - |t| + |r|]
    ensures AllSpace(s, |s| - |t| + |r|, |s|)
    ensures r != [] ==> r[0] == t[0]
  {
    var i := |s| - |t|;
    forall k | i + |r| <= k < |s| ensures IsJsSpace(s[k]) {
      assert s[k] == t[k - i];
    }
  }

  /** `r` is the slice of `s` from `i` and everything around it is white space. */
  predicate SliceAmidSpace(s: string, r: string, i: int) {
    0 <= i <= |s| - |r| && r == s[i..i + |r|] && AllSpace(s, 0, i) && AllSpace(s, i + |r|, |s|)
  }

  /** `s.trim()`: the slice of `s` without leading and trailing white space. */
  function Trim(s: string): (r: string)
    ensures r == [] || (!IsJsSpace(r[0]) && !IsJsSpace(r[|r| - 1]))
    ensures exists i :: SliceAmidSpace(s, r, i)
  {
    var t := TrimStart(s);
    var r := TrimEnd(t);
    TrimSlice(s, t, r);
    assert SliceAmidSpace(s, r, |s| - |t|);
    r
  }
}
