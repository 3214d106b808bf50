/** The two text normalisers of scripts/declare/index.ts: `fixFileContent`,
    which turns a source file into one `export` statement per paragraph, and
    `fixLine`, which tidies a computed module specifier.  Each regular
    expression the source applies becomes one scanning function. */
module Normalize {
  import opened JsString

  // ---------------------------------------------------------------------------
  // fixFileContent

  /** `^` of a multiline pattern matches at `i`. */
  predicate LineStartsAt(r: string, i: int, atStart: bool)
    requires 0 <= i <= |r|
  {
    (i == 0 && atStart) || (i > 0 && IsLineTerminator(r[i - 1]))
  }

  /** No line of `r` begins with `//`. */
  predicate NoCommentLine(r: string, atStart: bool) {
    forall i :: 0 <= i < |r| - 1 && LineStartsAt(r, i, atStart) ==> !(r[i] == '/' && r[i + 1] == '/')
  }

  /** `replace(/^\/\/.*$/gm, '')`: the text of every line that begins with
      `//` is deleted; the line terminators stay.  `atLineStart` says whether
      `^` matches before `s[0]`. */
  function StripCommentLines(s: string, atLineStart: bool): string
    decreases |s|
  {
    if s == [] then []
    else if atLineStart && |s| >= 2 && s[0] == '/' && s[1] == '/' then
      StripCommentLines(s[LineEnd(s, 0)..], false)
    else [s[0]] + StripCommentLines(s[1..], IsLineTerminator(s[0]))
  }

  /** After the comment rewrite no line begins with `//`. */
  lemma {:induction false} StripCommentLinesLeavesNoComment(s: string, atLineStart: bool)
    ensures NoCommentLine(StripCommentLines(s, atLineStart), atLineStart)
    decreases |s|
  {
    var r := StripCommentLines(s, atLineStart);
    if s == [] {
    } else if atLineStart && |s| >= 2 && s[0] == '/' && s[1] == '/' {
      var rest := s[LineEnd(s, 0)..];
      StripCommentLinesLeavesNoComment(rest, false);
      if rest != [] {
        assert r[0] == rest[0];
      }
    } else {
      var b := IsLineTerminator(s[0]);
      var tail := StripCommentLines(s[1..], b);
      StripCommentLinesLeavesNoComment(s[1..], b);
      assert r == [s[0]] + tail;
      forall i | 0 <= i < |r| - 1 && LineStartsAt(r, i, atLineStart)
        ensures !(r[i] == '/' && r[i + 1] == '/')
      {
        if i == 0 {
          if r[0] == '/' {
            assert tail[0] == s[1];
          }
        } else {
          assert r[i] == tail[i - 1] && r[i + 1] == tail[i];
          assert LineStartsAt(tail, i - 1, b);
        }
      }
    }
  }

  /** A single line, taken without its terminator, is deleted whole when `^`
      matches before it and it begins with `//`, and kept as it is otherwise. */
  lemma {:induction false} StripCommentLinesOneLine(l: string, atLineStart: bool)
    requires NoLineTerminatorIn(l, 0, |l|)
    ensures StripCommentLines(l, atLineStart)
            == if atLineStart && |l| >= 2 && l[0] == '/' && l[1] == '/' then [] else l
    decreases |l|
  {
    if atLineStart && |l| >= 2 && l[0] == '/' && l[1] == '/' {
      LineEndIsFirst(l, 0);
      assert LineEnd(l, 0) == |l|;
    } else if l != [] {
      assert !IsLineTerminator(l[0]);
      StripCommentLinesOneLine(l[1..], false);
    }
  }

  /** The rewrite goes line by line: a line and its terminator come out as the
      line's own rewrite and the terminator, and `^` matches again after it. */
  lemma {:induction false} StripCommentLinesSplits(l: string, c: char, rest: string, atLineStart: bool)
    requires NoLineTerminatorIn(l, 0, |l|) && IsLineTerminator(c)
    ensures StripCommentLines(l + [c] + rest, atLineStart)
            == StripCommentLines(l, atLineStart) + [c] + StripCommentLines(rest, true)
    decreases |l|, 1
  {
    if atLineStart && |l| >= 2 && l[0] == '/' && l[1] == '/' {
      StripCommentLinesSplitsComment(l, c, rest);
    } else if l == [] {
      var s := l + [c] + rest;
      assert s == [c] + rest && s[1..] == rest;
    } else {
      StripCommentLinesSplitsKeep(l, c, rest, atLineStart);
    }
  }

  /** A comment line is deleted up to its terminator. */
  lemma StripCommentLinesSplitsComment(l: string, c: char, rest: string)
    requires NoLineTerminatorIn(l, 0, |l|) && IsLineTerminator(c)
    requires |l| >= 2 && l[0] == '/' && l[1] == '/'
    ensures StripCommentLines(l + [c] + rest, true)
            == StripCommentLines(l, true) + [c] + StripCommentLines(rest, true)
  {
    var s := l + [c] + rest;
    assert StripCommentLines(l, true) == [] by {
      StripCommentLinesOneLine(l, true);
    }
    assert LineEnd(s, 0) == |l| by {
      assert s[|l|] == c;
      LineEndIsFirst(s, 0);
      assert NoLineTerminatorIn(s, 0, |l|) by {
        forall k | 0 <= k < |l| ensures !IsLineTerminator(s[k]) {
          assert s[k] == l[k];
        }
      }
    }
    assert StripCommentLines(s, true) == StripCommentLines([c] + rest, false) by {
      assert s[0] == '/' && s[1] == '/';
      assert s[|l|..] == [c] + rest;
    }
    assert StripCommentLines([c] + rest, false) == [c] + StripCommentLines(rest, true) by {
      assert ([c] + rest)[1..] == rest;
    }
  }

  /** The induction step of `StripCommentLinesSplits` at a character that
      starts no comment. */
  lemma {:induction false} StripCommentLinesSplitsKeep(l: string, c: char, rest: string, atLineStart: bool)
    requires NoLineTerminatorIn(l, 0, |l|) && IsLineTerminator(c)
    requires l != [] && !(atLineStart && |l| >= 2 && l[0] == '/' && l[1] == '/')
    ensures StripCommentLines(l + [c] + rest, atLineStart)
            == StripCommentLines(l, atLineStart) + [c] + StripCommentLines(rest, true)
    decreases |l|, 0
  {
    var s := l + [c] + rest;
    assert !IsLineTerminator(l[0]);
    assert StripCommentLines(s, atLineStart) == [l[0]] + StripCommentLines(l[1..] + [c] + rest, false) by {
      assert s[0] == l[0];
      if |l| == 1 { assert s[1] == c; } else { assert s[1] == l[1]; }
      assert s[1..] == l[1..] + [c] + rest;
    }
    assert NoLineTerminatorIn(l[1..], 0, |l| - 1) by {
      forall k | 0 <= k < |l| - 1 ensures !IsLineTerminator(l[1..][k]) {
        assert l[1..][k] == l[k + 1];
      }
    }
    StripCommentLinesSplits(l[1..], c, rest, false);
    Regroup([l[0]], StripCommentLines(s, atLineStart), StripCommentLines(l[1..] + [c] + rest, false),
            StripCommentLines(l, atLineStart), StripCommentLines(l[1..], false), [c], StripCommentLines(rest, true));
  }

  /** `replace(/(\n|\r\n)* /g, '')`: every `\n` goes, and so does a `\r`
      directly before one; a lone `\r` stays. */
  function RemoveNewlines(s: string): (r: string)
    ensures '\n' !in r
  {
    if s == [] then []
    else if s[0] == '\n' then RemoveNewlines(s[1..])
    else if s[0] == '\r' && |s| >= 2 && s[1] == '\n' then RemoveNewlines(s[2..])
    else [s[0]] + RemoveNewlines(s[1..])
  }

  /** Text without `\n` is left as it is, lone `\r`s included. */
  lemma {:induction false} RemoveNewlinesKeeps(s: string)
    requires '\n' !in s
    ensures RemoveNewlines(s) == s
  {
    if s != [] {
      assert s == [s[0]] + s[1..];
      if |s| >= 2 { assert s[1] in s; }
      RemoveNewlinesKeeps(s[1..]);
    }
  }

  /** The rewrite of a concatenation is the concatenation of the rewrites,
      unless the cut falls between the `\r` and the `\n` of a `\r\n`. */
  lemma {:induction false} RemoveNewlinesOfConcat(a: string, t: string)
    requires a == [] || a[|a| - 1] != '\r' || t == [] || t[0] != '\n'
    ensures RemoveNewlines(a + t) == RemoveNewlines(a) + RemoveNewlines(t)
    decreases |a|
  {
    var s := a + t;
    if a == [] {
      assert s == t;
    } else {
      var n := if a[0] == '\r' && |a| >= 2 && a[1] == '\n' then 2 else 1;
      var pre := if a[0] == '\n' || n == 2 then [] else [a[0]];
      RemoveNewlinesFirstOfConcat(a, t, n, pre);
      RemoveNewlinesFirst(a, n, pre);
      RemoveNewlinesOfConcat(a[n..], t);
      Regroup2(pre, RemoveNewlines(s), RemoveNewlines(a[n..] + t),
              RemoveNewlines(a), RemoveNewlines(a[n..]), RemoveNewlines(t));
    }
  }

  /** The first step on `a` is the first step on `a + t`. */
  lemma RemoveNewlinesFirstOfConcat(a: string, t: string, n: nat, pre: string)
    requires a == [] || a[|a| - 1] != '\r' || t == [] || t[0] != '\n'
    requires a != [] && n == (if a[0] == '\r' && |a| >= 2 && a[1] == '\n' then 2 else 1)
    requires pre == if a[0] == '\n' || n == 2 then [] else [a[0]]
    ensures n <= |a| && RemoveNewlines(a + t) == pre + RemoveNewlines(a[n..] + t)
  {
    var s := a + t;
    assert s[0] == a[0];
    DropOfConcat(a, t, [], n);
    assert s + [] == s && a[n..] + t + [] == a[n..] + t;
    if a[0] == '\n' {
      assert RemoveNewlines(s) == RemoveNewlines(s[1..]);
    } else if n == 2 {
      assert s[1] == a[1];
      assert RemoveNewlines(s) == RemoveNewlines(s[2..]);
    } else {
      if |a| >= 2 { assert s[1] == a[1]; } else if t != [] { assert s[1] == t[0]; }
      assert RemoveNewlines(s) == [s[0]] + RemoveNewlines(s[1..]);
    }
  }

  /** One step of the rewrite: the first one or two characters, and what they
      leave. */
  lemma RemoveNewlinesFirst(s: string, n: nat, pre: string)
    requires s != [] && n == (if s[0] == '\r' && |s| >= 2 && s[1] == '\n' then 2 else 1)
    requires pre == if s[0] == '\n' || n == 2 then [] else [s[0]]
    ensures n <= |s| && RemoveNewlines(s) == pre + RemoveNewlines(s[n..])
  {
  }

  /** A `\n` that no `\r` precedes is deleted, and the text on either side
      is rewritten on its own. */
  lemma RemoveNewlinesSplitsLf(a: string, b: string)
    requires a == [] || a[|a| - 1] != '\r'
    ensures RemoveNewlines(a + "\n" + b) == RemoveNewlines(a) + RemoveNewlines(b)
  {
    RemoveNewlinesOfConcat(a, "\n" + b);
    assert a + "\n" + b == a + ("\n" + b);
    assert ("\n" + b)[1..] == b;
  }

  /** A `\r\n` is deleted as one, and the text on either side is rewritten
      on its own. */
  lemma RemoveNewlinesSplitsCrLf(a: string, b: string)
    ensures RemoveNewlines(a + "\r\n" + b) == RemoveNewlines(a) + RemoveNewlines(b)
  {
    RemoveNewlinesOfConcat(a, "\r\n" + b);
    assert a + "\r\n" + b == a + ("\r\n" + b);
    assert ("\r\n" + b)[2..] == b;
  }

  /** A `\r` that no `\n` follows stays, and the text on either side is
      rewritten on its own. */
  lemma RemoveNewlinesKeepsLoneCr(a: string, b: string)
    requires b == [] || b[0] != '\n'
    ensures RemoveNewlines(a + "\r" + b) == RemoveNewlines(a) + "\r" + RemoveNewlines(b)
  {
    assert a + "\r" + b == a + ("\r" + b);
    RemoveNewlinesOfConcat(a, "\r" + b);
    assert RemoveNewlines("\r" + b) == "\r" + RemoveNewlines(b) by {
      RemoveNewlinesFirst("\r" + b, 1, "\r");
      assert ("\r" + b)[1..] == b;
    }
    Regroup2(RemoveNewlines(a), RemoveNewlines(a + "\r" + b), RemoveNewlines("\r" + b),
             RemoveNewlines(a) + "\r", "\r", RemoveNewlines(b));
  }

  /** `replace(/(,(\s)?})/g, ' }')`: a comma before a closing brace, with at
      most one white-space character between, becomes a space. */
  function DropTrailingCommas(s: string): string {
    if |s| >= 2 && s[0] == ',' && s[1] == '}' then " }" + DropTrailingCommas(s[2..])
    else if |s| >= 3 && s[0] == ',' && IsJsSpace(s[1]) && s[2] == '}' then " }" + DropTrailingCommas(s[3..])
    else if s == [] then []
    else [s[0]] + DropTrailingCommas(s[1..])
  }

  /** The rewrite adds no character other than a space. */
  lemma {:induction false} DropTrailingCommasAddsOnlySpaces(s: string)
    ensures forall c :: c in DropTrailingCommas(s) ==> c in s || c == ' '
    decreases |s|
  {
    if s != [] {
      var n := if |s| >= 2 && s[0] == ',' && s[1] == '}' then 2
               else if |s| >= 3 && s[0] == ',' && IsJsSpace(s[1]) && s[2] == '}' then 3 else 1;
      DropTrailingCommasAddsOnlySpaces(s[n..]);
      forall c | c in s[n..] ensures c in s {
        SliceCharIn(s, n, |s|, c);
      }
    }
  }

  /** `,(\s)?}` matches at `i`. */
  predicate TrailingCommaAt(s: string, i: int) {
    0 <= i < |s| && s[i] == ','
    && ((i + 1 < |s| && s[i + 1] == '}') || (i + 2 < |s| && IsJsSpace(s[i + 1]) && s[i + 2] == '}'))
  }

  /** Text in which the pattern matches nowhere is left as it is. */
  lemma {:induction false} DropTrailingCommasKeeps(s: string)
    requires forall i :: 0 <= i < |s| ==> !TrailingCommaAt(s, i)
    ensures DropTrailingCommas(s) == s
    decreases |s|
  {
    assert !TrailingCommaAt(s, 0);
    if s != [] {
      forall i | 0 <= i < |s[1..]| ensures !TrailingCommaAt(s[1..], i) {
        assert !TrailingCommaAt(s, i + 1);
      }
      DropTrailingCommasKeeps(s[1..]);
    }
  }

  /** Each match, `,}` or a comma, one white-space character and `}`, becomes
      ` }`, and the text on either side of it is rewritten on its own: no
      match reaches across it. */
  lemma {:induction false} DropTrailingCommasSplits(a: string, m: string, b: string)
    requires m == ",}" || (|m| == 3 && m[0] == ',' && IsJsSpace(m[1]) && m[2] == '}')
    ensures DropTrailingCommas(a + m + b) == DropTrailingCommas(a) + " }" + DropTrailingCommas(b)
    decreases |a|
  {
    if a == [] {
      assert a + m + b == m + b;
      DropMatchFirst(m + b, |m|);
      assert (m + b)[|m|..] == b;
    } else if TrailingCommaAt(a, 0) {
      var n := if a[1] == '}' then 2 else 3;
      DropTrailingCommasSplits(a[n..], m, b);
      DropTrailingCommasAfterMatch(a, m, b, n);
    } else {
      DropTrailingCommasSplits(a[1..], m, b);
      DropTrailingCommasAfterKeep(a, m, b);
    }
  }

  /** A match at the front of `a` is the same match at the front of `a + m + b`. */
  lemma DropTrailingCommasAfterMatch(a: string, m: string, b: string, n: nat)
    requires m == ",}" || (|m| == 3 && m[0] == ',' && IsJsSpace(m[1]) && m[2] == '}')
    requires TrailingCommaAt(a, 0) && n == if a[1] == '}' then 2 else 3
    requires n <= |a| && DropTrailingCommas(a[n..] + m + b)
                         == DropTrailingCommas(a[n..]) + " }" + DropTrailingCommas(b)
    ensures DropTrailingCommas(a + m + b) == DropTrailingCommas(a) + " }" + DropTrailingCommas(b)
  {
    var s := a + m + b;
    assert DropTrailingCommas(s) == " }" + DropTrailingCommas(a[n..] + m + b) by {
      assert s[0] == a[0] && s[1] == a[1];
      if n == 3 { assert s[2] == a[2]; }
      DropMatchFirst(s, n);
      DropOfConcat(a, m, b, n);
    }
    assert DropTrailingCommas(a) == " }" + DropTrailingCommas(a[n..]) by {
      DropMatchFirst(a, n);
    }
    Regroup(" }", DropTrailingCommas(s), DropTrailingCommas(a[n..] + m + b),
            DropTrailingCommas(a), DropTrailingCommas(a[n..]), " }", DropTrailingCommas(b));
  }

  /** A first character of `a` that starts no match starts none in `a + m + b`:
      what follows it there is a character of `a` or the comma of `m`. */
  lemma DropTrailingCommasAfterKeep(a: string, m: string, b: string)
    requires m == ",}" || (|m| == 3 && m[0] == ',' && IsJsSpace(m[1]) && m[2] == '}')
    requires a != [] && !TrailingCommaAt(a, 0)
    requires DropTrailingCommas(a[1..] + m + b) == DropTrailingCommas(a[1..]) + " }" + DropTrailingCommas(b)
    ensures DropTrailingCommas(a + m + b) == DropTrailingCommas(a) + " }" + DropTrailingCommas(b)
  {
    var s := a + m + b;
    assert DropTrailingCommas(s) == [a[0]] + DropTrailingCommas(a[1..] + m + b) by {
      assert s[0] == a[0];
      if |a| >= 2 { assert s[1] == a[1]; } else { assert s[1] == ','; }
      if |a| >= 3 { assert s[2] == a[2]; } else if |a| == 2 { assert s[2] == ','; }
      assert !TrailingCommaAt(s, 0);
      DropKeepFirst(s);
      DropOfConcat(a, m, b, 1);
    }
    assert DropTrailingCommas(a) == [a[0]] + DropTrailingCommas(a[1..]) by {
      DropKeepFirst(a);
    }
    Regroup([a[0]], DropTrailingCommas(s), DropTrailingCommas(a[1..] + m + b),
            DropTrailingCommas(a), DropTrailingCommas(a[1..]), " }", DropTrailingCommas(b));
  }

  /** One step of the rewrite at a match of length `n`. */
  lemma DropMatchFirst(s: string, n: nat)
    requires TrailingCommaAt(s, 0) && n == if s[1] == '}' then 2 else 3
    ensures n <= |s| && DropTrailingCommas(s) == " }" + DropTrailingCommas(s[n..])
  {
  }

  /** One step of the rewrite where no match starts. */
  lemma DropKeepFirst(s: string)
    requires s != [] && !TrailingCommaAt(s, 0)
    ensures DropTrailingCommas(s) == [s[0]] + DropTrailingCommas(s[1..])
  {
  }

  /** Dropping a prefix of the first part of a concatenation. */
  lemma DropOfConcat(a: string, m: string, b: string, n: nat)
    requires n <= |a|
    ensures (a + m + b)[n..] == a[n..] + m + b
  {
  }

  /** Concatenation regrouped: `pre + (x + y)` is `(pre + x) + y`. */
  lemma Regroup2(pre: string, whole: string, rest: string, left: string, x: string, y: string)
    requires whole == pre + rest && rest == x + y && left == pre + x
    ensures whole == left + y
  {
  }

  /** Concatenation regrouped: `pre + (x + mid + y)` is `(pre + x) + mid + y`. */
  lemma Regroup(pre: string, whole: string, rest: string, left: string, x: string, mid: string, y: string)
    requires whole == pre + rest && rest == x + mid + y && left == pre + x
    ensures whole == left + mid + y
  {
  }

  predicate IsBlank(c: char) {
    c == ' ' || c == '\t'
  }

  function SkipBlanks(s: string): (r: string)
    ensures |r| <= |s| && r == s[|s| - |r|..]
    ensures r == [] || !IsBlank(r[0])
  {
    if s != [] && IsBlank(s[0]) then SkipBlanks(s[1..]) else s
  }

  /** No two spaces in a row. */
  predicate SingleSpaced(r: string) {
    forall i, j :: 0 <= i && j == i + 1 < |r| ==> !(r[i] == ' ' && r[j] == ' ')
  }

  lemma ConsSingleSpaced(c: char, x: string)
    requires SingleSpaced(x)
    requires c == ' ' && x != [] ==> x[0] != ' '
    ensures SingleSpaced([c] + x)
  {
    var y := [c] + x;
    forall i, j | 0 <= i && j == i + 1 < |y| ensures !(y[i] == ' ' && y[j] == ' ') {
      if i > 0 {
        assert y[i] == x[i - 1];
      }
      assert y[i + 1] == x[i];
    }
  }

  /** A run of blanks at the front becomes one space before what follows it. */
  lemma CollapseBlankRun(s: string, rest: string, tail: string)
    requires s != [] && IsBlank(s[0])
    requires |rest| <= |s| && rest == s[|s| - |rest|..] && (rest == [] || !IsBlank(rest[0]))
    requires forall c :: c in tail ==> c in rest || c == ' '
    requires if rest == [] then tail == [] else tail != [] && tail[0] == rest[0]
    requires '\t' !in tail && SingleSpaced(tail)
    ensures forall c :: c in " " + tail ==> c in s || c == ' '
    ensures '\t' !in " " + tail && SingleSpaced(" " + tail)
  {
    ConsSingleSpaced(' ', tail);
    forall c | c in " " + tail && c != ' ' ensures c in s {
      assert c in rest;
      SliceCharIn(s, |s| - |rest|, |s|, c);
    }
  }

  /** Any other first character is kept before what follows it. */
  lemma CollapseKeep(s: string, tail: string)
    requires s != [] && !IsBlank(s[0])
    requires forall c :: c in tail ==> c in s[1..] || c == ' '
    requires '\t' !in tail && SingleSpaced(tail)
    ensures forall c :: c in [s[0]] + tail ==> c in s || c == ' '
    ensures '\t' !in [s[0]] + tail && SingleSpaced([s[0]] + tail)
  {
    ConsSingleSpaced(s[0], tail);
    forall c | c in [s[0]] + tail && c != s[0] ensures c in s || c == ' ' {
      assert c in tail;
      if c != ' ' {
        assert c in s[1..];
        SliceCharIn(s, 1, |s|, c);
      }
    }
  }

  /** `replace(/[ \t]+/g, ' ')`: every run of spaces and tabs becomes one space. */
  function CollapseBlanks(s: string): (r: string)
    ensures forall c :: c in r ==> c in s || c == ' '
    ensures s != [] ==> r != [] && r[0] == (if IsBlank(s[0]) then ' ' else s[0])
    ensures '\t' !in r
    ensures SingleSpaced(r)
    decreases |s|
  {
    if s == [] then []
    else if IsBlank(s[0]) then
      var rest := SkipBlanks(s);
      var tail := CollapseBlanks(rest);
      CollapseBlankRun(s, rest, tail);
      " " + tail
    else
      var tail := CollapseBlanks(s[1..]);
      CollapseKeep(s, tail);
      [s[0]] + tail
  }

  /** Text with no tab and no two spaces in a row is left as it is. */
  lemma {:induction false} CollapseBlanksKeeps(s: string)
    requires '\t' !in s && SingleSpaced(s)
    ensures CollapseBlanks(s) == s
  {
    if s != [] {
      assert s[0] in s;
      assert '\t' !in s[1..] && SingleSpaced(s[1..]) by {
        forall i, j | 0 <= i && j == i + 1 < |s[1..]| ensures !(s[1..][i] == ' ' && s[1..][j] == ' ') {
          assert s[1..][i] == s[i + 1] && s[1..][j] == s[j + 1];
        }
      }
      CollapseBlanksKeeps(s[1..]);
      if IsBlank(s[0]) {
        assert SkipBlanks(s) == s[1..] by {
          if |s| >= 2 {
            assert s[1] in s;
            assert !(s[0] == ' ' && s[1] == ' ');
          }
        }
        CollapseBlanksFirstBlank(s);
      } else {
        CollapseBlanksFirstKeep(s);
      }
    }
  }

  /** Skipping the blanks at the front of a concatenation: they reach into `t`
      only when `a` is all blanks. */
  lemma {:induction false} SkipBlanksOfConcat(a: string, t: string)
    ensures SkipBlanks(a + t) == if SkipBlanks(a) == [] then SkipBlanks(t) else SkipBlanks(a) + t
  {
    if a == [] {
      assert a + t == t;
    } else if IsBlank(a[0]) {
      assert (a + t)[0] == a[0] && (a + t)[1..] == a[1..] + t;
      SkipBlanksOfConcat(a[1..], t);
    } else {
      assert (a + t)[0] == a[0];
    }
  }

  /** The rewrite of a concatenation is the concatenation of the rewrites,
      unless the cut falls inside a run of blanks. */
  lemma {:induction false} CollapseBlanksOfConcat(a: string, t: string)
    requires a == [] || t == [] || !IsBlank(a[|a| - 1]) || !IsBlank(t[0])
    ensures CollapseBlanks(a + t) == CollapseBlanks(a) + CollapseBlanks(t)
    decreases |a|, 1
  {
    if a == [] {
      assert a + t == t;
    } else if !IsBlank(a[0]) {
      CollapseBlanksOfConcatKeep(a, t);
    } else if SkipBlanks(a) == [] {
      if t != [] { BlankRunEnd(a); }
      CollapseBlanksAfterLastRun(a, t);
    } else {
      CollapseBlanksOfConcatRun(a, t);
    }
  }

  /** The induction step of `CollapseBlanksOfConcat` at a run of blanks that
      ends inside `a`. */
  lemma {:induction false} CollapseBlanksOfConcatRun(a: string, t: string)
    requires a == [] || t == [] || !IsBlank(a[|a| - 1]) || !IsBlank(t[0])
    requires a != [] && IsBlank(a[0]) && SkipBlanks(a) != []
    ensures CollapseBlanks(a + t) == CollapseBlanks(a) + CollapseBlanks(t)
    decreases |a|, 0
  {
    var rest := SkipBlanks(a);
    assert rest[|rest| - 1] == a[|a| - 1];
    CollapseBlanksOfConcat(rest, t);
    CollapseBlanksAfterRun(a, t, rest);
  }

  /** The induction step of `CollapseBlanksOfConcat` at any other character. */
  lemma {:induction false} CollapseBlanksOfConcatKeep(a: string, t: string)
    requires a == [] || t == [] || !IsBlank(a[|a| - 1]) || !IsBlank(t[0])
    requires a != [] && !IsBlank(a[0])
    ensures CollapseBlanks(a + t) == CollapseBlanks(a) + CollapseBlanks(t)
    decreases |a|, 0
  {
    if |a| > 1 { assert a[1..][|a| - 2] == a[|a| - 1]; }
    CollapseBlanksOfConcat(a[1..], t);
    CollapseBlanksKeepOfConcat(a, t);
    Regroup2([a[0]], CollapseBlanks(a + t), CollapseBlanks(a[1..] + t),
             CollapseBlanks(a), CollapseBlanks(a[1..]), CollapseBlanks(t));
  }

  /** `a` is one run of blanks that stops where `t` begins. */
  lemma CollapseBlanksAfterLastRun(a: string, t: string)
    requires a != [] && IsBlank(a[0]) && SkipBlanks(a) == []
    requires t == [] || !IsBlank(t[0])
    ensures CollapseBlanks(a + t) == CollapseBlanks(a) + CollapseBlanks(t)
  {
    var s := a + t;
    assert CollapseBlanks(s) == " " + CollapseBlanks(t) by {
      assert s[0] == a[0];
      SkipBlanksOfConcat(a, t);
      CollapseBlanksFirstBlank(s);
    }
    assert CollapseBlanks(a) == " " by {
      CollapseBlanksFirstBlank(a);
      assert CollapseBlanks(SkipBlanks(a)) == [];
    }
  }

  /** A run of blanks at the front of `a` that ends inside `a`. */
  lemma CollapseBlanksAfterRun(a: string, t: string, rest: string)
    requires a != [] && IsBlank(a[0]) && rest == SkipBlanks(a) && rest != []
    requires CollapseBlanks(rest + t) == CollapseBlanks(rest) + CollapseBlanks(t)
    ensures CollapseBlanks(a + t) == CollapseBlanks(a) + CollapseBlanks(t)
  {
    var s := a + t;
    assert CollapseBlanks(s) == " " + CollapseBlanks(rest + t) by {
      assert s[0] == a[0];
      SkipBlanksOfConcat(a, t);
      CollapseBlanksFirstBlank(s);
    }
    assert CollapseBlanks(a) == " " + CollapseBlanks(rest) by {
      CollapseBlanksFirstBlank(a);
    }
    Regroup2(" ", CollapseBlanks(s), CollapseBlanks(rest + t),
            CollapseBlanks(a), CollapseBlanks(rest), CollapseBlanks(t));
  }

  /** Any other first character of `a` is the first step on `a` and on `a + t`. */
  lemma CollapseBlanksKeepOfConcat(a: string, t: string)
    requires a != [] && !IsBlank(a[0])
    ensures CollapseBlanks(a + t) == [a[0]] + CollapseBlanks(a[1..] + t)
    ensures CollapseBlanks(a) == [a[0]] + CollapseBlanks(a[1..])
  {
    var s := a + t;
    assert s[0] == a[0] && s[1..] == a[1..] + t;
    CollapseBlanksFirstKeep(s);
    CollapseBlanksFirstKeep(a);
  }

  /** One step of the rewrite at a run of blanks. */
  lemma CollapseBlanksFirstBlank(s: string)
    requires s != [] && IsBlank(s[0])
    ensures CollapseBlanks(s) == " " + CollapseBlanks(SkipBlanks(s))
  {
  }

  /** One step of the rewrite at any other character. */
  lemma CollapseBlanksFirstKeep(s: string)
    requires s != [] && !IsBlank(s[0])
    ensures CollapseBlanks(s) == [s[0]] + CollapseBlanks(s[1..])
  {
  }

  /** In text that is all blanks, the last character is a blank. */
  lemma BlankRunEnd(a: string)
    requires a != [] && SkipBlanks(a) == []
    ensures IsBlank(a[|a| - 1])
  {
    if |a| > 1 { assert IsBlank(a[0]); BlankRunEnd(a[1..]); }
  }

  /** A run of blanks `w` that cannot be extended on either side becomes one
      space, and the text on either side is rewritten on its own. */
  lemma CollapseBlanksSplits(a: string, w: string, b: string)
    requires w != [] && forall k :: 0 <= k < |w| ==> IsBlank(w[k])
    requires a == [] || !IsBlank(a[|a| - 1])
    requires b == [] || !IsBlank(b[0])
    ensures CollapseBlanks(a + w + b) == CollapseBlanks(a) + " " + CollapseBlanks(b)
  {
    assert a + w + b == a + (w + b);
    CollapseBlanksOfConcat(a, w + b);
    CollapseBlanksOfRun(w, b);
    Regroup2(CollapseBlanks(a), CollapseBlanks(a + w + b), CollapseBlanks(w + b),
             CollapseBlanks(a) + " ", " ", CollapseBlanks(b));
  }

  /** A run of blanks at the front becomes one space. */
  lemma CollapseBlanksOfRun(w: string, b: string)
    requires w != [] && forall k :: 0 <= k < |w| ==> IsBlank(w[k])
    requires b == [] || !IsBlank(b[0])
    ensures CollapseBlanks(w + b) == " " + CollapseBlanks(b)
  {
    AllBlankSkipped(w);
    SkipBlanksOfConcat(w, b);
    assert (w + b)[0] == w[0];
    CollapseBlanksFirstBlank(w + b);
  }

  lemma {:induction false} AllBlankSkipped(w: string)
    requires forall k :: 0 <= k < |w| ==> IsBlank(w[k])
    ensures SkipBlanks(w) == []
  {
    if w != [] {
      assert IsBlank(w[0]);
      assert forall k :: 0 <= k < |w[1..]| ==> IsBlank(w[1..][k]) by {
        forall k | 0 <= k < |w[1..]| ensures IsBlank(w[1..][k]) { assert w[1..][k] == w[k + 1]; }
      }
      AllBlankSkipped(w[1..]);
    }
  }

  /** `replace(/}export/g, '};export')`: a statement separator between a
      closing brace and a directly following `export`. */
  function SeparateGluedExports(s: string): string {
    if |s| >= 7 && s[..7] == "}export" then "};export" + SeparateGluedExports(s[7..])
    else if s == [] then []
    else [s[0]] + SeparateGluedExports(s[1..])
  }

  /** The rewrite adds no character other than `;`. */
  lemma {:induction false} SeparateGluedExportsAddsOnlySemicolons(s: string)
    ensures forall c :: c in SeparateGluedExports(s) ==> c in s || c == ';'
    decreases |s|
  {
    if s != [] {
      var n := if |s| >= 7 && s[..7] == "}export" then 7 else 1;
      SeparateGluedExportsAddsOnlySemicolons(s[n..]);
      forall c | c in s[..n] ensures c in s { SliceCharIn(s, 0, n, c); }
      forall c | c in s[n..] ensures c in s { SliceCharIn(s, n, |s|, c); }
      assert n == 7 ==> "}export" == s[..n];
    }
  }

  /** Text without `}export` is left as it is. */
  lemma {:induction false} SeparateGluedExportsKeeps(s: string)
    requires !Contains(s, "}export")
    ensures SeparateGluedExports(s) == s
    decreases |s|
  {
    if s != [] {
      assert !OccursAt(s, "}export", 0);
      assert !Contains(s[1..], "}export") by {
        forall j | 0 <= j <= |s[1..]| && OccursAt(s[1..], "}export", j) ensures false {
          assert s[j + 1..j + 8] == s[1..][j..j + 7];
          assert OccursAt(s, "}export", j + 1);
        }
      }
      SeparateGluedExportsKeeps(s[1..]);
    }
  }

  /** Each `}export` becomes `};export`, and the text on either side of it is
      rewritten on its own: no match reaches across it, since `}` occurs in
      `}export` only at its start. */
  lemma {:induction false} SeparateGluedExportsSplits(a: string, b: string)
    ensures SeparateGluedExports(a + "}export" + b)
            == SeparateGluedExports(a) + "};export" + SeparateGluedExports(b)
    decreases |a|
  {
    if a == [] {
      var s := a + "}export" + b;
      assert s[..7] == "}export";
      DropOfConcat("}export", b, [], 7);
      assert s[7..] == b;
    } else if |a| >= 7 && a[..7] == "}export" {
      SeparateGluedExportsSplits(a[7..], b);
      SeparateGluedExportsAfterMatch(a, b);
    } else {
      SeparateGluedExportsSplits(a[1..], b);
      SeparateGluedExportsAfterKeep(a, b);
    }
  }

  /** A `}export` at the front of `a` is the same match at the front of `a + "}export" + b`. */
  lemma SeparateGluedExportsAfterMatch(a: string, b: string)
    requires |a| >= 7 && a[..7] == "}export"
    requires SeparateGluedExports(a[7..] + "}export" + b)
             == SeparateGluedExports(a[7..]) + "};export" + SeparateGluedExports(b)
    ensures SeparateGluedExports(a + "}export" + b)
            == SeparateGluedExports(a) + "};export" + SeparateGluedExports(b)
  {
    var s := a + "}export" + b;
    assert SeparateGluedExports(s) == "};export" + SeparateGluedExports(a[7..] + "}export" + b) by {
      assert s[..7] == a[..7];
      DropOfConcat(a, "}export", b, 7);
    }
    Regroup("};export", SeparateGluedExports(s), SeparateGluedExports(a[7..] + "}export" + b),
            SeparateGluedExports(a), SeparateGluedExports(a[7..]), "};export", SeparateGluedExports(b));
  }

  /** A first character of `a` that starts no `}export` starts none in
      `a + "}export" + b`: a match there would need a second `}` inside `}export`. */
  lemma SeparateGluedExportsAfterKeep(a: string, b: string)
    requires a != [] && !(|a| >= 7 && a[..7] == "}export")
    requires SeparateGluedExports(a[1..] + "}export" + b)
             == SeparateGluedExports(a[1..]) + "};export" + SeparateGluedExports(b)
    ensures SeparateGluedExports(a + "}export" + b)
            == SeparateGluedExports(a) + "};export" + SeparateGluedExports(b)
  {
    var s := a + "}export" + b;
    assert SeparateGluedExports(s) == [a[0]] + SeparateGluedExports(a[1..] + "}export" + b) by {
      assert s[0] == a[0];
      if |a| >= 7 {
        assert s[..7] == a[..7];
      } else {
        assert s[..7][|a|] == s[|a|] == '}' != "}export"[|a|];
      }
      DropOfConcat(a, "}export", b, 1);
    }
    Regroup([a[0]], SeparateGluedExports(s), SeparateGluedExports(a[1..] + "}export" + b),
            SeparateGluedExports(a), SeparateGluedExports(a[1..]), "};export", SeparateGluedExports(b));
  }

  /** The rewrite leaves no `}export` behind. */
  lemma {:induction false} SeparateGluedExportsLeavesNone(s: string)
    ensures !Contains(SeparateGluedExports(s), "}export")
    decreases |s|
  {
    if |s| >= 7 && s[..7] == "}export" {
      SeparateGluedExportsLeavesNone(s[7..]);
      NoneAfterPrefix("};export", SeparateGluedExports(s[7..]));
    } else if s != [] {
      var rest := SeparateGluedExports(s[1..]);
      SeparateGluedExportsLeavesNone(s[1..]);
      if StartsWith(rest, "export") {
        SeparateGluedExportsKeepsStart(s[1..], "export");
        assert s[..7] == [s[0]] + s[1..][..6];
      }
      NoneAfterChar(s[0], rest);
    }
  }

  /** A prefix without `}` after its first character, followed by text without
      `}export`, gives text without `}export` if the prefix does not start one. */
  lemma NoneAfterPrefix(pre: string, rest: string)
    requires pre == "};export" && !Contains(rest, "}export")
    ensures !Contains(pre + rest, "}export")
  {
    var r := pre + rest;
    forall j | 0 <= j <= |r| ensures !OccursAt(r, "}export", j) {
      OccursAfterPrefix(pre, rest, "}export", j);
      OccursAtChar(r, "}export", j, 0);
      OccursAtChar(r, "}export", j, 1);
    }
  }

  /** One character before text without `}export` makes one only when it is
      `}` and the text starts with `export`. */
  lemma NoneAfterChar(c: char, rest: string)
    requires !Contains(rest, "}export") && !(c == '}' && StartsWith(rest, "export"))
    ensures !Contains([c] + rest, "}export")
  {
    var r := [c] + rest;
    forall j | 0 <= j <= |r| ensures !OccursAt(r, "}export", j) {
      OccursAfterPrefix([c], rest, "}export", j);
      OccursAtHead(c, rest);
    }
  }

  /** An occurrence past a prefix is an occurrence in what follows it. */
  lemma OccursAfterPrefix(pre: string, rest: string, pat: string, j: int)
    ensures j >= |pre| ==> (OccursAt(pre + rest, pat, j) <==> OccursAt(rest, pat, j - |pre|))
  {
    if j >= |pre| && j + |pat| <= |pre + rest| {
      assert (pre + rest)[j..j + |pat|] == rest[j - |pre|..j - |pre| + |pat|];
    }
  }

  /** The characters of an occurrence are those of the pattern. */
  lemma OccursAtChar(s: string, pat: string, j: int, k: int)
    ensures OccursAt(s, pat, j) && 0 <= k < |pat| ==> s[j + k] == pat[k]
  {
    if OccursAt(s, pat, j) && 0 <= k < |pat| {
      assert s[j..j + |pat|][k] == s[j + k];
    }
  }

  /** `}export` at the very front: a `}` followed by `export`. */
  lemma OccursAtHead(c: char, rest: string)
    ensures OccursAt([c] + rest, "}export", 0) ==> c == '}' && StartsWith(rest, "export")
  {
    if OccursAt([c] + rest, "}export", 0) {
      var r := [c] + rest;
      assert r[..7] == "}export";
      assert c == r[0] == r[..7][0];
      assert r[1..7] == r[..7][1..] == "export";
      assert rest[..6] == r[1..7];
    }
  }

  lemma StartsWithHead(s: string, w: string)
    ensures StartsWith(s, w) && w != [] ==> s[0] == w[0]
  {
    if StartsWith(s, w) && w != [] {
      assert s[..|w|][0] == s[0];
    }
  }

  /** Before its first `}` the rewritten text is the original text. */
  lemma {:induction false} SeparateGluedExportsKeepsStart(s: string, w: string)
    requires '}' !in w && StartsWith(SeparateGluedExports(s), w)
    ensures StartsWith(s, w)
    decreases |w|
  {
    if w != [] {
      StartsWithHead(SeparateGluedExports(s), w);
      if !(|s| >= 7 && s[..7] == "}export") {
        var rest := SeparateGluedExports(s[1..]);
        assert SeparateGluedExports(s) == [s[0]] + rest;
        assert SeparateGluedExports(s)[..|w|] == [s[0]] + rest[..|w| - 1];
        assert rest[..|w| - 1] == w[1..];
        assert '}' !in w[1..] by { forall c | c in w[1..] ensures c in w { SliceCharIn(w, 1, |w|, c); } }
        SeparateGluedExportsKeepsStart(s[1..], w[1..]);
        assert s[..|w|] == [s[0]] + s[1..][..|w| - 1];
      }
    }
  }

  /** `filter((line) => line.startsWith('export'))`. */
  function KeepExports(parts: seq<string>): (r: seq<string>)
    ensures forall k :: 0 <= k < |r| ==> StartsWith(r[k], "export") && r[k] in parts
    ensures forall k :: 0 <= k < |parts| && StartsWith(parts[k], "export") ==> parts[k] in r
    ensures |parts| == 1 ==> r == if StartsWith(parts[0], "export") then parts else []
  {
    if parts == [] then []
    else if StartsWith(parts[0], "export") then [parts[0]] + KeepExports(parts[1..])
    else KeepExports(parts[1..])
  }

  /** The filter keeps order and multiplicity: the kept fragments of two runs
      are those of the first followed by those of the second. */
  lemma {:induction false} KeepExportsAppend(a: seq<string>, b: seq<string>)
    ensures KeepExports(a + b) == KeepExports(a) + KeepExports(b)
    decreases |a|
  {
    if a == [] {
      assert a + b == b;
    } else {
      assert (a + b)[0] == a[0] && (a + b)[1..] == a[1..] + b;
      KeepExportsAppend(a[1..], b);
    }
  }

  /** The rewrites of `fixFileContent` before it splits on `;`. */
  function Flatten(fileContent: string): (r: string)
    ensures '\n' !in r
  {
    var noNewlines := RemoveNewlines(StripCommentLines(Trim(fileContent), true));
    DropTrailingCommasAddsOnlySpaces(noNewlines);
    SeparateGluedExportsAddsOnlySemicolons(CollapseBlanks(DropTrailingCommas(noNewlines)));
    SeparateGluedExports(CollapseBlanks(DropTrailingCommas(noNewlines)))
  }

  /** `fixFileContent`: `null` for an empty file, otherwise the statements
      that begin with `export`, one per paragraph. */
  function FixFileContent(fileContent: string): (r: Option<string>)
    ensures r.None? <==> fileContent == ""
    ensures r.Some? ==> ';' !in r.value
    ensures r.Some? ==> forall line :: line in SplitOn(r.value, "\n") ==> line == "" || StartsWith(line, "export")
  {
    if |fileContent| == 0 then None
    else
      var flat := Flatten(fileContent);
      var parts := SplitOn(flat, ";");
      var kept := KeepExports(parts);
      assert forall k :: 0 <= k < |kept| ==> '\n' !in kept[k] && ';' !in kept[k] by {
        forall k | 0 <= k < |kept| ensures '\n' !in kept[k] && ';' !in kept[k] {
          var j :| 0 <= j < |parts| && parts[j] == kept[k];
          ContainsChar(parts[j], ';');
        }
      }
      SplitJoinedDoubled(kept, '\n');
      JoinWithAvoids(kept, "\n\n", ';');
      Some(JoinWith(kept, "\n\n"))
  }

  // ---------------------------------------------------------------------------
  // fixLine

  /** `replace(/\s\s/g, ' ')`: each pair of white-space characters, taken
      left to right without overlap, becomes one space. */
  function CollapseSpacePairs(s: string): (r: string)
    ensures forall c :: c in r ==> c in s || c == ' '
    ensures (r != [] && r[0] == '/') <==> (s != [] && s[0] == '/')
  {
    if |s| >= 2 && IsJsSpace(s[0]) && IsJsSpace(s[1]) then " " + CollapseSpacePairs(s[2..])
    else if s == [] then []
    else [s[0]] + CollapseSpacePairs(s[1..])
  }

  /** `replace(/\/\//g, '/')`: each pair of slashes, taken left to right
      without overlap, becomes one slash. */
  function CollapseSlashPairs(s: string): (r: string)
    ensures forall c :: c in r ==> c in s
    ensures (r != [] && r[0] == '/') <==> (s != [] && s[0] == '/')
  {
    if |s| >= 2 && s[0] == '/' && s[1] == '/' then "/" + CollapseSlashPairs(s[2..])
    else if s == [] then []
    else [s[0]] + CollapseSlashPairs(s[1..])
  }

  /** No two white-space characters in a row. */
  predicate NoSpacePair(s: string) {
    forall i :: 0 <= i < |s| - 1 ==> !(IsJsSpace(s[i]) && IsJsSpace(s[i + 1]))
  }

  /** Text without such a pair is left as it is. */
  lemma {:induction false} CollapseSpacePairsKeeps(s: string)
    requires NoSpacePair(s)
    ensures CollapseSpacePairs(s) == s
  {
    if s != [] {
      assert NoSpacePair(s[1..]) by {
        forall i | 0 <= i < |s[1..]| - 1 ensures !(IsJsSpace(s[1..][i]) && IsJsSpace(s[1..][i + 1])) {
          assert s[1..][i] == s[i + 1] && s[1..][i + 1] == s[i + 2];
        }
      }
      CollapseSpacePairsKeeps(s[1..]);
      CollapseSpacePairsFirstKeep(s);
    }
  }

  /** The rewrite of a concatenation is the concatenation of the rewrites
      whenever the last character of `a` cannot begin a pair. */
  lemma {:induction false} CollapseSpacePairsOfConcat(a: string, t: string)
    requires a == [] || !IsJsSpace(a[|a| - 1])
    ensures CollapseSpacePairs(a + t) == CollapseSpacePairs(a) + CollapseSpacePairs(t)
    decreases |a|
  {
    if a == [] {
      assert a + t == t;
    } else if |a| >= 2 && IsJsSpace(a[0]) && IsJsSpace(a[1]) {
      if |a| > 2 { assert a[2..][|a| - 3] == a[|a| - 1]; }
      CollapseSpacePairsOfConcat(a[2..], t);
      CollapseSpacePairsPairOfConcat(a, t);
      Regroup2(" ", CollapseSpacePairs(a + t), CollapseSpacePairs(a[2..] + t), CollapseSpacePairs(a), CollapseSpacePairs(a[2..]), CollapseSpacePairs(t));
    } else {
      if |a| > 1 { assert a[1..][|a| - 2] == a[|a| - 1]; }
      CollapseSpacePairsOfConcat(a[1..], t);
      CollapseSpacePairsKeepOfConcat(a, t);
      Regroup2([a[0]], CollapseSpacePairs(a + t), CollapseSpacePairs(a[1..] + t), CollapseSpacePairs(a), CollapseSpacePairs(a[1..]), CollapseSpacePairs(t));
    }
  }

  /** A pair at the front of `a` is the first step on `a` and on `a + t`. */
  lemma CollapseSpacePairsPairOfConcat(a: string, t: string)
    requires |a| >= 2 && IsJsSpace(a[0]) && IsJsSpace(a[1])
    ensures CollapseSpacePairs(a + t) == " " + CollapseSpacePairs(a[2..] + t)
    ensures CollapseSpacePairs(a) == " " + CollapseSpacePairs(a[2..])
  {
    var s := a + t;
    assert s[0] == a[0] && s[1] == a[1] && s[2..] == a[2..] + t;
    CollapseSpacePairsFirstPair(s);
    CollapseSpacePairsFirstPair(a);
  }

  /** Any other first character of `a` is the first step on `a` and on `a + t`. */
  lemma CollapseSpacePairsKeepOfConcat(a: string, t: string)
    requires a != [] && !IsJsSpace(a[|a| - 1])
    requires !(|a| >= 2 && IsJsSpace(a[0]) && IsJsSpace(a[1]))
    ensures CollapseSpacePairs(a + t) == [a[0]] + CollapseSpacePairs(a[1..] + t)
    ensures CollapseSpacePairs(a) == [a[0]] + CollapseSpacePairs(a[1..])
  {
    var s := a + t;
    assert s[0] == a[0] && s[1..] == a[1..] + t;
    if |a| >= 2 { assert s[1] == a[1]; } else { assert a[|a| - 1] == a[0]; }
    CollapseSpacePairsFirstKeep(s);
    CollapseSpacePairsFirstKeep(a);
  }

  /** One step of the rewrite at a pair. */
  lemma CollapseSpacePairsFirstPair(s: string)
    requires |s| >= 2 && IsJsSpace(s[0]) && IsJsSpace(s[1])
    ensures CollapseSpacePairs(s) == " " + CollapseSpacePairs(s[2..])
  {
  }

  /** One step of the rewrite where no pair starts. */
  lemma CollapseSpacePairsFirstKeep(s: string)
    requires s != [] && !(|s| >= 2 && IsJsSpace(s[0]) && IsJsSpace(s[1]))
    ensures CollapseSpacePairs(s) == [s[0]] + CollapseSpacePairs(s[1..])
  {
  }

  /** Two white-space characters that no white space precedes become one space, and the text on either side is rewritten on its own. */
  lemma CollapseSpacePairsSplits(a: string, m: string, b: string)
    requires |m| == 2 && IsJsSpace(m[0]) && IsJsSpace(m[1])
    requires a == [] || !IsJsSpace(a[|a| - 1])
    ensures CollapseSpacePairs(a + m + b) == CollapseSpacePairs(a) + " " + CollapseSpacePairs(b)
  {
    assert a + m + b == a + (m + b);
    CollapseSpacePairsOfConcat(a, m + b);
    assert (m + b)[0] == m[0] && (m + b)[1] == m[1] && (m + b)[2..] == b;
    CollapseSpacePairsFirstPair(m + b);
    Regroup2(CollapseSpacePairs(a), CollapseSpacePairs(a + m + b), CollapseSpacePairs(m + b), CollapseSpacePairs(a) + " ", " ", CollapseSpacePairs(b));
  }

  /** `replace(/\.tsx?\/?.*\/, '')` (not global): everything from the first
      `.ts` to the end of its line goes. */
  function CutTsExtension(s: string): string {
    match IndexOf(s, ".ts")
    case None => s
    case Some(i) => s[..i] + s[LineEnd(s, i)..]
  }

  /** `fixLine`. */
  function FixLine(line: string): string {
    CutTsExtension(CollapseSlashPairs(CollapseSpacePairs(line)))
  }

  predicate NoDoubleSlash(s: string) {
    forall i :: 0 <= i < |s| - 1 ==> !(s[i] == '/' && s[i + 1] == '/')
  }

  predicate NoTripleSlash(s: string) {
    forall i :: 0 <= i < |s| - 2 ==> !(s[i] == '/' && s[i + 1] == '/' && s[i + 2] == '/')
  }

  /** Text without such a pair is left as it is. */
  lemma {:induction false} CollapseSlashPairsKeeps(s: string)
    requires NoDoubleSlash(s)
    ensures CollapseSlashPairs(s) == s
  {
    if s != [] {
      assert NoDoubleSlash(s[1..]) by {
        forall i | 0 <= i < |s[1..]| - 1 ensures !(s[1..][i] == '/' && s[1..][i + 1] == '/') {
          assert s[1..][i] == s[i + 1] && s[1..][i + 1] == s[i + 2];
        }
      }
      CollapseSlashPairsKeeps(s[1..]);
      CollapseSlashPairsFirstKeep(s);
    }
  }

  /** The rewrite of a concatenation is the concatenation of the rewrites
      whenever the last character of `a` cannot begin a pair. */
  lemma {:induction false} CollapseSlashPairsOfConcat(a: string, t: string)
    requires a == [] || a[|a| - 1] != '/'
    ensures CollapseSlashPairs(a + t) == CollapseSlashPairs(a) + CollapseSlashPairs(t)
    decreases |a|
  {
    if a == [] {
      assert a + t == t;
    } else if |a| >= 2 && a[0] == '/' && a[1] == '/' {
      if |a| > 2 { assert a[2..][|a| - 3] == a[|a| - 1]; }
      CollapseSlashPairsOfConcat(a[2..], t);
      CollapseSlashPairsPairOfConcat(a, t);
      Regroup2("/", CollapseSlashPairs(a + t), CollapseSlashPairs(a[2..] + t), CollapseSlashPairs(a), CollapseSlashPairs(a[2..]), CollapseSlashPairs(t));
    } else {
      if |a| > 1 { assert a[1..][|a| - 2] == a[|a| - 1]; }
      CollapseSlashPairsOfConcat(a[1..], t);
      CollapseSlashPairsKeepOfConcat(a, t);
      Regroup2([a[0]], CollapseSlashPairs(a + t), CollapseSlashPairs(a[1..] + t), CollapseSlashPairs(a), CollapseSlashPairs(a[1..]), CollapseSlashPairs(t));
    }
  }

  /** A pair at the front of `a` is the first step on `a` and on `a + t`. */
  lemma CollapseSlashPairsPairOfConcat(a: string, t: string)
    requires |a| >= 2 && a[0] == '/' && a[1] == '/'
    ensures CollapseSlashPairs(a + t) == "/" + CollapseSlashPairs(a[2..] + t)
    ensures CollapseSlashPairs(a) == "/" + CollapseSlashPairs(a[2..])
  {
    var s := a + t;
    assert s[0] == a[0] && s[1] == a[1] && s[2..] == a[2..] + t;
    CollapseSlashPairsFirstPair(s);
    CollapseSlashPairsFirstPair(a);
  }

  /** Any other first character of `a` is the first step on `a` and on `a + t`. */
  lemma CollapseSlashPairsKeepOfConcat(a: string, t: string)
    requires a != [] && a[|a| - 1] != '/'
    requires !(|a| >= 2 && a[0] == '/' && a[1] == '/')
    ensures CollapseSlashPairs(a + t) == [a[0]] + CollapseSlashPairs(a[1..] + t)
    ensures CollapseSlashPairs(a) == [a[0]] + CollapseSlashPairs(a[1..])
  {
    var s := a + t;
    assert s[0] == a[0] && s[1..] == a[1..] + t;
    if |a| >= 2 { assert s[1] == a[1]; } else { assert a[|a| - 1] == a[0]; }
    CollapseSlashPairsFirstKeep(s);
    CollapseSlashPairsFirstKeep(a);
  }

  /** One step of the rewrite at a pair. */
  lemma CollapseSlashPairsFirstPair(s: string)
    requires |s| >= 2 && s[0] == '/' && s[1] == '/'
    ensures CollapseSlashPairs(s) == "/" + CollapseSlashPairs(s[2..])
  {
  }

  /** One step of the rewrite where no pair starts. */
  lemma CollapseSlashPairsFirstKeep(s: string)
    requires s != [] && !(|s| >= 2 && s[0] == '/' && s[1] == '/')
    ensures CollapseSlashPairs(s) == [s[0]] + CollapseSlashPairs(s[1..])
  {
  }

  /** A `//` that no slash precedes becomes one slash, and the text on either side is rewritten on its own. */
  lemma CollapseSlashPairsSplits(a: string, m: string, b: string)
    requires m == "//"
    requires a == [] || a[|a| - 1] != '/'
    ensures CollapseSlashPairs(a + m + b) == CollapseSlashPairs(a) + "/" + CollapseSlashPairs(b)
  {
    assert a + m + b == a + (m + b);
    CollapseSlashPairsOfConcat(a, m + b);
    assert (m + b)[0] == m[0] && (m + b)[1] == m[1] && (m + b)[2..] == b;
    CollapseSlashPairsFirstPair(m + b);
    Regroup2(CollapseSlashPairs(a), CollapseSlashPairs(a + m + b), CollapseSlashPairs(m + b), CollapseSlashPairs(a) + "/", "/", CollapseSlashPairs(b));
  }

  lemma {:induction false} SpacePairsKeepNoTripleSlash(s: string)
    requires NoTripleSlash(s)
    ensures NoTripleSlash(CollapseSpacePairs(s))
  {
    var r := CollapseSpacePairs(s);
    if |s| >= 2 && IsJsSpace(s[0]) && IsJsSpace(s[1]) {
      SpacePairsKeepNoTripleSlash(s[2..]);
      assert r == " " + CollapseSpacePairs(s[2..]);
    } else if s != [] {
      var t := CollapseSpacePairs(s[1..]);
      SpacePairsKeepNoTripleSlash(s[1..]);
      assert r == [s[0]] + t;
    }
  }

  lemma {:induction false} SlashPairsLeaveNoDoubleSlash(s: string)
    requires NoTripleSlash(s)
    ensures NoDoubleSlash(CollapseSlashPairs(s))
  {
    var r := CollapseSlashPairs(s);
    if |s| >= 2 && s[0] == '/' && s[1] == '/' {
      SlashPairsLeaveNoDoubleSlash(s[2..]);
      assert r == "/" + CollapseSlashPairs(s[2..]);
      if |s| >= 3 { assert s[2] != '/'; }
    } else if s != [] {
      SlashPairsLeaveNoDoubleSlash(s[1..]);
      assert r == [s[0]] + CollapseSlashPairs(s[1..]);
    }
  }

  lemma CutKeepsNoDoubleSlash(s: string)
    requires NoDoubleSlash(s)
    ensures NoDoubleSlash(CutTsExtension(s))
  {
    match IndexOf(s, ".ts")
    case None =>
    case Some(i) =>
      var j := LineEnd(s, i);
      var r := s[..i] + s[j..];
      forall k | 0 <= k < |r| - 1 ensures !(r[k] == '/' && r[k + 1] == '/') {
        if k + 1 < i {
          assert r[k] == s[k] && r[k + 1] == s[k + 1];
        } else if k + 1 == i {
          assert r[k + 1] == s[j];
        } else {
          assert r[k] == s[k - i + j] && r[k + 1] == s[k + 1 - i + j];
        }
      }
  }

  /** Input without three slashes in a row comes out of `fixLine` without two
      in a row: every `//` has been collapsed. */
  lemma FixLineLeavesNoDoubleSlash(line: string)
    requires NoTripleSlash(line)
    ensures NoDoubleSlash(FixLine(line))
  {
    SpacePairsKeepNoTripleSlash(line);
    SlashPairsLeaveNoDoubleSlash(CollapseSpacePairs(line));
    CutKeepsNoDoubleSlash(CollapseSlashPairs(CollapseSpacePairs(line)));
  }

  /** On a single line, `fixLine` keeps exactly the text before the first
      `.ts` of the collapsed line, so no `.ts` and nothing after one is left. */
  lemma FixLineCutsTsExtension(line: string)
    requires forall c :: c in line ==> !IsLineTerminator(c)
    ensures StartsWith(CollapseSlashPairs(CollapseSpacePairs(line)), FixLine(line))
    ensures !Contains(FixLine(line), ".ts")
    ensures !Contains(CollapseSlashPairs(CollapseSpacePairs(line)), ".ts")
            ==> FixLine(line) == CollapseSlashPairs(CollapseSpacePairs(line))
    ensures Contains(CollapseSlashPairs(CollapseSpacePairs(line)), ".ts")
            ==> OccursAt(CollapseSlashPairs(CollapseSpacePairs(line)), ".ts", |FixLine(line)|)
  {
    var s := CollapseSlashPairs(CollapseSpacePairs(line));
    assert forall c :: c in s ==> !IsLineTerminator(c);
    match IndexOf(s, ".ts")
    case None =>
    case Some(i) =>
      var j := LineEnd(s, i);
      assert FixLine(line) == s[..i];
      HeadAvoidsSeparator(s, ".ts", i);
  }
}
