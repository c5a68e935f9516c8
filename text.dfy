/** The string operations of JavaScript that the import relies on: the white space
    class `\s`, `toLowerCase`, `includes`, `join`, `split`, `trim`, and the two
    `replace` calls (`/"/g` and `/\s+/g`), each written over `seq<char>`. */
module Text {
  import opened Sequences

  /** JavaScript's WhiteSpace and LineTerminator characters: what `\s` matches and
      what `trim`, `parseInt` and `parseFloat` skip. */
  predicate IsSpace(c: char) {
    c == '\t' || c == '\n' || c == '\U{000B}' || c == '\U{000C}' || c == '\r' || c == ' '
    || c == '\U{00A0}' || c == '\U{1680}' || ('\U{2000}' <= c <= '\U{200A}')
    || c == '\U{2028}' || c == '\U{2029}' || c == '\U{202F}' || c == '\U{205F}'
    || c == '\U{3000}' || c == '\U{FEFF}'
  }

  /** `\d` */
  predicate IsDigit(c: char) {
    '0' <= c <= '9'
  }

  /** `\w` (without the `u` flag: ASCII letters, digits and underscore) */
  predicate IsWordChar(c: char) {
    ('a' <= c <= 'z') || ('A' <= c <= 'Z') || IsDigit(c) || c == '_'
  }

  /** Case mapping of `toLowerCase`, restricted to the ASCII letters. */
  function LowerChar(c: char): (r: char)
    ensures IsSpace(r) <==> IsSpace(c)
    ensures IsDigit(r) <==> IsDigit(c)
  {
    if 'A' <= c <= 'Z' then (c as int + 32) as char else c
  }

  function Lower(s: string): (r: string)
    ensures |r| == |s|
  {
    if s == [] then [] else [LowerChar(s[0])] + Lower(s[1..])
  }

  /** `toLowerCase` maps each character on its own. */
  lemma {:induction false} LowerAt(s: string)
    ensures forall i :: 0 <= i < |s| ==> Lower(s)[i] == LowerChar(s[i])
  {
    if s != [] {
      LowerAt(s[1..]);
      forall i | 0 < i < |s| ensures Lower(s)[i] == LowerChar(s[i]) {
        assert s[i] == s[1..][i - 1];
      }
    }
  }

  lemma LowerAppend(a: string, b: string)
    ensures Lower(a + b) == Lower(a) + Lower(b)
  {
    LowerAt(a + b);
    LowerAt(a);
    LowerAt(b);
    assert forall i :: 0 <= i < |a + b| ==> Lower(a + b)[i] == (Lower(a) + Lower(b))[i];
  }

  /** `needle` occurs in `s` starting at index `i`. */
  predicate OccursAt(s: string, needle: string, i: int) {
    0 <= i && i + |needle| <= |s| && s[i..i + |needle|] == needle
  }

  /** `s.includes(needle)`: the needle occurs at the start of `s` or further on. */
  predicate Contains(s: string, needle: string)
    decreases |s|
  {
    OccursAt(s, needle, 0) || (s != [] && Contains(s[1..], needle))
  }

  lemma OccursShift(s: string, needle: string, i: nat)
    requires s != []
    ensures OccursAt(s[1..], needle, i) <==> OccursAt(s, needle, i + 1)
  {
    if i + |needle| <= |s[1..]| {
      assert s[1..][i..i + |needle|] == s[i + 1..i + 1 + |needle|];
    }
  }

  /** `includes` finds the needle exactly when it occurs at some position. */
  lemma {:induction false} ContainsIff(s: string, needle: string)
    ensures Contains(s, needle) <==> exists i | 0 <= i <= |s| - |needle| :: OccursAt(s, needle, i)
    decreases |s|
  {
    if s != [] {
      ContainsIff(s[1..], needle);
      if Contains(s, needle) && !OccursAt(s, needle, 0) {
        var i :| 0 <= i <= |s[1..]| - |needle| && OccursAt(s[1..], needle, i);
        OccursShift(s, needle, i);
      }
      if exists i | 0 <= i <= |s| - |needle| :: OccursAt(s, needle, i) {
        var i :| 0 <= i <= |s| - |needle| && OccursAt(s, needle, i);
        if i > 0 {
          OccursShift(s, needle, i - 1);
        }
      }
    }
  }

  lemma ContainsLeft(a: string, b: string, needle: string)
    requires Contains(a, needle)
    ensures Contains(a + b, needle)
  {
    ContainsIff(a, needle);
    ContainsIff(a + b, needle);
    var i :| 0 <= i <= |a| - |needle| && OccursAt(a, needle, i);
    assert (a + b)[i..i + |needle|] == a[i..i + |needle|];
    assert OccursAt(a + b, needle, i);
  }

  lemma ContainsRight(a: string, b: string, needle: string)
    requires Contains(b, needle)
    ensures Contains(a + b, needle)
  {
    ContainsIff(b, needle);
    ContainsIff(a + b, needle);
    var i :| 0 <= i <= |b| - |needle| && OccursAt(b, needle, i);
    assert (a + b)[|a| + i..|a| + i + |needle|] == b[i..i + |needle|];
    assert OccursAt(a + b, needle, |a| + i);
  }

  /** An occurrence of a needle free of `sep` cannot straddle a `sep` character. */
  lemma ContainsAcrossSeparator(a: string, sep: char, b: string, needle: string)
    requires sep !in needle
    requires Contains(a + [sep] + b, needle)
    ensures Contains(a, needle) || Contains(b, needle)
  {
    var s := a + [sep] + b;
    ContainsIff(s, needle);
    var i :| 0 <= i <= |s| - |needle| && OccursAt(s, needle, i);
    var w := s[i..i + |needle|];
    assert w == needle;
    forall j | i <= j < i + |needle|
      ensures s[j] != sep
    {
      assert s[j] == w[j - i];
    }
    assert s[|a|] == sep;
    if i + |needle| <= |a| {
      assert a[i..i + |needle|] == w;
      assert OccursAt(a, needle, i);
      ContainsIff(a, needle);
    } else {
      assert i > |a|;
      var k := i - |a| - 1;
      assert s[|a| + 1..] == b;
      assert b[k..k + |needle|] == s[|a| + 1..][k..k + |needle|] == w;
      assert OccursAt(b, needle, k);
      ContainsIff(b, needle);
    }
  }

  /** `xs.join(sep)` */
  function Join(xs: seq<string>, sep: char): string {
    if |xs| == 0 then ""
    else if |xs| == 1 then xs[0]
    else xs[0] + [sep] + Join(xs[1..], sep)
  }

  /** Joining with a separator the needle does not contain: the needle occurs in the
      joined text exactly when it occurs in one of the pieces. */
  lemma {:induction false} ContainsInJoin(xs: seq<string>, sep: char, needle: string)
    requires needle != "" && sep !in needle
    ensures Contains(Join(xs, sep), needle) <==> exists k :: 0 <= k < |xs| && Contains(xs[k], needle)
  {
    if |xs| == 0 {
    } else if |xs| == 1 {
    } else {
      ContainsInJoin(xs[1..], sep, needle);
      var rest := Join(xs[1..], sep);
      assert Join(xs, sep) == xs[0] + [sep] + rest;
      if Contains(Join(xs, sep), needle) {
        ContainsAcrossSeparator(xs[0], sep, rest, needle);
        if !Contains(xs[0], needle) {
          var k :| 0 <= k < |xs[1..]| && Contains(xs[1..][k], needle);
          assert xs[k + 1] == xs[1..][k];
        }
      }
      if exists k :: 0 <= k < |xs| && Contains(xs[k], needle) {
        var k :| 0 <= k < |xs| && Contains(xs[k], needle);
        if k == 0 {
          ContainsLeft(xs[0], [sep] + rest, needle);
          assert xs[0] + ([sep] + rest) == Join(xs, sep);
        } else {
          assert xs[1..][k - 1] == xs[k];
          ContainsRight(xs[0] + [sep], rest, needle);
        }
      }
    }
  }

  function LowerAll(xs: seq<string>): (r: seq<string>)
    ensures |r| == |xs|
    ensures forall k :: 0 <= k < |xs| ==> r[k] == Lower(xs[k])
  {
    if xs == [] then [] else [Lower(xs[0])] + LowerAll(xs[1..])
  }

  /** Lower-casing the joined text is the same as joining the lower-cased pieces. */
  lemma {:induction false} LowerJoin(xs: seq<string>, sep: char)
    requires LowerChar(sep) == sep
    ensures Lower(Join(xs, sep)) == Join(LowerAll(xs), sep)
  {
    if |xs| >= 2 {
      var rest := Join(xs[1..], sep);
      var lows := LowerAll(xs);
      LowerJoin(xs[1..], sep);
      LowerAppend(xs[0] + [sep], rest);
      LowerAppend(xs[0], [sep]);
      assert Lower([sep]) == [sep];
      assert lows[1..] == LowerAll(xs[1..]);
      assert Join(lows, sep) == lows[0] + [sep] + Join(lows[1..], sep);
    }
  }

  /** `s.split(sep)` for a one-character separator: the pieces join back to `s`. */
  function Split(s: string, sep: char): (r: seq<string>)
    ensures |r| >= 1
    ensures Join(r, sep) == s
    ensures forall k :: 0 <= k < |r| ==> sep !in r[k]
  {
    if s == [] then [""]
    else
      var rest := Split(s[1..], sep);
      if s[0] == sep then
        assert ([""] + rest)[1..] == rest;
        [""] + rest
      else
        var r := [[s[0]] + rest[0]] + rest[1..];
        assert |rest| >= 2 ==> r[1..] == rest[1..] && Join(rest, sep) == rest[0] + [sep] + Join(rest[1..], sep);
        assert s == [s[0]] + s[1..];
        r
  }

  /** Text without the separator is one piece. */
  lemma {:induction false} SplitNone(a: string, sep: char)
    requires sep !in a
    ensures Split(a, sep) == [a]
  {
    if a != [] {
      assert a[0] != sep;
      SplitNone(a[1..], sep);
      assert [a[0]] + a[1..] == a;
    }
  }

  /** The text up to the first separator is the first piece; the rest is split on. */
  lemma {:induction false} SplitAt(a: string, b: string, sep: char)
    requires sep !in a
    ensures Split(a + ([sep] + b), sep) == [a] + Split(b, sep)
  {
    var s := a + ([sep] + b);
    if a == [] {
      assert s[0] == sep && s[1..] == b;
    } else {
      assert s[0] == a[0] && a[0] != sep;
      assert s[1..] == a[1..] + ([sep] + b);
      SplitAt(a[1..], b, sep);
      assert [a[0]] + a[1..] == a;
    }
  }

  /** `s.trimStart()` */
  function TrimStart(s: string): (r: string)
    ensures |r| <= |s|
  {
    if s != [] && IsSpace(s[0]) then TrimStart(s[1..]) else s
  }

  /** `trimStart` removes exactly the leading white space. */
  lemma {:induction false} TrimStartFacts(s: string)
    ensures var r := TrimStart(s);
      && r == s[|s| - |r|..]
      && (r == [] || !IsSpace(r[0]))
      && (forall i :: 0 <= i < |s| - |r| ==> IsSpace(s[i]))
      && NonSpace(r) == NonSpace(s)
    decreases |s|
  {
    if s != [] && IsSpace(s[0]) {
      TrimStartFacts(s[1..]);
      var r := TrimStart(s);
      forall i | 0 < i < |s| - |r| ensures IsSpace(s[i]) {
        assert s[i] == s[1..][i - 1];
      }
    }
  }

  /** `s.trimEnd()` */
  function TrimEnd(s: string): (r: string)
    ensures |r| <= |s|
    decreases |s|
  {
    if s != [] && IsSpace(s[|s| - 1]) then TrimEnd(s[..|s| - 1]) else s
  }

  /** `trimEnd` removes exactly the trailing white space. */
  lemma {:induction false} TrimEndFacts(s: string)
    ensures var r := TrimEnd(s);
      && r == s[..|r|]
      && (r == [] || !IsSpace(r[|r| - 1]))
      && (forall i :: |r| <= i < |s| ==> IsSpace(s[i]))
    decreases |s|
  {
    if s != [] && IsSpace(s[|s| - 1]) {
      TrimEndFacts(s[..|s| - 1]);
      var r := TrimEnd(s);
      forall i | |r| <= i < |s| - 1 ensures IsSpace(s[i]) {
        assert s[i] == s[..|s| - 1][i];
      }
    }
  }

  /** `s.trim()` */
  function Trim(s: string): string {
    TrimEnd(TrimStart(s))
  }

  /** The characters of `s` that are not white space, in order. */
  function NonSpace(s: string): string {
    if s == [] then [] else (if IsSpace(s[0]) then [] else [s[0]]) + NonSpace(s[1..])
  }

  lemma {:induction false} NonSpaceAppend(a: string, b: string)
    ensures NonSpace(a + b) == NonSpace(a) + NonSpace(b)
  {
    if a == [] {
      assert a + b == b;
    } else {
      assert (a + b)[0] == a[0];
      assert (a + b)[1..] == a[1..] + b;
      NonSpaceAppend(a[1..], b);
    }
  }

  /** `s.replace(/<c>/g, '')` */
  function Without(s: string, c: char): (r: string)
    ensures c !in r
    ensures forall x :: x in r ==> x in s
    ensures c !in s ==> r == s
  {
    if s == [] then [] else (if s[0] == c then [] else [s[0]]) + Without(s[1..], c)
  }

  /** The quotes are removed one character at a time: every other character stays, in order. */
  lemma {:induction false} WithoutAppend(a: string, b: string, c: char)
    ensures Without(a + b, c) == Without(a, c) + Without(b, c)
  {
    if a != [] {
      HeadOfAppend(a, b);
      WithoutAppend(a[1..], b, c);
      if a[0] != c {
        Associative([a[0]], Without(a[1..], c), Without(b, c));
      }
    } else {
      EmptyAppend(a, b);
    }
  }

  lemma WithoutOne(x: char, c: char)
    ensures Without([x], c) == if x == c then [] else [x]
  {
    assert [x][1..] == [];
  }

  /** A character that `/[^0-9,-]+/g` does not remove. */
  predicate IsAmountChar(c: char) {
    IsDigit(c) || c == ',' || c == '-'
  }

  /** `s.replace(/[^0-9,-]+/g, "")`: only digits, commas and minus signs are kept. */
  function AmountChars(s: string): (r: string)
    ensures |r| <= |s|
    ensures forall i :: 0 <= i < |r| ==> IsAmountChar(r[i])
    ensures (forall i :: 0 <= i < |s| ==> IsAmountChar(s[i])) ==> r == s
    ensures forall x :: x in r ==> x in s
  {
    if s == [] then []
    else
      var rest := AmountChars(s[1..]);
      if IsAmountChar(s[0]) then
        assert s == [s[0]] + s[1..];
        [s[0]] + rest
      else rest
  }

  lemma {:induction false} AmountCharsAppend(a: string, b: string)
    ensures AmountChars(a + b) == AmountChars(a) + AmountChars(b)
  {
    if a != [] {
      assert (a + b)[0] == a[0] && (a + b)[1..] == a[1..] + b;
      AmountCharsAppend(a[1..], b);
    } else {
      assert a + b == b;
    }
  }

  /** A character is kept exactly when the filter admits it. */
  lemma AmountCharsOne(x: char)
    ensures AmountChars([x]) == if IsAmountChar(x) then [x] else []
  {
    assert [x][1..] == [];
  }

  /** `s.replace(/\s+/g, ' ')`: each maximal run of white space becomes one space. */
  function CollapseSpaces(s: string): (r: string)
    ensures (r == []) <==> (s == [])
    ensures s != [] ==> (IsSpace(r[0]) <==> IsSpace(s[0]))
    ensures forall i :: 0 <= i < |r| && IsSpace(r[i]) ==> r[i] == ' '
    ensures forall i :: 0 <= i < |r| - 1 ==> !(IsSpace(r[i]) && IsSpace(r[i + 1]))
    ensures NonSpace(r) == NonSpace(s)
    decreases |s|
  {
    if s == [] then []
    else if IsSpace(s[0]) then
      TrimStartFacts(s[1..]);
      var rest := CollapseSpaces(TrimStart(s[1..]));
      NonSpaceAppend([' '], rest);
      ConsCollapsed(' ', rest);
      [' '] + rest
    else
      var rest := CollapseSpaces(s[1..]);
      NonSpaceAppend([s[0]], rest);
      ConsCollapsed(s[0], rest);
      [s[0]] + rest
  }

  /** A character put before collapsed text keeps it collapsed, when it is an ordinary
      space before non-space text or is not white space at all. */
  lemma ConsCollapsed(c: char, rest: string)
    requires IsSpace(c) ==> c == ' ' && (rest == [] || !IsSpace(rest[0]))
    requires forall i :: 0 <= i < |rest| && IsSpace(rest[i]) ==> rest[i] == ' '
    requires forall i :: 0 <= i < |rest| - 1 ==> !(IsSpace(rest[i]) && IsSpace(rest[i + 1]))
    ensures var r := [c] + rest; forall i :: 0 <= i < |r| && IsSpace(r[i]) ==> r[i] == ' '
    ensures var r := [c] + rest; forall i :: 0 <= i < |r| - 1 ==> !(IsSpace(r[i]) && IsSpace(r[i + 1]))
  {
    var r := [c] + rest;
    assert forall i :: 1 <= i < |r| ==> r[i] == rest[i - 1];
  }

  /** The text is not empty and its last character is not white space. */
  predicate EndsNonSpace(s: string) {
    s != [] && !IsSpace(s[|s| - 1])
  }

  predicate AllSpace(s: string) {
    forall i :: 0 <= i < |s| ==> IsSpace(s[i])
  }

  /** Leading white space before the first non-space character of `a` is all that
      `trimStart` removes, whatever follows. */
  lemma {:induction false} TrimStartAppend(a: string, b: string)
    requires EndsNonSpace(a)
    ensures TrimStart(a + b) == TrimStart(a) + b
    decreases |a|
  {
    assert (a + b)[0] == a[0];
    if IsSpace(a[0]) {
      assert |a| >= 2;
      assert (a + b)[1..] == a[1..] + b;
      assert a[1..][|a[1..]| - 1] == a[|a| - 1];
      TrimStartAppend(a[1..], b);
    }
  }

  /** White space followed by text that starts with another character. */
  lemma {:induction false} TrimStartSpaces(w: string, b: string)
    requires AllSpace(w)
    requires b == [] || !IsSpace(b[0])
    ensures TrimStart(w + b) == b
    decreases |w|
  {
    if w == [] {
      assert w + b == b;
    } else {
      assert (w + b)[0] == w[0];
      assert (w + b)[1..] == w[1..] + b;
      TrimStartSpaces(w[1..], b);
    }
  }

  /** A run of white space becomes one space. */
  lemma CollapseRun(w: string, b: string)
    requires w != [] && AllSpace(w)
    requires b == [] || !IsSpace(b[0])
    ensures CollapseSpaces(w + b) == [' '] + CollapseSpaces(b)
  {
    assert (w + b)[0] == w[0];
    assert (w + b)[1..] == w[1..] + b;
    TrimStartSpaces(w[1..], b);
  }

  /** Text ending in a non-space character is collapsed on its own. */
  lemma {:induction false} CollapseAppend(a: string, b: string)
    requires EndsNonSpace(a)
    ensures CollapseSpaces(a + b) == CollapseSpaces(a) + CollapseSpaces(b)
    decreases |a|
  {
    assert (a + b)[0] == a[0];
    assert (a + b)[1..] == a[1..] + b;
    if !IsSpace(a[0]) {
      if |a| == 1 {
        assert a[1..] + b == b;
        assert CollapseSpaces(a) == [a[0]];
      } else {
        assert a[1..][|a[1..]| - 1] == a[|a| - 1];
        CollapseAppend(a[1..], b);
      }
    } else {
      assert |a| >= 2;
      var t := TrimStart(a[1..]);
      assert a[1..][|a[1..]| - 1] == a[|a| - 1];
      TrimStartAppend(a[1..], b);
      TrimStartFacts(a[1..]);
      assert t != [] && t[|t| - 1] == a[|a| - 1];
      CollapseAppend(t, b);
    }
  }

  /** Two pieces of text around a run of white space: the run becomes one space and
      the pieces are collapsed on their own. */
  lemma CollapseWords(a: string, w: string, b: string)
    requires EndsNonSpace(a) && w != [] && AllSpace(w)
    requires b == [] || !IsSpace(b[0])
    ensures CollapseSpaces(a + w + b) == CollapseSpaces(a) + " " + CollapseSpaces(b)
  {
    Associative(a, w, b);
    CollapseAppend(a, w + b);
    CollapseRun(w, b);
    Associative(CollapseSpaces(a), " ", CollapseSpaces(b));
  }

  /** A trimmed text whose white space is single ordinary spaces. */
  predicate IsNormalName(s: string) {
    && (s == [] || (!IsSpace(s[0]) && !IsSpace(s[|s| - 1])))
    && (forall i :: 0 <= i < |s| && IsSpace(s[i]) ==> s[i] == ' ')
    && (forall i :: 0 <= i < |s| - 1 ==> !(IsSpace(s[i]) && IsSpace(s[i + 1])))
  }

  /** `s.replace(/\s+/g, ' ').trim()` */
  function NormalizeName(s: string): string {
    Trim(CollapseSpaces(s))
  }

  lemma {:induction false} NonSpaceTrimEnd(s: string)
    ensures NonSpace(TrimEnd(s)) == NonSpace(s)
    decreases |s|
  {
    if s != [] && IsSpace(s[|s| - 1]) {
      NonSpaceTrimEnd(s[..|s| - 1]);
      NonSpaceAppend(s[..|s| - 1], [s[|s| - 1]]);
      assert s[..|s| - 1] + [s[|s| - 1]] == s;
    }
  }

  /** The name of an imported transaction is in normal form and keeps every
      character of the description that is not white space, in order. */
  lemma NormalizeNameIsNormal(s: string)
    ensures IsNormalName(NormalizeName(s))
    ensures NonSpace(NormalizeName(s)) == NonSpace(s)
  {
    var c := CollapseSpaces(s);
    var t := TrimStart(c);
    var r := TrimEnd(t);
    TrimStartFacts(c);
    TrimEndFacts(t);
    NonSpaceTrimEnd(t);
    var k := |c| - |t|;
    forall i | 0 <= i < |r| ensures r[i] == c[k + i] {
      assert r[i] == t[i];
    }
    forall i | 0 <= i < |r| && IsSpace(r[i]) ensures r[i] == ' ' {
      assert r[i] == c[k + i];
    }
    forall i | 0 <= i < |r| - 1 ensures !(IsSpace(r[i]) && IsSpace(r[i + 1])) {
      assert r[i] == c[k + i] && r[i + 1] == c[k + i + 1];
    }
    if r != [] {
      assert r[0] == t[0];
    }
  }

  lemma {:induction false} CollapseNormal(s: string)
    requires forall i :: 0 <= i < |s| && IsSpace(s[i]) ==> s[i] == ' '
    requires forall i :: 0 <= i < |s| - 1 ==> !(IsSpace(s[i]) && IsSpace(s[i + 1]))
    ensures CollapseSpaces(s) == s
  {
    if s != [] {
      var t := s[1..];
      assert forall i :: 0 <= i < |t| - 1 ==> !(IsSpace(t[i]) && IsSpace(t[i + 1])) by {
        forall i | 0 <= i < |t| - 1 ensures !(IsSpace(t[i]) && IsSpace(t[i + 1])) {
          assert t[i] == s[i + 1] && t[i + 1] == s[i + 2];
        }
      }
      CollapseNormal(t);
      if IsSpace(s[0]) {
        assert t == [] || !IsSpace(t[0]);
        assert TrimStart(t) == t;
      }
    }
  }

  /** Normalising a name a second time changes nothing. */
  lemma NormalizeNameIdempotent(s: string)
    ensures NormalizeName(NormalizeName(s)) == NormalizeName(s)
  {
    var n := NormalizeName(s);
    NormalizeNameIsNormal(s);
    CollapseNormal(n);
    assert TrimStart(n) == n;
    assert TrimEnd(n) == n;
  }

  /** Two names separated by any run of white space become one name, the two joined
      by a single space. */
  lemma NormalizeWords(a: string, w: string, b: string)
    requires a != [] && IsNormalName(a) && b != [] && IsNormalName(b)
    requires w != [] && AllSpace(w)
    ensures NormalizeName(a + w + b) == a + " " + b
  {
    CollapseWords(a, w, b);
    CollapseNormal(a);
    CollapseNormal(b);
    var x := a + " " + b;
    assert x[0] == a[0] && x[|x| - 1] == b[|b| - 1];
    assert TrimStart(x) == x;
    assert TrimEnd(x) == x;
  }

  /** The first index of `c` in `s`, or `|s|` when there is none (`indexOf` with -1 as `|s|`). */
  function IndexOf(s: string, c: char): (i: nat)
    ensures i <= |s|
    ensures c !in s[..i]
    ensures i < |s| ==> s[i] == c
  {
    if s == [] then 0
    else if s[0] == c then 0
    else
      var j := IndexOf(s[1..], c);
      assert s[..j + 1] == [s[0]] + s[1..][..j];
      1 + j
  }

  /** `s.replace(a, b)` with a one-character string pattern: only the first occurrence. */
  function ReplaceFirst(s: string, a: char, b: char): string {
    var i := IndexOf(s, a);
    if i == |s| then s else s[..i] + [b] + s[i + 1..]
  }

  lemma {:induction false} IndexOfFirst(pre: string, post: string, c: char)
    requires c !in pre
    ensures IndexOf(pre + [c] + post, c) == |pre|
  {
    var s := pre + [c] + post;
    if pre != [] {
      assert s[0] == pre[0];
      assert s[1..] == pre[1..] + [c] + post;
      IndexOfFirst(pre[1..], post, c);
    }
  }

  /** Only the first occurrence is replaced: what precedes it has none, and what
      follows it is left as it was. */
  lemma ReplaceFirstAt(pre: string, post: string, a: char, b: char)
    requires a !in pre
    ensures ReplaceFirst(pre + [a] + post, a, b) == pre + [b] + post
  {
    var s := pre + [a] + post;
    IndexOfFirst(pre, post, a);
    assert s[..|pre|] == pre && s[|pre| + 1..] == post;
  }

  /** Text without the pattern is left unchanged. */
  lemma ReplaceFirstAbsent(s: string, a: char, b: char)
    requires a !in s
    ensures ReplaceFirst(s, a, b) == s
  {
  }
}
