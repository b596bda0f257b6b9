/**
  String helpers shared by the Python back end and the JavaScript front end,
  restricted to ASCII: white space, case mapping, substring search, `trim`/`strip`,
  Python's `split()` and `split(sep)`, and `join`.
 */
module Text {

  /** ASCII white space: space, tab, line feed, vertical tab, form feed, carriage return. */
  predicate IsSpace(c: char)
  {
    c == ' ' || ('\t' <= c <= '\r')
  }

  predicate IsUpper(c: char)
  {
    'A' <= c <= 'Z'
  }

  predicate IsLowerCase(c: char)
  {
    'a' <= c <= 'z'
  }

  function LowerChar(c: char): (r: char)
    ensures !IsUpper(r)
    ensures IsUpper(c) ==> IsLowerCase(r)
    ensures !IsUpper(c) ==> r == c
  {
    if IsUpper(c) then (c as int + 32) as char else c
  }

  function UpperChar(c: char): (r: char)
    ensures !IsLowerCase(r)
    ensures IsLowerCase(c) ==> IsUpper(r) && LowerChar(r) == c
    ensures !IsLowerCase(c) ==> r == c
  {
    if IsLowerCase(c) then (c as int - 32) as char else c
  }

  /** `s.lower()` / `s.toLowerCase()` on ASCII. */
  function Lower(s: string): string
  {
    seq(|s|, i requires 0 <= i < |s| => LowerChar(s[i]))
  }

  /** `s.upper()` on ASCII. */
  function Upper(s: string): string
  {
    seq(|s|, i requires 0 <= i < |s| => UpperChar(s[i]))
  }

  /** No upper-case letter anywhere in `s`. */
  predicate IsLowerString(s: string)
  {
    forall i :: 0 <= i < |s| ==> !IsUpper(s[i])
  }

  lemma LowerIsLower(s: string)
    ensures IsLowerString(Lower(s))
  {
  }

  lemma LowerAppend(a: string, b: string)
    ensures Lower(a + b) == Lower(a) + Lower(b)
  {
    assert forall i :: 0 <= i < |a + b| ==> Lower(a + b)[i] == (Lower(a) + Lower(b))[i];
  }

  /** Lower-casing forgets case: upper-casing first changes nothing. */
  lemma LowerUpper(s: string)
    ensures Lower(Upper(s)) == Lower(s)
  {
    assert forall i :: 0 <= i < |s| ==> Lower(Upper(s))[i] == Lower(s)[i];
  }

  lemma LowerIdempotent(s: string)
    ensures Lower(Lower(s)) == Lower(s)
  {
    assert forall i :: 0 <= i < |s| ==> Lower(Lower(s))[i] == Lower(s)[i];
  }

  /** `pat` occurs in `s` starting at position `i`. */
  predicate ContainsAt(s: string, pat: string, i: int)
  {
    0 <= i && i + |pat| <= |s| && s[i..i + |pat|] == pat
  }

  /** `pat` occurs in `s` at some position `i` or later. */
  function ContainsFrom(s: string, pat: string, i: nat): (b: bool)
    ensures b <==> exists j :: i <= j && ContainsAt(s, pat, j)
    decreases |s| - i
  {
    if i + |pat| > |s| then false
    else if s[i..i + |pat|] == pat then assert ContainsAt(s, pat, i); true
    else ContainsFrom(s, pat, i + 1)
  }

  /** Python's `pat in s`, JavaScript's `s.includes(pat)`. */
  function Contains(s: string, pat: string): (b: bool)
    ensures b <==> exists j :: ContainsAt(s, pat, j)
  {
    ContainsFrom(s, pat, 0)
  }

  lemma ContainsAtLower(s: string, pat: string, j: int)
    requires ContainsAt(s, pat, j)
    ensures ContainsAt(Lower(s), Lower(pat), j)
  {
    assert Lower(s)[j..j + |pat|] == Lower(s[j..j + |pat|]);
  }

  /** First index at or after `i` that is not white space, or `|s|`. */
  function SkipSpaces(s: string, i: nat): (r: nat)
    requires i <= |s|
    ensures i <= r <= |s|
    ensures forall k :: i <= k < r ==> IsSpace(s[k])
    ensures r < |s| ==> !IsSpace(s[r])
    decreases |s| - i
  {
    if i == |s| || !IsSpace(s[i]) then i else SkipSpaces(s, i + 1)
  }

  /** Smallest `r` in `[lo, j]` such that `s[r..j]` is all white space. */
  function SkipSpacesBack(s: string, lo: nat, j: nat): (r: nat)
    requires lo <= j <= |s|
    ensures lo <= r <= j
    ensures forall k :: r <= k < j ==> IsSpace(s[k])
    ensures r > lo ==> !IsSpace(s[r - 1])
    decreases j
  {
    if j == lo || !IsSpace(s[j - 1]) then j else SkipSpacesBack(s, lo, j - 1)
  }

  /** First index at or after `i` that is white space, or `|s|`. */
  function WordEnd(s: string, i: nat): (r: nat)
    requires i <= |s|
    ensures i <= r <= |s|
    ensures forall k :: i <= k < r ==> !IsSpace(s[k])
    ensures r < |s| ==> IsSpace(s[r])
    decreases |s| - i
  {
    if i == |s| || IsSpace(s[i]) then i else WordEnd(s, i + 1)
  }

  /** JavaScript's `s.trim()`, Python's `s.strip()`. */
  function Strip(s: string): string
  {
    var a := SkipSpaces(s, 0);
    s[a..SkipSpacesBack(s, a, |s|)]
  }

  /** The stripped string is a slice of `s` that neither starts nor ends with white space,
      and everything cut away is white space. */
  lemma StripSpec(s: string)
    ensures var r := Strip(s);
      (r == [] <==> forall k :: 0 <= k < |s| ==> IsSpace(s[k])) &&
      (r != [] ==> !IsSpace(r[0]) && !IsSpace(r[|r| - 1])) &&
      exists a, b :: 0 <= a <= b <= |s| && r == s[a..b] &&
        (forall k :: 0 <= k < a ==> IsSpace(s[k])) &&
        (forall k :: b <= k < |s| ==> IsSpace(s[k]))
  {
    var a := SkipSpaces(s, 0);
    var b := SkipSpacesBack(s, a, |s|);
    assert Strip(s) == s[a..b];
    if a < |s| {
      assert !IsSpace(s[a]);
      assert b > a;
    }
  }

  /** A string that already starts and ends with a non-space character is its own strip. */
  lemma StripUnchanged(s: string)
    requires s != [] && !IsSpace(s[0]) && !IsSpace(s[|s| - 1])
    ensures Strip(s) == s
  {
    assert SkipSpaces(s, 0) == 0;
    assert SkipSpacesBack(s, 0, |s|) == |s|;
  }

  /** A maximal run of non-white-space characters. */
  predicate IsWord(w: string)
  {
    w != [] && forall k :: 0 <= k < |w| ==> !IsSpace(w[k])
  }

  /** Python's `s.split()`: the maximal runs of non-white-space, in order. */
  function Words(s: string): (ws: seq<string>)
    ensures forall i :: 0 <= i < |ws| ==> IsWord(ws[i])
    ensures ws == [] <==> forall k :: 0 <= k < |s| ==> IsSpace(s[k])
    decreases |s|
  {
    var a := SkipSpaces(s, 0);
    if a == |s| then []
    else
      var b := WordEnd(s, a);
      [s[a..b]] + Words(s[b..])
  }

  /** `w` is the last word of `s`: it occurs at `a`, right after white space or the start,
      and only white space follows it. */
  predicate LastWordAt(s: string, w: string, a: int)
  {
    0 <= a && a + |w| <= |s| && s[a..a + |w|] == w && (a == 0 || IsSpace(s[a - 1]))
    && forall k :: a + |w| <= k < |s| ==> IsSpace(s[k])
  }

  /** Where the last run of non-white-space of `s` starts (0 when there is none). */
  function LastWordStart(s: string): nat
    decreases |s|
  {
    var a := SkipSpaces(s, 0);
    if a == |s| then 0
    else
      var b := WordEnd(s, a);
      if Words(s[b..]) == [] then a else b + LastWordStart(s[b..])
  }

  /** A last word of a suffix that does not start the suffix is a last word of the text. */
  lemma LastWordShift(s: string, b: nat, w: string, a: nat)
    requires b <= |s| && 0 < a && LastWordAt(s[b..], w, a)
    ensures LastWordAt(s, w, b + a)
  {
    assert s[b..][a - 1] == s[b + a - 1];
    assert s[b..][a..a + |w|] == s[b + a..b + a + |w|];
    forall k | b + a + |w| <= k < |s| ensures IsSpace(s[k]) {
      assert s[k] == s[b..][k - b];
    }
  }

  /** Only white space after the first word: that word is the last one. */
  lemma LastWordIsFirst(s: string, a: nat, b: nat)
    requires a <= b <= |s| && (a == 0 || IsSpace(s[a - 1]))
    requires forall k :: 0 <= k < |s[b..]| ==> IsSpace(s[b..][k])
    ensures LastWordAt(s, s[a..b], a)
  {
    forall k | b <= k < |s| ensures IsSpace(s[k]) {
      assert s[k] == s[b..][k - b];
    }
  }

  /** The last element of `split()` is the last run of non-white-space in the text. */
  lemma {:induction false} WordsLast(s: string)
    requires Words(s) != []
    ensures LastWordAt(s, Words(s)[|Words(s)| - 1], LastWordStart(s))
    decreases |s|
  {
    var a := SkipSpaces(s, 0);
    var b := WordEnd(s, a);
    var rest := Words(s[b..]);
    assert Words(s) == [s[a..b]] + rest;
    if rest == [] {
      assert LastWordStart(s) == a && Words(s)[|Words(s)| - 1] == s[a..b];
      LastWordIsFirst(s, a, b);
    } else {
      WordsLast(s[b..]);
      var w, a' := rest[|rest| - 1], LastWordStart(s[b..]);
      assert LastWordStart(s) == b + a' && Words(s)[|Words(s)| - 1] == w;
      assert IsWord(w) && s[b..][a'] == w[0];
      assert s[b..][0] == s[b];
      LastWordShift(s, b, w, a');
    }
  }

  /** Moving past a leading character shifts the scans by one. */
  lemma {:induction false} SkipSpacesShift(c: char, t: string, i: nat)
    requires i <= |t|
    ensures SkipSpaces([c] + t, i + 1) == SkipSpaces(t, i) + 1
    decreases |t| - i
  {
    if i < |t| {
      assert ([c] + t)[i + 1] == t[i];
      SkipSpacesShift(c, t, i + 1);
    }
  }

  lemma {:induction false} WordEndShift(c: char, t: string, i: nat)
    requires i <= |t|
    ensures WordEnd([c] + t, i + 1) == WordEnd(t, i) + 1
    decreases |t| - i
  {
    if i < |t| {
      assert ([c] + t)[i + 1] == t[i];
      WordEndShift(c, t, i + 1);
    }
  }

  /** Leading white space does not change `split()`. */
  lemma WordsLeadingSpace(c: char, t: string)
    requires IsSpace(c)
    ensures Words([c] + t) == Words(t)
  {
    var s := [c] + t;
    SkipSpacesShift(c, t, 0);
    var a := SkipSpaces(s, 0);
    assert a == SkipSpaces(t, 0) + 1;
    if a < |s| {
      WordEndShift(c, t, a - 1);
      var b := WordEnd(s, a);
      assert s[a..b] == t[a - 1..b - 1];
      assert s[b..] == t[b - 1..];
    }
  }

  /** `WordEnd` stops exactly at the first white space from `i` on. */
  lemma {:induction false} WordEndIs(s: string, i: nat, j: nat)
    requires i <= j <= |s|
    requires forall k :: i <= k < j ==> !IsSpace(s[k])
    requires j == |s| || IsSpace(s[j])
    ensures WordEnd(s, i) == j
    decreases j - i
  {
    if i < j {
      WordEndIs(s, i + 1, j);
    }
  }

  /** A word followed by white space or nothing is the first element of `split()`. */
  lemma WordsCons(w: string, t: string)
    requires IsWord(w) && (t == [] || IsSpace(t[0]))
    ensures Words(w + t) == [w] + Words(t)
  {
    var s := w + t;
    assert s[0] == w[0];
    WordEndIs(s, 0, |w|);
    assert s[0..|w|] == w && s[|w|..] == t;
  }

  /** `split()` undoes joining words with single spaces. */
  lemma {:induction false} WordsJoin(ws: seq<string>)
    requires forall i :: 0 <= i < |ws| ==> IsWord(ws[i])
    ensures Words(Join(ws, " ")) == ws
  {
    if |ws| == 1 {
      WordsCons(ws[0], []);
      assert ws[0] + [] == ws[0];
    } else if |ws| > 1 {
      var rest := Join(ws[1..], " ");
      assert IsWord(ws[0]);
      assert Join(ws, " ") == ws[0] + ([' '] + rest);
      WordsCons(ws[0], [' '] + rest);
      WordsLeadingSpace(' ', rest);
      assert forall i :: 0 <= i < |ws[1..]| ==> IsWord(ws[1..][i]) by {
        forall i | 0 <= i < |ws[1..]| ensures IsWord(ws[1..][i]) {
          assert ws[1..][i] == ws[i + 1];
        }
      }
      WordsJoin(ws[1..]);
      assert Words(Join(ws, " ")) == [ws[0]] + ws[1..];
      assert [ws[0]] + ws[1..] == ws;
    }
  }

  /** Python's `s.split(sep)` for a one-character separator: always at least one part. */
  function Split(s: string, sep: char): (parts: seq<string>)
    ensures |parts| >= 1
    ensures forall i :: 0 <= i < |parts| ==> sep !in parts[i]
    decreases |s|
  {
    if s == [] then [[]]
    else
      var rest := Split(s[1..], sep);
      if s[0] == sep then [[]] + rest
      else [[s[0]] + rest[0]] + rest[1..]
  }

  /** `sep.join(ws)` / `ws.join(sep)`. */
  function Join(ws: seq<string>, sep: string): string
  {
    if ws == [] then []
    else if |ws| == 1 then ws[0]
    else ws[0] + sep + Join(ws[1..], sep)
  }

  /** Splitting and joining back with the separator gives the original string. */
  lemma {:induction false} SplitJoin(s: string, sep: char)
    ensures Join(Split(s, sep), [sep]) == s
    decreases |s|
  {
    if s != [] {
      var rest := Split(s[1..], sep);
      SplitJoin(s[1..], sep);
      if s[0] == sep {
        assert Split(s, sep) == [[]] + rest;
      } else {
        var parts := Split(s, sep);
        assert parts == [[s[0]] + rest[0]] + rest[1..];
        if |rest| == 1 {
          assert Join(parts, [sep]) == [s[0]] + rest[0];
        } else {
          assert rest == [rest[0]] + rest[1..];
          assert Join(rest, [sep]) == rest[0] + [sep] + Join(rest[1..], [sep]);
          assert Join(parts, [sep]) == ([s[0]] + rest[0]) + [sep] + Join(rest[1..], [sep]);
        }
      }
    }
  }

  /** The number of separators in the string decides the number of parts. */
  function Occurrences(s: string, c: char): nat
  {
    if s == [] then 0 else (if s[0] == c then 1 else 0) + Occurrences(s[1..], c)
  }

  lemma {:induction false} SplitCount(s: string, sep: char)
    ensures |Split(s, sep)| == Occurrences(s, sep) + 1
    decreases |s|
  {
    if s != [] {
      SplitCount(s[1..], sep);
    }
  }

  lemma LowerJoin(ws: seq<string>, sep: string)
    ensures Lower(Join(ws, sep)) == Join(seq(|ws|, i requires 0 <= i < |ws| => Lower(ws[i])), Lower(sep))
    decreases |ws|
  {
    var lws := seq(|ws|, i requires 0 <= i < |ws| => Lower(ws[i]));
    if |ws| > 1 {
      LowerJoin(ws[1..], sep);
      assert lws[1..] == seq(|ws[1..]|, i requires 0 <= i < |ws[1..]| => Lower(ws[1..][i]));
      LowerAppend(ws[0] + sep, Join(ws[1..], sep));
      LowerAppend(ws[0], sep);
    }
  }
}
