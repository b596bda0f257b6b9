/**
  The spellings under which an author's name is searched: tokenised, capitalised,
  with CamelCase given names split for their initials, all lower-cased. The result
  is a set: the order of the returned list comes from iterating a set, and the list
  can hold a variant twice (`ReturnedListRepeats`), which the set does not.
 */
module NameVariations {
  import opened Text

  /** `p[0].upper() + p[1:]` (for one character, `p.upper()`): only the case of the
      first character changes. */
  function Capitalize(p: string): (r: string)
    ensures |r| == |p|
    ensures Lower(r) == Lower(p)
    ensures p != [] ==> r[0] == UpperChar(p[0]) && r[1..] == p[1..]
    ensures IsWord(p) ==> IsWord(r)
  {
    if p == [] then []
    else
      var r := [UpperChar(p[0])] + p[1..];
      assert forall k :: 0 <= k < |p| ==> Lower(r)[k] == Lower(p)[k];
      r
  }

  function CapitalizeAll(ws: seq<string>): (r: seq<string>)
    ensures |r| == |ws|
    ensures forall i :: 0 <= i < |ws| ==> r[i] == Capitalize(ws[i])
  {
    seq(|ws|, i requires 0 <= i < |ws| => Capitalize(ws[i]))
  }

  /** First index at or after `i` holding an upper-case letter, or `|s|`. */
  function NextUpper(s: string, i: nat): (r: nat)
    requires i <= |s|
    ensures i <= r <= |s|
    ensures forall k :: i <= k < r ==> !IsUpper(s[k])
    ensures r < |s| ==> IsUpper(s[r])
    decreases |s| - i
  {
    if i == |s| || IsUpper(s[i]) then i else NextUpper(s, i + 1)
  }

  /** `re.findall(r"[A-Z][^A-Z]*", s)`: each piece is one capital and what follows it up to
      the next capital; text before the first capital is dropped. */
  function CamelPieces(s: string): (pieces: seq<string>)
    ensures forall i :: 0 <= i < |pieces| ==> CapWord(pieces[i])
    decreases |s|
  {
    var i := NextUpper(s, 0);
    if i == |s| then []
    else
      var j := NextUpper(s, i + 1);
      [s[i..j]] + CamelPieces(s[j..])
  }

  /** Pieces put back together with nothing between them: `"".join(pieces)`, which
      `ConcatIsJoin` shows equal to `Join(pieces, "")`. Recursing one piece at a time
      spares the proofs about pieces `Join`'s one-element case. */
  function Concat(pieces: seq<string>): string
  {
    if pieces == [] then [] else pieces[0] + Concat(pieces[1..])
  }

  /** Helper for `CamelPiecesConcat`: the piece `s[i..j]` in front of pieces that spell
      `s[j..]` spells `s[i..]`. */
  lemma ConcatStep(s: string, i: nat, j: nat, rest: seq<string>)
    requires i <= j <= |s| && Concat(rest) == s[j..]
    ensures Concat([s[i..j]] + rest) == s[i..]
  {
    assert ([s[i..j]] + rest)[1..] == rest;
    assert s[i..] == s[i..j] + s[j..];
  }

  /** Helper for `CamelPiecesConcat`: text that is empty or starts with a capital starts
      its own first piece. */
  lemma NextUpperAtStart(t: string)
    requires t != [] ==> IsUpper(t[0])
    ensures t[NextUpper(t, 0)..] == t
  {
  }

  /** `Concat` is `"".join`: `Join` with the empty separator. */
  lemma {:induction false} ConcatIsJoin(pieces: seq<string>)
    ensures Concat(pieces) == Join(pieces, "")
  {
    if |pieces| > 1 {
      ConcatIsJoin(pieces[1..]);
      assert pieces[0] + "" == pieces[0];
    } else if |pieces| == 1 {
      assert pieces[1..] == [];
    }
  }

  /** The pieces put back together give the text from the first capital on. */
  lemma {:induction false} CamelPiecesConcat(s: string)
    ensures Concat(CamelPieces(s)) == s[NextUpper(s, 0)..]
    decreases |s|
  {
    var i := NextUpper(s, 0);
    if i < |s| {
      var j := NextUpper(s, i + 1);
      var rest := CamelPieces(s[j..]);
      assert CamelPieces(s) == [s[i..j]] + rest;
      CamelPiecesConcat(s[j..]);
      NextUpperAtStart(s[j..]);
      ConcatStep(s, i, j, rest);
    }
  }

  /** Some character after the first is upper-case. */
  predicate HasInnerUpper(part: string)
  {
    exists k :: 1 <= k < |part| && IsUpper(part[k])
  }

  /** `split_camel`: split only when a later character is upper-case. */
  function SplitCamel(part: string): (pieces: seq<string>)
    ensures !HasInnerUpper(part) ==> pieces == [part]
    ensures pieces != []
  {
    if HasInnerUpper(part) then
      var pieces := CamelPieces(part);
      if pieces == [] then [part] else pieces
    else [part]
  }

  /** A capitalised token splits into pieces that spell it out exactly. */
  lemma SplitCamelSpells(part: string)
    requires part != [] && IsUpper(part[0])
    ensures Concat(SplitCamel(part)) == part
  {
    if HasInnerUpper(part) {
      CamelPiecesConcat(part);
      assert NextUpper(part, 0) == 0;
      assert CamelPieces(part) != [];
    } else {
      assert Concat([part]) == part + Concat([]);
    }
  }

  /** A text opening with a capital starts with the piece up to the next capital. */
  lemma CamelPiecesHead(s: string)
    requires s != [] && IsUpper(s[0])
    ensures CamelPieces(s) == [s[..NextUpper(s, 1)]] + CamelPieces(s[NextUpper(s, 1)..])
  {
    assert NextUpper(s, 0) == 0;
  }

  /** `NextUpper` stops exactly at the first capital from `i` on. */
  lemma {:induction false} NextUpperIs(s: string, i: nat, j: nat)
    requires i <= j <= |s|
    requires forall k :: i <= k < j ==> !IsUpper(s[k])
    requires j == |s| || IsUpper(s[j])
    ensures NextUpper(s, i) == j
    decreases j - i
  {
    if i < j {
      NextUpperIs(s, i + 1, j);
    }
  }

  /** A capital followed by no other capital, such as "Kok". */
  predicate CapWord(w: string)
  {
    w != [] && IsUpper(w[0]) && forall k :: 1 <= k < |w| ==> !IsUpper(w[k])
  }

  /** A capitalised word followed by more text is cut off as the first piece. */
  lemma CamelPiecesCons(a: string, b: string)
    requires CapWord(a) && (b == [] || IsUpper(b[0]))
    ensures CamelPieces(a + b) == [a] + CamelPieces(b)
  {
    var s := a + b;
    NextUpperIs(s, 1, |a|);
    CamelPiecesHead(s);
    assert s[..|a|] == a && s[|a|..] == b;
  }

  /** Two capitalised words run together split back into the two words. */
  lemma SplitCamelTwo(a: string, b: string)
    requires CapWord(a) && CapWord(b)
    ensures SplitCamel(a + b) == [a, b]
  {
    assert (a + b)[|a|] == b[0];
    assert HasInnerUpper(a + b);
    CamelPiecesCons(a, b);
    CamelPiecesCons(b, []);
    assert b + [] == b;
    assert CamelPieces([]) == [];
  }

  lemma SplitCamelExample()
    ensures SplitCamel("KokShiek") == ["Kok", "Shiek"]
  {
    assert CapWord("Kok") && CapWord("Shiek");
    SplitCamelTwo("Kok", "Shiek");
    assert "Kok" + "Shiek" == "KokShiek";
  }

  /** The CamelCase pieces of a block of names, one name after another. */
  function Expand(names: seq<string>): seq<string>
  {
    if names == [] then [] else Expand(names[..|names| - 1]) + SplitCamel(names[|names| - 1])
  }

  /** `initials`: the upper-cased first character of every non-empty name. */
  function Initials(names: seq<string>): (r: string)
    ensures |r| <= |names|
    ensures (forall i :: 0 <= i < |names| ==> names[i] != []) ==>
      |r| == |names| && forall i :: 0 <= i < |names| ==> r[i] == UpperChar(names[i][0])
  {
    if names == [] then []
    else (if names[0] != [] then [UpperChar(names[0][0])] else []) + Initials(names[1..])
  }

  /** Initials are taken name by name: an empty name adds none, the others one each,
      in order. */
  lemma {:induction false} InitialsAppend(a: seq<string>, b: seq<string>)
    ensures Initials(a + b) == Initials(a) + Initials(b)
  {
    if a == [] {
      assert a + b == b;
    } else {
      assert (a + b)[0] == a[0] && (a + b)[1..] == a[1..] + b;
      InitialsAppend(a[1..], b);
    }
  }

  /** The initials of the given names (all tokens but the last), CamelCase split. */
  function GivenInitials(ws: seq<string>): string
    requires |ws| >= 1
  {
    Initials(Expand(CapitalizeAll(ws)[..|ws| - 1]))
  }

  /** A CamelCase first name such as "KokShiek" contributes one initial per word. */
  lemma GivenInitialsCamel(a: string, b: string, last: string)
    requires CapWord(a) && CapWord(b)
    ensures GivenInitials([a + b, last]) == [a[0], b[0]]
  {
    var ws := [a + b, last];
    assert Capitalize(a + b) == a + b;
    assert CapitalizeAll(ws)[..1] == [a + b];
    SplitCamelTwo(a, b);
    assert Expand([a + b]) == Expand([]) + SplitCamel(a + b) == [a, b];
    assert GivenInitials(ws) == Initials([a, b]);
    assert UpperChar(a[0]) == a[0] && UpperChar(b[0]) == b[0];
    assert Initials([b]) == [b[0]] + Initials([]);
    assert Initials([a, b]) == [a[0]] + Initials([b]);
  }

  /** Names that agree once lower-cased still agree once joined. */
  lemma {:induction false} JoinSameLower(a: seq<string>, b: seq<string>, sep: string)
    requires |a| == |b| && forall i :: 0 <= i < |a| ==> Lower(a[i]) == Lower(b[i])
    ensures Lower(Join(a, sep)) == Lower(Join(b, sep))
    decreases |a|
  {
    if |a| > 1 {
      JoinSameLower(a[1..], b[1..], sep);
      LowerAppend(a[0] + sep, Join(a[1..], sep));
      LowerAppend(a[0], sep);
      LowerAppend(b[0] + sep, Join(b[1..], sep));
      LowerAppend(b[0], sep);
    }
  }

  /** Words joined by single spaces neither start nor end with white space. */
  lemma {:induction false} JoinOfWordsTrimmed(ws: seq<string>)
    requires ws != [] && forall i :: 0 <= i < |ws| ==> IsWord(ws[i])
    ensures var j := Join(ws, " "); j != [] && !IsSpace(j[0]) && !IsSpace(j[|j| - 1])
  {
    assert IsWord(ws[0]);
    if |ws| > 1 {
      JoinOfWordsTrimmed(ws[1..]);
      assert IsWord(ws[1..][0]);
    }
  }

  /** The f-string `f"{a} {b}"`. */
  function Spaced(a: string, b: string): string
  {
    a + " " + b
  }

  /** The spellings before lower-casing, stated directly on the white-space separated
      tokens `ws` of the name: F the first token, L the last, GI the given initials. */
  function Forms(ws: seq<string>): set<string>
    requires forall i :: 0 <= i < |ws| ==> IsWord(ws[i])
  {
    if ws == [] then {}
    else if |ws| == 1 then {ws[0]}
    else
      var n := |ws|;
      var first, last := ws[0], ws[n - 1];
      assert IsWord(first) && IsWord(last);
      var gi := GivenInitials(ws);
      {Join(ws, " "),                                      // the full name
       Spaced(last, Join(ws[..n - 1], " ")),               // "L F middles"
       Spaced([first[0]], last),                           // "F-initial L"
       Spaced(gi, last),                                   // "GI L"
       Spaced(last, gi)}                                   // "L GI"
      + (if n > 2 then {Spaced([last[0], first[0]], Join(ws[1..n - 1], " "))} else {})
  }

  /** `[name.lower() for name in variants]`, as a set. */
  function LowerAll(s: set<string>): set<string>
  {
    set v | v in s :: Lower(v)
  }

  /** The lower-cased search spellings of a name with tokens `ws`. */
  function Variants(ws: seq<string>): set<string>
    requires forall i :: 0 <= i < |ws| ==> IsWord(ws[i])
  {
    LowerAll(Forms(ws))
  }

  lemma LowerAllOne(a: string)
    ensures LowerAll({a}) == {Lower(a)}
  {
    assert Lower(a) in LowerAll({a});
  }

  lemma LowerAllFive(a: string, b: string, c: string, d: string, e: string)
    ensures LowerAll({a, b, c, d, e}) == {Lower(a), Lower(b), Lower(c), Lower(d), Lower(e)}
  {
  }

  lemma LowerAllSix(a: string, b: string, c: string, d: string, e: string, f: string)
    ensures LowerAll({a, b, c, d, e, f}) == {Lower(a), Lower(b), Lower(c), Lower(d), Lower(e), Lower(f)}
    ensures LowerAll({a, b, c, d, e} + {f}) == {Lower(a), Lower(b), Lower(c), Lower(d), Lower(e), Lower(f)}
  {
    assert {a, b, c, d, e} + {f} == {a, b, c, d, e, f};
  }

  /** The five spellings of a two-token name. */
  lemma VariantsOfTwo(ws: seq<string>)
    requires |ws| == 2 && forall i :: 0 <= i < |ws| ==> IsWord(ws[i])
    requires ws[0] != [] && ws[1] != []
    ensures Variants(ws) == {Lower(Join(ws, " ")), Lower(Spaced(ws[1], Join(ws[..1], " "))),
                             Lower(Spaced([ws[0][0]], ws[1])), Lower(Spaced(GivenInitials(ws), ws[1])),
                             Lower(Spaced(ws[1], GivenInitials(ws)))}
  {
    var gi := GivenInitials(ws);
    var a, b, c, d, e := Join(ws, " "), Spaced(ws[1], Join(ws[..1], " ")),
      Spaced([ws[0][0]], ws[1]), Spaced(gi, ws[1]), Spaced(ws[1], gi);
    assert Forms(ws) == {a, b, c, d, e};
    LowerAllFive(a, b, c, d, e);
  }

  /** The raw spellings of a name with middle names. */
  lemma FormsOfMore(ws: seq<string>)
    requires |ws| > 2 && forall i :: 0 <= i < |ws| ==> IsWord(ws[i])
    requires ws[0] != [] && ws[|ws| - 1] != []
    ensures var n := |ws|;
      Forms(ws) == {Join(ws, " "), Spaced(ws[n - 1], Join(ws[..n - 1], " ")),
                    Spaced([ws[0][0]], ws[n - 1]), Spaced(GivenInitials(ws), ws[n - 1]),
                    Spaced(ws[n - 1], GivenInitials(ws))}
                   + {Spaced([ws[n - 1][0], ws[0][0]], Join(ws[1..n - 1], " "))}
  {
  }

  /** The six spellings of a name with middle names. */
  lemma VariantsOfMore(ws: seq<string>)
    requires |ws| > 2 && forall i :: 0 <= i < |ws| ==> IsWord(ws[i])
    requires ws[0] != [] && ws[|ws| - 1] != []
    ensures var n := |ws|;
      Variants(ws) == {Lower(Join(ws, " ")), Lower(Spaced(ws[n - 1], Join(ws[..n - 1], " "))),
                       Lower(Spaced([ws[0][0]], ws[n - 1])), Lower(Spaced(GivenInitials(ws), ws[n - 1])),
                       Lower(Spaced(ws[n - 1], GivenInitials(ws))),
                       Lower(Spaced([ws[n - 1][0], ws[0][0]], Join(ws[1..n - 1], " ")))}
  {
    var n := |ws|;
    FormsOfMore(ws);
    LowerAllSix(Join(ws, " "), Spaced(ws[n - 1], Join(ws[..n - 1], " ")),
                Spaced([ws[0][0]], ws[n - 1]), Spaced(GivenInitials(ws), ws[n - 1]),
                Spaced(ws[n - 1], GivenInitials(ws)),
                Spaced([ws[n - 1][0], ws[0][0]], Join(ws[1..n - 1], " ")));
  }

  /** Nothing for a blank name, the token itself for one token, at most five variants
      for two tokens and at most six with middle names. */
  lemma VariantsBound(ws: seq<string>)
    requires forall i :: 0 <= i < |ws| ==> IsWord(ws[i])
    ensures Variants(ws) == {} <==> ws == []
    ensures |ws| == 1 ==> Variants(ws) == {Lower(ws[0])}
    ensures |ws| == 2 ==> |Variants(ws)| <= 5
    ensures |ws| > 2 ==> |Variants(ws)| <= 6
  {
    var n := |ws|;
    if n == 1 {
      LowerAllOne(ws[0]);
    } else if n >= 2 {
      assert IsWord(ws[0]) && IsWord(ws[n - 1]);
      if n == 2 {
        VariantsOfTwo(ws);
      } else {
        VariantsOfMore(ws);
      }
    }
  }

  /** Every variant is lower-case. */
  lemma VariantsAreLower(ws: seq<string>)
    requires forall i :: 0 <= i < |ws| ==> IsWord(ws[i])
    ensures forall v :: v in Variants(ws) ==> IsLowerString(v)
  {
    forall v | v in Variants(ws)
      ensures IsLowerString(v)
    {
      var x :| x in Forms(ws) && v == Lower(x);
      LowerIsLower(x);
    }
  }

  /** A name whose first token is two capitalised words run together is also searched
      under the two initials followed by the last name. */
  lemma CamelNameVariant(a: string, b: string, last: string)
    requires CapWord(a) && CapWord(b) && IsWord(a + b) && IsWord(last)
    ensures Lower(Spaced([a[0], b[0]], last)) in Variants([a + b, last])
  {
    var ws := [a + b, last];
    GivenInitialsCamel(a, b, last);
    VariantsOfTwo(ws);
  }

  /** Helper for `KokShiekWong`: the example's tokens are words, in two capitalised pieces. */
  lemma KokShiekWords()
    ensures CapWord("Kok") && CapWord("Shiek") && "Kok" + "Shiek" == "KokShiek"
    ensures IsWord("KokShiek") && IsWord("Wong")
  {
  }

  /** Helper for `KokShiekWong`: the initials spelling lower-cases to "ks wong". */
  lemma LowerKsWong()
    ensures Lower(Spaced(["Kok"[0], "Shiek"[0]], "Wong")) == "ks wong"
  {
    var v := Spaced(["Kok"[0], "Shiek"[0]], "Wong");
    assert v == "KS Wong";
    assert |v| == 7 && forall k :: 0 <= k < |v| ==> Lower(v)[k] == "ks wong"[k];
  }

  /** The motivating example: "KokShiek Wong" is also searched as "ks wong". */
  lemma KokShiekWong()
    ensures "ks wong" in Variants(["KokShiek", "Wong"])
  {
    KokShiekWords();
    CamelNameVariant("Kok", "Shiek", "Wong");
    LowerKsWong();
  }

  /** Tokens and their capitalised forms agree once lower-cased, joined or not. */
  lemma CapitalisedJoin(ws: seq<string>)
    requires forall i :: 0 <= i < |ws| ==> IsWord(ws[i])
    ensures forall i :: 0 <= i < |ws| ==> IsWord(CapitalizeAll(ws)[i])
    ensures Lower(Join(CapitalizeAll(ws), " ")) == Lower(Join(ws, " "))
  {
    JoinSameLower(CapitalizeAll(ws), ws, " ");
  }

  /** `Spaced(a, b)` only depends on the lower-cased `a` and `b`. */
  lemma LowerSpaced(a: string, b: string, a': string, b': string)
    requires Lower(a) == Lower(a') && Lower(b) == Lower(b')
    ensures Lower(Spaced(a, b)) == Lower(Spaced(a', b'))
  {
    LowerAppend(a + " ", b);
    LowerAppend(a, " ");
    LowerAppend(a' + " ", b');
    LowerAppend(a', " ");
  }

  /** "L F middles" built from capitalised tokens is already trimmed, and agrees with
      the raw tokens once lower-cased. */
  lemma LastFirstForm(ws: seq<string>)
    requires |ws| >= 2 && forall i :: 0 <= i < |ws| ==> IsWord(ws[i])
    ensures var p, n := CapitalizeAll(ws), |ws|;
      Lower(Strip(Spaced(p[n - 1], Join(p[..n - 1], " ")))) == Lower(Spaced(ws[n - 1], Join(ws[..n - 1], " ")))
  {
    var p, n := CapitalizeAll(ws), |ws|;
    var last, given := p[n - 1], p[..n - 1];
    assert IsWord(ws[n - 1]) && IsWord(last);
    assert given == CapitalizeAll(ws[..n - 1]);
    CapitalisedJoin(ws[..n - 1]);
    JoinOfWordsTrimmed(given);
    var body := Spaced(last, Join(given, " "));
    assert body[|body| - 1] == Join(given, " ")[|Join(given, " ")| - 1];
    StripUnchanged(body);
    LowerSpaced(last, Join(given, " "), ws[n - 1], Join(ws[..n - 1], " "));
  }

  /** Upper-cased initials are lower-cased back to the originals' lower case. */
  lemma LowerInitial(c: char)
    ensures Lower([UpperChar(c)]) == Lower([c])
  {
    assert LowerChar(UpperChar(c)) == LowerChar(c);
  }

  lemma LowerInitials(c: char, d: char)
    ensures Lower([UpperChar(c)] + [UpperChar(d)]) == Lower([c, d])
  {
    assert LowerChar(UpperChar(c)) == LowerChar(c);
    assert LowerChar(UpperChar(d)) == LowerChar(d);
  }

  /** "WK middles" built from capitalised tokens agrees with the raw tokens once
      lower-cased. */
  lemma InitialsMiddlesForm(ws: seq<string>)
    requires |ws| > 2 && forall i :: 0 <= i < |ws| ==> IsWord(ws[i])
    ensures var p, n := CapitalizeAll(ws), |ws|;
      IsWord(ws[0]) && IsWord(ws[n - 1]) &&
      Lower(Spaced([UpperChar(p[n - 1][0])] + [UpperChar(p[0][0])], Join(p[1..n - 1], " ")))
      == Lower(Spaced([ws[n - 1][0], ws[0][0]], Join(ws[1..n - 1], " ")))
  {
    var p, n := CapitalizeAll(ws), |ws|;
    assert IsWord(ws[0]) && IsWord(ws[n - 1]);
    LowerInitials(ws[n - 1][0], ws[0][0]);
    assert p[1..n - 1] == CapitalizeAll(ws[1..n - 1]);
    CapitalisedJoin(ws[1..n - 1]);
    LowerSpaced([UpperChar(p[n - 1][0])] + [UpperChar(p[0][0])], Join(p[1..n - 1], " "),
                [ws[n - 1][0], ws[0][0]], Join(ws[1..n - 1], " "));
  }

  /** Helper for `RawSpellings`: adding elements one at a time builds the display. */
  lemma AddedInTurn(a: string, b: string, c: string, d: string, e: string, f: string)
    ensures {} + {a} + {b} + {c} + {d} + {e} == {a, b, c, d, e}
    ensures {} + {a} + {b} + {c} + {d} + {e} + {f} == {a, b, c, d, e, f}
  {
  }

  /** The raw-token forms of the spellings built from the capitalised tokens `p`:
      what they are once lower-cased. */
  predicate BuiltFrom(p: seq<string>, full: string, lastFirst: string,
                      fl: string, gl: string, lg: string, lfm: string)
    requires |p| >= 2 && p[0] != [] && p[|p| - 1] != []
  {
    && full == Join(p, " ")
    && lastFirst == Strip(Spaced(p[|p| - 1], Join([p[0]] + p[1..|p| - 1], " ")))
    && fl == Spaced([UpperChar(p[0][0])], p[|p| - 1])
    && gl == Spaced(Initials(Expand([p[0]] + p[1..|p| - 1])), p[|p| - 1])
    && lg == Spaced(p[|p| - 1], Initials(Expand([p[0]] + p[1..|p| - 1])))
    && lfm == Spaced([UpperChar(p[|p| - 1][0])] + [UpperChar(p[0][0])], Join(p[1..|p| - 1], " "))
  }

  /** The given block `[first] + middles` is every capitalised token but the last. */
  lemma GivenBlockIs(ws: seq<string>)
    requires |ws| >= 2
    ensures var p, n := CapitalizeAll(ws), |ws|;
      && [p[0]] + p[1..n - 1] == p[..n - 1]
      && Initials(Expand([p[0]] + p[1..n - 1])) == GivenInitials(ws)
  {
    var p, n := CapitalizeAll(ws), |ws|;
    assert [p[0]] + p[1..n - 1] == p[..n - 1];
  }

  /** The first five spellings lower-case to the forms stated on the raw tokens. */
  lemma LoweredForms(ws: seq<string>, full: string, lastFirst: string, fl: string,
                     gl: string, lg: string, lfm: string)
    requires |ws| >= 2 && forall i :: 0 <= i < |ws| ==> IsWord(ws[i])
    requires var p := CapitalizeAll(ws);
      p[0] != [] && p[|ws| - 1] != [] && BuiltFrom(p, full, lastFirst, fl, gl, lg, lfm)
    ensures var n := |ws|;
      && ws[0] != [] && ws[n - 1] != []
      && Lower(full) == Lower(Join(ws, " "))
      && Lower(lastFirst) == Lower(Spaced(ws[n - 1], Join(ws[..n - 1], " ")))
      && Lower(fl) == Lower(Spaced([ws[0][0]], ws[n - 1]))
      && Lower(gl) == Lower(Spaced(GivenInitials(ws), ws[n - 1]))
      && Lower(lg) == Lower(Spaced(ws[n - 1], GivenInitials(ws)))
  {
    var p, n := CapitalizeAll(ws), |ws|;
    assert IsWord(ws[0]) && IsWord(ws[n - 1]);
    GivenBlockIs(ws);
    CapitalisedJoin(ws);
    LastFirstForm(ws);
    LowerInitial(ws[0][0]);
    LowerSpaced([UpperChar(p[0][0])], p[n - 1], [ws[0][0]], ws[n - 1]);
    LowerSpaced(GivenInitials(ws), p[n - 1], GivenInitials(ws), ws[n - 1]);
    LowerSpaced(p[n - 1], GivenInitials(ws), ws[n - 1], GivenInitials(ws));
  }

  /** Two tokens: the five lower-cased spellings are `Variants`. */
  lemma FinishTwo(ws: seq<string>, full: string, lastFirst: string, fl: string,
                  gl: string, lg: string, lfm: string)
    requires |ws| == 2 && forall i :: 0 <= i < |ws| ==> IsWord(ws[i])
    requires var p := CapitalizeAll(ws);
      p[0] != [] && p[1] != [] && BuiltFrom(p, full, lastFirst, fl, gl, lg, lfm)
    ensures LowerAll({full, lastFirst, fl, gl, lg}) == Variants(ws)
  {
    LoweredForms(ws, full, lastFirst, fl, gl, lg, lfm);
    LowerAllFive(full, lastFirst, fl, gl, lg);
    VariantsOfTwo(ws);
  }

  /** More tokens: the six lower-cased spellings are `Variants`. */
  lemma FinishMore(ws: seq<string>, full: string, lastFirst: string, fl: string,
                   gl: string, lg: string, lfm: string)
    requires |ws| > 2 && forall i :: 0 <= i < |ws| ==> IsWord(ws[i])
    requires var p := CapitalizeAll(ws);
      p[0] != [] && p[|ws| - 1] != [] && BuiltFrom(p, full, lastFirst, fl, gl, lg, lfm)
    ensures LowerAll({full, lastFirst, fl, gl, lg} + {lfm}) == Variants(ws)
  {
    LoweredForms(ws, full, lastFirst, fl, gl, lg, lfm);
    InitialsMiddlesForm(ws);
    LowerAllSix(full, lastFirst, fl, gl, lg, lfm);
    VariantsOfMore(ws);
  }

  /** `name_variations`: the set of lower-cased search spellings of `fullName`, which is
      `Variants` of its white-space separated tokens. */
  method NameVariations(fullName: string) returns (variants: set<string>)
    ensures variants == Variants(Words(fullName))
  {
    var rawParts := Words(fullName);
    if rawParts == [] {
      VariantsBound(rawParts);
      return {};
    }

    var parts := CapitalizeParts(rawParts);

    if |parts| == 1 {
      VariantsBound(rawParts);
      return {Lower(parts[0])};
    }
    variants := SpellingsOf(rawParts, parts);
  }

  /** The loop appending each token, capitalised, to `parts`. */
  method CapitalizeParts(rawParts: seq<string>) returns (parts: seq<string>)
    ensures parts == CapitalizeAll(rawParts)
  {
    parts := [];
    for i := 0 to |rawParts|
      invariant |parts| == i
      invariant forall k :: 0 <= k < i ==> parts[k] == Capitalize(rawParts[k])
    {
      parts := parts + [Capitalize(rawParts[i])];
    }
  }

  /** The loop extending `expanded_given_block` with the CamelCase pieces of each name. */
  method ExpandBlock(givenBlock: seq<string>) returns (expanded: seq<string>)
    ensures expanded == Expand(givenBlock)
  {
    expanded := [];
    for i := 0 to |givenBlock|
      invariant expanded == Expand(givenBlock[..i])
    {
      assert givenBlock[..i + 1][..i] == givenBlock[..i];
      expanded := expanded + SplitCamel(givenBlock[i]);
    }
    assert givenBlock[..|givenBlock|] == givenBlock;
  }

  /** The spellings of a name of two or more tokens, built from the capitalised tokens
      `parts` and lower-cased at the end. */
  method SpellingsOf(rawParts: seq<string>, parts: seq<string>) returns (variants: set<string>)
    requires |rawParts| >= 2 && forall i :: 0 <= i < |rawParts| ==> IsWord(rawParts[i])
    requires parts == CapitalizeAll(rawParts)
    ensures variants == Variants(rawParts)
  {
    var n := |parts|;
    assert IsWord(rawParts[0]) && IsWord(rawParts[n - 1]);
    var raw, full, lastFirst, fl, gl, lg, lfm := RawSpellings(parts);
    variants := LowerAll(raw);
    // each lower-cased spelling is the one stated on the raw tokens
    if n > 2 {
      FinishMore(rawParts, full, lastFirst, fl, gl, lg, lfm);
    } else {
      FinishTwo(rawParts, full, lastFirst, fl, gl, lg, lfm);
    }
  }

  /** The steps adding each spelling, in its capitalised form, to the result set. */
  method RawSpellings(parts: seq<string>)
    returns (raw: set<string>, full: string, lastFirst: string, fl: string, gl: string,
             lg: string, lfm: string)
    requires |parts| >= 2 && parts[0] != [] && parts[|parts| - 1] != []
    ensures BuiltFrom(parts, full, lastFirst, fl, gl, lg, lfm)
    ensures raw == {full, lastFirst, fl, gl, lg} + (if |parts| > 2 then {lfm} else {})
  {
    var n := |parts|;
    var first, last, middles := parts[0], parts[n - 1], parts[1..n - 1];
    raw := {};

    // 1) the full name as given
    full := Join(parts, " ");
    raw := raw + {full};
    // 2) "Last First Middle..."
    var givenBlock := [first] + middles;
    lastFirst := Strip(Spaced(last, Join(givenBlock, " ")));
    raw := raw + {lastFirst};

    // the given block with its CamelCase names split, for the initials
    var expanded := ExpandBlock(givenBlock);
    var givenInitials := Initials(expanded);
    var lastInitial := [UpperChar(last[0])];
    var firstInitial := [UpperChar(first[0])];

    // 3) "K Wong"
    fl := Spaced(firstInitial, last);
    raw := raw + {fl};
    // 4) "KS Wong"
    gl := Spaced(givenInitials, last);
    raw := raw + {gl};
    // 5) "Wong KS"
    lg := Spaced(last, givenInitials);
    raw := raw + {lg};
    // 6) "WK Kok Shiek", only when there are middle names
    lfm := Spaced(lastInitial + firstInitial, Join(middles, " "));
    if middles != [] {
      raw := raw + {lfm};
    }
    AddedInTurn(full, lastFirst, fl, gl, lg, lfm);
  }

  // ---- The returned list ----

  /** `[name.lower() for name in variants]`, with the set iterated in the order `order`. */
  function LowerList(order: seq<string>): (r: seq<string>)
    ensures |r| == |order|
    ensures forall i :: 0 <= i < |order| ==> r[i] == Lower(order[i])
  {
    seq(|order|, i requires 0 <= i < |order| => Lower(order[i]))
  }

  /** Helper for `CaseTwins`: the capitalised tokens of "ab aB" and the two spellings
      built from them. */
  lemma TwinsCapitalised()
    ensures CapitalizeAll(["ab", "aB"]) == ["Ab", "AB"]
    ensures Join(["Ab", "AB"], " ") == "Ab AB"
    ensures Strip(Spaced("AB", Join(["Ab"] + ["Ab", "AB"][1..1], " "))) == "AB Ab"
  {
    assert UpperChar('a') == 'A';
    assert Capitalize("ab") == "Ab" && Capitalize("aB") == "AB";
    assert Join(["AB"], " ") == "AB";
    assert ["Ab"] + ["Ab", "AB"][1..1] == ["Ab"];
    var s := Spaced("AB", "Ab");
    assert SkipSpaces(s, 0) == 0;
    assert SkipSpacesBack(s, 0, |s|) == |s|;
    assert s[0..|s|] == s;
  }

  /** Helper for `CaseTwins`: both spellings lower-case to "ab ab". */
  lemma TwinsCapLowered()
    ensures Lower("Ab AB") == "ab ab" && Lower("AB Ab") == "ab ab"
  {
    assert forall k :: 0 <= k < 5 ==> Lower("Ab AB")[k] == "ab ab"[k];
    assert forall k :: 0 <= k < 5 ==> Lower("AB Ab")[k] == "ab ab"[k];
  }

  /** Two spellings of "ab aB" that differ only in case: the full name "Ab AB" and the
      "L F" form "AB Ab" are distinct members of the set, and both lower-case to "ab ab". */
  lemma CaseTwins(full: string, lastFirst: string, fl: string, gl: string, lg: string, lfm: string)
    requires var p := CapitalizeAll(["ab", "aB"]);
      p[0] != [] && p[1] != [] && BuiltFrom(p, full, lastFirst, fl, gl, lg, lfm)
    ensures full == "Ab AB" && lastFirst == "AB Ab"
    ensures full != lastFirst && Lower(full) == "ab ab" && Lower(lastFirst) == "ab ab"
  {
    TwinsCapitalised();
    TwinsCapLowered();
    assert "Ab AB"[1] != "AB Ab"[1];
  }

  /** The list `name_variations("ab aB")` returns holds "ab ab" twice, whatever order the
      set is iterated in: any such order lists both "Ab AB" and "AB Ab". */
  lemma ReturnedListRepeats(order: seq<string>, full: string, lastFirst: string, fl: string,
                            gl: string, lg: string, lfm: string)
    requires var p := CapitalizeAll(["ab", "aB"]);
      p[0] != [] && p[1] != [] && BuiltFrom(p, full, lastFirst, fl, gl, lg, lfm)
    requires full in order && lastFirst in order
    ensures exists i, j :: 0 <= i < j < |order| && LowerList(order)[i] == "ab ab" && LowerList(order)[j] == "ab ab"
  {
    CaseTwins(full, lastFirst, fl, gl, lg, lfm);
    var i :| 0 <= i < |order| && order[i] == full;
    var j :| 0 <= j < |order| && order[j] == lastFirst;
    assert LowerList(order)[i] == "ab ab" && LowerList(order)[j] == "ab ab";
    if i < j {
      assert 0 <= i < j < |order|;
    } else {
      assert 0 <= j < i < |order|;
    }
  }

  /** Helper for `CaseTwinsOnce`: the five spellings of "ab aB" before lower-casing. */
  lemma TwinsSpellings()
    ensures var ws := ["ab", "aB"];
      && IsWord(ws[0]) && IsWord(ws[1])
      && Join(ws, " ") == "ab aB" && Spaced(ws[1], Join(ws[..1], " ")) == "aB ab"
      && Spaced([ws[0][0]], ws[1]) == "a aB"
      && GivenInitials(ws) == "A"
      && Spaced(GivenInitials(ws), ws[1]) == "A aB" && Spaced(ws[1], GivenInitials(ws)) == "aB A"
  {
    assert UpperChar('a') == 'A';
    assert Capitalize("ab") == [UpperChar('a')] + "b" == "Ab";
    assert CapitalizeAll(["ab", "aB"])[..1] == ["Ab"];
    assert !HasInnerUpper("Ab");
    assert Expand(["Ab"]) == Expand([]) + SplitCamel("Ab");
    assert Initials(["Ab"]) == "A";
  }

  /** Helper for `CaseTwinsOnce`: the five spellings of "ab aB", lower-cased. */
  lemma TwinsLowered()
    ensures Lower("ab aB") == "ab ab" && Lower("aB ab") == "ab ab"
    ensures Lower("a aB") == "a ab" && Lower("A aB") == "a ab" && Lower("aB A") == "ab a"
  {
    assert forall k :: 0 <= k < 5 ==> Lower("ab aB")[k] == "ab ab"[k];
    assert forall k :: 0 <= k < 5 ==> Lower("aB ab")[k] == "ab ab"[k];
    assert forall k :: 0 <= k < 4 ==> Lower("a aB")[k] == "a ab"[k];
    assert forall k :: 0 <= k < 4 ==> Lower("A aB")[k] == "a ab"[k];
    assert forall k :: 0 <= k < 4 ==> Lower("aB A")[k] == "ab a"[k];
  }

  /** The set model keeps that variant once: "ab aB" has exactly three search spellings,
      "ab ab" among them. */
  lemma CaseTwinsOnce()
    ensures Variants(["ab", "aB"]) == {"ab ab", "a ab", "ab a"}
    ensures |Variants(["ab", "aB"])| == 3
  {
    var ws := ["ab", "aB"];
    TwinsSpellings();
    VariantsOfTwo(ws);
    TwinsLowered();
    assert Variants(ws) == {"ab ab", "ab ab", "a ab", "a ab", "ab a"};
    ThreeLowered();
  }

  /** Helper for `CaseTwinsOnce`: the three lower-cased spellings are distinct. */
  lemma ThreeLowered()
    ensures |{"ab ab", "a ab", "ab a"}| == 3
  {
    assert "ab ab" != "a ab" && "ab ab" != "ab a" && "a ab" != "ab a" by {
      assert "ab ab"[1] != "a ab"[1] && "a ab"[1] != "ab a"[1];
    }
  }
}
