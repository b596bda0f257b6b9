/**
  Author-list handling for one researcher: the target surname, the co-author
  network size, and the role the researcher plays on one paper's author list.
 */
module Authors {
  import opened Wrappers
  import opened Text

  const Ellipsis: string := "..."

  /** `name.lower().split()[-1]`; `None` where Python raises because the name is blank. */
  function TargetLast(name: string): (t: Option<string>)
    ensures t.None? <==> forall k :: 0 <= k < |name| ==> IsSpace(name[k])
    ensures t.Some? ==> IsWord(t.value)
    ensures t.Some? ==> LastWordAt(Lower(name), t.value, LastWordStart(Lower(name)))
  {
    var ws := Words(Lower(name));
    assert forall k :: 0 <= k < |name| ==> (IsSpace(name[k]) <==> IsSpace(Lower(name)[k]));
    if ws == [] then None
    else
      WordsLast(Lower(name));
      Some(ws[|ws| - 1])
  }

  /** A name survives cleaning when it has no "..." and more than one character. */
  predicate KeptName(n: string)
  {
    !Contains(n, Ellipsis) && |n| > 1
  }

  /** `[n for n in names if "..." not in n and len(n) > 1]`. */
  function KeepNames(names: seq<string>): (r: seq<string>)
    ensures forall x :: x in r <==> x in names && KeptName(x)
  {
    if names == [] then []
    else (if KeptName(names[0]) then [names[0]] else []) + KeepNames(names[1..])
  }

  /** `[n.strip() for n in cell.split(",")]`. */
  function StrippedParts(cell: string): seq<string>
  {
    var parts := Split(cell, ',');
    seq(|parts|, i requires 0 <= i < |parts| => Strip(parts[i]))
  }

  /** The cleaned names of one author cell. */
  function CleanNames(cell: string): seq<string>
  {
    KeepNames(StrippedParts(cell))
  }

  /** The name does not contain the target surname, ignoring case. */
  predicate OtherThan(a: string, targetLast: string)
  {
    !Contains(Lower(a), targetLast)
  }

  /** The distinct cleaned co-author names, without any name containing the target surname.
      Missing cells are skipped. */
  function CoAuthors(cells: seq<Option<string>>, targetLast: string): set<string>
  {
    set i, a | 0 <= i < |cells| && cells[i].Some? && a in CleanNames(cells[i].value)
               && OtherThan(a, targetLast) :: a
  }

  /** `a` is the stripped `j`-th comma-separated part of cell `i`. */
  predicate PartOf(cells: seq<Option<string>>, i: int, j: int, a: string)
  {
    0 <= i < |cells| && cells[i].Some? && 0 <= j < |StrippedParts(cells[i].value)|
    && StrippedParts(cells[i].value)[j] == a
  }

  /** Membership in the network, stated on the raw comma-separated parts: a name is a
      co-author exactly when it is some stripped part of some present cell, longer than
      one character, without "...", and without the target surname. */
  lemma CoAuthorsMembers(cells: seq<Option<string>>, targetLast: string, a: string)
    ensures a in CoAuthors(cells, targetLast) <==>
      (exists i, j :: PartOf(cells, i, j, a)) && KeptName(a) && OtherThan(a, targetLast)
  {
    if a in CoAuthors(cells, targetLast) {
      var i :| 0 <= i < |cells| && cells[i].Some? && a in CleanNames(cells[i].value);
      var j :| 0 <= j < |StrippedParts(cells[i].value)| && StrippedParts(cells[i].value)[j] == a;
      assert PartOf(cells, i, j, a);
    }
    if (exists i, j :: PartOf(cells, i, j, a)) && KeptName(a) && OtherThan(a, targetLast) {
      var i, j :| PartOf(cells, i, j, a);
      assert a in StrippedParts(cells[i].value);
      assert a in CleanNames(cells[i].value);
    }
  }

  /** The network-size loop: gather the cleaned names of every cell, de-duplicate, drop the
      names containing the target surname, count. */
  method NetworkSize(cells: seq<Option<string>>, targetLast: string) returns (size: nat)
    ensures size == |CoAuthors(cells, targetLast)|
    ensures forall a :: a in CoAuthors(cells, targetLast) ==> KeptName(a) && OtherThan(a, targetLast)
  {
    var all: seq<string> := [];
    for i := 0 to |cells|
      invariant forall a :: a in all <==>
        exists j :: 0 <= j < i && cells[j].Some? && a in CleanNames(cells[j].value)
    {
      if cells[i].Some? {
        all := all + CleanNames(cells[i].value);
      }
    }
    var unique := set a | a in all;
    var kept := set a | a in unique && OtherThan(a, targetLast);
    assert kept == CoAuthors(cells, targetLast);
    size := |kept|;
  }

  datatype Role = SoloAuthor | FirstAuthor | LastAuthor | CoAuthor | Ambiguous | Unknown

  /** `[p.strip().lower() for p in authors.split(",")]`. */
  function RawParts(authors: string): seq<string>
  {
    var ps := Split(authors, ',');
    seq(|ps|, i requires 0 <= i < |ps| => Lower(Strip(ps[i])))
  }

  /** Some part of `ps` contains `t`. */
  function AnyContains(ps: seq<string>, t: string): (b: bool)
    ensures b <==> exists i :: 0 <= i < |ps| && Contains(ps[i], t)
  {
    if ps == [] then false
    else Contains(ps[0], t) || AnyContains(ps[1..], t)
  }

  /** The parts without "...", in order. */
  function WithoutEllipsis(ps: seq<string>): (r: seq<string>)
    ensures forall x :: x in r <==> x in ps && !Contains(x, Ellipsis)
    ensures AnyContains(r, Ellipsis) == false
  {
    if ps == [] then []
    else (if Contains(ps[0], Ellipsis) then [] else [ps[0]]) + WithoutEllipsis(ps[1..])
  }

  /** The filter works part by part, so the named authors keep their order. */
  lemma {:induction false} WithoutEllipsisAppend(a: seq<string>, b: seq<string>)
    ensures WithoutEllipsis(a + b) == WithoutEllipsis(a) + WithoutEllipsis(b)
  {
    if a == [] {
      assert a + b == b;
    } else {
      assert (a + b)[0] == a[0] && (a + b)[1..] == a[1..] + b;
      WithoutEllipsisAppend(a[1..], b);
    }
  }

  /** The named authors of a list (truncation marks removed). */
  function Parts(authors: string): seq<string>
  {
    WithoutEllipsis(RawParts(authors))
  }

  /** `get_role`: the researcher's role on one author list, by the first rule that applies. */
  function GetRole(authors: Option<string>, targetLast: string): (r: Role)
    ensures authors.None? || authors.value == [] ==> r == Unknown
  {
    if authors.None? || authors.value == [] then Unknown
    else
      var raw := RawParts(authors.value);
      var truncated := AnyContains(raw, Ellipsis);
      var ps := WithoutEllipsis(raw);
      if ps == [] then Unknown
      else if |ps| == 1 then (if Contains(ps[0], targetLast) then SoloAuthor else Unknown)
      else if Contains(ps[0], targetLast) then FirstAuthor
      else if !truncated && Contains(ps[|ps| - 1], targetLast) then LastAuthor
      else if AnyContains(ps[1..], targetLast) then CoAuthor
      else if truncated then Ambiguous
      else Unknown
  }

  /** The lead roles (solo or first) are exactly "the first named author is the target". */
  lemma RoleLead(authors: string, targetLast: string)
    requires authors != []
    ensures var ps := Parts(authors);
      GetRole(Some(authors), targetLast) in {SoloAuthor, FirstAuthor} <==> ps != [] && Contains(ps[0], targetLast)
  {
  }

  /** A named role is given exactly when some named author is the target. */
  lemma RoleNamed(authors: string, targetLast: string)
    requires authors != []
    ensures GetRole(Some(authors), targetLast) in {SoloAuthor, FirstAuthor, LastAuthor, CoAuthor}
      <==> AnyContains(Parts(authors), targetLast)
  {
    var ps := Parts(authors);
    if |ps| >= 2 && AnyContains(ps, targetLast) && !Contains(ps[0], targetLast) {
      var i :| 0 <= i < |ps| && Contains(ps[i], targetLast);
      assert ps[1..][i - 1] == ps[i];
    }
  }

  /** "Ambiguous": a truncated list of at least two names, none of them the target. */
  lemma RoleAmbiguous(authors: string, targetLast: string)
    requires authors != []
    ensures var ps := Parts(authors);
      GetRole(Some(authors), targetLast) == Ambiguous <==>
        |ps| >= 2 && AnyContains(RawParts(authors), Ellipsis) && !AnyContains(ps, targetLast)
  {
    RoleNamed(authors, targetLast);
  }

  /** "Solo Author" exactly when one author is named and that author is the target. */
  lemma RoleSolo(authors: string, targetLast: string)
    requires authors != []
    ensures var ps := Parts(authors);
      GetRole(Some(authors), targetLast) == SoloAuthor <==> |ps| == 1 && Contains(ps[0], targetLast)
  {
  }

  /** "Last Author" exactly for an untruncated list of at least two names whose first is
      not the target and whose last is. */
  lemma RoleLast(authors: string, targetLast: string)
    requires authors != []
    ensures var ps := Parts(authors);
      GetRole(Some(authors), targetLast) == LastAuthor <==>
        |ps| >= 2 && !AnyContains(RawParts(authors), Ellipsis)
        && !Contains(ps[0], targetLast) && Contains(ps[|ps| - 1], targetLast)
  {
  }
}
