/**
 * What the drop-down menus offer: the sorted team and competition names, the
 * columns shown in every result table, and the teams preselected in the
 * head-to-head tab.
 */
module Menus {
  import opened Wrappers
  import opened Sequences
  import opened StringOrder
  import opened Matches

  /** `ndarray.sort()`: the names are put in ascending order in place. */
  method SortInPlace(a: array<string>)
    modifies a
    ensures Ascending(a[..])
    ensures multiset(a[..]) == old(multiset(a[..]))
  {
    var i := 0;
    while i < a.Length
      invariant 0 <= i <= a.Length
      invariant forall k :: 0 <= k < i - 1 ==> LessEq(a[k], a[k + 1])
      invariant multiset(a[..]) == old(multiset(a[..]))
    {
      InsertInto(a, i);
      i := i + 1;
    }
  }

  /** One insertion-sort pass: a[i] moves left into the ordered prefix a[..i]. */
  method InsertInto(a: array<string>, i: int)
    requires 0 <= i < a.Length
    requires forall k :: 0 <= k < i - 1 ==> LessEq(a[k], a[k + 1])
    modifies a
    ensures forall k :: 0 <= k < i ==> LessEq(a[k], a[k + 1])
    ensures multiset(a[..]) == old(multiset(a[..]))
  {
    var j := i;
    while j > 0 && Less(a[j], a[j - 1])
      invariant 0 <= j <= i
      invariant forall k :: 0 <= k < i && k != j - 1 ==> LessEq(a[k], a[k + 1])
      invariant 0 < j < i ==> LessEq(a[j - 1], a[j + 1])
      invariant multiset(a[..]) == old(multiset(a[..]))
    {
      SwapDown(a, j);
      j := j - 1;
    }
    if j > 0 {
      LessTotal(a[j - 1], a[j]);
    }
  }

  /** Exchanges a[j - 1] and a[j]. */
  method SwapDown(a: array<string>, j: int)
    requires 0 < j < a.Length
    modifies a
    ensures a[j - 1] == old(a[j]) && a[j] == old(a[j - 1])
    ensures forall k :: 0 <= k < a.Length && k != j - 1 && k != j ==> a[k] == old(a[k])
    ensures multiset(a[..]) == old(multiset(a[..]))
  {
    a[j - 1], a[j] := a[j], a[j - 1];
  }

  /** `.dropna().unique()` then `.sort()`: each present name once, in ascending order. */
  method SortedDistinct(names: seq<Option<string>>) returns (r: seq<string>)
    ensures StrictlyAscending(r)
    ensures forall s :: s in r <==> Some(s) in names
  {
    var u: seq<string> := [];
    for i := 0 to |names|
      invariant NoDuplicates(u)
      invariant forall s :: s in u <==> Some(s) in names[..i]
    {
      assert names[..i + 1] == names[..i] + [names[i]];
      if names[i].Some? && names[i].value !in u {
        u := u + [names[i].value];
      }
    }
    assert names[..|names|] == names;
    var a := new string[|u|](k requires 0 <= k < |u| => u[k]);
    assert a[..] == u;
    SortInPlace(a);
    r := a[..];
    PermutationNoDuplicates(u, r);
    SortedDistinctIsStrict(r);
    forall s ensures s in r <==> s in u {
      assert s in r <==> s in multiset(r);
    }
  }

  function HomeTeams(rows: seq<MatchRecord>): seq<Option<string>>
  {
    seq(|rows|, i requires 0 <= i < |rows| => rows[i].home)
  }

  function AwayTeams(rows: seq<MatchRecord>): seq<Option<string>>
  {
    seq(|rows|, i requires 0 <= i < |rows| => rows[i].away)
  }

  function CompetitionCells(rows: seq<MatchRecord>): seq<Option<string>>
  {
    seq(|rows|, i requires 0 <= i < |rows| => rows[i].competition)
  }

  /** `toutes_les_equipes`: every name that plays, at home or away, once and in ascending order. */
  method TeamList(rows: seq<MatchRecord>) returns (teams: seq<string>)
    ensures StrictlyAscending(teams)
    ensures forall t :: t in teams <==> exists m :: m in rows && Plays(m, t)
  {
    teams := SortedDistinct(HomeTeams(rows) + AwayTeams(rows));
    var names := HomeTeams(rows) + AwayTeams(rows);
    forall t ensures Some(t) in names <==> exists m :: m in rows && Plays(m, t) {
      if exists m :: m in rows && Plays(m, t) {
        var m :| m in rows && Plays(m, t);
        var i :| 0 <= i < |rows| && rows[i] == m;
        if m.home == Some(t) {
          assert names[i] == Some(t);
        } else {
          assert names[|rows| + i] == Some(t);
        }
      }
      if Some(t) in names {
        var i :| 0 <= i < |names| && names[i] == Some(t);
        if i < |rows| {
          assert rows[i] in rows && Plays(rows[i], t);
        } else {
          assert rows[i - |rows|] in rows && Plays(rows[i - |rows|], t);
        }
      }
    }
  }

  /**
   * `toutes_les_competitions`: every competition that occurs, once and in
   * ascending order; a table without the column stops the program.
   */
  method CompetitionList(t: Table) returns (res: Result<seq<string>, AppError>)
    ensures CompetitionColumn !in t.columns ==> res == Failure(MissingColumns([CompetitionColumn]))
    ensures CompetitionColumn in t.columns ==> res.Success?
    ensures res.Success? ==> StrictlyAscending(res.value)
    ensures res.Success? ==> forall c :: c in res.value <==> exists m :: m in t.rows && InCompetition(m, c)
  {
    if CompetitionColumn !in t.columns {
      return Failure(MissingColumns([CompetitionColumn]));
    }
    var comps := SortedDistinct(CompetitionCells(t.rows));
    var cells := CompetitionCells(t.rows);
    forall c ensures Some(c) in cells <==> exists m :: m in t.rows && InCompetition(m, c) {
      if exists m :: m in t.rows && InCompetition(m, c) {
        var m :| m in t.rows && InCompetition(m, c);
        var i :| 0 <= i < |t.rows| && t.rows[i] == m;
        assert cells[i] == Some(c);
      }
      if Some(c) in cells {
        var i :| 0 <= i < |cells| && cells[i] == Some(c);
        assert t.rows[i] in t.rows && InCompetition(t.rows[i], c);
      }
    }
    return Success(comps);
  }

  /** `colonnes_ideales`. */
  const IdealColumns: seq<string> :=
    ["Saison", "Date", "Compétition", "Phase", "Journée", "Domicile", "Extérieur",
     "Score", "Stade", "Diffuseur", "Langue", "Qualité"]

  /** `colonnes_a_afficher`: the ideal columns the table has, in the ideal order. */
  function ColumnsToDisplay(columns: seq<string>): (r: seq<string>)
    ensures forall c :: c in r <==> c in IdealColumns && c in columns
    ensures IsSubsequence(r, IdealColumns)
  {
    var present := (c: string) => c in columns;
    FilterMembers(IdealColumns, present);
    FilterIsSubsequence(IdealColumns, present);
    Filter(IdealColumns, present)
  }

  /** `list(...).index(x)`: the first position of x. */
  function IndexOf(s: seq<string>, x: string): (i: nat)
    requires x in s
    ensures i < |s| && s[i] == x && x !in s[..i]
  {
    if s[0] == x then 0
    else
      var k := IndexOf(s[1..], x);
      assert s[..k + 1] == [s[0]] + s[1..][..k];
      k + 1
  }

  /** `index_1`: where "PSG" is in the team list, else 0. */
  function FirstDefault(teams: seq<string>): (i: nat)
    ensures "PSG" in teams ==> i < |teams| && teams[i] == "PSG" && "PSG" !in teams[..i]
    ensures "PSG" !in teams ==> i == 0
  {
    if "PSG" in teams then IndexOf(teams, "PSG") else 0
  }

  /** `index_2`: where "Marseille" is in the team list, else 1. */
  function SecondDefault(teams: seq<string>): (i: nat)
    ensures "Marseille" in teams ==> i < |teams| && teams[i] == "Marseille" && "Marseille" !in teams[..i]
    ensures "Marseille" !in teams ==> i == 1
  {
    if "Marseille" in teams then IndexOf(teams, "Marseille") else 1
  }

  /** The first default names an entry of the list whenever the list is not empty. */
  lemma FirstDefaultInRange(teams: seq<string>)
    ensures FirstDefault(teams) < |teams| <==> teams != []
  {
  }

  /** The second default names an entry exactly when Marseille is listed or there are two teams. */
  lemma SecondDefaultInRange(teams: seq<string>)
    ensures SecondDefault(teams) < |teams| <==> "Marseille" in teams || |teams| >= 2
  {
  }
}
