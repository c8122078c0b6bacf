/**
 * The three searches of the program's tabs: head-to-head, one team's
 * history, one competition's history. Each is a boolean mask over the
 * cleaned table, so each keeps matching rows in table order.
 */
module Filters {
  import opened Wrappers
  import opened Sequences
  import opened StringOrder
  import opened Matches

  /** The masks, one test per row. */
  function FacesTest(a: string, b: string): MatchRecord -> bool
  {
    m => Faces(m, a, b)
  }

  function PlaysTest(t: string): MatchRecord -> bool
  {
    m => Plays(m, t)
  }

  function CompetitionTest(c: string): MatchRecord -> bool
  {
    m => InCompetition(m, c)
  }

  /** Rows where a met b, home or away (`masque_faf`). */
  function HeadToHead(rows: seq<MatchRecord>, a: string, b: string): (r: seq<MatchRecord>)
    ensures forall m :: m in r <==> m in rows && {m.home, m.away} == {Some(a), Some(b)}
    ensures forall m :: multiset(r)[m] == if Faces(m, a, b) then multiset(rows)[m] else 0
    ensures IsSubsequence(r, rows)
  {
    var p := FacesTest(a, b);
    FilterMembers(rows, p);
    FilterIsSubsequence(rows, p);
    forall m: MatchRecord ensures Faces(m, a, b) <==> {m.home, m.away} == {Some(a), Some(b)} {
      FacesAsSets(m, a, b);
    }
    Filter(rows, p)
  }

  /** A meeting of a and b is a match whose two sides are exactly {a, b}. */
  lemma FacesAsSets(m: MatchRecord, a: string, b: string)
    ensures Faces(m, a, b) <==> {m.home, m.away} == {Some(a), Some(b)}
  {
    if {m.home, m.away} == {Some(a), Some(b)} {
      assert m.home in {Some(a), Some(b)} && m.away in {Some(a), Some(b)};
      assert Some(a) in {m.home, m.away} && Some(b) in {m.home, m.away};
    }
  }

  /** Rows where team t played, home or away (`df_equipe`). */
  function TeamMatches(rows: seq<MatchRecord>, t: string): (r: seq<MatchRecord>)
    ensures forall m :: m in r <==> m in rows && (m.home == Some(t) || m.away == Some(t))
    ensures forall m :: multiset(r)[m] == if Plays(m, t) then multiset(rows)[m] else 0
    ensures IsSubsequence(r, rows)
  {
    var p := PlaysTest(t);
    FilterMembers(rows, p);
    FilterIsSubsequence(rows, p);
    Filter(rows, p)
  }

  /** Rows of competition c, compared exactly (`df_comp`). */
  function ByCompetition(rows: seq<MatchRecord>, c: string): (r: seq<MatchRecord>)
    ensures forall m :: m in r <==> m in rows && m.competition == Some(c)
    ensures forall m :: multiset(r)[m] == if InCompetition(m, c) then multiset(rows)[m] else 0
    ensures IsSubsequence(r, rows)
  {
    var p := CompetitionTest(c);
    FilterMembers(rows, p);
    FilterIsSubsequence(rows, p);
    Filter(rows, p)
  }

  /** Swapping the two selected teams selects the same rows, in the same order. */
  lemma HeadToHeadSymmetric(rows: seq<MatchRecord>, a: string, b: string)
    ensures HeadToHead(rows, a, b) == HeadToHead(rows, b, a)
  {
    FilterSameTest(rows, FacesTest(a, b), FacesTest(b, a));
  }

  /** The head-to-head rows of t against x are a selection of t's history, in order. */
  lemma HeadToHeadWithinTeam(rows: seq<MatchRecord>, t: string, x: string)
    ensures IsSubsequence(HeadToHead(rows, t, x), TeamMatches(rows, t))
  {
    FilterOfFilter(rows, PlaysTest(t), FacesTest(t, x), FacesTest(t, x));
    FilterIsSubsequence(TeamMatches(rows, t), FacesTest(t, x));
  }

  /** A team's history is empty exactly when the team never played. */
  lemma TeamMatchesNonEmpty(rows: seq<MatchRecord>, t: string)
    ensures TeamMatches(rows, t) != [] <==> exists m :: m in rows && Plays(m, t)
  {
    var r := TeamMatches(rows, t);
    if r != [] {
      assert r[0] in r;
    }
  }

  /** The results for each name of `comps` in turn, one after the other. */
  function AllByCompetition(rows: seq<MatchRecord>, comps: seq<string>): seq<MatchRecord>
  {
    if comps == [] then [] else ByCompetition(rows, comps[0]) + AllByCompetition(rows, comps[1..])
  }

  lemma {:induction false} AllByCompetitionCounts(rows: seq<MatchRecord>, comps: seq<string>)
    requires NoDuplicates(comps)
    ensures forall m :: multiset(AllByCompetition(rows, comps))[m]
                        == if m.competition.Some? && m.competition.value in comps then multiset(rows)[m] else 0
  {
    if comps != [] {
      assert NoDuplicates(comps[1..]);
      AllByCompetitionCounts(rows, comps[1..]);
      assert comps[0] !in comps[1..];
      forall m: MatchRecord ensures m.competition.Some? && m.competition.value in comps
                       <==> InCompetition(m, comps[0]) || (m.competition.Some? && m.competition.value in comps[1..]) {
        assert comps == [comps[0]] + comps[1..];
      }
    }
  }

  /**
   * Selecting each listed competition in turn partitions the rows that have
   * a competition: every such row is in exactly one result, as many times
   * as it is in the table, and no other row is in any result.
   */
  lemma CompetitionsPartition(rows: seq<MatchRecord>, comps: seq<string>)
    requires StrictlyAscending(comps)
    requires forall c :: c in comps <==> exists m :: m in rows && InCompetition(m, c)
    ensures multiset(AllByCompetition(rows, comps)) == multiset(Filter(rows, HasCompetition))
  {
    StrictlyAscendingDistinct(comps);
    AllByCompetitionCounts(rows, comps);
    var all := AllByCompetition(rows, comps);
    var kept := Filter(rows, HasCompetition);
    forall m: MatchRecord ensures multiset(all)[m] == multiset(kept)[m] {
      if m in rows && m.competition.Some? {
        assert InCompetition(m, m.competition.value);
      }
    }
  }
}
