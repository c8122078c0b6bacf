/**
 * The match table. A row carries the four columns the program reads (date,
 * competition, home team, away team); the other columns (season, phase,
 * matchday, score, venue, broadcaster, language, quality) travel along
 * untouched in `others`. A missing cell (NaN) is `None`.
 */
module Matches {
  import opened Wrappers

  /** A Date cell: an integer Excel serial, any other text, or empty. */
  datatype DateCell = Serial(days: int) | Text(text: string) | Blank

  datatype MatchRecord = MatchRecord(
    date: DateCell,
    competition: Option<string>,
    home: Option<string>,
    away: Option<string>,
    others: seq<string>)

  /** Column names as read from the file header, and the rows. */
  datatype Table = Table(columns: seq<string>, rows: seq<MatchRecord>)

  /** Why the program stops: a column it indexes is absent, or a serial is beyond the timestamp range. */
  datatype AppError = MissingColumns(names: seq<string>) | DateOutOfBounds

  const DateColumn: string := "Date"
  const CompetitionColumn: string := "Compétition"
  const HomeColumn: string := "Domicile"
  const AwayColumn: string := "Extérieur"

  /** Both teams are present. */
  predicate Complete(m: MatchRecord)
  {
    m.home.Some? && m.away.Some?
  }

  /** Team t is the home or the away side. */
  predicate Plays(m: MatchRecord, t: string)
  {
    m.home == Some(t) || m.away == Some(t)
  }

  /** The match is a meeting of a and b, whichever of them played at home. */
  predicate Faces(m: MatchRecord, a: string, b: string)
  {
    (m.home == Some(a) && m.away == Some(b)) || (m.home == Some(b) && m.away == Some(a))
  }

  predicate InCompetition(m: MatchRecord, c: string)
  {
    m.competition == Some(c)
  }

  predicate HasCompetition(m: MatchRecord)
  {
    m.competition.Some?
  }
}
