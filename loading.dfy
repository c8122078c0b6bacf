/**
 * `load_data`: drop the rows that lack a team, then, when the table has a
 * Date column, rewrite every Excel serial in it as `dd/mm/yyyy` text.
 */
module Loading {
  import opened Wrappers
  import opened Sequences
  import opened Calendar
  import opened DateText
  import opened Matches

  /** Serial number of 1970-01-01, from which pandas counts timestamps. */
  const EpochSerial: int := 25569

  /**
   * pandas timestamps hold whole days from -106751 to 106751 around the
   * epoch (1677-09-22 to 2262-04-11); converting a serial outside raises
   * OutOfBoundsDatetime, which ends `load_data`.
   */
  const MinSerial: int := EpochSerial - 106751
  const MaxSerial: int := EpochSerial + 106751

  predicate InBounds(c: DateCell)
  {
    c.Serial? ==> MinSerial <= c.days <= MaxSerial
  }

  /** The first and the last day pandas can represent. */
  lemma TimestampRangeEnds()
    ensures SerialOf(Date(1677, 9, 22)) == MinSerial
    ensures SerialOf(Date(2262, 4, 11)) == MaxSerial
  {
  }

  /** Serials in range fall in the years 1677 to 2262, which `%Y` writes with four digits. */
  lemma SerialYearRange(n: int)
    requires MinSerial <= n <= MaxSerial
    ensures 1677 <= SerialToDate(n).year <= 2262
  {
    var y := SerialToDate(n).year;
    SerialWithinYear(SerialToDate(n));
    assert YearStart(1677) == -81446 && YearStart(2263) == 132585;
    if y < 1677 {
      YearStartMonotone(y + 1, 1677);
    } else if y > 2262 {
      YearStartMonotone(2263, y);
    }
  }

  /** The required subset columns that the table lacks, in the order `dropna` names them. */
  function MissingRequired(columns: seq<string>): (r: seq<string>)
    ensures forall c :: c in r <==> (c == HomeColumn || c == AwayColumn) && c !in columns
  {
    var absent := (c: string) => c !in columns;
    FilterMembers([HomeColumn, AwayColumn], absent);
    Filter([HomeColumn, AwayColumn], absent)
  }

  /** `dropna(subset=['Domicile', 'Extérieur'])`. */
  function DropIncomplete(rows: seq<MatchRecord>): (r: seq<MatchRecord>)
    ensures forall m :: m in r ==> Complete(m)
    ensures forall m :: Complete(m) ==> multiset(r)[m] == multiset(rows)[m]
    ensures IsSubsequence(r, rows)
  {
    FilterMembers(rows, Complete);
    FilterIsSubsequence(rows, Complete);
    Filter(rows, Complete)
  }

  /** `strftime('%d/%m/%Y')` of the date lying n days after 1899-12-30. */
  function SerialText(n: int): (s: string)
    requires MinSerial <= n <= MaxSerial
    ensures ParseDate(s).Some? && SerialOf(ParseDate(s).value) == n
  {
    var d := SerialToDate(n);
    SerialYearRange(n);
    ParseFormat(d);
    FormatDate(d)
  }

  /** One row after the Date rewrite: a serial becomes the text of its date. */
  function FixDate(m: MatchRecord): (r: MatchRecord)
    requires InBounds(m.date)
    ensures r.competition == m.competition && r.home == m.home && r.away == m.away && r.others == m.others
    ensures !m.date.Serial? ==> r == m
    ensures m.date.Serial? ==> r.date.Text? && ParseDate(r.date.text).Some?
                               && SerialOf(ParseDate(r.date.text).value) == m.date.days
  {
    match m.date
    case Serial(n) => m.(date := Text(SerialText(n)))
    case _ => m
  }

  predicate AllInBounds(rows: seq<MatchRecord>)
  {
    forall i :: 0 <= i < |rows| ==> InBounds(rows[i].date)
  }

  function FixDates(rows: seq<MatchRecord>): (r: seq<MatchRecord>)
    requires AllInBounds(rows)
    ensures |r| == |rows| && forall i :: 0 <= i < |rows| ==> r[i] == FixDate(rows[i])
  {
    seq(|rows|, i requires 0 <= i < |rows| => FixDate(rows[i]))
  }

  /** `df.loc[masque_excel, 'Date'] = ...`: the serial cells are overwritten in place. */
  method ConvertExcelDates(a: array<MatchRecord>)
    requires AllInBounds(a[..])
    modifies a
    ensures a[..] == FixDates(old(a[..]))
  {
    ghost var orig := a[..];
    var i := 0;
    while i < a.Length
      invariant 0 <= i <= a.Length
      invariant forall k :: 0 <= k < i ==> a[k] == FixDate(orig[k])
      invariant forall k :: i <= k < a.Length ==> a[k] == orig[k]
    {
      ConvertCell(a, i);
      i := i + 1;
    }
    assert forall k :: 0 <= k < a.Length ==> a[..][k] == FixDates(orig)[k];
  }

  /** The write for one row: only a serial cell is touched. */
  method ConvertCell(a: array<MatchRecord>, i: int)
    requires 0 <= i < a.Length && InBounds(a[i].date)
    modifies a
    ensures a[i] == FixDate(old(a[i]))
    ensures forall k :: 0 <= k < a.Length && k != i ==> a[k] == old(a[k])
  {
    if a[i].date.Serial? {
      a[i] := a[i].(date := Text(SerialText(a[i].date.days)));
    }
  }

  /** `load_data` on the table read from the file. */
  method LoadData(raw: Table) returns (res: Result<Table, AppError>)
    ensures MissingRequired(raw.columns) != [] ==> res == Failure(MissingColumns(MissingRequired(raw.columns)))
    ensures res.Success? <==> MissingRequired(raw.columns) == []
                              && (DateColumn in raw.columns ==> AllInBounds(DropIncomplete(raw.rows)))
    ensures res.Failure? && MissingRequired(raw.columns) == [] ==> res.error == DateOutOfBounds
    ensures res.Success? ==> res.value.columns == raw.columns
    ensures res.Success? ==> forall m :: m in res.value.rows ==> Complete(m)
    ensures res.Success? && DateColumn in raw.columns ==> forall m :: m in res.value.rows ==> !m.date.Serial?
    ensures res.Success? ==>
              var kept := DropIncomplete(raw.rows);
              |res.value.rows| == |kept|
              && forall i :: 0 <= i < |kept| ==>
                   res.value.rows[i] == if DateColumn in raw.columns then FixDate(kept[i]) else kept[i]
  {
    var missing := MissingRequired(raw.columns);
    if missing != [] {
      return Failure(MissingColumns(missing));
    }
    var kept := DropIncomplete(raw.rows);
    if DateColumn !in raw.columns {
      return Success(Table(raw.columns, kept));
    }
    if !AllInBounds(kept) {
      return Failure(DateOutOfBounds);
    }
    var a := new MatchRecord[|kept|](i requires 0 <= i < |kept| => kept[i]);
    assert a[..] == kept;
    ConvertExcelDates(a);
    var rows := a[..];
    forall m | m in rows ensures Complete(m) && !m.date.Serial? {
      var i :| 0 <= i < |rows| && rows[i] == m;
      assert kept[i] in kept;
    }
    return Success(Table(raw.columns, rows));
  }
}
