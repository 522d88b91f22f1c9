/**
 * The row filter-and-transform loop of `get_data_from_printlog`.
 *
 * Input: the comma-separated rows that follow the skipped first line of a
 * print-server log, already split into fields. Output: the list of records,
 * headed by a fixed 8-column header, and the `rows_total` counter. A row with
 * exactly six fields whose message (field 5) contains the extraction pattern
 * becomes the record `[field 1] + the seven captured groups`; every other row
 * is skipped. A row with fewer than two fields aborts the whole run, because
 * field 1 is read before the length is checked.
 */
module PrintlogParser {
  import opened Wrappers
  import opened SearchPattern

  /** One input line, split into its fields. */
  type Row = seq<string>

  /** One output line: the header, or the date followed by the seven groups. */
  type Record = seq<string>

  const Header: Record := ["DATE", "DOCUMENT", "USER", "SOURCE_HOST", "PRINTER", "PORT", "SIZE", "PAGES"]

  /**
   * How a run ends: with the record list and the counter, or with the
   * IndexError raised by reading field 1 of the row at `index`. The error
   * propagates out of the function, so nothing collected before it survives.
   */
  datatype Outcome =
    | Parsed(data: seq<Record>, rowsTotal: nat)
    | RowTooShort(index: nat)

  /** Reading `row[1]` raises on this row. */
  predicate TooShort(row: Row) {
    |row| < 2
  }

  /** A six-field row whose message contains the pattern. */
  predicate IsMatchedRow(row: Row, search: Searcher) {
    |row| == 6 && search(row[5]).Some?
  }

  /** A six-field row whose message does not contain the pattern. */
  predicate IsNoMatchRow(row: Row, search: Searcher) {
    |row| == 6 && search(row[5]).None?
  }

  /** The record appended for a matched row: its date, then the groups. */
  function RecordOf(row: Row, search: Searcher): Record
    requires IsMatchedRow(row, search)
  {
    [row[1]] + search(row[5]).value
  }

  /** The effect of one iteration of the loop on the state reached so far. */
  function Step(acc: Outcome, index: nat, row: Row, search: Searcher): Outcome {
    match acc
    case RowTooShort(_) => acc
    case Parsed(data, total) =>
      if TooShort(row) then RowTooShort(index)
      else if |row| == 6 then
        match search(row[5])
        case None => acc
        case Some(groups) => Parsed(data + [[row[1]] + groups], total + 1)
      else Parsed(data, total + 1)
  }

  /** The state after the loop has consumed `rows`, one row at a time from the front. */
  function Run(rows: seq<Row>, search: Searcher): Outcome
    decreases |rows|
  {
    if rows == [] then Parsed([Header], 0)
    else Step(Run(rows[..|rows| - 1], search), |rows| - 1, rows[|rows| - 1], search)
  }

  /** Once a prefix of the rows has aborted, the whole run ends with the same error. */
  lemma {:induction false} AbortIsFinal(rows: seq<Row>, n: nat, search: Searcher)
    requires n <= |rows|
    requires Run(rows[..n], search).RowTooShort?
    ensures Run(rows, search) == Run(rows[..n], search)
    decreases |rows|
  {
    if n < |rows| {
      var init := rows[..|rows| - 1];
      assert init[..n] == rows[..n];
      AbortIsFinal(init, n, search);
    } else {
      assert rows[..n] == rows;
    }
  }

  /**
   * The loop of `get_data_from_printlog`: start from the header, walk the
   * rows, read the date, keep six-field rows whose message matches, and
   * count every row except the six-field rows without a match.
   */
  method GetDataFromPrintlog(rows: seq<Row>, search: Searcher) returns (out: Outcome)
    ensures out == Run(rows, search)
    ensures out.Parsed? ==> |out.data| >= 1 && out.data[0] == Header
  {
    var rowsTotal := 0;
    var parsedData := [Header];
    for i := 0 to |rows|
      invariant Run(rows[..i], search) == Parsed(parsedData, rowsTotal)
      invariant |parsedData| >= 1 && parsedData[0] == Header
    {
      assert rows[..i + 1][..i] == rows[..i];
      var row := rows[i];
      if |row| < 2 {
        // `date = row[1]` raises IndexError
        AbortIsFinal(rows, i + 1, search);
        return RowTooShort(i);
      }
      var date := row[1];
      if |row| == 6 {
        var matchRow := search(row[5]);
        if matchRow.None? {
          continue;
        }
        parsedData := parsedData + [[date] + matchRow.value];
      }
      rowsTotal := rowsTotal + 1;
    }
    assert rows[..|rows|] == rows;
    return Parsed(parsedData, rowsTotal);
  }

  // ----- Reference definitions: what the loop computes, stated row by row -----

  /** No row makes `row[1]` raise. */
  predicate NoShortRow(rows: seq<Row>) {
    forall k :: 0 <= k < |rows| ==> !TooShort(rows[k])
  }

  /** The records of the matched rows, in row order. */
  function Records(rows: seq<Row>, search: Searcher): seq<Record> {
    if rows == [] then []
    else
      var head := if IsMatchedRow(rows[0], search) then [RecordOf(rows[0], search)] else [];
      head + Records(rows[1..], search)
  }

  /** The number of six-field rows whose message matches. */
  function CountMatched(rows: seq<Row>, search: Searcher): nat {
    if rows == [] then 0
    else (if IsMatchedRow(rows[0], search) then 1 else 0) + CountMatched(rows[1..], search)
  }

  /** The number of six-field rows whose message does not match. */
  function CountNoMatch(rows: seq<Row>, search: Searcher): nat {
    if rows == [] then 0
    else (if IsNoMatchRow(rows[0], search) then 1 else 0) + CountNoMatch(rows[1..], search)
  }

  /** The positions of the matched rows, in increasing order, each offset by `base`. */
  function MatchedIndexesFrom(rows: seq<Row>, search: Searcher, base: nat): seq<nat> {
    if rows == [] then []
    else
      var head := if IsMatchedRow(rows[0], search) then [base] else [];
      head + MatchedIndexesFrom(rows[1..], search, base + 1)
  }

  function MatchedIndexes(rows: seq<Row>, search: Searcher): seq<nat> {
    MatchedIndexesFrom(rows, search, 0)
  }

  lemma {:induction false} RecordsAppend(a: seq<Row>, b: seq<Row>, search: Searcher)
    ensures Records(a + b, search) == Records(a, search) + Records(b, search)
    ensures CountMatched(a + b, search) == CountMatched(a, search) + CountMatched(b, search)
    ensures CountNoMatch(a + b, search) == CountNoMatch(a, search) + CountNoMatch(b, search)
    decreases |a|
  {
    if a == [] {
      assert a + b == b;
    } else {
      assert (a + b)[1..] == a[1..] + b;
      RecordsAppend(a[1..], b, search);
    }
  }

  /**
   * The loop, characterised without reference to its state: it aborts exactly
   * when some row has fewer than two fields, at the first such row; otherwise
   * it returns the header followed by the records of the matched rows in
   * order, and a counter equal to the number of rows minus the six-field rows
   * without a match.
   */
  lemma {:induction false} RunCharacterised(rows: seq<Row>, search: Searcher)
    ensures Run(rows, search).Parsed? <==> NoShortRow(rows)
    ensures Run(rows, search).Parsed? ==>
      && Run(rows, search).data == [Header] + Records(rows, search)
      && Run(rows, search).rowsTotal + CountNoMatch(rows, search) == |rows|
    ensures Run(rows, search).RowTooShort? ==>
      && Run(rows, search).index < |rows|
      && TooShort(rows[Run(rows, search).index])
      && NoShortRow(rows[..Run(rows, search).index])
    decreases |rows|
  {
    if rows != [] {
      var n := |rows| - 1;
      var init, last := rows[..n], rows[n];
      assert rows == init + [last];
      RunCharacterised(init, search);
      RecordsAppend(init, [last], search);
      assert [last][1..] == [];
      if Run(init, search).RowTooShort? {
        var k := Run(init, search).index;
        assert rows[..k] == init[..k];
      } else if TooShort(last) {
        assert rows[..n] == init;
      }
    }
  }

  /** |Records| agrees with the count of matched rows. */
  lemma {:induction false} RecordsLength(rows: seq<Row>, search: Searcher)
    ensures |Records(rows, search)| == CountMatched(rows, search)
    decreases |rows|
  {
    if rows != [] {
      RecordsLength(rows[1..], search);
    }
  }

  /** There is one index per record. */
  lemma {:induction false} MatchedIndexesLength(rows: seq<Row>, search: Searcher, base: nat)
    ensures |MatchedIndexesFrom(rows, search, base)| == |Records(rows, search)|
    decreases |rows|
  {
    if rows != [] {
      MatchedIndexesLength(rows[1..], search, base + 1);
    }
  }

  /** Record k is built from the matched row at index k (counted from `base`). */
  lemma {:induction false} MatchedIndexesSource(rows: seq<Row>, search: Searcher, base: nat)
    ensures |MatchedIndexesFrom(rows, search, base)| == |Records(rows, search)|
    ensures forall k :: 0 <= k < |MatchedIndexesFrom(rows, search, base)| ==>
      var j := MatchedIndexesFrom(rows, search, base)[k];
      && base <= j < base + |rows|
      && IsMatchedRow(rows[j - base], search)
      && Records(rows, search)[k] == RecordOf(rows[j - base], search)
    decreases |rows|
  {
    MatchedIndexesLength(rows, search, base);
    if rows != [] {
      var idx, recs := MatchedIndexesFrom(rows, search, base), Records(rows, search);
      var tail, tailRecs := MatchedIndexesFrom(rows[1..], search, base + 1), Records(rows[1..], search);
      MatchedIndexesSource(rows[1..], search, base + 1);
      var h := if IsMatchedRow(rows[0], search) then 1 else 0;
      assert |idx| == h + |tail| && |recs| == h + |tailRecs|;
      forall k | 0 <= k < |idx|
        ensures base <= idx[k] < base + |rows|
        ensures IsMatchedRow(rows[idx[k] - base], search)
        ensures recs[k] == RecordOf(rows[idx[k] - base], search)
      {
        if k < h {
          assert idx[k] == base && recs[k] == RecordOf(rows[0], search);
        } else {
          var t := tail[k - h];
          assert idx[k] == t && recs[k] == tailRecs[k - h];
          assert rows[t - base] == rows[1..][t - (base + 1)];
        }
      }
    }
  }

  /** The indexes strictly increase. */
  lemma {:induction false} MatchedIndexesIncrease(rows: seq<Row>, search: Searcher, base: nat)
    ensures forall k :: 0 <= k < |MatchedIndexesFrom(rows, search, base)| ==>
      base <= MatchedIndexesFrom(rows, search, base)[k]
    ensures forall k1, k2 :: 0 <= k1 < k2 < |MatchedIndexesFrom(rows, search, base)| ==>
      MatchedIndexesFrom(rows, search, base)[k1] < MatchedIndexesFrom(rows, search, base)[k2]
    decreases |rows|
  {
    if rows != [] {
      MatchedIndexesIncrease(rows[1..], search, base + 1);
    }
  }

  /** Every matched row has its index in the list. */
  lemma {:induction false} MatchedIndexesComplete(rows: seq<Row>, search: Searcher, base: nat)
    ensures forall j :: 0 <= j < |rows| && IsMatchedRow(rows[j], search) ==>
      base + j in MatchedIndexesFrom(rows, search, base)
    decreases |rows|
  {
    if rows != [] {
      var tail := MatchedIndexesFrom(rows[1..], search, base + 1);
      MatchedIndexesComplete(rows[1..], search, base + 1);
      forall j | 0 <= j < |rows| && IsMatchedRow(rows[j], search)
        ensures base + j in MatchedIndexesFrom(rows, search, base)
      {
        if j > 0 {
          assert rows[1..][j - 1] == rows[j];
          assert base + 1 + (j - 1) in tail;
        }
      }
    }
  }

  // ----- The properties of the loop -----

  /**
   * A completed run starts with the header, holds one record per matched row
   * and counts every row except the six-field rows without a match.
   */
  lemma ParsedSummary(rows: seq<Row>, search: Searcher)
    requires Run(rows, search).Parsed?
    ensures |Run(rows, search).data| == 1 + CountMatched(rows, search)
    ensures Run(rows, search).data[0] == Header
    ensures Run(rows, search).rowsTotal == |rows| - CountNoMatch(rows, search)
  {
    RunCharacterised(rows, search);
    RecordsLength(rows, search);
  }

  /**
   * Records keep the order of their rows: record k + 1 is built from the row
   * at MatchedIndexes[k], these positions increase, and every matched row has one.
   */
  lemma RecordsFollowRowOrder(rows: seq<Row>, search: Searcher)
    requires Run(rows, search).Parsed?
    ensures |MatchedIndexes(rows, search)| == |Run(rows, search).data| - 1
    ensures forall k :: 0 <= k < |MatchedIndexes(rows, search)| ==>
      var j := MatchedIndexes(rows, search)[k];
      j < |rows| && IsMatchedRow(rows[j], search) && Run(rows, search).data[k + 1] == RecordOf(rows[j], search)
    ensures forall k1, k2 :: 0 <= k1 < k2 < |MatchedIndexes(rows, search)| ==>
      MatchedIndexes(rows, search)[k1] < MatchedIndexes(rows, search)[k2]
    ensures forall j :: 0 <= j < |rows| && IsMatchedRow(rows[j], search) ==> j in MatchedIndexes(rows, search)
  {
    var data, recs, idx := Run(rows, search).data, Records(rows, search), MatchedIndexes(rows, search);
    RunCharacterised(rows, search);
    assert data == [Header] + recs;
    MatchedIndexesSource(rows, search, 0);
    forall k | 0 <= k < |idx|
      ensures idx[k] < |rows| && IsMatchedRow(rows[idx[k]], search) && data[k + 1] == RecordOf(rows[idx[k]], search)
    {
      assert data[k + 1] == recs[k];
    }
    MatchedIndexesIncrease(rows, search, 0);
    MatchedIndexesComplete(rows, search, 0);
  }

  /**
   * With the extraction pattern, every record after the header has eight
   * fields: the row's field 1 verbatim, then groups that the pattern really
   * captures from the row's message; SIZE and PAGES are digits only.
   */
  lemma ParsedRecordShape(rows: seq<Row>, search: Searcher, k: nat)
    requires IsSearch(search)
    requires Run(rows, search).Parsed?
    requires 1 <= k < |Run(rows, search).data|
    ensures |MatchedIndexes(rows, search)| == |Run(rows, search).data| - 1
    ensures
      var rec, j := Run(rows, search).data[k], MatchedIndexes(rows, search)[k - 1];
      && j < |rows| && |rows[j]| == 6
      && |rec| == 8
      && rec[0] == rows[j][1]
      && Matches(rows[j][5], rec[1..])
      && AllDigits(rec[6]) && AllDigits(rec[7])
  {
    RecordsFollowRowOrder(rows, search);
    var rec, j := Run(rows, search).data[k], MatchedIndexes(rows, search)[k - 1];
    var groups := search(rows[j][5]).value;
    MatchedGroupsShape(rows[j][5], groups);
    assert rec[1..] == groups;
  }

  /**
   * A row with a field count other than 6 (and at least 2) produces no
   * record, wherever it stands, but still adds one to the counter.
   */
  lemma WrongLengthRowOnlyCounted(rows: seq<Row>, j: nat, search: Searcher)
    requires j < |rows|
    requires !TooShort(rows[j]) && |rows[j]| != 6
    ensures
      var rest := rows[..j] + rows[j + 1..];
      && (Run(rows, search).Parsed? <==> Run(rest, search).Parsed?)
      && (Run(rows, search).Parsed? ==>
        && Run(rows, search).data == Run(rest, search).data
        && Run(rows, search).rowsTotal == Run(rest, search).rowsTotal + 1)
  {
    var rest := rows[..j] + rows[j + 1..];
    SplitAround(rows, j, search);
    RunCharacterised(rows, search);
    RunCharacterised(rest, search);
  }

  /**
   * A six-field row whose message does not match produces no record,
   * wherever it stands, and leaves the counter as it is.
   */
  lemma NoMatchRowIgnored(rows: seq<Row>, j: nat, search: Searcher)
    requires j < |rows|
    requires IsNoMatchRow(rows[j], search)
    ensures
      var rest := rows[..j] + rows[j + 1..];
      && (Run(rows, search).Parsed? <==> Run(rest, search).Parsed?)
      && (Run(rows, search).Parsed? ==>
        && Run(rows, search).data == Run(rest, search).data
        && Run(rows, search).rowsTotal == Run(rest, search).rowsTotal)
  {
    var rest := rows[..j] + rows[j + 1..];
    SplitAround(rows, j, search);
    RunCharacterised(rows, search);
    RunCharacterised(rest, search);
  }

  /** Taking out row `j` takes its contribution out of every reference definition. */
  lemma SplitAround(rows: seq<Row>, j: nat, search: Searcher)
    requires j < |rows|
    ensures
      var rest, one := rows[..j] + rows[j + 1..], [rows[j]];
      && Records(rows, search) == Records(rows[..j], search) + Records(one, search) + Records(rows[j + 1..], search)
      && Records(rest, search) == Records(rows[..j], search) + Records(rows[j + 1..], search)
      && CountNoMatch(rows, search) == CountNoMatch(rest, search) + CountNoMatch(one, search)
      && (!TooShort(rows[j]) ==> (NoShortRow(rows) <==> NoShortRow(rest)))
  {
    var before, one, after := rows[..j], [rows[j]], rows[j + 1..];
    assert rows == before + one + after;
    RecordsAppend(before, one, search);
    RecordsAppend(before + one, after, search);
    RecordsAppend(before, after, search);
    assert one[1..] == [];
    var rest := before + after;
    if !TooShort(rows[j]) {
      if NoShortRow(rest) {
        forall k | 0 <= k < |rows|
          ensures !TooShort(rows[k])
        {
          if k < j {
            assert rows[k] == rest[k];
          } else if k > j {
            assert rows[k] == rest[k - 1];
          }
        }
      }
      if NoShortRow(rows) {
        forall k | 0 <= k < |rest|
          ensures !TooShort(rest[k])
        {
          if k < j {
            assert rest[k] == rows[k];
          } else {
            assert rest[k] == rows[k + 1];
          }
        }
      }
    }
  }
}
