/** Concrete log lines and what the parser does with them. */
module PrintlogScenarios {
  import opened SearchPattern
  import opened PrintlogParser

  /**
   * The message "Document 42, ReportA owned by jdoe on HOST1 was printed on PRN1
   * through port USB001.  Size in bytes: 204800. Pages printed: 3. No user
   * action is required.", written as the pieces that make it up.
   */
  const SampleMessage: string :=
    "Document " + "42" + ", " + "ReportA" + " owned by " + "jdoe" + " on " + "HOST1"
    + " was printed on " + "PRN1" + " through port " + "USB001" + "."
    + "  Size in bytes: " + "204800" + "."
    + " Pages printed: " + "3" + "."
    + " No user action is required" + "."

  const SampleRow: Row := ["x", "2023-01-05 10:00:00", "x", "x", "x", SampleMessage]

  /** The sample message contains the pattern, with the groups one would read off it. */
  lemma SampleMessageMatches()
    ensures Matches(SampleMessage, ["ReportA", "jdoe", "HOST1", "PRN1", "USB001", "204800", "3"])
  {
    var o := Occurrence("42", "ReportA", "jdoe", "HOST1", "PRN1", "USB001", '.', "204800", '.', "3", '.', '.');
    assert Text(o) == SampleMessage;
    assert OccursAt(SampleMessage, 0, Text(o));
  }

  /**
   * A log holding only the sample row yields the header and one eight-field
   * record dated with the row's field 1, with digit-only SIZE and PAGES, and
   * counts one row.
   */
  lemma SampleRowYieldsOneRecord(search: Searcher)
    requires IsSearch(search)
    ensures Run([SampleRow], search).Parsed?
    ensures |Run([SampleRow], search).data| == 2
    ensures Run([SampleRow], search).rowsTotal == 1
    ensures
      var rec := Run([SampleRow], search).data[1];
      |rec| == 8 && rec[0] == "2023-01-05 10:00:00" && AllDigits(rec[6]) && AllDigits(rec[7])
  {
    SampleMessageMatches();
    assert search(SampleMessage).Some?;
    SearchResultShape(search, SampleMessage);
    assert [SampleRow][..0] == [];
  }

  /** A six-field row reading "Printer jammed" yields no record and is not counted. */
  lemma JammedPrinterRowIgnored(search: Searcher)
    requires IsSearch(search)
    ensures Run([["x", "2023-01-05 10:00:00", "x", "x", "x", "Printer jammed"]], search) == Parsed([Header], 0)
  {
    forall groups: seq<string> ensures !Matches("Printer jammed", groups) {
      ShortMessageNeverMatches("Printer jammed", groups);
    }
    assert search("Printer jammed").None?;
    assert [["x", "2023-01-05 10:00:00", "x", "x", "x", "Printer jammed"]][..0] == [];
  }

  /** A four-field row yields no record but is counted. */
  lemma FourFieldRowCounted(search: Searcher)
    ensures Run([["x", "2023-01-05 10:00:00", "x", "x"]], search) == Parsed([Header], 1)
  {
    assert [["x", "2023-01-05 10:00:00", "x", "x"]][..0] == [];
  }

  /** A blank line (no fields at all) aborts the run at that row. */
  lemma BlankLineAborts(search: Searcher, rows: seq<Row>)
    ensures Run([[]] + rows, search) == RowTooShort(0)
  {
    var all := [[]] + rows;
    assert TooShort(all[0]);
    RunCharacterised(all, search);
  }

  /** A log with no data rows yields the header alone. */
  lemma EmptyLogYieldsHeader(search: Searcher)
    ensures Run([], search) == Parsed([Header], 0)
  {
  }
}
