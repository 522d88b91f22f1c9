/**
 * The fixed extraction pattern SEARCH_PATTERN of the print-log parser, as a
 * specification of what a successful search may return.
 *
 * The pattern (Python `re` syntax) is
 *
 *   Document \d{1,3}, (.*) owned by (.*) on (.*) was printed on (.*) through port (.*).
 *   Size in bytes: (\d*). Pages printed: (\d*). No user action is required.
 *
 * read as one string. Each unescaped `.` is a wildcard for one character other
 * than a line feed, and `(.*)` captures any run of such characters. The regex
 * engine itself is not modelled: a search is any function that finds an
 * occurrence of the pattern whenever there is one (see IsSearch).
 */
module SearchPattern {
  import opened Wrappers

  /** `\d`: one decimal digit. */
  predicate IsDigit(c: char) {
    '0' <= c <= '9'
  }

  predicate AllDigits(s: string) {
    forall i :: 0 <= i < |s| ==> IsDigit(s[i])
  }

  /** `.` without the DOTALL flag: any character except a line feed. */
  predicate IsWildcard(c: char) {
    c != '\n'
  }

  /** What `(.*)` can capture. */
  predicate AllWildcard(s: string) {
    forall i :: 0 <= i < |s| ==> IsWildcard(s[i])
  }

  /**
   * One way the pattern can be laid over a piece of text: the digits matched
   * by `\d{1,3}`, the seven groups in pattern order, and the four characters
   * matched by the single-character wildcards.
   */
  datatype Occurrence = Occurrence(
    number: string,
    document: string,
    user: string,
    sourceHost: string,
    printer: string,
    port: string,
    afterPort: char,
    size: string,
    afterSize: char,
    pages: string,
    afterPages: char,
    atEnd: char)

  /** Every piece of the occurrence is something its sub-pattern accepts. */
  predicate WellFormed(o: Occurrence) {
    && 1 <= |o.number| <= 3 && AllDigits(o.number)
    && AllWildcard(o.document) && AllWildcard(o.user) && AllWildcard(o.sourceHost)
    && AllWildcard(o.printer) && AllWildcard(o.port)
    && IsWildcard(o.afterPort)
    && AllDigits(o.size)
    && IsWildcard(o.afterSize)
    && AllDigits(o.pages)
    && IsWildcard(o.afterPages)
    && IsWildcard(o.atEnd)
  }

  /** The text the occurrence matches: the pattern's literals with the pieces filled in. */
  function Text(o: Occurrence): string {
    "Document " + o.number + ", " + o.document + " owned by " + o.user + " on " + o.sourceHost
    + " was printed on " + o.printer + " through port " + o.port + [o.afterPort]
    + "  Size in bytes: " + o.size + [o.afterSize]
    + " Pages printed: " + o.pages + [o.afterPages]
    + " No user action is required" + [o.atEnd]
  }

  /** What `match.groups()` returns for this occurrence. */
  function Groups(o: Occurrence): seq<string> {
    [o.document, o.user, o.sourceHost, o.printer, o.port, o.size, o.pages]
  }

  /** `t` appears in `msg` starting at position `i`. */
  ghost predicate OccursAt(msg: string, i: int, t: string) {
    0 <= i && i + |t| <= |msg| && msg[i..i + |t|] == t
  }

  /**
   * An unanchored search of the pattern in `msg` can succeed with the
   * captured groups `groups`: the pattern occurs somewhere in `msg` with those groups.
   */
  ghost predicate Matches(msg: string, groups: seq<string>) {
    exists o: Occurrence, i: int :: WellFormed(o) && Groups(o) == groups && OccursAt(msg, i, Text(o))
  }

  /** A search function: the compiled pattern's `search` followed by `groups()`. */
  type Searcher = string -> Option<seq<string>>

  /**
   * `search` behaves as `re.search` with the pattern: whatever it returns is a
   * genuine match, and it returns nothing only when there is no match at all.
   */
  ghost predicate IsSearch(search: Searcher) {
    forall msg ::
      && (search(msg).Some? ==> Matches(msg, search(msg).value))
      && (search(msg).None? ==> forall groups :: !Matches(msg, groups))
  }

  /**
   * A match has exactly seven groups; SIZE and PAGES are digits only (possibly
   * empty); the five text groups hold no line feed.
   */
  lemma MatchedGroupsShape(msg: string, groups: seq<string>)
    requires Matches(msg, groups)
    ensures |groups| == 7
    ensures AllDigits(groups[5]) && AllDigits(groups[6])
    ensures forall k :: 0 <= k < 5 ==> AllWildcard(groups[k])
  {
    var o: Occurrence, i: int :| WellFormed(o) && Groups(o) == groups && OccursAt(msg, i, Text(o));
  }

  /** What a successful search returns has the shape of MatchedGroupsShape. */
  lemma SearchResultShape(search: Searcher, msg: string)
    requires IsSearch(search)
    requires search(msg).Some?
    ensures |search(msg).value| == 7
    ensures AllDigits(search(msg).value[5]) && AllDigits(search(msg).value[6])
  {
    MatchedGroupsShape(msg, search(msg).value);
  }

  /** The shortest text the pattern matches has 120 characters. */
  lemma TextLength(o: Occurrence)
    requires WellFormed(o)
    ensures |Text(o)| >= 120
  {
  }

  /** A message shorter than 120 characters never matches. */
  lemma ShortMessageNeverMatches(msg: string, groups: seq<string>)
    requires |msg| < 120
    ensures !Matches(msg, groups)
  {
    forall o: Occurrence, i: int | WellFormed(o)
      ensures !OccursAt(msg, i, Text(o))
    {
      TextLength(o);
    }
  }

  /** The search is unanchored: text before and after a match does not prevent it. */
  lemma MatchesWithSurroundingText(before: string, msg: string, after: string, groups: seq<string>)
    requires Matches(msg, groups)
    ensures Matches(before + msg + after, groups)
  {
    var o: Occurrence, i: int :| WellFormed(o) && Groups(o) == groups && OccursAt(msg, i, Text(o));
    var whole := before + msg + after;
    var j := |before| + i;
    assert whole[j..j + |Text(o)|] == msg[i..i + |Text(o)|];
    assert OccursAt(whole, j, Text(o));
  }
}
