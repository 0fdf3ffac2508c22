/**
 * The status bar of tests/testlistview.c: update_statusbar writes the number
 * of rows shown, the number before filtering when that differs, and while
 * the scheduler has work left the number of directories still to do; its
 * result tells the tick callback whether to keep polling.
 */
module Status {
  import opened Wrappers
  import opened CString
  import Files
  import Enumeration

  datatype Status = Status(text: string, keepPolling: bool)

  /** guint arithmetic wraps modulo 2^32. */
  const GuintModulus: nat := 0x1_0000_0000

  /** The row counts: "<n> items", or "<n>/<unfiltered> items" when filtering hides rows. */
  function CountsText(n: nat, unfiltered: Option<nat>): string
  {
    Decimal(n) + (if unfiltered.Some? && unfiltered.value != n then "/" + Decimal(unfiltered.value) else "") + " items"
  }

  /** The closing words of the remaining-work part. */
  const RemainingWords: string := " directories remaining)"

  /** The work still to do, as the guint sum of running and deferred enumerations; empty when there is none. */
  function RemainingText(active: nat, pendingLength: nat): string
  {
    if pendingLength != 0 || active != 0 then
      " (" + Decimal((active + pendingLength) % GuintModulus) + RemainingWords
    else ""
  }

  /** s ends with q. */
  predicate EndsWith(s: string, q: string)
  {
    |q| <= |s| && s[|s| - |q|..] == q
  }

  /**
   * update_statusbar for a model showing `n` rows, whose unfiltered model
   * holds `unfiltered` rows (None when the model is not a filter model), with
   * `active` enumerations running and `pendingLength` stores deferred. The
   * text is the shown count, then "/" and the unfiltered count when they
   * differ, then " items"; while work is left it ends with the guint sum of
   * running and deferred enumerations in " (... directories remaining)",
   * and nothing else is written.
   */
  function UpdateStatusbar(n: nat, unfiltered: Option<nat>, active: nat, pendingLength: nat): (r: Status)
    ensures r.keepPolling <==> pendingLength != 0 || active != 0
    ensures r.text == CountsText(n, unfiltered) + RemainingText(active, pendingLength)
    ensures r.keepPolling ==> RemainingText(active, pendingLength) != []
    ensures !r.keepPolling ==> r.text == CountsText(n, unfiltered)
  {
    Status(CountsText(n, unfiltered) + RemainingText(active, pendingLength), pendingLength != 0 || active != 0)
  }

  /** The first number of the status text is the number of rows shown. */
  lemma StatusbarLeadsWithCount(n: nat, unfiltered: Option<nat>, active: nat, pendingLength: nat)
    ensures var text := UpdateStatusbar(n, unfiltered, active, pendingLength).text;
      ParseDecimal(DigitPrefix(text)) == n
  {
    var text := UpdateStatusbar(n, unfiltered, active, pendingLength).text;
    var d := Decimal(n);
    var rest := text[|d|..];
    assert text == d + rest;
    assert rest[0] == '/' || rest[0] == ' ';
    DigitPrefixOf(d, rest);
    DecimalRoundTrip(n);
  }

  /** The digits of text starting at index i denote v. */
  predicate ShowsNumberAt(text: string, i: nat, v: nat)
  {
    i <= |text| && ParseDecimal(DigitPrefix(text[i..])) == v
  }

  /** When filtering hides rows, the number after the '/' is the unfiltered count. */
  lemma StatusbarShowsUnfilteredCount(n: nat, u: nat, active: nat, pendingLength: nat)
    requires u != n
    ensures var text := UpdateStatusbar(n, Some(u), active, pendingLength).text;
      |text| > |Decimal(n)| && text[|Decimal(n)|] == '/' && ShowsNumberAt(text, |Decimal(n)| + 1, u)
  {
    var text := UpdateStatusbar(n, Some(u), active, pendingLength).text;
    UnfilteredCountReadsBack(text, n, u, RemainingText(active, pendingLength));
  }

  /** The counts part followed by anything: the number after the '/' reads back as u. */
  lemma UnfilteredCountReadsBack(text: string, n: nat, u: nat, more: string)
    requires u != n && text == CountsText(n, Some(u)) + more
    ensures |text| > |Decimal(n)| && text[|Decimal(n)|] == '/' && ShowsNumberAt(text, |Decimal(n)| + 1, u)
  {
    var dn, du := Decimal(n), Decimal(u);
    var rest := " items" + more;
    assert text == (dn + "/") + (du + rest);
    NumberReadsBack(text, dn + "/", u, rest);
  }

  /** Decimal(v) placed after `front` and before a non-digit (or the end) reads back as v. */
  lemma NumberReadsBack(text: string, front: string, v: nat, rest: string)
    requires text == front + (Decimal(v) + rest)
    requires rest == [] || !IsDigit(rest[0])
    ensures ShowsNumberAt(text, |front|, v)
  {
    assert text[|front|..] == Decimal(v) + rest;
    DigitPrefixOf(Decimal(v), rest);
    DecimalRoundTrip(v);
  }

  /** The text ends with the closing words, and the digits just before them denote m. */
  predicate ReportsRemaining(text: string, m: nat)
  {
    EndsWith(text, RemainingWords) && ParseDecimal(DigitSuffix(text[..|text| - |RemainingWords|])) == m
  }

  /** While work is left, the number before the closing words is the guint sum of running and deferred enumerations. */
  lemma StatusbarReportsRemaining(n: nat, unfiltered: Option<nat>, active: nat, pendingLength: nat)
    requires pendingLength != 0 || active != 0
    ensures ReportsRemaining(UpdateStatusbar(n, unfiltered, active, pendingLength).text, (active + pendingLength) % GuintModulus)
  {
    var m := (active + pendingLength) % GuintModulus;
    var text := UpdateStatusbar(n, unfiltered, active, pendingLength).text;
    RemainingCountReadsBack(text, CountsText(n, unfiltered), m);
  }

  /** Anything followed by the remaining-work part for m: the number before the closing words reads back as m. */
  lemma RemainingCountReadsBack(text: string, counts: string, m: nat)
    requires text == counts + (" (" + Decimal(m) + RemainingWords)
    ensures ReportsRemaining(text, m)
  {
    var d := Decimal(m);
    var front := counts + " (";
    assert text == (front + d) + RemainingWords;
    assert text[..|text| - |RemainingWords|] == front + d;
    assert text[|text| - |RemainingWords|..] == RemainingWords;
    DigitSuffixOf(front, d);
    DecimalRoundTrip(m);
  }

  /** A string of decimal digits holds no '/'. */
  lemma NoSlashInDigits(s: string)
    requires AllDigits(s)
    ensures '/' !in s
  {
    forall i | 0 <= i < |s|
      ensures s[i] != '/'
    {
      assert IsDigit(s[i]);
    }
  }

  /** The counts hold a '/' exactly when there is a second count. */
  lemma SlashInCounts(n: nat, unfiltered: Option<nat>)
    ensures '/' in CountsText(n, unfiltered) <==> unfiltered.Some? && unfiltered.value != n
  {
    NoSlashInDigits(Decimal(n));
    if unfiltered.Some? && unfiltered.value != n {
      assert CountsText(n, unfiltered)[|Decimal(n)|] == '/';
    } else {
      assert CountsText(n, unfiltered) == Decimal(n) + " items";
    }
  }

  /** The remaining-work part never holds a '/'. */
  lemma NoSlashInRemaining(active: nat, pendingLength: nat)
    ensures '/' !in RemainingText(active, pendingLength)
  {
    if pendingLength != 0 || active != 0 {
      var d := Decimal((active + pendingLength) % GuintModulus);
      NoSlashInDigits(d);
      var open, close := " (", RemainingWords;
      assert '/' !in open && '/' !in close;
      assert RemainingText(active, pendingLength) == open + d + close;
    }
  }

  /** The text shows a second count, after a '/', exactly when filtering hides some rows. */
  lemma StatusbarShowsUnfilteredOnlyWhenDifferent(n: nat, unfiltered: Option<nat>, active: nat, pendingLength: nat)
    ensures var text := UpdateStatusbar(n, unfiltered, active, pendingLength).text;
      '/' in text <==> unfiltered.Some? && unfiltered.value != n
  {
    SlashInCounts(n, unfiltered);
    NoSlashInRemaining(active, pendingLength);
  }

  /**
   * The stranded state of Enumeration.FinishCanStrand keeps the status bar
   * polling until another directory is opened, reporting one directory to go
   * while nothing runs.
   */
  lemma StrandedStoreKeepsPolling(a: Files.Store, n: nat, unfiltered: Option<nat>)
    ensures Enumeration.Finish(Enumeration.Sched(1, [a]), Enumeration.TooManyOpenFiles).next == Enumeration.Sched(0, [a])
    ensures UpdateStatusbar(n, unfiltered, 0, 1).keepPolling && ReportsRemaining(UpdateStatusbar(n, unfiltered, 0, 1).text, 1)
  {
    Enumeration.FinishCanStrand(a, a);
    StatusbarReportsRemaining(n, unfiltered, 0, 1);
  }
}
