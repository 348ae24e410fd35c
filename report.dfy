/**
 * The report both scripts print: a total line, then one line per leading
 * result tuple. Printing itself is left out; the report is the sequence of
 * lines that would be printed.
 */
module Report {
  import opened Entries

  function DigitChar(d: nat): (c: char)
    requires d < 10
    ensures '0' <= c <= '9' && c as int - '0' as int == d
  {
    ('0' as int + d) as char
  }

  /** Python's `str(n)` for a non-negative integer: its decimal digits. */
  function NatToString(n: nat): (s: string)
    ensures s != []
    ensures forall i :: 0 <= i < |s| ==> '0' <= s[i] <= '9'
    ensures n > 0 ==> s[0] != '0'
    decreases n
  {
    if n < 10 then [DigitChar(n)] else NatToString(n / 10) + [DigitChar(n % 10)]
  }

  /** The number a string of decimal digits denotes. */
  function DigitsValue(s: string): nat
    requires forall i :: 0 <= i < |s| ==> '0' <= s[i] <= '9'
  {
    if s == [] then 0 else DigitsValue(s[..|s| - 1]) * 10 + (s[|s| - 1] as int - '0' as int)
  }

  /** Reading the printed digits back gives the number that was printed. */
  lemma {:induction false} NatToStringRoundTrip(n: nat)
    ensures DigitsValue(NatToString(n)) == n
    decreases n
  {
    if n >= 10 {
      NatToStringRoundTrip(n / 10);
      var s := NatToString(n);
      assert s[..|s| - 1] == NatToString(n / 10);
    }
  }

  /** `f"Total words read: {total_words}"`. */
  function TotalLine(total: nat): string {
    "Total words read: " + NatToString(total)
  }

  /** `f"The word '{result[n][1]}' occurred {result[n][0]} times."`. */
  function DetailLine(e: Entry): string {
    "The word '" + e.word + "' occurred " + NatToString(e.count) + " times."
  }

  /** `min(n, len(ranked))`, and never negative, as `range` would have it. */
  function Shown(n: int, available: nat): (k: nat)
    ensures k <= available
    ensures 0 <= n <= available ==> k == n
    ensures n > available ==> k == available
  {
    if n <= 0 then 0 else if n < available then n else available
  }

  /**
   * The lines printed for a total and a ranked list: the total line, then one
   * detail line for each of the first `min(n, len(ranked))` tuples, in order.
   */
  method TopLines(total: nat, ranked: seq<Entry>, n: int) returns (lines: seq<string>)
    ensures |lines| == 1 + Shown(n, |ranked|)
    ensures lines[0] == TotalLine(total)
    ensures forall i :: 1 <= i < |lines| ==> lines[i] == DetailLine(ranked[i - 1])
  {
    lines := [TotalLine(total)];
    var k := Shown(n, |ranked|);
    for i := 0 to k
      invariant |lines| == 1 + i
      invariant lines[0] == TotalLine(total)
      invariant forall j :: 1 <= j < |lines| ==> lines[j] == DetailLine(ranked[j - 1])
    {
      lines := lines + [DetailLine(ranked[i])];
    }
  }
}
