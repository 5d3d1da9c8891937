/**
  Turning a database cell into the text that replaces a placeholder: dates
  as DD.MM.YYYY, other values as `str(value)`, a missing row or NULL as the
  empty string; and the identifier check that guards the query.
  */
module Values {
  import opened Wrappers

  /** A cell value as the driver hands it over: a date, or any other value already turned into its `str`. */
  datatype Value = DateValue(year: int, month: int, day: int) | Scalar(text: string)

  function DigitChar(d: nat): char
    requires d < 10
  {
    "0123456789"[d]
  }

  predicate IsDigit(c: char) {
    '0' <= c <= '9'
  }

  function DigitValue(c: char): nat
    requires IsDigit(c)
  {
    (c as int - '0' as int) as nat
  }

  /** Decimal digits of `n` without leading zeros, as `str(n)` writes them. */
  function NatToString(n: nat): (s: string)
    ensures |s| > 0 && forall k :: 0 <= k < |s| ==> IsDigit(s[k])
  {
    if n < 10 then [DigitChar(n)] else NatToString(n / 10) + [DigitChar(n % 10)]
  }

  /** `str(i)` for an integer, with a leading minus sign when negative. */
  function IntToString(i: int): string {
    if i < 0 then "-" + NatToString(-i) else NatToString(i)
  }

  /** `f"{n:02d}"`: at least two characters, a single digit gets a leading zero. */
  function Pad2(n: int): string {
    if 0 <= n < 10 then "0" + NatToString(n) else IntToString(n)
  }

  /** A number below 100 is padded to exactly two digits. */
  lemma Pad2Digits(n: int)
    requires 0 <= n < 100
    ensures |Pad2(n)| == 2 && IsDigit(Pad2(n)[0]) && IsDigit(Pad2(n)[1])
  {
    if n >= 10 {
      assert NatToString(n) == NatToString(n / 10) + [DigitChar(n % 10)];
    }
  }

  /** `f"{day:02d}.{month:02d}.{year}"`. */
  function FormatDate(year: int, month: int, day: int): string {
    Pad2(day) + "." + Pad2(month) + "." + IntToString(year)
  }

  /** The number a string of digits denotes. */
  function ParseDigits(s: string): nat
    requires forall k :: 0 <= k < |s| ==> IsDigit(s[k])
  {
    if s == [] then 0 else 10 * ParseDigits(s[..|s| - 1]) + DigitValue(s[|s| - 1])
  }

  lemma DigitRoundTrip(d: nat)
    requires d < 10
    ensures IsDigit(DigitChar(d)) && DigitValue(DigitChar(d)) == d
  {
  }

  lemma {:induction false} NatToStringRoundTrip(n: nat)
    ensures ParseDigits(NatToString(n)) == n
  {
    if n < 10 {
      DigitRoundTrip(n);
    } else {
      var s := NatToString(n);
      var prefix := NatToString(n / 10);
      NatToStringRoundTrip(n / 10);
      DigitRoundTrip(n % 10);
      assert s[..|s| - 1] == prefix;
    }
  }

  /** Reads back a DD.MM.YYYY text: two digits, a dot, two digits, a dot, the digits of the year. */
  function ParseDate(s: string): Option<(nat, nat, nat)> {
    if |s| >= 7 && s[2] == '.' && s[5] == '.'
       && (forall k :: 0 <= k < |s| && k != 2 && k != 5 ==> IsDigit(s[k]))
    then
      Some((ParseDigits(s[6..]), ParseDigits(s[3..5]), ParseDigits(s[..2])))
    else
      None
  }

  /** The date text reads back as the date it was made from, for any year from 0 on. */
  lemma FormatDateRoundTrip(year: nat, month: nat, day: nat)
    requires month < 100 && day < 100
    ensures ParseDate(FormatDate(year, month, day)) == Some((year, month, day))
  {
    var d := Pad2(day);
    var m := Pad2(month);
    var y := NatToString(year);
    var s := FormatDate(year, month, day);
    Pad2Digits(day);
    Pad2Digits(month);
    assert s == d + "." + m + "." + y;
    assert s[..2] == d && s[3..5] == m && s[6..] == y;
    Pad2RoundTrip(day);
    Pad2RoundTrip(month);
    NatToStringRoundTrip(year);
  }

  lemma Pad2RoundTrip(n: nat)
    requires n < 100
    ensures ParseDigits(Pad2(n)) == n
  {
    var s := Pad2(n);
    if n < 10 {
      DigitRoundTrip(n);
      assert s == ['0', DigitChar(n)];
      assert s[..1] == ['0'] && s[..1][..0] == [];
      assert ParseDigits(s[..1]) == 0;
      assert ParseDigits(s) == 10 * ParseDigits(s[..1]) + DigitValue(s[1]);
    } else {
      NatToStringRoundTrip(n);
    }
  }

  /** A calendar date is written as exactly ten characters with the dots in place. */
  lemma FormatDateShape(year: int, month: int, day: int)
    requires 1000 <= year <= 9999 && 1 <= month <= 12 && 1 <= day <= 31
    ensures |FormatDate(year, month, day)| == 10
    ensures FormatDate(year, month, day)[2] == '.' && FormatDate(year, month, day)[5] == '.'
  {
    Pad2Digits(day);
    Pad2Digits(month);
    assert |NatToString(year / 10 / 10 / 10)| == 1;
    assert |NatToString(year / 10 / 10)| == 2;
    assert |NatToString(year / 10)| == 3;
    assert |NatToString(year)| == 4;
  }

  // ---------------------------------------------------------------------
  // The identifier check `re.match(r'^\w+$', name)`
  // ---------------------------------------------------------------------

  /** A word character: a letter, a digit or the underscore. */
  predicate IsWordChar(c: char) {
    ('a' <= c <= 'z') || ('A' <= c <= 'Z') || ('0' <= c <= '9') || c == '_'
  }

  predicate IsWord(s: string) {
    |s| > 0 && forall k :: 0 <= k < |s| ==> IsWordChar(s[k])
  }

  /**
    `re.match(r'^\w+$', s)` succeeds: one or more word characters, where `$`
    also matches just before a final newline.
    */
  predicate MatchesIdentifier(s: string) {
    IsWord(s) || (|s| >= 2 && s[|s| - 1] == '\n' && IsWord(s[..|s| - 1]))
  }

  /**
    What the check lets into the query text: a non-empty name of word
    characters, followed at most by one newline. Quotes, spaces, dots and
    semicolons never pass.
    */
  lemma IdentifierCharacters(s: string)
    ensures MatchesIdentifier(s) <==>
              |s| > 0 && IsWordChar(s[0])
              && forall k :: 0 <= k < |s| ==> IsWordChar(s[k]) || (k == |s| - 1 && s[k] == '\n')
  {
    if |s| > 0 && IsWordChar(s[0])
       && forall k :: 0 <= k < |s| ==> IsWordChar(s[k]) || (k == |s| - 1 && s[k] == '\n') {
      if s[|s| - 1] == '\n' {
        assert |s| >= 2;
        var t := s[..|s| - 1];
        forall k | 0 <= k < |t| ensures IsWordChar(t[k]) {
          assert t[k] == s[k];
        }
      }
    }
    if MatchesIdentifier(s) && !IsWord(s) {
      forall k | 0 <= k < |s| - 1 ensures IsWordChar(s[k]) {
        assert s[k] == s[..|s| - 1][k];
      }
    }
  }

  /** The column the row is looked up by: `id` in the `krd` table itself, `krd_id` everywhere else. */
  function JoinColumn(table: string): (c: string)
    ensures c == "id" <==> table == "krd"
    ensures c == "id" || c == "krd_id"
  {
    if table == "krd" then "id" else "krd_id"
  }

  /**
    The replacement text of a looked-up cell: nothing when there is no row,
    nothing for NULL, DD.MM.YYYY for a date and the value's text otherwise.
    */
  function CellText(row: Option<Option<Value>>): (s: string)
    ensures row.None? || row.value.None? ==> s == ""
    ensures row.Some? && row.value.Some? && row.value.value.Scalar? ==> s == row.value.value.text
  {
    match row
    case None => ""
    case Some(None) => ""
    case Some(Some(DateValue(y, m, d))) => FormatDate(y, m, d)
    case Some(Some(Scalar(t))) => t
  }

  /** A date cell yields a text that reads back as that date. */
  lemma DateCellReadsBack(y: nat, m: nat, d: nat)
    requires m < 100 && d < 100
    ensures ParseDate(CellText(Some(Some(DateValue(y, m, d))))) == Some((y, m, d))
  {
    FormatDateRoundTrip(y, m, d);
  }
}
