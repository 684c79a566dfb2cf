/**
 * The text form of a date used by the shift-schedule engine: fields joined by
 * '-', each written in decimal and left-padded with '0' to width 4, 2 and 2
 * (formatDatePartsToIso), and the reverse split-and-convert
 * (parseIsoDateString). For years 0..9999 the padded form is the full-date
 * production of section 5.6 of RFC 3339.
 */
module IsoDateText {
  import opened CivilCalendar

  datatype Option<T> = None | Some(value: T)

  predicate IsDigit(c: char) {
    '0' <= c <= '9'
  }

  predicate AllDigits(s: string) {
    forall i :: 0 <= i < |s| ==> IsDigit(s[i])
  }

  function DigitChar(v: int): (c: char)
    requires 0 <= v < 10
    ensures IsDigit(c)
  {
    (48 + v) as char
  }

  function DigitValue(c: char): (v: int)
    requires IsDigit(c)
    ensures 0 <= v < 10 && DigitChar(v) == c
  {
    c as int - 48
  }

  /** The number a string of decimal digits denotes (Number() on such a string; "" gives 0). */
  function DigitsValue(s: string): (v: nat)
    requires AllDigits(s)
  {
    if s == [] then 0 else 10 * DigitsValue(s[..|s| - 1]) + DigitValue(s[|s| - 1])
  }

  /** Decimal form of a natural number without leading zeros (Number.prototype.toString). */
  function NatToString(n: nat): (s: string)
    ensures |s| >= 1
  {
    if n < 10 then [DigitChar(n)] else NatToString(n / 10) + [DigitChar(n % 10)]
  }

  /** Number() reads back what toString() wrote: the decimal form is a digit string with value n. */
  lemma {:induction false} NatToStringValue(n: nat)
    ensures AllDigits(NatToString(n)) && DigitsValue(NatToString(n)) == n
    decreases n
  {
    if n >= 10 {
      NatToStringValue(n / 10);
      var s := NatToString(n);
      assert s[..|s| - 1] == NatToString(n / 10);
    }
  }

  /** Decimal form of an integer, with a leading '-' when negative. */
  function IntToString(i: int): string {
    if i < 0 then "-" + NatToString(-i) else NatToString(i)
  }

  function Zeros(k: nat): (z: string)
    ensures |z| == k && AllDigits(z)
  {
    seq(k, _ => '0')
  }

  /** String.prototype.padStart(width, '0'). */
  function PadStart(s: string, width: nat): (r: string)
    ensures |r| == if |s| >= width then |s| else width
    decreases width - |s|
  {
    if |s| >= width then s else PadStart(['0'] + s, width)
  }

  /** Padding prepends exactly the missing zeros. */
  lemma {:induction false} PadStartZeros(s: string, width: nat)
    ensures PadStart(s, width) == if |s| >= width then s else Zeros(width - |s|) + s
    decreases width - |s|
  {
    if |s| < width {
      PadStartZeros(['0'] + s, width);
      assert Zeros(width - |s| - 1) + (['0'] + s) == Zeros(width - |s|) + s;
    }
  }

  /** formatDatePartsToIso: zero-padded year, month and day joined by '-'. */
  function FormatDatePartsToIso(year: int, month: int, day: int): string {
    PadStart(IntToString(year), 4) + "-" + PadStart(IntToString(month), 2) + "-" + PadStart(IntToString(day), 2)
  }

  function FormatDate(d: Date): string {
    FormatDatePartsToIso(d.year, d.month, d.day)
  }

  /** String.prototype.split with a one-character separator. */
  function Split(s: string, sep: char): (parts: seq<string>)
    ensures |parts| >= 1
  {
    if s == [] then [""]
    else
      var rest := Split(s[1..], sep);
      if s[0] == sep then [""] + rest else [[s[0]] + rest[0]] + rest[1..]
  }

  /**
   * parseIsoDateString: split on '-' and convert the first three parts with
   * Number(). Fewer than three parts, or a part holding anything but decimal
   * digits, makes some field NaN; the model reports that as None.
   */
  function ParseIsoDateString(text: string): Option<Date> {
    var parts := Split(text, '-');
    if |parts| >= 3 && AllDigits(parts[0]) && AllDigits(parts[1]) && AllDigits(parts[2]) then
      Some(Date(DigitsValue(parts[0]), DigitsValue(parts[1]), DigitsValue(parts[2])))
    else None
  }

  /**
   * The full-date production of section 5.6 of RFC 3339: four-digit year,
   * two-digit month and two-digit day separated by '-', naming a real date.
   */
  predicate IsFullDate(text: string) {
    |text| == 10 && text[4] == '-' && text[7] == '-'
    && AllDigits(text[..4]) && AllDigits(text[5..7]) && AllDigits(text[8..])
    && ValidDate(Date(DigitsValue(text[..4]), DigitsValue(text[5..7]), DigitsValue(text[8..])))
  }

  // ---------------------------------------------------------------------------
  // Digits

  lemma {:induction false} ZerosValue(k: nat)
    ensures DigitsValue(Zeros(k)) == 0
  {
    if k > 0 {
      assert Zeros(k)[..k - 1] == Zeros(k - 1);
      ZerosValue(k - 1);
    }
  }

  /** Leading zeros do not change the value of a digit string. */
  lemma {:induction false} LeadingZerosValue(k: nat, s: string)
    requires AllDigits(s)
    ensures AllDigits(Zeros(k) + s) && DigitsValue(Zeros(k) + s) == DigitsValue(s)
    decreases |s|
  {
    if s == [] {
      assert Zeros(k) + s == Zeros(k);
      ZerosValue(k);
    } else {
      var t := Zeros(k) + s;
      assert t[..|t| - 1] == Zeros(k) + s[..|s| - 1];
      LeadingZerosValue(k, s[..|s| - 1]);
    }
  }

  /** A digit string whose value is 0 consists of zeros only. */
  lemma {:induction false} ZeroValueIsZeros(s: string)
    requires AllDigits(s) && DigitsValue(s) == 0
    ensures s == Zeros(|s|)
    decreases |s|
  {
    if s != [] {
      ZeroValueIsZeros(s[..|s| - 1]);
      assert s == s[..|s| - 1] + [s[|s| - 1]];
    }
  }

  /** Appending a character after padding or before padding one wider is the same. */
  lemma PadAppend(x: string, c: char, w: nat)
    requires |x| <= w
    ensures PadStart(x + [c], w + 1) == PadStart(x, w) + [c]
  {
    PadStartZeros(x + [c], w + 1);
    PadStartZeros(x, w);
    if |x| < w {
      assert Zeros(w - |x|) + (x + [c]) == (Zeros(w - |x|) + x) + [c];
    }
  }

  /** Padding a number back to the width of the digit string it came from restores that string. */
  lemma {:induction false} PadValueRestores(s: string)
    requires AllDigits(s) && |s| >= 1
    ensures PadStart(NatToString(DigitsValue(s)), |s|) == s
    decreases |s|
  {
    var p, c := s[..|s| - 1], s[|s| - 1];
    assert s == p + [c];
    if DigitsValue(p) == 0 {
      ZeroValueIsZeros(p);
      assert NatToString(DigitsValue(s)) == [c];
      PadStartZeros([c], |s|);
    } else {
      PadValueRestores(p);
      NatToStringLastDigit(DigitsValue(p), c);
      PadAppend(NatToString(DigitsValue(p)), c, |p|);
    }
  }

  /** Writing 10 * q + d for positive q appends the digit d to the decimal form of q. */
  lemma NatToStringLastDigit(q: nat, c: char)
    requires IsDigit(c) && q > 0
    ensures NatToString(10 * q + DigitValue(c)) == NatToString(q) + [c]
  {
    var v := 10 * q + DigitValue(c);
    assert v / 10 == q && v % 10 == DigitValue(c);
  }

  // ---------------------------------------------------------------------------
  // Split

  /** Splitting a part free of the separator off the front of a string. */
  lemma {:induction false} SplitCons(a: string, sep: char, b: string)
    requires sep !in a
    ensures Split(a + [sep] + b, sep) == [a] + Split(b, sep)
    decreases |a|
  {
    if a == [] {
      assert a + [sep] + b == [sep] + b;
      assert ([sep] + b)[1..] == b;
    } else {
      assert (a + [sep] + b)[1..] == a[1..] + [sep] + b;
      SplitCons(a[1..], sep, b);
      assert [a[0]] + a[1..] == a;
    }
  }

  /** A string free of the separator splits into itself. */
  lemma {:induction false} SplitNone(a: string, sep: char)
    requires sep !in a
    ensures Split(a, sep) == [a]
    decreases |a|
  {
    if a != [] {
      SplitNone(a[1..], sep);
      assert [a[0]] + a[1..] == a;
    }
  }
  /** Three separator-free parts joined by the separator split back into those parts. */
  lemma SplitThree(a: string, b: string, c: string, sep: char)
    requires sep !in a && sep !in b && sep !in c
    ensures Split(a + [sep] + b + [sep] + c, sep) == [a, b, c]
  {
    assert a + [sep] + b + [sep] + c == a + [sep] + (b + [sep] + c);
    SplitCons(a, sep, b + [sep] + c);
    SplitCons(b, sep, c);
    SplitNone(c, sep);
  }


  predicate DigitsOrDash(s: string) {
    forall i :: 0 <= i < |s| ==> IsDigit(s[i]) || s[i] == '-'
  }

  /** Every part of a string of digits and dashes is a digit string; there is one more part than dashes. */
  lemma {:induction false} SplitDigitsOrDash(s: string)
    requires DigitsOrDash(s)
    ensures forall k :: 0 <= k < |Split(s, '-')| ==> AllDigits(Split(s, '-')[k])
    ensures |Split(s, '-')| == 1 + multiset(s)['-']
    decreases |s|
  {
    if s != [] {
      SplitDigitsOrDash(s[1..]);
      assert s == [s[0]] + s[1..];
      assert multiset(s) == multiset{s[0]} + multiset(s[1..]);
      var rest := Split(s[1..], '-');
      if s[0] != '-' {
        assert AllDigits(rest[0]);
        assert forall k :: 1 <= k < |Split(s, '-')| ==> Split(s, '-')[k] == rest[k];
      }
    }
  }

  lemma IntToStringShape(i: int, width: nat)
    ensures DigitsOrDash(PadStart(IntToString(i), width))
  {
    var s := NatToString(if i < 0 then -i else i);
    NatToStringValue(if i < 0 then -i else i);
    PadStartZeros(IntToString(i), width);
    assert AllDigits(s);
  }

  lemma DigitsOrDashConcat(a: string, b: string)
    requires DigitsOrDash(a) && DigitsOrDash(b)
    ensures DigitsOrDash(a + b)
  {
    assert forall i :: 0 <= i < |a + b| ==> (a + b)[i] == if i < |a| then a[i] else b[i - |a|];
  }

  // ---------------------------------------------------------------------------
  // Round trips

  /** Whatever the fields, the formatted text parses (negative fields parse to other numbers). */
  lemma FormatAlwaysParses(year: int, month: int, day: int)
    ensures ParseIsoDateString(FormatDatePartsToIso(year, month, day)).Some?
  {
    var y, m, d := PadStart(IntToString(year), 4), PadStart(IntToString(month), 2), PadStart(IntToString(day), 2);
    IntToStringShape(year, 4);
    IntToStringShape(month, 2);
    IntToStringShape(day, 2);
    DigitsOrDashConcat(y, "-");
    DigitsOrDashConcat(y + "-", m);
    DigitsOrDashConcat(y + "-" + m, "-");
    DigitsOrDashConcat(y + "-" + m + "-", d);
    var text := y + "-" + m + "-" + d;
    SplitDigitsOrDash(text);
    assert multiset(text)['-'] >= 2 by {
      assert multiset(text) == multiset(y) + multiset{'-'} + multiset(m) + multiset{'-'} + multiset(d);
    }
  }

  /** parseIsoDateString undoes formatDatePartsToIso for non-negative fields. */
  lemma ParseFormat(year: nat, month: nat, day: nat)
    ensures ParseIsoDateString(FormatDatePartsToIso(year, month, day)) == Some(Date(year, month, day))
  {
    var y, m, d := PadStart(NatToString(year), 4), PadStart(NatToString(month), 2), PadStart(NatToString(day), 2);
    PaddedNat(year, 4);
    PaddedNat(month, 2);
    PaddedNat(day, 2);
    assert FormatDatePartsToIso(year, month, day) == y + ['-'] + m + ['-'] + d;
    SplitThree(y, m, d, '-');
  }

  /** ParseFormat for a whole date with non-negative fields. */
  lemma ParseFormatDate(dt: Date)
    requires dt.year >= 0 && dt.month >= 0 && dt.day >= 0
    ensures ParseIsoDateString(FormatDate(dt)) == Some(dt)
  {
    ParseFormat(dt.year, dt.month, dt.day);
  }

  /** A padded natural number is a digit string, free of '-', with that value. */
  lemma PaddedNat(n: nat, w: nat)
    ensures AllDigits(PadStart(NatToString(n), w)) && '-' !in PadStart(NatToString(n), w)
    ensures DigitsValue(PadStart(NatToString(n), w)) == n
  {
    var s := NatToString(n);
    NatToStringValue(n);
    PadStartZeros(s, w);
    if |s| < w {
      LeadingZerosValue(w - |s|, s);
    }
    var p := PadStart(s, w);
    assert forall i :: 0 <= i < |p| ==> p[i] != '-';
  }

  /** A number below 10^w, padded to width w, is a w-digit string with that value. */
  lemma PaddedField(n: nat, w: nat)
    requires w == 2 || w == 4
    requires n < if w == 2 then 100 else 10000
    ensures |PadStart(NatToString(n), w)| == w && AllDigits(PadStart(NatToString(n), w))
    ensures DigitsValue(PadStart(NatToString(n), w)) == n
  {
    var s := NatToString(n);
    NatToStringValue(n);
    NatToStringShort(n, w);
    PadStartZeros(s, w);
    if |s| < w {
      LeadingZerosValue(w - |s|, s);
    }
  }

  /** A valid date with a four-digit year formats to RFC 3339 full-date text. */
  lemma FormatIsFullDate(dt: Date)
    requires ValidDate(dt) && 0 <= dt.year <= 9999
    ensures IsFullDate(FormatDate(dt))
  {
    var y, m, d := PadStart(NatToString(dt.year), 4), PadStart(NatToString(dt.month), 2), PadStart(NatToString(dt.day), 2);
    PaddedField(dt.year, 4);
    PaddedField(dt.month, 2);
    PaddedField(dt.day, 2);
    var text := FormatDate(dt);
    assert text == y + "-" + m + "-" + d;
    assert text[..4] == y && text[5..7] == m && text[8..] == d;
  }

  /** Numbers below 10^w need at most w digits (shown for w up to 4). */
  lemma NatToStringShort(n: nat, w: nat)
    requires 1 <= w <= 4
    requires n < if w == 1 then 10 else if w == 2 then 100 else if w == 3 then 1000 else 10000
    ensures |NatToString(n)| <= w
  {
    if n >= 10 {
      NatToStringShort(n / 10, w - 1);
    }
  }

  /** formatDatePartsToIso undoes parseIsoDateString on RFC 3339 full-date text. */
  lemma FormatParse(text: string)
    requires IsFullDate(text)
    ensures ParseIsoDateString(text).Some? && ValidDate(ParseIsoDateString(text).value)
    ensures FormatDate(ParseIsoDateString(text).value) == text
  {
    var y, m, d := text[..4], text[5..7], text[8..];
    assert text == y + ['-'] + (m + ['-'] + d);
    assert '-' !in y && '-' !in m && '-' !in d by {
      assert forall i :: 0 <= i < |y| ==> IsDigit(y[i]);
      assert forall i :: 0 <= i < |m| ==> IsDigit(m[i]);
      assert forall i :: 0 <= i < |d| ==> IsDigit(d[i]);
    }
    SplitCons(y, '-', m + ['-'] + d);
    SplitCons(m, '-', d);
    SplitNone(d, '-');
    assert Split(text, '-') == [y, m, d];
    PadValueRestores(y);
    PadValueRestores(m);
    PadValueRestores(d);
  }
}
