/** Clock times as the scheduler stores them: zero-padded 24-hour "HH:MM"
    strings. A well-formed time is represented by its hours and minutes;
    `Text` gives back the string. Parsing a string into minutes
    (timeToMinutes) and comparing two times as raw strings (the `>` and
    `localeCompare` of the metadata code) are both modelled, with the proof
    that on well-formed times they agree with the minute count. */
module Times {

  type Hour = h: nat | h < 24
  type MinuteOfHour = m: nat | m < 60

  /** The time whose text is Text(this). */
  datatype Time = Time(hours: Hour, minutes: MinuteOfHour)

  predicate IsDigit(c: char) {
    '0' <= c <= '9'
  }

  function Digit(c: char): (d: nat)
    requires IsDigit(c)
    ensures d < 10
  {
    (c as int) - ('0' as int)
  }

  function DigitChar(d: nat): (c: char)
    requires d < 10
    ensures IsDigit(c) && Digit(c) == d
  {
    (('0' as int) + d) as char
  }

  /** The zero-padded "HH:MM" string of a time. */
  function Text(t: Time): (s: string)
    ensures ValidText(s)
  {
    [DigitChar(t.hours / 10), DigitChar(t.hours % 10), ':', DigitChar(t.minutes / 10), DigitChar(t.minutes % 10)]
  }

  /** A well-formed time string: two digits, a colon, two digits, with hours
      00-23 and minutes 00-59. */
  predicate ValidText(s: string) {
    && |s| == 5
    && IsDigit(s[0]) && IsDigit(s[1]) && s[2] == ':' && IsDigit(s[3]) && IsDigit(s[4])
    && 10 * Digit(s[0]) + Digit(s[1]) < 24
    && Digit(s[3]) < 6
  }

  /** timeToMinutes on a string: split at ':' and compute hours * 60 + minutes. */
  function TextToMinutes(s: string): (m: nat)
    requires ValidText(s)
    ensures m < 24 * 60
  {
    (10 * Digit(s[0]) + Digit(s[1])) * 60 + 10 * Digit(s[3]) + Digit(s[4])
  }

  /** The time a well-formed string denotes. */
  function FromText(s: string): (t: Time)
    requires ValidText(s)
    ensures Text(t) == s
  {
    var t := Time(10 * Digit(s[0]) + Digit(s[1]), 10 * Digit(s[3]) + Digit(s[4]));
    assert Text(t)[0] == s[0] && Text(t)[1] == s[1] && Text(t)[3] == s[3] && Text(t)[4] == s[4];
    t
  }

  /** Minutes since midnight. */
  function ToMinutes(t: Time): (m: nat)
    ensures m < 24 * 60
  {
    t.hours * 60 + t.minutes
  }

  /** timeToMinutes applied to the text of a time gives its minute count,
      and that count determines the time. */
  lemma TextToMinutesOfText(t: Time)
    ensures TextToMinutes(Text(t)) == ToMinutes(t)
    ensures forall u: Time :: ToMinutes(u) == ToMinutes(t) ==> u == t
  {
    forall u: Time | ToMinutes(u) == ToMinutes(t) ensures u == t {
      assert u.hours == ToMinutes(u) / 60 && t.hours == ToMinutes(t) / 60;
    }
  }

  /** JavaScript's `<` on strings: lexicographic order of the characters,
      a proper prefix coming first. */
  predicate TextLess(a: string, b: string)
    decreases |a|
  {
    if a == [] then b != []
    else if b == [] then false
    else if a[0] != b[0] then a[0] < b[0]
    else TextLess(a[1..], b[1..])
  }

  /** On two five-character strings with the colon in the middle, the string
      order is decided by the first differing position among 0, 1, 3, 4. */
  lemma TextLessOfFive(a: string, b: string)
    requires |a| == 5 && |b| == 5 && a[2] == b[2]
    ensures TextLess(a, b) <==>
      if a[0] != b[0] then a[0] < b[0]
      else if a[1] != b[1] then a[1] < b[1]
      else if a[3] != b[3] then a[3] < b[3]
      else a[4] < b[4]
  {
    var a1, b1 := a[1..], b[1..];
    var a2, b2 := a1[1..], b1[1..];
    var a3, b3 := a2[1..], b2[1..];
    var a4, b4 := a3[1..], b3[1..];
    var a5, b5 := a4[1..], b4[1..];
    assert a5 == [] && b5 == [];
    assert a1[0] == a[1] && b1[0] == b[1];
    assert a2[0] == a[2] == b[2] == b2[0];
    assert a3[0] == a[3] && b3[0] == b[3];
    assert a4[0] == a[4] && b4[0] == b[4];
    assert TextLess(a4, b4) <==> a4[0] < b4[0] by {
      assert TextLess(a4, b4) == if a4[0] != b4[0] then a4[0] < b4[0] else TextLess(a5, b5);
    }
    assert TextLess(a3, b3) == if a3[0] != b3[0] then a3[0] < b3[0] else TextLess(a4, b4);
    assert TextLess(a2, b2) == TextLess(a3, b3);
    assert TextLess(a1, b1) == if a1[0] != b1[0] then a1[0] < b1[0] else TextLess(a2, b2);
    assert TextLess(a, b) == if a[0] != b[0] then a[0] < b[0] else TextLess(a1, b1);
  }

  /** Two-digit numbers compare like their (tens, units) pairs. */
  lemma TwoDigitOrder(x: nat, y: nat)
    requires x < 100 && y < 100
    ensures x < y <==> (x / 10 < y / 10 || (x / 10 == y / 10 && x % 10 < y % 10))
    ensures x == y <==> (x / 10 == y / 10 && x % 10 == y % 10)
  {
  }

  /** The raw string order of two well-formed times is their order in
      minutes. */
  lemma TextOrderIsMinuteOrder(a: Time, b: Time)
    ensures TextLess(Text(a), Text(b)) <==> ToMinutes(a) < ToMinutes(b)
  {
    var sa, sb := Text(a), Text(b);
    TextLessOfFive(sa, sb);
    TwoDigitOrder(a.hours, b.hours);
    TwoDigitOrder(a.minutes, b.minutes);
    assert sa[0] < sb[0] <==> a.hours / 10 < b.hours / 10;
    assert sa[1] < sb[1] <==> a.hours % 10 < b.hours % 10;
    assert sa[3] < sb[3] <==> a.minutes / 10 < b.minutes / 10;
    assert sa[4] < sb[4] <==> a.minutes % 10 < b.minutes % 10;
  }
}
