/**
  The 12-hour clock formatter both booking pages use (`formatTime` on the
  customer page, `fmtTime` on the seller page; the two bodies are the same):
  a falsy input gives "", otherwise the text is split on ':', the first field
  goes through `parseInt(_, 10)`, the suffix is "PM" for hours of 12 and more,
  the shown hour is `h % 12 || 12`, and the minutes are the first two
  characters of the second field. Text with no ':' at all makes `m.slice`
  throw; that outcome is `None` here.
*/
module TimeFormat {
  import opened Common

  predicate IsDigit(c: char) {
    '0' <= c <= '9'
  }

  function DigitValue(c: char): (d: nat)
    requires IsDigit(c)
    ensures d < 10
  {
    c as int - '0' as int
  }

  function DigitChar(d: nat): (c: char)
    requires d < 10
    ensures IsDigit(c) && DigitValue(c) == d
  {
    (d + '0' as int) as char
  }

  predicate AllDigits(s: string) {
    forall i :: 0 <= i < |s| ==> IsDigit(s[i])
  }

  /** The number a run of decimal digits denotes (leading zeros allowed). */
  function DigitsValue(s: string): nat
    requires AllDigits(s)
    decreases |s|
  {
    if s == [] then 0 else DigitsValue(s[..|s| - 1]) * 10 + DigitValue(s[|s| - 1])
  }

  /** The decimal text of `n`, without leading zeros: JavaScript's `String(n)` for a non-negative integer. */
  function NatText(n: nat): (s: string)
    ensures |s| >= 1 && AllDigits(s)
    ensures DigitsValue(s) == n
    ensures s[0] == '0' ==> n == 0
    decreases n
  {
    if n < 10 then [DigitChar(n)]
    else
      var s := NatText(n / 10) + [DigitChar(n % 10)];
      assert s[..|s| - 1] == NatText(n / 10);
      s
  }

  /** `String(n)` for any integer. */
  function IntText(n: int): string {
    if n >= 0 then NatText(n) else "-" + NatText(-n)
  }

  /** `String.prototype.split(sep)` with a one-character separator. */
  function Split(s: string, sep: char): (r: seq<string>)
    ensures |r| >= 1
    ensures forall i :: 0 <= i < |r| ==> sep !in r[i]
    ensures |r| == 1 <==> sep !in s
    decreases |s|
  {
    if s == [] then [""]
    else
      var rest := Split(s[1..], sep);
      if s[0] == sep then [""] + rest
      else
        assert s[0] !in rest[0] + [] ==> s[0] != sep;
        PrependToFirst(s[0], rest)
  }

  /** The fields with `c` put in front of the first one. */
  function PrependToFirst(c: char, fields: seq<string>): (r: seq<string>)
    requires |fields| >= 1
    ensures |r| == |fields| && r[0] == [c] + fields[0] && r[1..] == fields[1..]
  {
    [[c] + fields[0]] + fields[1..]
  }

  /** Putting a character in front of the first field commutes with appending more fields. */
  lemma PrependAppend(c: char, ra: seq<string>, rb: seq<string>)
    requires |ra| >= 1
    ensures PrependToFirst(c, ra + rb) == PrependToFirst(c, ra) + rb
  {
    assert (ra + rb)[0] == ra[0];
    assert (ra + rb)[1..] == ra[1..] + rb;
  }

  /** `Array.prototype.join(sep)`. */
  function Join(fields: seq<string>, sep: char): string
    requires |fields| >= 1
    decreases |fields|
  {
    if |fields| == 1 then fields[0] else fields[0] + [sep] + Join(fields[1..], sep)
  }

  /** Splitting and joining again gives back the text. */
  lemma {:induction false} JoinSplit(s: string, sep: char)
    ensures Join(Split(s, sep), sep) == s
    decreases |s|
  {
    if s != [] {
      var rest := Split(s[1..], sep);
      JoinSplit(s[1..], sep);
      SplitStep(s, sep);
      assert s == [s[0]] + s[1..];
      if s[0] == sep {
        assert ([""] + rest)[1..] == rest;
      } else {
        JoinPrepend(s[0], rest, sep);
      }
    }
  }

  /** Putting a character in front of the first field puts it in front of the joined text. */
  lemma JoinPrepend(c: char, fields: seq<string>, sep: char)
    requires |fields| >= 1
    ensures Join(PrependToFirst(c, fields), sep) == [c] + Join(fields, sep)
  {
    var r := PrependToFirst(c, fields);
    if |fields| > 1 {
      assert Join(r, sep) == ([c] + fields[0]) + [sep] + Join(fields[1..], sep);
    }
  }

  /** Text without the separator is a single field. */
  lemma {:induction false} SplitNoSeparator(s: string, sep: char)
    requires sep !in s
    ensures Split(s, sep) == [s]
    decreases |s|
  {
    if s != [] {
      SplitNoSeparator(s[1..], sep);
      assert s == [s[0]] + s[1..];
    }
  }

  /** One step of `Split`: the first character either ends the first field or joins it. */
  lemma SplitStep(s: string, sep: char)
    requires s != []
    ensures s[0] == sep ==> Split(s, sep) == [""] + Split(s[1..], sep)
    ensures s[0] != sep ==> Split(s, sep) == PrependToFirst(s[0], Split(s[1..], sep))
  {
  }

  /** A separator splits the text into the fields of each side. */
  lemma {:induction false} SplitAround(a: string, b: string, sep: char)
    ensures Split(a + [sep] + b, sep) == Split(a, sep) + Split(b, sep)
    decreases |a|
  {
    var s := a + [sep] + b;
    if a == [] {
      assert s[0] == sep && s[1..] == b;
      SplitStep(s, sep);
    } else {
      SplitAround(a[1..], b, sep);
      SplitAroundStep(a, b, sep);
    }
  }

  /** The inductive step of `SplitAround`: one more character in front of the left side. */
  lemma SplitAroundStep(a: string, b: string, sep: char)
    requires a != []
    requires Split(a[1..] + [sep] + b, sep) == Split(a[1..], sep) + Split(b, sep)
    ensures Split(a + [sep] + b, sep) == Split(a, sep) + Split(b, sep)
  {
    var s := a + [sep] + b;
    assert s[1..] == a[1..] + [sep] + b;
    if a[0] == sep {
      LeadingSeparator(s, a, Split(b, sep), sep);
    } else {
      LeadingChar(s, a, Split(b, sep), sep);
    }
  }

  /** A leading separator opens an empty first field on both sides. */
  lemma LeadingSeparator(s: string, a: string, rb: seq<string>, sep: char)
    requires a != [] && s != [] && a[0] == sep && s[0] == sep
    requires Split(s[1..], sep) == Split(a[1..], sep) + rb
    ensures Split(s, sep) == Split(a, sep) + rb
  {
    var ra := Split(a[1..], sep);
    assert Split(s, sep) == [""] + (ra + rb);
    assert Split(a, sep) == [""] + ra;
  }

  /** A leading ordinary character joins the first field on both sides. */
  lemma LeadingChar(s: string, a: string, rb: seq<string>, sep: char)
    requires a != [] && s != [] && a[0] != sep && s[0] == a[0]
    requires Split(s[1..], sep) == Split(a[1..], sep) + rb
    ensures Split(s, sep) == Split(a, sep) + rb
  {
    var ra := Split(a[1..], sep);
    assert Split(s, sep) == PrependToFirst(a[0], ra + rb);
    assert Split(a, sep) == PrependToFirst(a[0], ra);
    PrependAppend(a[0], ra, rb);
  }

  /**
    The characters `parseInt` skips before the number: the white space and
    line terminators of section 12.2 and 12.3 of ECMA-262, with the space
    separators of Unicode category Zs written out.
  */
  predicate IsJsSpace(c: char) {
    c == ' ' || c == '\t' || c == '\n' || c == '\r' || c == '\U{000B}' || c == '\U{000C}' ||
    c == '\U{00A0}' || c == '\U{FEFF}' || c == '\U{2028}' || c == '\U{2029}' ||
    c == '\U{1680}' || ('\U{2000}' <= c <= '\U{200A}') || c == '\U{202F}' || c == '\U{205F}' ||
    c == '\U{3000}'
  }

  function TrimStart(s: string): (r: string)
    ensures |r| <= |s|
    ensures r == [] || !IsJsSpace(r[0])
    decreases |s|
  {
    if s != [] && IsJsSpace(s[0]) then TrimStart(s[1..]) else s
  }

  /** Trimming removes only leading white space: the result is a suffix and everything before it is space. */
  lemma {:induction false} TrimStartDropsSpaces(s: string)
    ensures TrimStart(s) == s[|s| - |TrimStart(s)|..]
    ensures forall i :: 0 <= i < |s| - |TrimStart(s)| ==> IsJsSpace(s[i])
    decreases |s|
  {
    if s != [] && IsJsSpace(s[0]) {
      TrimStartDropsSpaces(s[1..]);
      assert s[1..][|s| - 1 - |TrimStart(s)|..] == s[|s| - |TrimStart(s)|..];
      forall i | 1 <= i < |s| - |TrimStart(s)| ensures IsJsSpace(s[i]) {
        assert s[i] == s[1..][i - 1];
      }
    }
  }

  /** The longest prefix of `s` made of decimal digits. */
  function DigitPrefix(s: string): (r: string)
    ensures AllDigits(r) && r <= s
    ensures |r| < |s| ==> !IsDigit(s[|r|])
    decreases |s|
  {
    if s != [] && IsDigit(s[0]) then [s[0]] + DigitPrefix(s[1..]) else []
  }

  /**
    `parseInt(s, 10)`: skip leading white space, read an optional sign, then
    the longest run of digits. `None` is `NaN` (no digit after the sign).
  */
  function ParseInt(s: string): (r: Option<int>)
  {
    var t := TrimStart(s);
    var negative := t != [] && t[0] == '-';
    var body := if t != [] && (t[0] == '-' || t[0] == '+') then t[1..] else t;
    var d := DigitPrefix(body);
    var v: int := if d == [] then 0 else DigitsValue(d);
    if d == [] then None
    else if negative then Some(-v)
    else Some(v)
  }

  /** JavaScript's `%`: the remainder takes the sign of the dividend. */
  function JsRem(a: int, b: nat): (r: int)
    requires b > 0
    ensures -(b as int) < r < b
    ensures a >= 0 ==> r == a % b
    ensures a < 0 ==> r <= 0
  {
    if a >= 0 then a % b else -((-a) % b)
  }

  /** The shown hour of `h % 12 || 12`: a zero or `NaN` remainder is falsy and shows as 12. */
  function ShownHour(h: Option<int>): (r: int)
    ensures r != 0 && -12 < r <= 12
    ensures h.Some? && h.value >= 0 ==> 1 <= r <= 12 && r % 12 == h.value % 12
  {
    if h.None? then 12
    else
      var rem := JsRem(h.value, 12);
      if rem == 0 then 12 else rem
  }

  /** `m.slice(0, 2)`. */
  function Take2(s: string): (r: string)
    ensures r <= s && |r| == if |s| < 2 then |s| else 2
  {
    if |s| < 2 then s else s[..2]
  }

  /**
    `formatTime` / `fmtTime`. `t` is `None` for `null` or `undefined`; the
    answer is `None` when the call throws.
  */
  function FormatTime(t: Option<string>): (r: Option<string>)
    ensures (t.None? || t.value == "") ==> r == Some("")
    ensures r.None? <==> t.Some? && t.value != "" && ':' !in t.value
  {
    if t.None? || t.value == "" then Some("")
    else
      var fields := Split(t.value, ':');
      if |fields| < 2 then None
      else
        Some(Show(ParseInt(fields[0]), fields[1]))
  }

  /** The text built from the parsed hour `h` and the second field `m`. */
  function Show(h: Option<int>, m: string): string {
    var suffix := if h.Some? && h.value >= 12 then "PM" else "AM";
    IntText(ShownHour(h)) + ":" + Take2(m) + " " + suffix
  }

  /** A 24-hour time as the database returns it: "HH:MM" or "HH:MM:SS", hours below 24, minutes and seconds below 60. */
  predicate WellShaped(t: string) {
    && (|t| == 5 || (|t| == 8 && t[5] == ':' && IsDigit(t[6]) && IsDigit(t[7]) && DigitValue(t[6]) < 6))
    && IsDigit(t[0]) && IsDigit(t[1]) && t[2] == ':' && IsDigit(t[3]) && IsDigit(t[4])
    && Hour(t) < 24 && DigitValue(t[3]) < 6
  }

  function Hour(t: string): nat
    requires |t| >= 2 && IsDigit(t[0]) && IsDigit(t[1])
  {
    DigitValue(t[0]) * 10 + DigitValue(t[1])
  }

  function Suffix(h: nat): string {
    if h >= 12 then "PM" else "AM"
  }

  /** The 12-hour number shown for hour `h` of the day. */
  function Hour12(h: nat): (r: nat)
    ensures 1 <= r <= 12
  {
    if h % 12 == 0 then 12 else h % 12
  }

  lemma ParseTwoDigits(s: string)
    requires |s| == 2 && AllDigits(s)
    ensures ParseInt(s) == Some(DigitValue(s[0]) * 10 + DigitValue(s[1]))
  {
    assert !IsJsSpace(s[0]) && s[0] != '-' && s[0] != '+';
    assert TrimStart(s) == s;
    DigitPrefixAll(s);
    TwoDigitsValue(s);
  }

  lemma TwoDigitsValue(s: string)
    requires |s| == 2 && AllDigits(s)
    ensures DigitsValue(s) == DigitValue(s[0]) * 10 + DigitValue(s[1])
  {
    assert s[..1][..0] == [];
    assert DigitsValue(s[..1]) == DigitValue(s[0]);
  }

  lemma WellShapedFields(t: string)
    requires WellShaped(t)
    ensures |Split(t, ':')| >= 2
    ensures Split(t, ':')[0] == t[..2] && Split(t, ':')[1] == t[3..5]
  {
    assert t == t[..2] + [':'] + t[3..];
    SplitAround(t[..2], t[3..], ':');
    SplitNoSeparator(t[..2], ':');
    SplitNoSeparator(t[3..5], ':');
    if |t| == 5 {
      assert t[3..] == t[3..5];
    } else {
      assert t[3..] == t[3..5] + [':'] + t[6..];
      SplitAround(t[3..5], t[6..], ':');
    }
  }

  /** For a well-shaped time the formatter shows `h:MM AM` or `h:MM PM` with the 12-hour number of the hour. */
  lemma {:induction false} FormatWellShaped(t: string)
    requires WellShaped(t)
    ensures FormatTime(Some(t)) == Some(NatText(Hour12(Hour(t))) + ":" + t[3..5] + " " + Suffix(Hour(t)))
  {
    WellShapedFields(t);
    ParseHour(t);
    assert FormatTime(Some(t)) == Some(Show(Some(Hour(t)), t[3..5]));
    ShowHour(Hour(t), t[3..5]);
  }

  /** `parseInt` reads the two hour digits of a well-shaped time as the hour. */
  lemma ParseHour(t: string)
    requires WellShaped(t)
    ensures ParseInt(t[..2]) == Some(Hour(t))
  {
    ParseTwoDigits(t[..2]);
    assert t[..2][0] == t[0] && t[..2][1] == t[1];
  }

  /** For a non-negative hour the text is the 12-hour number, the minutes and the suffix. */
  lemma ShowHour(h: nat, m: string)
    requires |m| == 2
    ensures Show(Some(h), m) == NatText(Hour12(h)) + ":" + m + " " + Suffix(h)
  {
    assert ShownHour(Some(h)) == Hour12(h);
    assert Take2(m) == m;
  }

  /** The suffix is "PM" exactly for hours 12 to 23, and the shown hour lies in 1..12 and has no leading zero. */
  lemma {:induction false} SuffixAndShownHour(t: string)
    requires WellShaped(t)
    ensures var r := FormatTime(Some(t)).value;
      && (r[|r| - 2..] == "PM" <==> Hour(t) >= 12)
      && exists k: nat :: 1 <= k <= 12 && r == NatText(k) + ":" + t[3..5] + " " + Suffix(Hour(t)) && r[0] != '0'
  {
    FormatWellShaped(t);
    var k := Hour12(Hour(t));
    var r := FormatTime(Some(t)).value;
    assert r == NatText(k) + ":" + t[3..5] + " " + Suffix(Hour(t));
    assert r[|r| - 2..] == Suffix(Hour(t));
    assert r[0] == NatText(k)[0];
  }

  /** Midnight shows as 12 AM and noon as 12 PM. */
  lemma MidnightAndNoon(t: string)
    requires WellShaped(t)
    ensures Hour(t) == 0 ==> FormatTime(Some(t)) == Some("12" + ":" + t[3..5] + " " + "AM")
    ensures Hour(t) == 12 ==> FormatTime(Some(t)) == Some("12" + ":" + t[3..5] + " " + "PM")
  {
    var h := Hour(t);
    var mm := t[3..5];
    FormatWellShaped(t);
    assert FormatTime(Some(t)) == Some(NatText(Hour12(h)) + ":" + mm + " " + Suffix(h));
    TwelveAtMidnightAndNoon(h);
  }

  lemma TwelveAtMidnightAndNoon(h: nat)
    ensures h == 0 || h == 12 ==> NatText(Hour12(h)) == "12"
  {
    TwelveText();
  }

  lemma TwelveText()
    ensures NatText(12) == "12"
  {
    assert NatText(1) == "1";
  }

  /** Anything after a second ':' is ignored: "18:30:45" shows like "18:30". */
  lemma {:induction false} SecondsIgnored(t: string, rest: string)
    requires ':' in t
    ensures FormatTime(Some(t + ":" + rest)) == FormatTime(Some(t))
  {
    var ft := Split(t, ':');
    SplitAround(t, rest, ':');
    var all := Split(t + [':'] + rest, ':');
    assert t + ":" + rest == t + [':'] + rest;
    assert all == ft + Split(rest, ':');
    assert all[0] == ft[0] && all[1] == ft[1];
  }

  /** An hour field that is not a number (`NaN`) shows as 12 with "AM". */
  lemma NonNumericHour(t: string)
    requires ':' in t && ParseInt(Split(t, ':')[0]).None?
    ensures FormatTime(Some(t)) == Some("12" + ":" + Take2(Split(t, ':')[1]) + " " + "AM")
  {
    var fields := Split(t, ':');
    assert FormatTime(Some(t)) == Some(Show(None, fields[1]));
    TwelveText();
    assert IntText(ShownHour(None)) == "12";
  }

  /** Two-digit text of an hour of the day. */
  function TwoDigits(h: nat): string
    requires h < 24
  {
    [DigitChar(h / 10), DigitChar(h % 10)]
  }

  /** Whether a suffix is "PM"; `None` when it is neither "AM" nor "PM". */
  function PmFlag(suffix: string): Option<bool> {
    if suffix == "AM" then Some(false) else if suffix == "PM" then Some(true) else None
  }

  /**
    Reads the shown text back into "HH:MM": the inverse of the formatter on
    well-shaped times.
  */
  function To24(shown: string): Option<string> {
    var fields := Split(shown, ':');
    if |fields| != 2 then None else Read12(ParseInt(fields[0]), fields[1])
  }

  /** The 12-hour number `h` and the rest "MM AM" or "MM PM" as a 24-hour "HH:MM". */
  function Read12(h: Option<int>, rest: string): Option<string> {
    if h.None? || !(1 <= h.value <= 12) || |rest| != 5 || rest[2] != ' ' then None
    else
      match PmFlag(rest[3..])
      case None => None
      case Some(pm) => Some(TwoDigits(h.value % 12 + if pm then 12 else 0) + ":" + rest[..2])
  }

  /** `parseInt` reads `String(n)` back as `n`. */
  lemma {:induction false} ParseNatText(n: nat)
    ensures ParseInt(NatText(n)) == Some(n)
  {
    var s := NatText(n);
    assert !IsJsSpace(s[0]);
    assert TrimStart(s) == s;
    DigitPrefixAll(s);
  }

  lemma {:induction false} DigitPrefixAll(s: string)
    requires AllDigits(s)
    ensures DigitPrefix(s) == s
    decreases |s|
  {
    if s != [] {
      DigitPrefixAll(s[1..]);
    }
  }

  /** Reading back `k:MM AM` or `k:MM PM`. */
  lemma ReadBack(k: nat, mm: string, h: nat)
    requires 1 <= k <= 12 && h < 24 && k == Hour12(h)
    requires |mm| == 2 && ':' !in mm
    ensures To24(NatText(k) + ":" + mm + " " + Suffix(h)) == Some(TwoDigits(h) + ":" + mm)
  {
    SplitShown(k, mm, h);
    ParseNatText(k);
    ReadRest(k, mm, h);
  }

  /** The shown text has exactly two ':'-fields: the hour and the rest. */
  lemma SplitShown(k: nat, mm: string, h: nat)
    requires ':' !in mm
    ensures Split(NatText(k) + ":" + mm + " " + Suffix(h), ':') == [NatText(k), mm + " " + Suffix(h)]
  {
    var hourText := NatText(k);
    var tail := mm + " " + Suffix(h);
    var shown := NatText(k) + ":" + mm + " " + Suffix(h);
    assert shown == hourText + [':'] + tail;
    assert ':' !in hourText;
    assert ':' !in tail by {
      assert forall c :: c in tail ==> c in mm || c == ' ' || c in Suffix(h);
    }
    TwoFields(hourText, tail, ':');
  }

  /** Two separator-free texts joined by one separator split back into the two. */
  lemma TwoFields(a: string, b: string, sep: char)
    requires sep !in a && sep !in b
    ensures Split(a + [sep] + b, sep) == [a, b]
  {
    SplitAround(a, b, sep);
    SplitNoSeparator(a, sep);
    SplitNoSeparator(b, sep);
    assert [a] + [b] == [a, b];
  }

  lemma ReadRest(k: nat, mm: string, h: nat)
    requires 1 <= k <= 12 && h < 24 && k == Hour12(h)
    requires |mm| == 2
    ensures Read12(Some(k), mm + " " + Suffix(h)) == Some(TwoDigits(h) + ":" + mm)
  {
    var tail := mm + " " + Suffix(h);
    assert |tail| == 5 && tail[2] == ' ' && tail[..2] == mm;
    assert tail[3..] == Suffix(h);
    assert PmFlag(Suffix(h)) == Some(h >= 12);
    Hour12Inverse(h);
  }

  /** The 12-hour number and the suffix determine the hour of the day. */
  lemma Hour12Inverse(h: nat)
    requires h < 24
    ensures Hour12(h) % 12 + (if h >= 12 then 12 else 0) == h
  {
  }

  /** The formatter loses nothing but the seconds: reading its output back gives the first five characters. */
  lemma {:induction false} FormatRoundTrip(t: string)
    requires WellShaped(t)
    ensures To24(FormatTime(Some(t)).value) == Some(t[..5])
  {
    var h := Hour(t);
    var x := FormatTime(Some(t)).value;
    assert x == NatText(Hour12(h)) + ":" + t[3..5] + " " + Suffix(h) by {
      FormatWellShaped(t);
    }
    assert To24(x) == Some(TwoDigits(h) + ":" + t[3..5]) by {
      ReadBack(Hour12(h), t[3..5], h);
    }
    assert TwoDigits(h) == t[..2] by {
      HourDigits(t);
    }
    assert t[..2] + ":" + t[3..5] == t[..5] by {
      FirstFive(t);
    }
  }

  lemma HourDigits(t: string)
    requires |t| >= 2 && IsDigit(t[0]) && IsDigit(t[1]) && Hour(t) < 24
    ensures TwoDigits(Hour(t)) == t[..2]
  {
    var h := Hour(t);
    assert h / 10 == DigitValue(t[0]) && h % 10 == DigitValue(t[1]);
  }

  lemma FirstFive(t: string)
    requires |t| >= 5 && t[2] == ':'
    ensures t[..2] + ":" + t[3..5] == t[..5]
  {
  }
}
