/** Numbers as the import sees them: `parseInt(s, 10)`, `parseFloat(s)`, the
    `toFixed(2)` rounding of an amount to cents, and `String(x)` of an amount that is a
    whole number of cents. Values are exact decimals, never binary floating point. */
module Numbers {
  import opened Wrappers
  import opened Text
  import opened Sequences

  /** The decimal value `digits / 10^scale`. */
  datatype Decimal = Decimal(digits: int, scale: nat)

  function Pow10(n: nat): (r: nat)
    ensures r >= 1
  {
    if n == 0 then 1 else 10 * Pow10(n - 1)
  }

  function Abs(x: int): nat {
    if x < 0 then -x else x
  }

  /** `d` is exactly `cents / 100`. */
  predicate Denotes(d: Decimal, cents: int) {
    d.digits * 100 == cents * Pow10(d.scale)
  }

  predicate AllDigits(s: string) {
    forall i :: 0 <= i < |s| ==> IsDigit(s[i])
  }

  function DigitValue(c: char): nat
    requires IsDigit(c)
  {
    c as int - '0' as int
  }

  function DigitChar(n: nat): (c: char)
    requires n < 10
    ensures IsDigit(c) && DigitValue(c) == n
  {
    ('0' as int + n) as char
  }

  /** The value of a run of decimal digits, most significant first. */
  function DigitsValue(ds: string): nat
    requires AllDigits(ds)
    decreases |ds|
  {
    if ds == [] then 0 else 10 * DigitsValue(ds[..|ds| - 1]) + DigitValue(ds[|ds| - 1])
  }

  /** The longest prefix of `s` made of decimal digits. */
  function LeadingDigits(s: string): (r: string)
    ensures r <= s && AllDigits(r)
    ensures |r| == |s| || !IsDigit(s[|r|])
  {
    if s != [] && IsDigit(s[0]) then [s[0]] + LeadingDigits(s[1..]) else []
  }

  lemma {:induction false} LeadingDigitsOf(ds: string, rest: string)
    requires AllDigits(ds)
    requires rest == [] || !IsDigit(rest[0])
    ensures LeadingDigits(ds + rest) == ds
  {
    if ds != [] {
      assert (ds + rest)[1..] == ds[1..] + rest;
      LeadingDigitsOf(ds[1..], rest);
    } else {
      assert ds + rest == rest;
    }
  }

  /** An optional leading `-` or `+`: whether the number is negative, and what follows the sign. */
  datatype Signed = Signed(negative: bool, rest: string)

  function SplitSign(s: string): (r: Signed)
    ensures |r.rest| <= |s|
  {
    if s != [] && s[0] == '-' then Signed(true, s[1..])
    else if s != [] && s[0] == '+' then Signed(false, s[1..])
    else Signed(false, s)
  }

  /** `parseInt(s, 10)`: leading white space, an optional sign, then as many decimal
      digits as there are; `None` stands for `NaN` (no digit at all). */
  function ParseInt(s: string): (r: Option<int>)
    ensures r.Some? <==> LeadingDigits(SplitSign(TrimStart(s)).rest) != []
  {
    var sg := SplitSign(TrimStart(s));
    var ds := LeadingDigits(sg.rest);
    if ds == [] then None
    else
      var v: int := DigitsValue(ds);
      Some(if sg.negative then -v else v)
  }

  /** `parseFloat(s)` for the decimal grammar: leading white space, an optional sign,
      digits, optionally `.` and more digits, at least one digit in all; the rest of
      the text is ignored. `None` stands for `NaN`. */
  function ParseFloat(s: string): (r: Option<Decimal>)
    ensures r.Some? ==> r.value.scale <= |s|
  {
    var sg := SplitSign(TrimStart(s));
    var whole := LeadingDigits(sg.rest);
    var after := sg.rest[|whole|..];
    var frac := if after != [] && after[0] == '.' then LeadingDigits(after[1..]) else [];
    if whole == [] && frac == [] then None
    else
      var m: int := DigitsValue(whole + frac);
      Some(Decimal(if sg.negative then -m else m, |frac|))
  }

  /** `parseFloat(String(x).replace(',', '.')) || 0` for a cell's text: only the first
      comma becomes a decimal point, and `NaN` and zero both give zero. */
  function AmountFromText(t: string): (d: Decimal)
    ensures ParseFloat(ReplaceFirst(t, ',', '.')).None? ==> d.digits == 0
  {
    match ParseFloat(ReplaceFirst(t, ',', '.'))
    case None => Decimal(0, 0)
    case Some(d) => if d.digits == 0 then Decimal(0, 0) else d
  }

  /** The number an edited amount field is read as:
      `parseFloat(t.replace(/[^0-9,-]+/g, "").replace(',', '.')) || 0`. */
  function EditedAmount(t: string): Decimal {
    AmountFromText(AmountChars(t))
  }

  /** The exact value of a decimal, for sums. */
  function Value(d: Decimal): real {
    d.digits as real / Pow10(d.scale) as real
  }

  /** `parseFloat(x.toFixed(2))` in cents: the magnitude is rounded to the nearest cent,
      a half cent upwards, and the sign is kept. */
  function RoundCents(d: Decimal): (r: int)
    ensures 2 * Abs(r) * Pow10(d.scale) <= 200 * Abs(d.digits) + Pow10(d.scale)
    ensures 200 * Abs(d.digits) + Pow10(d.scale) < 2 * Abs(r) * Pow10(d.scale) + 2 * Pow10(d.scale)
    ensures d.digits >= 0 ==> r >= 0
    ensures d.digits <= 0 ==> r <= 0
  {
    var e := Pow10(d.scale);
    var n: int := HalfUp(Abs(d.digits), e);
    if d.digits < 0 then -n else n
  }

  /** `floor(100 * a / e + 1/2)`, the number of cents nearest to `a / e`. */
  function HalfUp(a: nat, e: int): (n: nat)
    requires e >= 1
    ensures 2 * n * e <= 200 * a + e < 2 * n * e + 2 * e
  {
    var x := 200 * a + e;
    var q := 2 * e;
    var n := x / q;
    assert q * n <= x < q * n + q;
    assert 2 * n * e == q * n;
    n
  }

  lemma {:induction false} MulAtLeast(k: int, e: int)
    requires k >= 1 && e >= 1
    ensures k * e >= e
  {
    if k > 1 {
      MulAtLeast(k - 1, e);
      assert k * e == (k - 1) * e + e;
    }
  }

  lemma ScaleCancel(x: int, y: int, e: int)
    requires e >= 1
    requires 2 * x * e <= 2 * y * e + e
    ensures x <= y
  {
    assert 2 * x * e - 2 * y * e == 2 * ((x - y) * e);
    if x > y {
      MulAtLeast(x - y, e);
    }
  }

  /** A decimal that is a whole number of cents rounds to exactly those cents. */
  lemma RoundCentsExact(d: Decimal, cents: int)
    requires Denotes(d, cents)
    ensures RoundCents(d) == cents
  {
    var e := Pow10(d.scale);
    var r := RoundCents(d);
    assert 100 * Abs(d.digits) == Abs(cents) * e by {
      if d.digits < 0 {
        assert cents * e < 0;
        assert cents < 0;
      } else if d.digits > 0 {
        assert cents * e > 0;
      } else {
        assert cents * e == 0;
      }
    }
    ScaleCancel(Abs(r), Abs(cents), e);
    ScaleCancel(Abs(cents), Abs(r), e);
    assert d.digits > 0 ==> cents > 0;
    assert d.digits < 0 ==> cents < 0;
  }

  /** The decimal digits of `n`, without leading zeros. */
  function NatText(n: nat): (r: string)
    ensures r != [] && AllDigits(r) && DigitsValue(r) == n
    decreases n
  {
    if n < 10 then [DigitChar(n)]
    else
      var r := NatText(n / 10) + [DigitChar(n % 10)];
      assert r[..|r| - 1] == NatText(n / 10);
      r
  }

  /** Text that starts with a digit has no leading white space and no sign. */
  lemma DigitFirst(s: string)
    requires s != [] && IsDigit(s[0])
    ensures TrimStart(s) == s
    ensures SplitSign(s) == Signed(false, s)
  {
  }

  /** The text of a signed decimal number in the grammar of `parseFloat`. */
  function NumberText(negative: bool, whole: string, frac: string): string {
    var body := whole + (if frac == [] then [] else "." + frac);
    if negative then "-" + body else body
  }

  /** What `parseFloat` reads once the sign is split off and the digit runs are known. */
  lemma ParseFloatFrom(s: string, negative: bool, body: string, whole: string, frac: string)
    requires whole != [] && AllDigits(whole) && AllDigits(frac)
    requires SplitSign(TrimStart(s)) == Signed(negative, body)
    requires LeadingDigits(body) == whole
    requires var after := body[|whole|..];
      frac == if after != [] && after[0] == '.' then LeadingDigits(after[1..]) else []
    ensures ParseFloat(s).Some? && ParseFloat(s).value.scale == |frac|
    ensures var v: int := DigitsValue(whole + frac); ParseFloat(s).value.digits == if negative then -v else v
  {
  }

  lemma Shift(x: int, p: int, y: int, d: int)
    ensures 10 * (x * p + y) + d == x * (10 * p) + (10 * y + d)
  {
  }

  /** Digits written after others shift them by a power of ten. */
  lemma {:induction false} DigitsValueAppend(a: string, b: string)
    requires AllDigits(a) && AllDigits(b)
    ensures DigitsValue(a + b) == DigitsValue(a) * Pow10(|b|) + DigitsValue(b)
    decreases |b|
  {
    if b == [] {
      assert a + b == a;
    } else {
      var b' := b[..|b| - 1];
      assert (a + b)[..|a + b| - 1] == a + b';
      DigitsValueAppend(a, b');
      Shift(DigitsValue(a), Pow10(|b'|), DigitsValue(b'), DigitValue(b[|b| - 1]));
    }
  }

  /** A sign followed by a digit: `parseFloat` sees the sign and then the digits. */
  lemma SignBeforeDigit(negative: bool, body: string)
    requires body != [] && IsDigit(body[0])
    ensures SplitSign(TrimStart(if negative then "-" + body else body)) == Signed(negative, body)
  {
    if negative {
      var s := "-" + body;
      assert s[0] == '-' && s[1..] == body;
    } else {
      DigitFirst(body);
    }
  }

  /** The digit runs of `whole` followed by an optional `.` and `frac`. */
  lemma DigitRuns(whole: string, frac: string)
    requires whole != [] && AllDigits(whole) && AllDigits(frac)
    ensures var body := whole + (if frac == [] then [] else "." + frac);
      && body != [] && IsDigit(body[0])
      && LeadingDigits(body) == whole
      && var after := body[|whole|..];
         frac == if after != [] && after[0] == '.' then LeadingDigits(after[1..]) else []
  {
    var tail: string := if frac == [] then [] else "." + frac;
    var body := whole + tail;
    assert body[0] == whole[0];
    LeadingDigitsOf(whole, tail);
    assert body[|whole|..] == tail;
    if frac != [] {
      assert tail[1..] == frac + [];
      LeadingDigitsOf(frac, []);
    }
  }

  lemma ParseNumberText(negative: bool, whole: string, frac: string)
    requires whole != [] && AllDigits(whole) && AllDigits(frac)
    ensures ParseFloat(NumberText(negative, whole, frac)).Some?
    ensures ParseFloat(NumberText(negative, whole, frac)).value.scale == |frac|
    ensures var v: int := DigitsValue(whole + frac);
      ParseFloat(NumberText(negative, whole, frac)).value.digits == if negative then -v else v
  {
    var body := whole + (if frac == [] then [] else "." + frac);
    DigitRuns(whole, frac);
    SignBeforeDigit(negative, body);
    ParseFloatFrom(NumberText(negative, whole, frac), negative, body, whole, frac);
  }

  /** `a` and `b` stand for the same number. */
  predicate SameValue(a: Decimal, b: Decimal) {
    a.digits * Pow10(b.scale) == b.digits * Pow10(a.scale)
  }

  lemma TenTimes(x: int, p: int, q: int)
    requires x * p == q
    ensures x * (10 * p) == 10 * q
  {
  }

  /** The same number with its trailing zero decimals dropped: the shortest form. */
  function Trimmed(d: Decimal): (r: Decimal)
    ensures r.scale <= d.scale
    ensures r.scale == 0 || r.digits % 10 != 0
    ensures r.digits * Pow10(d.scale - r.scale) == d.digits
    decreases d.scale
  {
    if d.scale > 0 && d.digits % 10 == 0 then
      var r := Trimmed(Decimal(d.digits / 10, d.scale - 1));
      TenTimes(r.digits, Pow10(d.scale - 1 - r.scale), d.digits / 10);
      r
    else d
  }

  /** The number `f` written in exactly `n` decimal places, with leading zeros. */
  function Places(f: nat, n: nat): (r: string)
    requires f < Pow10(n)
    ensures |r| == n && AllDigits(r) && DigitsValue(r) == f
    decreases n
  {
    if n == 0 then []
    else
      var r := Places(f / 10, n - 1) + [DigitChar(f % 10)];
      assert r[..|r| - 1] == Places(f / 10, n - 1);
      r
  }

  /** `String(x)` for the number `x` that `d` stands for, in positional notation: an
      optional `-`, the integer part, then `.` and the decimals unless there are none,
      without trailing zeros. */
  function DecimalText(d: Decimal): string {
    var t := Trimmed(d);
    var v := Abs(t.digits);
    var p := Pow10(t.scale);
    DivMod(v, p);
    NumberText(t.digits < 0, NatText(v / p), Places(v % p, t.scale))
  }

  lemma DivMod(v: nat, p: int)
    requires p > 0
    ensures v / p >= 0 && 0 <= v % p < p
    ensures (v / p) * p + v % p == v
  {
  }

  /** Reading back the text of a number gives the number, in its shortest form:
      `parseFloat(String(x)) == x`. */
  lemma DecimalTextRoundTrip(d: Decimal)
    ensures ParseFloat(DecimalText(d)) == Some(Trimmed(d))
  {
    var t := Trimmed(d);
    var v := Abs(t.digits);
    var p := Pow10(t.scale);
    DivMod(v, p);
    var whole, frac := NatText(v / p), Places(v % p, t.scale);
    ParseNumberText(t.digits < 0, whole, frac);
    DigitsValueAppend(whole, frac);
    Recombine(DigitsValue(whole + frac), DigitsValue(whole), DigitsValue(frac), v, p);
  }

  lemma Recombine(m: int, w: int, f: int, v: int, p: int)
    requires p > 0 && m == w * p + f && w == v / p && f == v % p
    ensures m == v
  {
  }

  lemma NumberTextLacks(negative: bool, whole: string, frac: string, c: char)
    requires AllDigits(whole) && AllDigits(frac) && !IsDigit(c) && c != '-' && c != '.'
    ensures c !in NumberText(negative, whole, frac)
  {
    DigitsLack(whole, c);
    DigitsLack(frac, c);
  }

  lemma Pow10Split(k: nat)
    requires k <= 2
    ensures Pow10(k) * Pow10(2 - k) == 100
  {
    assert Pow10(1) == 10;
    assert Pow10(2) == 100;
  }

  lemma CrossMultiply(x: int, p: int, q: int, c: int)
    requires x * q == c && p * q == 100
    ensures x * 100 == c * p
  {
    assert c * p == x * (p * q);
  }

  /** A number cell holding a whole number of cents: the import reads its text
      (`String(x)`, then the comma rule and `parseFloat`) and rounds it back to exactly
      those cents. */
  lemma NumberCellAmount(cents: int)
    ensures Denotes(AmountFromText(DecimalText(Decimal(cents, 2))), cents)
    ensures RoundCents(AmountFromText(DecimalText(Decimal(cents, 2)))) == cents
  {
    var d := Decimal(cents, 2);
    var t := Trimmed(d);
    var v := Abs(t.digits);
    var p := Pow10(t.scale);
    DivMod(v, p);
    NumberTextLacks(t.digits < 0, NatText(v / p), Places(v % p, t.scale), ',');
    ReplaceFirstAbsent(DecimalText(d), ',', '.');
    DecimalTextRoundTrip(d);
    Pow10Split(t.scale);
    CrossMultiply(t.digits, p, Pow10(2 - t.scale), cents);
    if t.digits == 0 {
      RoundCentsExact(Decimal(0, 0), cents);
    } else {
      RoundCentsExact(t, cents);
    }
  }

  /** Reading back the digits of a number with `parseInt` gives the number, whatever
      non-digit text follows it. */
  lemma ParseIntNatText(n: nat, rest: string)
    requires rest == [] || !IsDigit(rest[0])
    ensures ParseInt(NatText(n) + rest) == Some(n)
  {
    var s := NatText(n) + rest;
    assert s[0] == NatText(n)[0];
    DigitFirst(s);
    LeadingDigitsOf(NatText(n), rest);
  }

  /** Any run of digits after white space is read as its value, leading zeros
      included (`"01"` is 1), up to the first non-digit. */
  lemma ParseIntDigits(ws: string, ds: string, rest: string)
    requires AllSpace(ws)
    requires ds != [] && AllDigits(ds)
    requires rest == [] || !IsDigit(rest[0])
    ensures ParseInt(ws + ds + rest) == Some(DigitsValue(ds))
  {
    UnsignedDigits(ws, ds, rest);
    ParseIntAfterSign(ws + ds + rest, false, ds, rest);
  }

  /** The same run of digits after a minus sign is read as its negated value. */
  lemma ParseIntNegativeDigits(ws: string, ds: string, rest: string)
    requires AllSpace(ws)
    requires ds != [] && AllDigits(ds)
    requires rest == [] || !IsDigit(rest[0])
    ensures ParseInt(ws + "-" + ds + rest) == Some(-(DigitsValue(ds) as int))
  {
    NegatedDigits(ws, ds, rest);
    ParseIntAfterSign(ws + "-" + ds + rest, true, ds, rest);
  }

  lemma ParseIntAfterSign(s: string, negative: bool, ds: string, rest: string)
    requires SplitSign(TrimStart(s)) == Signed(negative, ds + rest)
    requires ds != [] && AllDigits(ds)
    requires rest == [] || !IsDigit(rest[0])
    ensures ParseInt(s) == Some(if negative then -(DigitsValue(ds) as int) else DigitsValue(ds))
  {
    LeadingDigitsOf(ds, rest);
  }

  lemma UnsignedDigits(ws: string, ds: string, rest: string)
    requires AllSpace(ws)
    requires ds != [] && AllDigits(ds)
    ensures SplitSign(TrimStart(ws + ds + rest)) == Signed(false, ds + rest)
  {
    Associative(ws, ds, rest);
    assert (ds + rest)[0] == ds[0];
    TrimStartSpaces(ws, ds + rest);
  }

  lemma NegatedDigits(ws: string, ds: string, rest: string)
    requires AllSpace(ws)
    ensures SplitSign(TrimStart(ws + "-" + ds + rest)) == Signed(true, ds + rest)
  {
    var t := "-" + (ds + rest);
    assert ws + "-" + ds + rest == ws + t;
    assert t[0] == '-' && t[1..] == ds + rest;
    TrimStartSpaces(ws, t);
  }

  lemma DigitsLack(s: string, c: char)
    requires AllDigits(s) && !IsDigit(c)
    ensures c !in s
  {
    forall i | 0 <= i < |s| ensures s[i] != c {
      assert IsDigit(s[i]);
    }
  }

  /** An amount written with a thousands separator, `"1.234,56"`: the comma becomes a
      point, and `parseFloat` stops at that second point, so only the digits before it
      are read (`1.234` in place of `1234.56`). */
  lemma {:induction false} ThousandsSeparatorEndsParse(whole: string, group: string, cents: string)
    requires whole != [] && AllDigits(whole) && AllDigits(group) && AllDigits(cents)
    ensures var v := DigitsValue(whole + group);
      AmountFromText(whole + "." + group + "," + cents)
        == if v == 0 then Decimal(0, 0) else Decimal(v, |group|)
  {
    CommaAfterGroup(whole, group, cents);
    PointAfterGroup(whole, group, cents);
  }

  lemma CommaAfterGroup(whole: string, group: string, cents: string)
    requires AllDigits(whole) && AllDigits(group)
    ensures ReplaceFirst(whole + "." + group + "," + cents, ',', '.') == whole + "." + group + "." + cents
  {
    var pre := whole + "." + group;
    DigitsLack(whole, ',');
    DigitsLack(group, ',');
    assert pre + "," + cents == pre + [','] + cents;
    ReplaceFirstAt(pre, cents, ',', '.');
    assert pre + ['.'] + cents == whole + "." + group + "." + cents;
  }

  lemma PointAfterGroup(whole: string, group: string, cents: string)
    requires whole != [] && AllDigits(whole) && AllDigits(group) && AllDigits(cents)
    ensures ParseFloat(whole + "." + group + "." + cents) == Some(Decimal(DigitsValue(whole + group), |group|))
  {
    assert whole + "." + group + "." + cents == whole + (['.'] + (group + ("." + cents)));
    ParseBeforeStop(whole, group, "." + cents);
  }

  /** `parseFloat` reads digits, a point and digits, and stops at the first character
      that is not a digit. */
  lemma ParseBeforeStop(whole: string, frac: string, stop: string)
    requires whole != [] && AllDigits(whole) && AllDigits(frac)
    requires stop == [] || !IsDigit(stop[0])
    ensures ParseFloat(whole + (['.'] + (frac + stop))) == Some(Decimal(DigitsValue(whole + frac), |frac|))
  {
    var t := whole + (['.'] + (frac + stop));
    RunsBeforeStop(whole, frac, stop);
    DigitFirst(t);
    ParseFloatFrom(t, false, t, whole, frac);
  }

  /** The digit runs of `whole`, a `.`, then `frac` followed by text that is not a digit. */
  lemma RunsBeforeStop(whole: string, frac: string, stop: string)
    requires whole != [] && AllDigits(whole) && AllDigits(frac)
    requires stop == [] || !IsDigit(stop[0])
    ensures var tail := ['.'] + (frac + stop);
      var body := whole + tail;
      && IsDigit(body[0]) && LeadingDigits(body) == whole && body[|whole|..] == tail
      && tail[0] == '.' && tail[1..] == frac + stop && LeadingDigits(frac + stop) == frac
  {
    var tail := ['.'] + (frac + stop);
    var body := whole + tail;
    assert body[0] == whole[0];
    LeadingDigitsOf(whole, tail);
    assert body[|whole|..] == tail;
    LeadingDigitsOf(frac, stop);
  }

  /** The text of a number written with a decimal comma. */
  function CommaText(negative: bool, whole: string, frac: string): string {
    var body := whole + "," + frac;
    if negative then "-" + body else body
  }

  /** Replacing the first comma of a number with a decimal comma gives its text with a point. */
  lemma CommaBecomesPoint(negative: bool, whole: string, frac: string)
    requires AllDigits(whole) && AllDigits(frac) && frac != []
    ensures ReplaceFirst(CommaText(negative, whole, frac), ',', '.') == NumberText(negative, whole, frac)
  {
    var pre := (if negative then "-" else "") + whole;
    DigitsLack(whole, ',');
    DigitsLack(frac, ',');
    assert CommaText(negative, whole, frac) == pre + [','] + frac;
    ReplaceFirstAt(pre, frac, ',', '.');
    var n := NumberText(negative, whole, frac);
    assert "." + frac == ['.'] + frac;
    if negative {
      assert n == "-" + (whole + (['.'] + frac));
    } else {
      assert n == whole + (['.'] + frac);
    }
    assert n == pre + ['.'] + frac;
  }

  /** A decimal comma is read as a decimal point: `"-50,25"` is the number `-50.25`. */
  lemma DecimalCommaIsRead(negative: bool, whole: string, frac: string)
    requires whole != [] && AllDigits(whole) && AllDigits(frac) && frac != []
    ensures var v: int := DigitsValue(whole + frac);
      AmountFromText(CommaText(negative, whole, frac))
        == if v == 0 then Decimal(0, 0) else Decimal(if negative then -v else v, |frac|)
  {
    CommaBecomesPoint(negative, whole, frac);
    ParseNumberText(negative, whole, frac);
  }

  /** An amount as the Italian format shows it: sign, thousands, grouping point,
      three more digits, decimal comma, decimals, then a suffix such as `" €"`. */
  function ItalianAmountText(negative: bool, thousands: string, group: string, frac: string, suffix: string): string {
    (if negative then "-" else "") + (thousands + ("." + (group + ("," + (frac + suffix)))))
  }

  lemma CommaTextShape(negative: bool, thousands: string, group: string, frac: string)
    ensures CommaText(negative, thousands + group, frac)
      == (if negative then "-" else "") + (thousands + (group + ("," + frac)))
  {
  }

  lemma CleanItalianAmount(negative: bool, thousands: string, group: string, frac: string, suffix: string)
    requires AllDigits(thousands) && AllDigits(group) && AllDigits(frac)
    requires forall i :: 0 <= i < |suffix| ==> !IsAmountChar(suffix[i])
    ensures AmountChars(ItalianAmountText(negative, thousands, group, frac, suffix))
      == CommaText(negative, thousands + group, frac)
  {
    var sign: string := if negative then "-" else "";
    AmountCharsNone(suffix);
    AmountCharsAppend(frac, suffix);
    AmountCharsAppend(",", frac + suffix);
    AmountCharsAppend(group, "," + (frac + suffix));
    AmountCharsAppend(".", group + ("," + (frac + suffix)));
    AmountCharsAppend(thousands, "." + (group + ("," + (frac + suffix))));
    AmountCharsAppend(sign, thousands + ("." + (group + ("," + (frac + suffix)))));
    assert AmountChars(".") == [];
    assert AmountChars(",") == ",";
    assert AmountChars(sign) == sign;
    assert frac + [] == frac;
    CommaTextShape(negative, thousands, group, frac);
  }

  /** An amount typed as the Italian format shows it, `"1.234,56 €"`: the grouping
      point and the currency sign are removed, and the decimal comma is read as a
      point, so the edit gives `1234.56`. */
  lemma EditReadsItalianFormat(negative: bool, thousands: string, group: string, frac: string, suffix: string)
    requires thousands != [] && AllDigits(thousands) && AllDigits(group)
    requires frac != [] && AllDigits(frac)
    requires forall i :: 0 <= i < |suffix| ==> !IsAmountChar(suffix[i])
    ensures var v: int := DigitsValue(thousands + group + frac);
      EditedAmount(ItalianAmountText(negative, thousands, group, frac, suffix))
        == if v == 0 then Decimal(0, 0) else Decimal(if negative then -v else v, |frac|)
  {
    CleanItalianAmount(negative, thousands, group, frac, suffix);
    DecimalCommaIsRead(negative, thousands + group, frac);
  }

  lemma {:induction false} AmountCharsNone(s: string)
    requires forall i :: 0 <= i < |s| ==> !IsAmountChar(s[i])
    ensures AmountChars(s) == []
  {
    if s != [] {
      AmountCharsNone(s[1..]);
    }
  }
}
