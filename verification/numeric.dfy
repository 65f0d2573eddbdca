/** Decimal text and integer arithmetic as the C library and the C language
    perform them in climate.c: `atoi` and `atof` on one field, division of
    an `int` by a positive constant (truncating toward zero), and the
    conversion of a floating value to `int` (also truncating). */
module Numeric {

  /** The characters `isspace` accepts in the C locale: space, and tab
      through carriage return. */
  predicate IsSpace(c: char) {
    c == ' ' || 9 <= c as int <= 13
  }

  predicate IsDigit(c: char) {
    '0' <= c <= '9'
  }

  predicate AllDigits(s: string) {
    forall i :: 0 <= i < |s| ==> IsDigit(s[i])
  }

  function DigitValue(c: char): (d: nat)
    requires IsDigit(c)
    ensures d < 10
  {
    c as int - '0' as int
  }

  function DigitChar(d: nat): (c: char)
    requires d < 10
    ensures IsDigit(c) && DigitValue(c) == d
  {
    ('0' as int + d) as char
  }

  /** The number a string of decimal digits denotes, most significant first. */
  function DigitsValue(ds: string): nat
    requires AllDigits(ds)
  {
    if ds == [] then 0 else DigitsValue(ds[..|ds| - 1]) * 10 + DigitValue(ds[|ds| - 1])
  }

  function Pow10(n: nat): (p: nat)
    ensures p >= 1
  {
    if n == 0 then 1 else 10 * Pow10(n - 1)
  }

  /** The shortest decimal rendering of a natural number; reading it back
      gives the number again. */
  function ShowNat(n: nat): (s: string)
    ensures |s| >= 1 && AllDigits(s)
    ensures DigitsValue(s) == n
  {
    if n < 10 then [DigitChar(n)]
    else
      var s := ShowNat(n / 10) + [DigitChar(n % 10)];
      assert s[..|s| - 1] == ShowNat(n / 10);
      s
  }

  /** A signed rendering: a minus sign before the digits of a negative number. */
  function ShowInt(n: int): (s: string)
    ensures |s| >= 1
  {
    if n < 0 then "-" + ShowNat(-n) else ShowNat(n)
  }

  /** What is left after the leading white space `strtol` and `strtod` skip. */
  function SkipSpace(s: string): (r: string)
    ensures |r| <= |s| && r == s[|s| - |r|..]
    ensures forall i :: 0 <= i < |s| - |r| ==> IsSpace(s[i])
    ensures r == [] || !IsSpace(r[0])
  {
    s[LeadingSpaces(s)..]
  }

  /** The number of white-space characters that start the text. */
  function LeadingSpaces(s: string): (n: nat)
    ensures n <= |s| && forall i :: 0 <= i < n ==> IsSpace(s[i])
    ensures n == |s| || !IsSpace(s[n])
  {
    if s != [] && IsSpace(s[0]) then 1 + LeadingSpaces(s[1..]) else 0
  }

  /** Whether the text starts with a minus sign. */
  predicate Negative(s: string) {
    s != [] && s[0] == '-'
  }

  /** The text after an optional sign. */
  function Unsigned(s: string): (u: string)
    ensures |u| <= |s|
  {
    if s != [] && (s[0] == '-' || s[0] == '+') then s[1..] else s
  }

  /** The length of the longest run of digits that starts the string. */
  function LeadingDigits(s: string): (n: nat)
    ensures n <= |s| && AllDigits(s[..n])
    ensures n == |s| || !IsDigit(s[n])
  {
    if s == [] || !IsDigit(s[0]) then 0
    else
      1 + LeadingDigits(s[1..])
  }

  /** `whole.fraction` as an exact rational number. */
  function Magnitude(whole: nat, fraction: string): real
    requires AllDigits(fraction)
  {
    whole as real + DigitsValue(fraction) as real / Pow10(|fraction|) as real
  }

  /** The number of digits `atoi` and `atof` read before any point: the
      digit run after the white space and the optional sign. */
  function DigitsRead(s: string): nat {
    LeadingDigits(Unsigned(SkipSpace(s)))
  }

  /** `atoi`: leading white space, an optional sign, then the longest run of
      digits; 0 when there are no digits. The result has the sign that was
      written and no more digits than were read. It is a mathematical
      integer: the 32-bit `int` the C function returns is not modelled here. */
  function Atoi(s: string): (n: int)
    ensures Negative(SkipSpace(s)) ==> n <= 0
    ensures !Negative(SkipSpace(s)) ==> n >= 0
    ensures -(Pow10(DigitsRead(s)) as int) < n < Pow10(DigitsRead(s))
  {
    var t := SkipSpace(s);
    var u := Unsigned(t);
    var ds := u[..LeadingDigits(u)];
    DigitsBound(ds);
    var m: int := DigitsValue(ds);
    if Negative(t) then -m else m
  }

  /** `atof` on plain decimal notation: leading white space, an optional
      sign, a run of digits, then optionally a point and a second run of
      digits; 0 when there are no digits. The result has the sign that was
      written and its whole part has no more digits than were read; with
      no digits before or after a point it is 0. */
  function Atof(s: string): (x: real)
    ensures Negative(SkipSpace(s)) ==> x <= 0.0
    ensures !Negative(SkipSpace(s)) ==> x >= 0.0
    ensures -(Pow10(DigitsRead(s)) as real) < x < Pow10(DigitsRead(s)) as real
    ensures DigitsRead(s) == 0 && FractionDigits(Unsigned(SkipSpace(s))) == [] ==> x == 0.0
  {
    var t := SkipSpace(s);
    var u := Unsigned(t);
    var n := LeadingDigits(u);
    DigitsBound(u[..n]);
    MagnitudeBound(DigitsValue(u[..n]), FractionDigits(u[n..]));
    var m := Magnitude(DigitsValue(u[..n]), FractionDigits(u[n..]));
    if Negative(t) then -m else m
  }

  /** A run of k digits denotes less than 10^k. */
  lemma {:induction false} DigitsBound(ds: string)
    requires AllDigits(ds)
    ensures DigitsValue(ds) < Pow10(|ds|)
    decreases |ds|
  {
    if ds != [] {
      var init := ds[..|ds| - 1];
      DigitsBound(init);
      assert DigitsValue(ds) == DigitsValue(init) * 10 + DigitValue(ds[|ds| - 1]);
      assert Pow10(|ds|) == 10 * Pow10(|init|);
      assert DigitsValue(init) * 10 <= (Pow10(|init|) - 1) * 10;
    }
  }

  /** The digits after the point add less than one to the whole part. */
  lemma MagnitudeBound(whole: nat, fraction: string)
    requires AllDigits(fraction)
    ensures whole as real <= Magnitude(whole, fraction) < whole as real + 1.0
  {
    DigitsBound(fraction);
    BelowOne(DigitsValue(fraction) as real, Pow10(|fraction|) as real);
  }

  lemma BelowOne(f: real, p: real)
    requires 0.0 <= f < p
    ensures 0.0 <= f / p < 1.0
  {
    var q := f / p;
    assert q * p == f;
  }

  /** The digits after a decimal point that starts the text, if one does. */
  function FractionDigits(rest: string): (ds: string)
    ensures AllDigits(ds)
  {
    if rest != [] && rest[0] == '.' then rest[1..][..LeadingDigits(rest[1..])] else []
  }

  /** A decimal number as it is written in an input field: sign, whole part
      and the digits after the point (none means no point is written). */
  datatype Decimal = Decimal(negative: bool, whole: nat, fraction: string) {

    predicate Valid() {
      AllDigits(fraction)
    }

    function Value(): real
      requires Valid()
    {
      var m := Magnitude(whole, fraction);
      if negative then -m else m
    }

    function Show(): (s: string)
      requires Valid()
      ensures |s| >= 1
    {
      (if negative then "-" else "") + ShowNat(whole) + (if fraction == [] then "" else "." + fraction)
    }
  }

  lemma {:induction false} LeadingDigitsOfDigits(ds: string, rest: string)
    requires AllDigits(ds)
    requires rest == [] || !IsDigit(rest[0])
    ensures LeadingDigits(ds + rest) == |ds|
    decreases |ds|
  {
    if ds != [] {
      assert (ds + rest)[1..] == ds[1..] + rest;
      LeadingDigitsOfDigits(ds[1..], rest);
    } else {
      assert ds + rest == rest;
    }
  }

  /** Reading digits back after a sign: the shared step of both round trips. */
  lemma ReadSigned(negative: bool, ds: string, rest: string)
    requires |ds| >= 1 && AllDigits(ds)
    requires rest == [] || !IsDigit(rest[0])
    ensures var t := SkipSpace((if negative then "-" else "") + (ds + rest));
            Negative(t) == negative && Unsigned(t) == ds + rest
    ensures LeadingDigits(ds + rest) == |ds|
    ensures (ds + rest)[..|ds|] == ds && (ds + rest)[|ds|..] == rest
  {
    assert (ds + rest)[0] == ds[0];
    ReadSign(negative, ds + rest);
    DigitsThenRest(ds, rest);
  }

  /** After an optional minus sign and no white space, a digit run starts
      the unsigned text. */
  lemma ReadSign(negative: bool, u: string)
    requires |u| >= 1 && IsDigit(u[0])
    ensures var t := SkipSpace((if negative then "-" else "") + u);
            Negative(t) == negative && Unsigned(t) == u
  {
    if negative {
      assert (if negative then "-" else "") + u == "-" + u;
      ReadMinus(u);
    } else {
      assert (if negative then "-" else "") + u == u;
      ReadPlain(u);
    }
  }

  lemma DigitsThenRest(ds: string, rest: string)
    requires AllDigits(ds)
    requires rest == [] || !IsDigit(rest[0])
    ensures LeadingDigits(ds + rest) == |ds|
    ensures (ds + rest)[..|ds|] == ds && (ds + rest)[|ds|..] == rest
  {
    LeadingDigitsOfDigits(ds, rest);
  }

  lemma ReadMinus(u: string)
    ensures SkipSpace("-" + u) == "-" + u
    ensures Negative("-" + u) && Unsigned("-" + u) == u
  {
    var s := "-" + u;
    assert s[0] == '-' && !IsSpace(s[0]);
    NoSpaceFirst(s);
    assert s[1..] == u;
  }

  lemma ReadPlain(u: string)
    requires |u| >= 1 && IsDigit(u[0])
    ensures SkipSpace(u) == u && !Negative(u) && Unsigned(u) == u
  {
    NoSpaceFirst(u);
  }

  lemma NoSpaceFirst(s: string)
    requires s == [] || !IsSpace(s[0])
    ensures SkipSpace(s) == s
  {
  }

  /** `atoi` reads back any integer rendered in decimal, whatever
      non-digit text follows it. */
  lemma AtoiShowInt(n: int, rest: string)
    requires rest == [] || !IsDigit(rest[0])
    ensures Atoi(ShowInt(n) + rest) == n
  {
    var ds := ShowNat(if n < 0 then -n else n);
    assert ShowInt(n) + rest == (if n < 0 then "-" else "") + (ds + rest);
    ReadSigned(n < 0, ds, rest);
  }

  /** `atof` reads back any decimal as it is written in a field. */
  lemma AtofShowDecimal(d: Decimal)
    requires d.Valid()
    ensures Atof(d.Show()) == d.Value()
  {
    var ds := ShowNat(d.whole);
    var rest := if d.fraction == [] then "" else "." + d.fraction;
    assert d.Show() == (if d.negative then "-" else "") + (ds + rest);
    AtofSigned(d.negative, ds, rest);
    FractionAfterPoint(d.fraction);
  }

  lemma AtofSigned(negative: bool, ds: string, rest: string)
    requires |ds| >= 1 && AllDigits(ds)
    requires rest == [] || !IsDigit(rest[0])
    ensures var m := Magnitude(DigitsValue(ds), FractionDigits(rest));
            Atof((if negative then "-" else "") + (ds + rest)) == if negative then -m else m
  {
    ReadSigned(negative, ds, rest);
  }

  lemma FractionAfterPoint(fraction: string)
    requires AllDigits(fraction)
    ensures FractionDigits(if fraction == [] then "" else "." + fraction) == fraction
  {
    if fraction != [] {
      var rest := "." + fraction;
      assert rest[1..] == fraction + [];
      LeadingDigitsOfDigits(fraction, []);
    }
  }

  /** `fgets` keeps the newline that ends a line, so the last field of a
      line carries it. A newline after the text never changes what `atoi`
      reads. */
  lemma AtoiNewline(s: string)
    ensures Atoi(s + "\n") == Atoi(s)
  {
    ScanNewline(s);
    var u, u' := Unsigned(SkipSpace(s)), Unsigned(SkipSpace(s + "\n"));
    if u' != u {
      LeadingDigitsSnoc(u, '\n');
      assert u'[..LeadingDigits(u)] == u[..LeadingDigits(u)];
    }
  }

  /** Nor does it change what `atof` reads. */
  lemma AtofNewline(s: string)
    ensures Atof(s + "\n") == Atof(s)
  {
    ScanNewline(s);
    var u := Unsigned(SkipSpace(s));
    if Unsigned(SkipSpace(s + "\n")) != u {
      DigitsThenNewline(u);
    }
  }

  /** The whole and fractional digits of an unsigned text are the same
      with a newline after it. */
  lemma DigitsThenNewline(u: string)
    ensures LeadingDigits(u + "\n") == LeadingDigits(u)
    ensures var n := LeadingDigits(u);
            && (u + "\n")[..n] == u[..n]
            && FractionDigits((u + "\n")[n..]) == FractionDigits(u[n..])
  {
    LeadingDigitsSnoc(u, '\n');
    var n := LeadingDigits(u);
    assert (u + "\n")[n..] == u[n..] + "\n";
    FractionNewline(u[n..]);
  }

  /** A field that is only the newline reads as 0. */
  lemma AtofNewlineAlone()
    ensures Atof("\n") == 0.0
  {
    assert LeadingSpaces("\n"[1..]) == 0;
    assert SkipSpace("\n") == [];
  }

  /** After a trailing newline the sign is the same and the unsigned text
      is the old one followed by the newline, or both are empty when the
      text was all white space. */
  lemma ScanNewline(s: string)
    ensures Negative(SkipSpace(s + "\n")) == Negative(SkipSpace(s))
    ensures var u, u' := Unsigned(SkipSpace(s)), Unsigned(SkipSpace(s + "\n"));
            u' == u + "\n" || (u' == u && u == [])
  {
    LeadingSpacesSnoc(s, '\n');
    var t, t' := SkipSpace(s), SkipSpace(s + "\n");
    if t == [] {
      assert t' == [];
    } else {
      assert t' == t + "\n";
      assert t'[0] == t[0];
      if t[0] == '-' || t[0] == '+' {
        assert t'[1..] == t[1..] + "\n";
      }
    }
  }

  lemma {:induction false} LeadingSpacesSnoc(s: string, c: char)
    requires IsSpace(c)
    ensures LeadingSpaces(s + [c]) == if LeadingSpaces(s) == |s| then |s| + 1 else LeadingSpaces(s)
    decreases |s|
  {
    if s == [] {
      assert LeadingSpaces([c][1..]) == 0;
    } else if IsSpace(s[0]) {
      assert (s + [c])[1..] == s[1..] + [c];
      LeadingSpacesSnoc(s[1..], c);
    } else {
      assert (s + [c])[0] == s[0];
    }
  }

  lemma {:induction false} LeadingDigitsSnoc(u: string, c: char)
    requires !IsDigit(c)
    ensures LeadingDigits(u + [c]) == LeadingDigits(u)
    decreases |u|
  {
    if u != [] {
      assert (u + [c])[0] == u[0];
      if IsDigit(u[0]) {
        assert (u + [c])[1..] == u[1..] + [c];
        LeadingDigitsSnoc(u[1..], c);
      }
    }
  }

  /** The digits after a point are the same with a newline after them. */
  lemma FractionNewline(rest: string)
    ensures FractionDigits(rest + "\n") == FractionDigits(rest)
  {
    var r := rest + "\n";
    if rest != [] {
      assert r[0] == rest[0];
      if rest[0] == '.' {
        assert r[1..] == rest[1..] + "\n";
        LeadingDigitsSnoc(rest[1..], '\n');
        assert r[1..][..LeadingDigits(rest[1..])] == rest[1..][..LeadingDigits(rest[1..])];
      }
    }
  }

  /** C's `/` on an integer and a positive divisor: the quotient truncated
      toward zero, so the remainder takes the sign of the dividend. */
  function TruncDiv(a: int, d: int): (q: int)
    requires d > 0
    ensures -d < a - q * d < d
    ensures a >= 0 ==> a - q * d >= 0
    ensures a <= 0 ==> a - q * d <= 0
  {
    if a >= 0 then a / d else -((-a) / d)
  }

  /** C's conversion of a floating value to `int`: the fractional part is
      dropped, rounding toward zero. */
  function TruncToInt(x: real): (n: int)
    ensures x >= 0.0 ==> n as real <= x < n as real + 1.0
    ensures x < 0.0 ==> n as real - 1.0 < x <= n as real
  {
    if x >= 0.0 then x.Floor else -((-x).Floor)
  }
}
