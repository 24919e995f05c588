/** The string keys under which the gravity engine files coordinates: "x,y"
    written with JavaScript's integer-to-string conversion, and read back by
    splitting on commas and converting each part with `Number`. */
module GravityKeys {
  import opened Wrappers
  import opened Boards

  predicate IsDigit(c: char) {
    '0' <= c <= '9'
  }

  predicate AllDigits(s: string) {
    forall i | 0 <= i < |s| :: IsDigit(s[i])
  }

  function DigitChar(d: int): char
    requires 0 <= d < 10
  {
    ('0' as int + d) as char
  }

  function DigitValue(c: char): int
    requires IsDigit(c)
  {
    c as int - '0' as int
  }

  /** Decimal digits of n, most significant first, without leading zeros. */
  function ShowNat(n: nat): (s: string)
    ensures |s| >= 1 && AllDigits(s)
  {
    if n < 10 then [DigitChar(n)] else ShowNat(n / 10) + [DigitChar(n % 10)]
  }

  /** How a template literal writes an integer: a minus sign, then the digits. */
  function ShowInt(i: int): (s: string)
    ensures ',' !in s
  {
    if i < 0 then "-" + ShowNat(-i) else ShowNat(i)
  }

  /** The key of coordinate (x, y). */
  function Key(x: int, y: int): string {
    ShowInt(x) + "," + ShowInt(y)
  }

  /** Value of a string of decimal digits. */
  function DigitsValue(s: string): nat
    requires AllDigits(s)
  {
    if s == [] then 0 else DigitsValue(s[..|s| - 1]) * 10 + DigitValue(s[|s| - 1])
  }

  /** `Number(s)` on the strings made of an optional minus sign and decimal
      digits: the empty string converts to 0, and None stands for NaN. */
  function ParseNumber(s: string): Option<int> {
    if s == [] then Some(0)
    else if s[0] == '-' then
      if |s| > 1 && AllDigits(s[1..]) then Some(-(DigitsValue(s[1..]) as int)) else None
    else if AllDigits(s) then Some(DigitsValue(s))
    else None
  }

  /** `s.split(",")`: the parts between commas, at least one. */
  function Fields(s: string): (r: seq<string>)
    ensures |r| >= 1
  {
    if s == [] then [""]
    else if s[0] == ',' then [""] + Fields(s[1..])
    else var rest := Fields(s[1..]); [[s[0]] + rest[0]] + rest[1..]
  }

  /** The coordinate a key names: its first two comma-separated parts as
      numbers; None where either part converts to NaN (a missing second part
      converts to NaN too). */
  function ParseKey(key: string): Option<Pos> {
    var parts := Fields(key);
    if |parts| < 2 then None
    else match (ParseNumber(parts[0]), ParseNumber(parts[1]))
      case (Some(x), Some(y)) => Some(Pos(x, y))
      case _ => None
  }

  lemma {:induction false} ShowNatRoundTrip(n: nat)
    ensures DigitsValue(ShowNat(n)) == n
  {
    if n >= 10 {
      ShowNatRoundTrip(n / 10);
      var s := ShowNat(n);
      assert s[..|s| - 1] == ShowNat(n / 10);
    }
  }

  /** Converting an integer's text back with `Number` gives the integer. */
  lemma ShowIntRoundTrip(i: int)
    ensures ParseNumber(ShowInt(i)) == Some(i)
  {
    if i < 0 {
      ShowNatRoundTrip(-i);
      assert ShowInt(i)[1..] == ShowNat(-i);
    } else {
      ShowNatRoundTrip(i);
    }
  }

  /** Splitting text that holds no comma gives the text itself. */
  lemma {:induction false} FieldsNoComma(s: string)
    requires ',' !in s
    ensures Fields(s) == [s]
  {
    if s != [] {
      FieldsNoComma(s[1..]);
      assert [s[0]] + s[1..] == s;
    }
  }

  /** A comma-free prefix followed by a comma is split off as the first part. */
  lemma {:induction false} FieldsSplit(a: string, b: string)
    requires ',' !in a
    ensures Fields(a + "," + b) == [a] + Fields(b)
  {
    if a == [] {
      assert a + "," + b == [','] + b;
      assert (a + "," + b)[1..] == b;
    } else {
      FieldsSplit(a[1..], b);
      var s := a + "," + b;
      assert s[0] == a[0] && s[1..] == a[1..] + "," + b;
      assert [a[0]] + a[1..] == a;
    }
  }

  /** Reading a key back gives the coordinate it was made from. */
  lemma KeyRoundTrip(x: int, y: int)
    ensures ParseKey(Key(x, y)) == Some(Pos(x, y))
  {
    FieldsSplit(ShowInt(x), ShowInt(y));
    FieldsNoComma(ShowInt(y));
    assert Fields(Key(x, y)) == [ShowInt(x), ShowInt(y)];
    ShowIntRoundTrip(x);
    ShowIntRoundTrip(y);
  }

  /** Distinct coordinates have distinct keys, so a set of keys and the set of
      coordinates they name are interchangeable. */
  lemma KeyInjective(x1: int, y1: int, x2: int, y2: int)
    ensures Key(x1, y1) == Key(x2, y2) <==> x1 == x2 && y1 == y2
  {
    KeyRoundTrip(x1, y1);
    KeyRoundTrip(x2, y2);
  }
}
