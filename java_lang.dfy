/**
 * The parts of java.lang.String and java.lang.Integer that the controller relies on:
 * startsWith, lastIndexOf, substring, trim, toUpperCase (ASCII only),
 * Integer.parseInt (optional sign, ASCII decimal digits, 32-bit range) and the
 * decimal text that string concatenation produces for an int. IndexOf is not used by
 * the controller; it serves the reading of a request's target object in Commands.
 */
module JavaLang {
  import opened Options

  /** Java's `int`. */
  newtype int32 = x: int | -0x8000_0000 <= x < 0x8000_0000

  /** `s.startsWith(prefix)`: `s` is `prefix` followed by some rest. */
  predicate StartsWith(s: string, prefix: string) {
    |prefix| <= |s| && s[..|prefix|] == prefix
  }

  /** `s` starts with `prefix` exactly when it is `prefix` followed by some rest. */
  lemma StartsWithConcat(s: string, prefix: string)
    ensures StartsWith(s, prefix) <==> exists rest :: s == prefix + rest
  {
    if StartsWith(s, prefix) {
      assert s == prefix + s[|prefix|..];
    }
  }

  /** `s.lastIndexOf(c)`: the position of the last `c`, or -1 when there is none. */
  function LastIndexOf(s: string, c: char): (i: int)
    ensures -1 <= i < |s|
    ensures 0 <= i ==> s[i] == c
    ensures forall k :: i < k < |s| ==> s[k] != c
  {
    if s == [] then -1
    else if s[|s| - 1] == c then |s| - 1
    else LastIndexOf(s[..|s| - 1], c)
  }

  /** The contract of LastIndexOf determines its result. */
  lemma LastIndexOfAt(s: string, c: char, i: int)
    requires -1 <= i < |s|
    requires 0 <= i ==> s[i] == c
    requires forall k :: i < k < |s| ==> s[k] != c
    ensures LastIndexOf(s, c) == i
  {
  }

  /** `s.indexOf(c)`: the position of the first `c`, or -1 when there is none. */
  function IndexOf(s: string, c: char): (i: int)
    ensures -1 <= i < |s|
    ensures 0 <= i ==> s[i] == c
    ensures forall k :: 0 <= k < |s| && (i == -1 || k < i) ==> s[k] != c
  {
    if s == [] then -1
    else if s[0] == c then 0
    else
      var j := IndexOf(s[1..], c);
      if j == -1 then -1 else j + 1
  }

  /** The contract of IndexOf determines its result. */
  lemma IndexOfAt(s: string, c: char, i: nat)
    requires i < |s| && s[i] == c
    requires forall k :: 0 <= k < i ==> s[k] != c
    ensures IndexOf(s, c) == i
  {
  }

  /** `s.substring(begin, end)`; None where Java throws IndexOutOfBoundsException. */
  function Substring(s: string, begin: int, end: int): (r: Option<string>)
    ensures r.Some? <==> 0 <= begin <= end <= |s|
    ensures r.Some? ==> r.value == s[begin..end]
  {
    if 0 <= begin <= end <= |s| then Some(s[begin..end]) else None
  }

  /** The characters `trim()` removes: every code unit up to and including the space. */
  predicate IsBlank(c: char) {
    c <= ' '
  }

  predicate AllBlank(s: string) {
    forall k :: 0 <= k < |s| ==> IsBlank(s[k])
  }

  function TrimStart(s: string): (r: string)
    ensures |r| <= |s| && r == s[|s| - |r|..]
    ensures AllBlank(s[..|s| - |r|])
    ensures r == [] || !IsBlank(r[0])
  {
    if s != [] && IsBlank(s[0]) then TrimStart(s[1..]) else s
  }

  function TrimEnd(s: string): (r: string)
    ensures |r| <= |s| && r == s[..|r|]
    ensures AllBlank(s[|r|..])
    ensures r == [] || !IsBlank(r[|r| - 1])
  {
    if s != [] && IsBlank(s[|s| - 1]) then TrimEnd(s[..|s| - 1]) else s
  }

  /** `s.trim()`: `s` without its leading and trailing blanks. */
  function Trim(s: string): (r: string)
    ensures r == [] || (!IsBlank(r[0]) && !IsBlank(r[|r| - 1]))
    ensures var i := |s| - |TrimStart(s)|;
      i + |r| <= |s| && s[i..i + |r|] == r && AllBlank(s[..i]) && AllBlank(s[i + |r|..])
  {
    TrimEnd(TrimStart(s))
  }

  lemma {:induction false} TrimStartPadded(a: string, m: string)
    requires AllBlank(a)
    requires m == [] || !IsBlank(m[0])
    ensures TrimStart(a + m) == m
  {
    if a != [] {
      assert (a + m)[1..] == a[1..] + m;
      TrimStartPadded(a[1..], m);
    }
  }

  lemma {:induction false} TrimEndPadded(m: string, b: string)
    requires AllBlank(b)
    requires m == [] || !IsBlank(m[|m| - 1])
    ensures TrimEnd(m + b) == m
  {
    if b != [] {
      assert (m + b)[..|m + b| - 1] == m + b[..|b| - 1];
      TrimEndPadded(m, b[..|b| - 1]);
    }
  }

  /** Trim removes exactly the blank padding around a text that neither starts nor ends with a blank. */
  lemma TrimPadded(a: string, m: string, b: string)
    requires AllBlank(a) && AllBlank(b)
    requires m == [] || (!IsBlank(m[0]) && !IsBlank(m[|m| - 1]))
    ensures Trim(a + m + b) == m
  {
    assert a + m + b == a + (m + b);
    if m == [] {
      assert m + b == b;
      TrimStartPadded(a + b, []);
      assert a + b + [] == a + b;
    } else {
      TrimStartPadded(a, m + b);
      TrimEndPadded(m, b);
    }
  }

  /** ASCII `Character.toUpperCase`. */
  function UpperChar(c: char): char {
    if 'a' <= c <= 'z' then (c as int - 32) as char else c
  }

  /** `s.toUpperCase()` restricted to ASCII letters. */
  function ToUpperCase(s: string): (r: string)
    ensures |r| == |s|
    ensures forall k :: 0 <= k < |s| ==>
      if 'a' <= s[k] <= 'z' then r[k] as int == s[k] as int - 32 else r[k] == s[k]
  {
    seq(|s|, k requires 0 <= k < |s| => UpperChar(s[k]))
  }

  /** Upper-casing yields "GO" exactly for the four spellings of "go". */
  lemma UpperIsGo(t: string)
    ensures ToUpperCase(t) == "GO" <==> t in {"GO", "Go", "gO", "go"}
  {
    var u := ToUpperCase(t);
    if u == "GO" {
      assert |t| == 2;
      assert u[0] == UpperChar(t[0]) && u[1] == UpperChar(t[1]);
      assert t[0] in "Gg" && t[1] in "Oo";
      assert t == [t[0], t[1]];
    }
  }

  predicate IsDigit(c: char) {
    '0' <= c <= '9'
  }

  predicate AllDigits(s: string) {
    forall k :: 0 <= k < |s| ==> IsDigit(s[k])
  }

  function DigitValue(c: char): nat
    requires IsDigit(c)
  {
    c as int - '0' as int
  }

  function DigitChar(d: nat): char
    requires d < 10
  {
    ('0' as int + d) as char
  }

  /** The value of a decimal numeral, most significant digit first. */
  function DigitsValue(ds: string): nat
    requires AllDigits(ds)
  {
    if ds == [] then 0 else 10 * DigitsValue(ds[..|ds| - 1]) + DigitValue(ds[|ds| - 1])
  }

  /** The decimal numeral of `n`, without leading zeros. */
  function NatToDigits(n: nat): (r: string)
    ensures |r| > 0 && AllDigits(r) && DigitsValue(r) == n
    ensures r[0] != '0' || r == "0"
  {
    if n < 10 then [DigitChar(n)]
    else
      var r := NatToDigits(n / 10) + [DigitChar(n % 10)];
      assert r[..|r| - 1] == NatToDigits(n / 10);
      r
  }

  /** `"" + n` for an int `n`: a minus sign for negative numbers, then the digits. */
  function IntToString(n: int32): (r: string)
    ensures |r| > 0
    ensures forall k :: 0 <= k < |r| ==> IsDigit(r[k]) || (k == 0 && r[k] == '-')
    ensures r[0] == '-' <==> n < 0
  {
    if n < 0 then "-" + NatToDigits(-(n as int)) else NatToDigits(n as int)
  }

  /**
   * The text of an int is canonical: after the sign come the digits of its magnitude,
   * without leading zeros.
   */
  lemma IntToStringDigits(n: int32)
    ensures var r := IntToString(n);
      var digits := if n < 0 then r[1..] else r;
      digits != [] && AllDigits(digits) && (digits[0] != '0' || digits == "0") &&
      DigitsValue(digits) == if n < 0 then -(n as int) else n as int
  {
    if n < 0 {
      assert IntToString(n)[1..] == NatToDigits(-(n as int));
    }
  }

  /** The digits `parseInt` reads: `s` without its leading sign. */
  function Unsigned(s: string): string {
    if s != [] && (s[0] == '-' || s[0] == '+') then s[1..] else s
  }

  /**
   * `Integer.parseInt(s)`: an optional '-' or '+', at least one decimal digit, and a
   * value within the 32-bit range; None where Java throws NumberFormatException.
   */
  function ParseInt(s: string): (r: Option<int32>)
    ensures r.Some? ==> |Unsigned(s)| > 0 && AllDigits(Unsigned(s))
    ensures r.Some? ==> r.value as int == (if s[0] == '-' then -1 else 1) * DigitsValue(Unsigned(s))
    ensures (|Unsigned(s)| > 0 && AllDigits(Unsigned(s)) &&
             -0x8000_0000 <= (if s[0] == '-' then -1 else 1) * DigitsValue(Unsigned(s)) < 0x8000_0000)
            ==> r.Some?
  {
    if s == [] then None
    else
      var digits := Unsigned(s);
      if digits == [] || !AllDigits(digits) then None
      else
        var v: int := if s[0] == '-' then -(DigitsValue(digits) as int) else DigitsValue(digits);
        if -0x8000_0000 <= v < 0x8000_0000 then Some(v as int32) else None
  }

  /** Integer.parseInt reads back every int that string concatenation writes. */
  lemma ParseIntRoundTrip(n: int32)
    ensures ParseInt(IntToString(n)) == Some(n)
  {
    var s := IntToString(n);
    if n < 0 {
      assert s[1..] == NatToDigits(-(n as int));
    }
  }

  /** Boundary cases of Integer.parseInt. */
  lemma ParseIntEdges()
    ensures ParseInt("") == None && ParseInt("-") == None && ParseInt("+") == None
    ensures ParseInt("+7") == Some(7) && ParseInt("-07") == Some(-7)
    ensures ParseInt(" 7") == None && ParseInt("7 ") == None
  {
    assert !IsDigit(" 7"[0]);
    assert !IsDigit("7 "[1]);
    assert Unsigned("+7") == "7";
    assert Unsigned("-07") == "07";
    assert "07"[..1] == "0";
  }
}
