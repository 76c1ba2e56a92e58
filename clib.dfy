/** The few pieces of C runtime behaviour the firmware relies on: NUL-terminated
    strings, `strncpy` into a zeroed buffer, `isspace`, `atoi` and unsigned
    32-bit arithmetic. Characters stand for bytes throughout. */
module CLib {

  datatype Option<T> = None | Some(value: T)

  const NUL: char := 0 as char

  /** 2^32: the modulus of `uint32_t` arithmetic. */
  const U32_MODULUS: int := 0x1_0000_0000

  type u32 = n: int | 0 <= n < U32_MODULUS

  function Min(a: int, b: int): int { if a <= b then a else b }

  /** The C string a buffer holds: everything before its first NUL. */
  function CString(s: string): (r: string)
    ensures r <= s
    ensures NUL !in r
    ensures |r| < |s| ==> s[|r|] == NUL
  {
    if s == [] || s[0] == NUL then [] else [s[0]] + CString(s[1..])
  }

  lemma {:induction false} CStringOfNulFree(s: string)
    requires NUL !in s
    ensures CString(s) == s
  {
    if s != [] {
      assert NUL !in s[1..] by {
        forall i | 0 <= i < |s[1..]| ensures s[1..][i] != NUL { assert s[1..][i] == s[i + 1]; }
      }
      CStringOfNulFree(s[1..]);
    }
  }

  /** The first `n` characters of `s`, or all of it when it is shorter. */
  function Truncate(s: string, n: nat): (r: string)
    ensures |r| == Min(|s|, n) && r <= s
  {
    if |s| <= n then s else s[..n]
  }

  lemma TruncateTwice(s: string, m: nat, n: nat)
    requires n <= m
    ensures Truncate(Truncate(s, m), n) == Truncate(s, n)
  {
  }

  /** What `strncpy(dst, src, n)` leaves as the C string in a destination of
      `n + 1` bytes whose last byte is already NUL: at most `n` characters of
      the C string `src`. */
  function StrNCopy(src: string, n: nat): (r: string)
    ensures |r| == Min(|CString(src)|, n) && r <= CString(src) && NUL !in r
    ensures |CString(src)| <= n ==> r == CString(src)
  {
    Truncate(CString(src), n)
  }

  /** `isspace` in the C locale. */
  predicate IsSpace(c: char) {
    c == ' ' || c == '\t' || c == '\n' || c == 11 as char || c == 12 as char || c == '\r'
  }

  predicate IsDigit(c: char) { '0' <= c <= '9' }

  function DigitValue(c: char): (d: nat)
    requires IsDigit(c)
    ensures d < 10
  {
    (c as int) - ('0' as int)
  }

  function SkipSpaces(s: string): (r: string)
    ensures |r| <= |s| && r == s[|s| - |r|..]
    ensures r != [] ==> !IsSpace(r[0])
  {
    if s != [] && IsSpace(s[0]) then SkipSpaces(s[1..]) else s
  }

  /** The longest prefix of `s` made of decimal digits. */
  function DigitRun(s: string): (r: string)
    ensures r <= s
    ensures forall i :: 0 <= i < |r| ==> IsDigit(r[i])
    ensures |r| < |s| ==> !IsDigit(s[|r|])
  {
    if s != [] && IsDigit(s[0]) then [s[0]] + DigitRun(s[1..]) else []
  }

  /** The number a string of decimal digits denotes, most significant first. */
  function DecimalValue(ds: string): nat
    requires forall i :: 0 <= i < |ds| ==> IsDigit(ds[i])
  {
    if ds == [] then 0 else 10 * DecimalValue(ds[..|ds| - 1]) + DigitValue(ds[|ds| - 1])
  }

  /** `atoi`: leading white space, an optional sign, then as many decimal
      digits as follow. Values outside the range of `int` are undefined
      behaviour in C; here they keep their mathematical value. */
  function Atoi(s: string): int {
    var t := SkipSpaces(s);
    if t != [] && t[0] == '-' then -(DecimalValue(DigitRun(t[1..])) as int)
    else if t != [] && t[0] == '+' then DecimalValue(DigitRun(t[1..]))
    else DecimalValue(DigitRun(t))
  }

  /** The decimal numeral of `n`, without leading zeros. */
  function Decimal(n: nat): (r: string)
    ensures r != [] && forall i :: 0 <= i < |r| ==> IsDigit(r[i])
  {
    if n < 10 then [('0' as int + n) as char] else Decimal(n / 10) + [('0' as int + n % 10) as char]
  }

  lemma {:induction false} DecimalValueOfDecimal(n: nat)
    ensures DecimalValue(Decimal(n)) == n
  {
    if n >= 10 {
      var r := Decimal(n);
      assert r[..|r| - 1] == Decimal(n / 10);
      DecimalValueOfDecimal(n / 10);
    }
  }

  lemma {:induction false} DigitRunOfDigits(s: string)
    requires forall i :: 0 <= i < |s| ==> IsDigit(s[i])
    ensures DigitRun(s) == s
  {
    if s != [] {
      DigitRunOfDigits(s[1..]);
    }
  }

  /** `atoi` reads back every numeral `Decimal` prints, with either sign. */
  lemma AtoiOfDecimal(n: nat)
    ensures Atoi(Decimal(n)) == n
    ensures Atoi("-" + Decimal(n)) == -(n as int)
  {
    var d := Decimal(n);
    AtoiOfDigits(d);
    AtoiOfNegativeDigits(d);
    DecimalValueOfDecimal(n);
  }

  lemma AtoiOfDigits(d: string)
    requires d != [] && forall i :: 0 <= i < |d| ==> IsDigit(d[i])
    ensures Atoi(d) == DecimalValue(d)
  {
    DigitRunOfDigits(d);
    SkipSpacesNone(d);
    assert d[0] != '-' && d[0] != '+';
  }

  lemma SkipSpacesNone(s: string)
    requires s != [] && !IsSpace(s[0])
    ensures SkipSpaces(s) == s
  {
  }

  lemma AtoiOfNegativeDigits(d: string)
    requires forall i :: 0 <= i < |d| ==> IsDigit(d[i])
    ensures Atoi("-" + d) == -(DecimalValue(d) as int)
  {
    DigitRunOfDigits(d);
    var m := "-" + d;
    assert m[0] == '-' && m[1..] == d;
    SkipSpacesNone(m);
  }

  /** Conversion of a C `int` to `uint32_t`: reduction modulo 2^32. */
  function ToU32(i: int): (r: u32)
    ensures 0 <= i < U32_MODULUS ==> r == i
    ensures (r - i) % U32_MODULUS == 0
  {
    i % U32_MODULUS
  }

  /** `uint32_t` multiplication, which wraps around. */
  function MulU32(a: u32, b: u32): (r: u32)
    ensures a * b < U32_MODULUS ==> r == a * b
    ensures (r - a * b) % U32_MODULUS == 0
  {
    (a * b) % U32_MODULUS
  }

  /** `strchr(s, c)`: the index of the first `c`. */
  function IndexOf(s: string, c: char): (r: Option<nat>)
    ensures r.Some? ==> r.value < |s| && s[r.value] == c && c !in s[..r.value]
    ensures r.None? ==> c !in s
  {
    if s == [] then None
    else if s[0] == c then Some(0)
    else match IndexOf(s[1..], c)
      case None => None
      case Some(i) => Some(i + 1)
  }

  /** `strchr` finds the first occurrence. */
  lemma {:induction false} IndexOfAt(s: string, c: char, k: nat)
    requires k < |s| && s[k] == c && c !in s[..k]
    ensures IndexOf(s, c) == Some(k)
  {
    if k > 0 {
      assert s[0] == s[..k][0];
      assert s[1..][..k - 1] == s[..k][1..];
      IndexOfAt(s[1..], c, k - 1);
    }
  }

  /** Writing a terminator after some bytes does not change their C string. */
  lemma {:induction false} CStringAppendNul(s: string)
    ensures CString(s + [NUL]) == CString(s)
  {
    if s != [] && s[0] != NUL {
      assert (s + [NUL])[1..] == s[1..] + [NUL];
      CStringAppendNul(s[1..]);
    }
  }
}
