/** Strings as the program sees them: byte order, decimal numerals, ASCII upper-casing. */
module Text {

  datatype Option<+T> = None | Some(value: T)

  type Byte = x: int | 0 <= x < 256

  // ----- Byte order (Go's < on strings, SQLite's BINARY collation) -----

  predicate Less(a: string, b: string) {
    b != [] && (a == [] || a[0] < b[0] || (a[0] == b[0] && Less(a[1..], b[1..])))
  }

  lemma {:induction false} LessIrreflexive(a: string)
    ensures !Less(a, a)
  {
    if a != [] { LessIrreflexive(a[1..]); }
  }

  lemma {:induction false} LessTransitive(a: string, b: string, c: string)
    requires Less(a, b) && Less(b, c)
    ensures Less(a, c)
  {
    if a != [] && a[0] == b[0] && b[0] == c[0] { LessTransitive(a[1..], b[1..], c[1..]); }
  }

  lemma {:induction false} LessTotal(a: string, b: string)
    ensures Less(a, b) || a == b || Less(b, a)
  {
    if a != [] && b != [] && a[0] == b[0] {
      LessTotal(a[1..], b[1..]);
      assert a == [a[0]] + a[1..] && b == [b[0]] + b[1..];
    }
  }

  /** Byte order is decided at the first place the strings differ; a proper prefix comes first. */
  lemma {:induction false} LessMeaning(a: string, b: string, n: nat)
    requires n <= |a| && n <= |b| && a[..n] == b[..n]
    requires n < |a| && n < |b| ==> a[n] != b[n]
    ensures Less(a, b) <==> n < |b| && (n == |a| || (n < |a| && a[n] < b[n]))
  {
    if n > 0 {
      assert a[0] == a[..n][0] == b[..n][0] == b[0];
      assert a[1..][..n - 1] == a[..n][1..] && b[1..][..n - 1] == b[..n][1..];
      LessMeaning(a[1..], b[1..], n - 1);
    }
  }

  lemma LessAsymmetric(a: string, b: string)
    ensures !(Less(a, b) && Less(b, a))
  {
    LessIrreflexive(a);
    if Less(a, b) && Less(b, a) { LessTransitive(a, b, a); }
  }

  lemma LessNegativelyTransitive(a: string, b: string, c: string)
    requires Less(a, c)
    ensures Less(a, b) || Less(b, c)
  {
    LessTotal(a, b);
    if Less(b, a) { LessTransitive(b, a, c); }
  }

  /** Fixed-width fields compare field by field. */
  lemma {:induction false} LessConcat(a: string, b: string, x: string, y: string)
    requires |a| == |b|
    ensures Less(a + x, b + y) <==> Less(a, b) || (a == b && Less(x, y))
  {
    if a == [] {
      assert a + x == x && b + y == y;
    } else {
      assert (a + x)[1..] == a[1..] + x && (b + y)[1..] == b[1..] + y;
      LessConcat(a[1..], b[1..], x, y);
      assert a == [a[0]] + a[1..] && b == [b[0]] + b[1..];
    }
  }

  // ----- Decimal numerals -----

  function Digit(d: nat): char
    requires d < 10
  {
    '0' + d as char
  }

  predicate IsDigit(c: char) { '0' <= c <= '9' }

  function Pow10(w: nat): nat { if w == 0 then 1 else 10 * Pow10(w - 1) }

  /** n in exactly w digits, zero padded (the low w digits when n is wider). */
  function Pad(n: nat, w: nat): (s: string)
    ensures |s| == w
    ensures forall i :: 0 <= i < w ==> IsDigit(s[i])
  {
    if w == 0 then [] else Pad(n / 10, w - 1) + [Digit(n % 10)]
  }

  /** Zero-padded numerals of one width sort like the numbers they denote. */
  lemma {:induction false} PadOrder(n: nat, m: nat, w: nat)
    requires n < Pow10(w) && m < Pow10(w)
    ensures Less(Pad(n, w), Pad(m, w)) <==> n < m
    ensures Pad(n, w) == Pad(m, w) <==> n == m
  {
    if w > 0 {
      PadOrder(n / 10, m / 10, w - 1);
      LessConcat(Pad(n / 10, w - 1), Pad(m / 10, w - 1), [Digit(n % 10)], [Digit(m % 10)]);
      assert n == 10 * (n / 10) + n % 10 && m == 10 * (m / 10) + m % 10;
      if Pad(n, w) == Pad(m, w) {
        assert Pad(n, w)[..w - 1] == Pad(n / 10, w - 1) && Pad(m, w)[..w - 1] == Pad(m / 10, w - 1);
        assert Pad(n, w)[w - 1] == Digit(n % 10) && Pad(m, w)[w - 1] == Digit(m % 10);
      }
    }
  }

  /** n without padding. */
  function Decimal(n: nat): (s: string)
    ensures s != [] && forall i :: 0 <= i < |s| ==> IsDigit(s[i])
  {
    if n < 10 then [Digit(n)] else Decimal(n / 10) + [Digit(n % 10)]
  }

  predicate AllDigits(s: string) { forall i :: 0 <= i < |s| ==> IsDigit(s[i]) }

  /** The number a digit string denotes. */
  function Value(s: string): nat
    requires AllDigits(s)
  {
    if s == [] then 0 else 10 * Value(s[..|s| - 1]) + (s[|s| - 1] - '0') as nat
  }

  lemma {:induction false} ValueDecimal(n: nat)
    ensures Value(Decimal(n)) == n
  {
    if n >= 10 {
      ValueDecimal(n / 10);
      assert Decimal(n)[..|Decimal(n)| - 1] == Decimal(n / 10);
    }
  }

  const MAX_INT64: int := 0x7fff_ffff_ffff_ffff

  /** strconv.ParseInt(s, 10, 64), and strconv.Atoi on a 64-bit build: an optional sign, then digits only. */
  function ParseInt64(s: string): (r: Option<int>)
    ensures r.Some? ==> -MAX_INT64 - 1 <= r.value <= MAX_INT64
  {
    var signed := s != [] && (s[0] == '+' || s[0] == '-');
    var digits := if signed then s[1..] else s;
    if digits == [] || !AllDigits(digits) then None
    else
      var v: int := if signed && s[0] == '-' then 0 - Value(digits) else Value(digits);
      if -MAX_INT64 - 1 <= v <= MAX_INT64 then Some(v) else None
  }

  /** strconv.FormatInt(v, 10). */
  function FormatInt(v: int): string { if v < 0 then "-" + Decimal(-v) else Decimal(v) }

  lemma ParseFormat(v: int)
    requires -MAX_INT64 - 1 <= v <= MAX_INT64
    ensures ParseInt64(FormatInt(v)) == Some(v)
  {
    if v < 0 {
      ValueDecimal(-v);
      ParseNegative(Decimal(-v));
    } else {
      ValueDecimal(v);
      ParsePositive(Decimal(v));
    }
  }

  lemma ParsePositive(digits: string)
    requires digits != [] && AllDigits(digits) && Value(digits) <= MAX_INT64
    ensures ParseInt64(digits) == Some(Value(digits))
  {
    assert IsDigit(digits[0]);
  }

  lemma ParseNegative(digits: string)
    requires digits != [] && AllDigits(digits) && Value(digits) <= MAX_INT64 + 1
    ensures ParseInt64("-" + digits) == Some(0 - Value(digits))
  {
    assert ("-" + digits)[1..] == digits;
  }

  /** What does not parse: a sign or nothing without digits behind it, or anything but digits there. */
  lemma ParseRejected(sign: string, digits: string)
    requires sign == "" || sign == "+" || sign == "-"
    requires sign == "" && digits != [] ==> digits[0] != '+' && digits[0] != '-'
    requires digits == [] || !AllDigits(digits)
    ensures ParseInt64(sign + digits) == None
  {
    var s := sign + digits;
    if sign == "" { assert s == digits; } else { assert s[1..] == digits; }
  }

  /** What parses, and as what: at least one digit, with a sign or without, and a value that fits. */
  lemma ParseExactly(digits: string)
    requires digits != [] && AllDigits(digits)
    ensures var v := if Value(digits) <= MAX_INT64 then Some(Value(digits)) else None;
      ParseInt64(digits) == v && ParseInt64("+" + digits) == v
    ensures ParseInt64("-" + digits) == if Value(digits) <= MAX_INT64 + 1 then Some(0 - Value(digits)) else None
  {
    assert IsDigit(digits[0]);
    Signed("+", digits, Value(digits));
    Signed("-", digits, Value(digits));
  }

  lemma Signed(sign: string, digits: string, v: nat)
    requires (sign == "+" || sign == "-") && digits != [] && AllDigits(digits) && Value(digits) == v
    ensures ParseInt64(sign + digits) ==
            if sign == "-" then (if v <= MAX_INT64 + 1 then Some(0 - v) else None)
            else if v <= MAX_INT64 then Some(v) else None
  {
    assert (sign + digits)[1..] == digits && (sign + digits)[0] == sign[0];
  }

  // ----- strings.Cut and strings.ToUpper -----

  /** strings.Cut(s, sep) for a one-character separator: what precedes and follows its first occurrence. */
  function Cut(s: string, sep: char): (r: Option<(string, string)>)
    ensures r.None? <==> sep !in s
    ensures r.Some? ==> s == r.value.0 + [sep] + r.value.1 && sep !in r.value.0
  {
    if s == [] then None
    else if s[0] == sep then
      assert s == [] + [sep] + s[1..];
      Some(([], s[1..]))
    else
      match Cut(s[1..], sep)
      case None => None
      case Some(p) =>
        assert s == ([s[0]] + p.0) + [sep] + p.1;
        Some(([s[0]] + p.0, p.1))
  }

  lemma {:induction false} CutAt(a: string, sep: char, b: string)
    requires sep !in a
    ensures Cut(a + [sep] + b, sep) == Some((a, b))
  {
    var s := a + [sep] + b;
    if a == [] {
      assert s[0] == sep && s[1..] == b;
    } else {
      assert s[0] == a[0] && s[1..] == a[1..] + [sep] + b;
      CutAt(a[1..], sep, b);
      assert [a[0]] + a[1..] == a;
    }
  }

  function UpperChar(c: char): char { if 'a' <= c <= 'z' then c - 'a' + 'A' else c }

  /** strings.ToUpper on ASCII text. */
  function ToUpper(s: string): string { seq(|s|, i requires 0 <= i < |s| => UpperChar(s[i])) }

  /** Every ASCII letter becomes its capital, everything else stays, place by place. */
  lemma ToUpperAt(s: string, i: nat, k: nat)
    requires i < |s| && k < 26
    ensures |ToUpper(s)| == |s|
    ensures s[i] == "abcdefghijklmnopqrstuvwxyz"[k] ==> ToUpper(s)[i] == "ABCDEFGHIJKLMNOPQRSTUVWXYZ"[k]
    ensures s[i] !in "abcdefghijklmnopqrstuvwxyz" ==> ToUpper(s)[i] == s[i]
  {
    AlphabetAt(k);
    if 'a' <= s[i] <= 'z' {
      AlphabetAt((s[i] - 'a') as nat);
    }
  }

  lemma AlphabetAt(k: nat)
    requires k < 26
    ensures "abcdefghijklmnopqrstuvwxyz"[k] == 'a' + k as char
    ensures "ABCDEFGHIJKLMNOPQRSTUVWXYZ"[k] == 'A' + k as char
  {
  }
}
