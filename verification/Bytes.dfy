// Bytes, C strings and the decimal fields that the database files are made of.

module Bytes {

  type Byte = b: int | 0 <= b < 256
  type Str = seq<Byte>

  const NUL: Byte := 0
  const NEWLINE: Byte := 10
  const SPACE: Byte := 32
  const ZERO: Byte := 48
  const SEP: Byte := 58

  // ----- strings -----

  function Spaces(n: nat): (s: Str)
    ensures |s| == n
    ensures forall i :: 0 <= i < n ==> s[i] == SPACE
  {
    seq(n, _ => SPACE)
  }

  predicate Blank(s: Str) {
    forall i :: 0 <= i < |s| ==> s[i] == SPACE
  }

  lemma BlankIsSpaces(s: Str)
    ensures Blank(s) <==> s == Spaces(|s|)
  {
  }

  // The index of the first c in s, or |s| (strchr on a C string).
  function IndexOf(s: Str, c: Byte): (n: nat)
    ensures n <= |s| && c !in s[..n]
    ensures n < |s| ==> s[n] == c
  {
    if s == [] then 0
    else if s[0] == c then 0
    else
      var n := 1 + IndexOf(s[1..], c);
      assert s[..n] == [s[0]] + s[1..][..n-1];
      n
  }

  lemma {:induction false} IndexOfAfter(s: Str, c: Byte, t: Str)
    requires c !in s
    ensures IndexOf(s + [c] + t, c) == |s|
  {
    if s != [] {
      IndexOfAfter(s[1..], c, t);
      assert (s + [c] + t)[1..] == s[1..] + [c] + t;
    }
  }

  // What a C function sees of a buffer: everything before the first NUL.
  function CString(s: Str): (r: Str)
    ensures r <= s && 0 !in r
    ensures r == s || s[|r|] == 0
  {
    s[..IndexOf(s, NUL)]
  }

  lemma CStringWhole(s: Str)
    requires NUL !in s
    ensures CString(s) == s
  {
  }

  // ----- files -----

  // The file after writing bs at off (lseek followed by write).
  function WriteAt(f: Str, off: nat, bs: Str): (g: Str)
    requires off <= |f|
    ensures |g| == if off + |bs| <= |f| then |f| else off + |bs|
  {
    f[..off] + bs + (if off + |bs| <= |f| then f[off + |bs|..] else [])
  }

  lemma WriteHit(f: Str, off: nat, bs: Str, lo: nat, hi: nat)
    requires off <= |f| && lo <= hi <= |bs|
    ensures off + hi <= |WriteAt(f, off, bs)|
    ensures WriteAt(f, off, bs)[off + lo..off + hi] == bs[lo..hi]
  {
  }

  lemma WriteMiss(f: Str, off: nat, bs: Str, lo: nat, hi: nat)
    requires off <= |f| && lo <= hi <= |f|
    requires hi <= off || off + |bs| <= lo
    ensures hi <= |WriteAt(f, off, bs)|
    ensures WriteAt(f, off, bs)[lo..hi] == f[lo..hi]
  {
  }

  // ----- decimal numbers -----

  predicate IsDigit(c: Byte) {
    ZERO <= c < ZERO + 10
  }

  predicate Digits(s: Str) {
    forall i :: 0 <= i < |s| ==> IsDigit(s[i])
  }

  // sprintf's "%d" and "%ld" of a non-negative number.
  function Decimal(n: nat): (s: Str)
    ensures |s| >= 1
    ensures Digits(s)
  {
    if n < 10 then [ZERO + n] else Decimal(n / 10) + [ZERO + n % 10]
  }

  // sprintf's "%*d": right-aligned in at least w characters.
  function Pad(n: nat, w: nat): Str {
    var d := Decimal(n);
    Spaces(if |d| <= w then w - |d| else 0) + d
  }

  function Pow10(k: nat): (p: nat)
    ensures p >= 1
  {
    if k == 0 then 1 else 10 * Pow10(k - 1)
  }

  lemma {:induction false} DecimalLength(n: nat, k: nat)
    requires k >= 1
    ensures |Decimal(n)| <= k <==> n < Pow10(k)
  {
    if n >= 10 {
      if k > 1 {
        DecimalLength(n / 10, k - 1);
      }
    }
  }

  lemma PadLength(n: nat, w: nat)
    requires w >= 1
    ensures n < Pow10(w) <==> |Pad(n, w)| == w
    ensures |Pad(n, w)| >= w
  {
    DecimalLength(n, w);
  }

  lemma DivTwice(n: nat, p: nat)
    requires p >= 1
    ensures n / 10 / p == n / (10 * p)
  {
    var q, r := n / 10, n % 10;
    var u, v := q / p, q % p;
    assert n == (10 * p) * u + (10 * v + r) && 0 <= 10 * v + r < 10 * p;
    QuotientIs(n, 10 * p, u, 10 * v + r);
  }

  lemma QuotientIs(n: nat, d: nat, q: nat, r: nat)
    requires n == d * q + r && r < d
    ensures n / d == q
  {
    var k := n / d - q;
    assert d * k == r - n % d;
    Multiples(d, k);
  }

  lemma Multiples(d: int, k: int)
    requires d >= 0
    ensures (k >= 1 ==> d * k >= d) && (k <= -1 ==> d * k <= -d)
  {
  }

  lemma {:induction false} DecimalDigit(n: nat, i: nat)
    requires i < |Decimal(n)|
    ensures Decimal(n)[|Decimal(n)| - 1 - i] == 48 + n / Pow10(i) % 10
  {
    if i > 0 {
      DecimalDigit(n / 10, i - 1);
      DivTwice(n, Pow10(i - 1));
    }
  }

  // Counted from the right, column i of a field that is wide enough holds the digit of ten to
  // the i in ASCII, or a space where the number has no digit.
  lemma PadDigits(n: nat, w: nat, i: nat)
    requires n < Pow10(w) && i < w
    ensures |Pad(n, w)| == w
    ensures Pad(n, w)[w - 1 - i] == if i == 0 || Pow10(i) <= n then 48 + n / Pow10(i) % 10 else 32
  {
    hide Pow10;
    PadLength(n, w);
    if i > 0 {
      DecimalLength(n, i);
    }
    if i < |Decimal(n)| {
      DecimalDigit(n, i);
    }
  }

  // The numbers that fit in the two kinds of field.
  lemma FieldWidths(n: nat)
    ensures |Pad(n, 6)| == 6 <==> n <= 999999
    ensures |Pad(n, 4)| == 4 <==> n <= 9999
  {
    assert Pow10(1) == 10 && Pow10(2) == 100 && Pow10(3) == 1000 && Pow10(4) == 10000;
    assert Pow10(5) == 100000 && Pow10(6) == 1000000;
    PadLength(n, 6);
    PadLength(n, 4);
  }

  // isspace in the C locale
  predicate IsSpace(c: Byte) {
    c == SPACE || 9 <= c <= 13
  }

  function SkipSpace(s: Str): Str {
    if s != [] && IsSpace(s[0]) then SkipSpace(s[1..]) else s
  }

  function DigitRun(s: Str): (n: nat)
    ensures n <= |s|
  {
    if s != [] && IsDigit(s[0]) then 1 + DigitRun(s[1..]) else 0
  }

  function DigitValue(s: Str): nat
    requires Digits(s)
  {
    if s == [] then 0 else 10 * DigitValue(s[..|s| - 1]) + (s[|s| - 1] - ZERO)
  }

  lemma DigitRunDigits(s: Str)
    ensures Digits(s[..DigitRun(s)])
  {
    if s != [] && IsDigit(s[0]) {
      DigitRunDigits(s[1..]);
      assert s[..DigitRun(s)] == [s[0]] + s[1..][..DigitRun(s) - 1];
    }
  }

  function LeadingNumber(s: Str): nat {
    DigitRunDigits(s);
    DigitValue(s[..DigitRun(s)])
  }

  // atol and atoi: blanks, an optional sign, digits up to the first other character.
  function Atol(s: Str): int {
    var t := SkipSpace(s);
    if t != [] && t[0] == 45 then 0 - LeadingNumber(t[1..])
    else if t != [] && t[0] == 43 then LeadingNumber(t[1..])
    else LeadingNumber(t)
  }

  lemma {:induction false} DecimalValue(n: nat)
    ensures DigitValue(Decimal(n)) == n
  {
    if n >= 10 {
      DecimalValue(n / 10);
      assert Decimal(n)[..|Decimal(n)| - 1] == Decimal(n / 10);
    }
  }

  lemma {:induction false} DigitRunAll(s: Str)
    requires Digits(s)
    ensures DigitRun(s) == |s|
  {
    if s != [] {
      DigitRunAll(s[1..]);
    }
  }

  lemma {:induction false} SkipSpaces(k: nat, s: Str)
    requires s != [] && !IsSpace(s[0])
    ensures SkipSpace(Spaces(k) + s) == s
  {
    if k == 0 {
      assert Spaces(0) + s == s;
    } else {
      SkipSpaces(k - 1, s);
      assert (Spaces(k) + s)[1..] == Spaces(k - 1) + s;
    }
  }

  // Reading back a number that was printed, padded or not, gives the number.
  lemma AtolDecimal(k: nat, n: nat)
    ensures Atol(Spaces(k) + Decimal(n)) == n
  {
    var d := Decimal(n);
    SkipSpaces(k, d);
    DigitRunAll(d);
    assert d[..|d|] == d;
    DecimalValue(n);
  }

  lemma AtolPad(n: nat, w: nat)
    ensures Atol(Pad(n, w)) == n
  {
    AtolDecimal(if |Decimal(n)| <= w then w - |Decimal(n)| else 0, n);
  }

  lemma AtolPlain(n: nat)
    ensures Atol(Decimal(n)) == n
  {
    AtolDecimal(0, n);
    assert Spaces(0) + Decimal(n) == Decimal(n);
  }

  // ----- what atol makes of any string -----

  predicate White(s: Str) {
    forall i :: 0 <= i < |s| ==> s[i] == 32 || 9 <= s[i] <= 13
  }

  predicate NoDigitFirst(s: Str) {
    s == [] || s[0] < 48 || s[0] > 57
  }

  predicate Zeros(s: Str) {
    forall i :: 0 <= i < |s| ==> s[i] == 48
  }

  lemma {:induction false} SkipWhite(blanks: Str, s: Str)
    requires White(blanks) && (s == [] || !IsSpace(s[0]))
    ensures SkipSpace(blanks + s) == s
  {
    if blanks == [] {
      assert blanks + s == s;
    } else {
      SkipWhite(blanks[1..], s);
      assert (blanks + s)[1..] == blanks[1..] + s;
    }
  }

  lemma {:induction false} DigitRunStops(ds: Str, rest: Str)
    requires Digits(ds) && NoDigitFirst(rest)
    ensures DigitRun(ds + rest) == |ds|
  {
    if ds == [] {
      assert ds + rest == rest;
    } else {
      DigitRunStops(ds[1..], rest);
      assert (ds + rest)[1..] == ds[1..] + rest;
    }
  }

  lemma {:induction false} LeadingZeros(zeros: Str, ds: Str)
    requires Zeros(zeros) && Digits(ds)
    ensures DigitValue(zeros + ds) == DigitValue(ds)
  {
    if ds == [] {
      assert zeros + ds == zeros;
      if zeros != [] {
        LeadingZeros(zeros[..|zeros| - 1], []);
        assert zeros[..|zeros| - 1] + [] == zeros[..|zeros| - 1];
      }
    } else {
      LeadingZeros(zeros, ds[..|ds| - 1]);
      assert (zeros + ds)[..|zeros + ds| - 1] == zeros + ds[..|ds| - 1];
    }
  }

  lemma NumberRead(zeros: Str, n: nat, rest: Str)
    requires Zeros(zeros) && NoDigitFirst(rest)
    ensures LeadingNumber(zeros + Decimal(n) + rest) == n
  {
    var ds := zeros + Decimal(n);
    DigitRunStops(ds, rest);
    assert (ds + rest)[..|ds|] == ds;
    LeadingZeros(zeros, Decimal(n));
    DecimalValue(n);
  }

  // White space, one sign or none, zeros, and the digits of a number, up to the first other
  // character.
  lemma AtolNumber(blanks: Str, sign: Str, zeros: Str, n: nat, rest: Str)
    requires White(blanks) && Zeros(zeros) && NoDigitFirst(rest)
    requires sign == [] || sign == [43] || sign == [45]
    ensures Atol(blanks + (sign + (zeros + Decimal(n) + rest))) == if sign == [45] then 0 - n else n
  {
    var t := zeros + Decimal(n) + rest;
    assert IsDigit(t[0]);
    SkipWhite(blanks, sign + t);
    NumberRead(zeros, n, rest);
    if sign == [] {
      assert sign + t == t;
    } else {
      assert (sign + t)[0] == sign[0] && (sign + t)[1..] == t;
    }
  }

  // Anything else is 0: what follows the white space and a sign is no digit.
  lemma AtolNothing(blanks: Str, sign: Str, rest: Str)
    requires White(blanks) && NoDigitFirst(rest)
    requires sign == [43] || sign == [45] ||
      (sign == [] && (rest == [] || (!White([rest[0]]) && rest[0] != 43 && rest[0] != 45)))
    ensures Atol(blanks + (sign + rest)) == 0
  {
    assert rest != [] ==> [rest[0]][0] == rest[0];
    assert sign + rest == [] || !IsSpace((sign + rest)[0]);
    SkipWhite(blanks, sign + rest);
    assert rest[..0] == [];
    if sign == [] {
      assert sign + rest == rest;
    } else {
      assert (sign + rest)[0] == sign[0] && (sign + rest)[1..] == rest;
    }
  }
}
