/** How the two printf implementations print integers: by dividing by place values, and by
    shifting nibbles.  Both against positional notation. */
module NumberPrint {
  import opened Words

  /** The values fmtBase takes: 8, 10 and 16. */
  datatype Base = Octal | Decimal | Hexadecimal

  function Radix(b: Base): nat {
    match b case Octal => 8 case Decimal => 10 case Hexadecimal => 16
  }

  function Scaled(b: Base, n: nat): nat {
    match b case Octal => 8 * n case Decimal => 10 * n case Hexadecimal => 16 * n
  }

  function Shrunk(b: Base, n: nat): nat {
    match b case Octal => n / 8 case Decimal => n / 10 case Hexadecimal => n / 16
  }

  function LowDigit(b: Base, n: nat): (d: nat)
    ensures d < 16
  {
    match b case Octal => n % 8 case Decimal => n % 10 case Hexadecimal => n % 16
  }

  function Pow(b: Base, n: nat): (p: nat)
    ensures p > 0
  {
    if n == 0 then 1 else Scaled(b, Pow(b, n - 1))
  }

  /** The digit for `d`, computed as the source does. */
  function Digit(d: nat, upper: bool): (c: char)
    requires d < 16
    ensures DigitValue(c) == d && c != ' ' && c != '-'
  {
    var code := d + '0' as int;
    if code > '9' as int then (code + (if upper then 'A' else 'a') as int - '0' as int - 10) as char else code as char
  }

  function DigitValue(c: char): nat {
    if '0' <= c <= '9' then c as int - '0' as int
    else if 'a' <= c <= 'f' then c as int - 'a' as int + 10
    else if 'A' <= c <= 'F' then c as int - 'A' as int + 10
    else 0
  }

  /** What a string of digits says in positional notation. */
  function Value(s: string, b: Base): nat {
    if s == [] then 0 else Scaled(b, Value(s[..|s| - 1], b)) + DigitValue(s[|s| - 1])
  }

  /** The lowest `k` digits of `v`. */
  function Numeral(v: nat, b: Base, upper: bool, k: nat): (s: string)
    ensures |s| == k && forall i :: 0 <= i < k ==> s[i] != ' ' && s[i] != '-'
  {
    if k == 0 then "" else Numeral(Shrunk(b, v), b, upper, k - 1) + [Digit(LowDigit(b, v), upper)]
  }

  function DigitCount(v: nat, b: Base): (n: nat)
    ensures n > 0
  {
    if v < Radix(b) then 1 else 1 + DigitCount(Shrunk(b, v), b)
  }

  // The digit count is the least number of digits that can hold the value.
  lemma {:induction false} DigitCountExact(v: nat, b: Base)
    ensures v < Pow(b, DigitCount(v, b))
    ensures DigitCount(v, b) > 1 ==> Pow(b, DigitCount(v, b) - 1) <= v
  {
    assert Pow(b, 1) == Scaled(b, Pow(b, 0)) == Radix(b);
    if v >= Radix(b) {
      DigitCountExact(Shrunk(b, v), b);
    }
  }

  lemma {:induction false} PowGrows(b: Base, m: nat, n: nat)
    requires m <= n
    ensures Pow(b, m) <= Pow(b, n)
    decreases n - m
  {
    if m < n {
      PowGrows(b, m + 1, n);
    }
  }

  lemma DigitCountUnique(v: nat, b: Base, n: nat)
    requires n > 0 && v < Pow(b, n) && (n == 1 || Pow(b, n - 1) <= v)
    ensures DigitCount(v, b) == n
  {
    var m := DigitCount(v, b);
    DigitCountExact(v, b);
    if m < n {
      PowGrows(b, m, n - 1);
    } else if m > n {
      PowGrows(b, n, m - 1);
    }
  }

  // A numeral with room for the value says the value.
  lemma {:induction false} NumeralValue(v: nat, b: Base, upper: bool, k: nat)
    requires v < Pow(b, k)
    ensures Value(Numeral(v, b, upper, k), b) == v
    decreases k
  {
    if k > 0 {
      var s := Numeral(v, b, upper, k);
      NumeralValue(Shrunk(b, v), b, upper, k - 1);
      assert s[..k - 1] == Numeral(Shrunk(b, v), b, upper, k - 1);
    }
  }

  // ------------------------------------------------------------------ a formatted integer

  /** What a directive asks for: `width` is -1 if not given. */
  datatype Format = Format(zero: bool, base: Base, signed: bool, upper: bool, width: int)

  predicate Negative(word: U32, signed: bool) { signed && word >= 0x8000_0000 }

  /** The value an argument word stands for. */
  function Meaning(word: U32, signed: bool): int {
    if Negative(word, signed) then word - WRAP else word
  }

  function Magnitude(word: U32, signed: bool): nat {
    if Negative(word, signed) then WRAP - word else word
  }

  function Sign(word: U32, signed: bool): string {
    if Negative(word, signed) then "-" else ""
  }

  function Repeat(c: char, r: int): (s: string)
    ensures |s| == if r > 0 then r else 0
    ensures forall i :: 0 <= i < |s| ==> s[i] == c
  {
    if r <= 0 then "" else [c] + Repeat(c, r - 1)
  }

  /** The digits the value needs. */
  function Digits(word: U32, f: Format): string {
    var v := Magnitude(word, f.signed);
    Numeral(v, f.base, f.upper, DigitCount(v, f.base))
  }

  /** The printed form: zeros go between sign and digits, spaces before the sign. */
  function Layout(word: U32, f: Format): string {
    var digits, sign := Digits(word, f), Sign(word, f.signed);
    var pad := f.width - |digits| - |sign|;
    if f.zero then sign + Repeat('0', pad) + digits else Repeat(' ', pad) + sign + digits
  }

  /** Reading an integer: blanks, an optional minus sign, digits. */
  function ReadInteger(s: string, b: Base): int {
    if s != [] && s[0] == ' ' then ReadInteger(s[1..], b)
    else if s != [] && s[0] == '-' then 0 - Value(s[1..], b)
    else Value(s, b)
  }

  lemma {:induction false} ReadPastBlanks(r: int, s: string, b: Base)
    ensures ReadInteger(Repeat(' ', r) + s, b) == ReadInteger(s, b)
  {
    if r > 0 {
      ReadPastBlanks(r - 1, s, b);
      assert (Repeat(' ', r) + s)[1..] == Repeat(' ', r - 1) + s;
    } else {
      assert Repeat(' ', r) + s == s;
    }
  }

  lemma {:induction false} LeadingZeros(r: int, s: string, b: Base)
    ensures Value(Repeat('0', r) + s, b) == Value(s, b)
    decreases |s|, r
  {
    var zeros := Repeat('0', r);
    if s != "" {
      LeadingZeros(r, s[..|s| - 1], b);
      assert (zeros + s)[..|zeros + s| - 1] == zeros + s[..|s| - 1];
    } else if r > 0 {
      LeadingZeros(r - 1, s, b);
      assert (zeros + s)[..|zeros| - 1] == Repeat('0', r - 1) + s;
    }
  }

  // Reading stops at the first character that is not a blank.
  lemma ReadFrom(sign: string, rest: string, b: Base)
    requires sign == "-" || (sign == "" && rest != "" && rest[0] != ' ' && rest[0] != '-')
    ensures ReadInteger(sign + rest, b) + (if sign == "-" then Value(rest, b) else 0)
            == (if sign == "-" then 0 else Value(rest, b))
  {
    hide Value;
    if sign == "-" {
      assert (sign + rest)[1..] == rest;
    } else {
      assert sign + rest == rest;
    }
  }

  lemma DigitsSay(word: U32, f: Format)
    ensures Digits(word, f) != "" && Digits(word, f)[0] != ' ' && Digits(word, f)[0] != '-'
    ensures Value(Digits(word, f), f.base) == Magnitude(word, f.signed)
  {
    DigitCountExact(Magnitude(word, f.signed), f.base);
    NumeralValue(Magnitude(word, f.signed), f.base, f.upper, DigitCount(Magnitude(word, f.signed), f.base));
    hide Value, Numeral;
  }

  // What is printed reads back as the argument, for every word, sign, base, width and
  // padding, the most negative integer included.
  lemma ReadsBack(word: U32, f: Format)
    ensures ReadInteger(Layout(word, f), f.base) == Meaning(word, f.signed)
  {
    DigitsSay(word, f);
    hide Value, Digits, Repeat, ReadInteger;
    var digits, sign := Digits(word, f), Sign(word, f.signed);
    var pad := f.width - |digits| - |sign|;
    if f.zero {
      var rest := Repeat('0', pad) + digits;
      LeadingZeros(pad, digits, f.base);
      assert rest[0] == '0' || rest == digits;
      ReadFrom(sign, rest, f.base);
      assert sign + Repeat('0', pad) + digits == sign + rest;
    } else {
      ReadFrom(sign, digits, f.base);
      ReadPastBlanks(pad, sign + digits, f.base);
      assert Repeat(' ', pad) + sign + digits == Repeat(' ', pad) + (sign + digits);
    }
  }

  // The field is exactly as wide as asked for, or as the sign and the digits need; the
  // digits are as few as can hold the value.
  lemma FieldWidth(word: U32, f: Format, n: nat)
    requires n > 0 && Magnitude(word, f.signed) < Pow(f.base, n)
    requires n == 1 || Pow(f.base, n - 1) <= Magnitude(word, f.signed)
    ensures var need := n + |Sign(word, f.signed)|;
      |Layout(word, f)| == if f.width > need then f.width else need
  {
    DigitCountUnique(Magnitude(word, f.signed), f.base, n);
    hide Repeat, Numeral, Pow;
  }

  // ------------------------------------------------------------------ written out

  /** `v` in positional notation, with the least number of digits, in the radix that is the
      length of the alphabet. */
  function Written(v: nat, alphabet: string): (s: string)
    requires |alphabet| > 1
    ensures s != ""
    decreases v
  {
    if v < |alphabet| then [alphabet[v]]
    else
      assert v / |alphabet| < v by { QuotientShrinks(v, |alphabet|); }
      Written(v / |alphabet|, alphabet) + [alphabet[v % |alphabet|]]
  }

  lemma {:induction false} AtLeastTwice(n: nat, q: nat)
    requires n > 1
    ensures n * q >= 2 * q
  {
    if q > 0 {
      AtLeastTwice(n, q - 1);
      assert n * q == n * (q - 1) + n;
    }
  }

  lemma QuotientShrinks(v: nat, n: nat)
    requires v >= n > 1
    ensures v / n < v
  {
    assert v == n * (v / n) + v % n;
    AtLeastTwice(n, v / n);
  }

  lemma DigitInAlphabet(d: nat)
    requires d < 16
    ensures Digit(d, false) == "0123456789abcdef"[d] && Digit(d, true) == "0123456789ABCDEF"[d]
    ensures d < 10 ==> Digit(d, false) == "0123456789"[d]
    ensures d < 8 ==> Digit(d, false) == "01234567"[d]
  {
  }

  // The digits a value needs, in each base the formats ask for.
  lemma {:induction false} OctalWritten(v: nat)
    ensures Numeral(v, Octal, false, DigitCount(v, Octal)) == Written(v, "01234567")
    decreases v
  {
    DigitInAlphabet(v % 8);
    if v >= 8 {
      OctalWritten(v / 8);
    }
  }

  lemma {:induction false} DecimalWritten(v: nat)
    ensures Numeral(v, Decimal, false, DigitCount(v, Decimal)) == Written(v, "0123456789")
    decreases v
  {
    DigitInAlphabet(v % 10);
    if v >= 10 {
      DecimalWritten(v / 10);
    }
  }

  lemma {:induction false} HexadecimalWritten(v: nat)
    ensures Numeral(v, Hexadecimal, false, DigitCount(v, Hexadecimal)) == Written(v, "0123456789abcdef")
    ensures Numeral(v, Hexadecimal, true, DigitCount(v, Hexadecimal)) == Written(v, "0123456789ABCDEF")
    decreases v
  {
    DigitInAlphabet(v % 16);
    if v >= 16 {
      HexadecimalWritten(v / 16);
    }
  }

  // What is written says the value.
  lemma {:induction false} WrittenSays(v: nat)
    ensures Value(Written(v, "01234567"), Octal) == v && Value(Written(v, "0123456789"), Decimal) == v
    ensures Value(Written(v, "0123456789abcdef"), Hexadecimal) == v
    ensures Value(Written(v, "0123456789ABCDEF"), Hexadecimal) == v
  {
    hide *;
    OctalWritten(v);
    DecimalWritten(v);
    HexadecimalWritten(v);
    NumeralSays(v, Octal, false);
    NumeralSays(v, Decimal, false);
    NumeralSays(v, Hexadecimal, false);
    NumeralSays(v, Hexadecimal, true);
  }

  lemma NumeralSays(v: nat, b: Base, upper: bool)
    ensures Value(Numeral(v, b, upper, DigitCount(v, b)), b) == v
  {
    DigitCountExact(v, b);
    NumeralValue(v, b, upper, DigitCount(v, b));
  }

  // ------------------------------------------------------------------ by division

  function Quo(v: nat, p: nat): nat
    requires p > 0
  {
    v / p
  }

  function Rem(v: nat, p: nat): (r: nat)
    requires p > 0
    ensures r < p
  {
    v % p
  }

  lemma QuoRem(v: nat, p: nat)
    requires p > 0
    ensures v == p * Quo(v, p) + Rem(v, p)
  {
  }

  lemma QuoRemUnique(v: nat, p: nat, q: nat, r: nat)
    requires r < p && v == p * q + r
    ensures Quo(v, p) == q && Rem(v, p) == r
  {
    QuoRem(v, p);
    var q1, r1 := Quo(v, p), Rem(v, p);
    hide Quo, Rem;
    Multiples(p, q, q1);
    Multiples(p, q1, q);
  }

  lemma {:induction false} Multiples(p: nat, a: nat, b: nat)
    ensures a < b ==> p * a + p <= p * b
    decreases b
  {
    if a < b {
      assert p * b == p * (b - 1) + p;
      if a < b - 1 {
        Multiples(p, a, b - 1);
      }
    }
  }

  // Splitting off a place commutes with splitting off the lowest digit.
  lemma SplitPlace(v: nat, b: Base, p: nat)
    requires p > 0
    ensures Quo(v, Scaled(b, p)) == Quo(Shrunk(b, v), p)
    ensures Shrunk(b, Rem(v, Scaled(b, p))) == Rem(Shrunk(b, v), p)
    ensures LowDigit(b, Rem(v, Scaled(b, p))) == LowDigit(b, v)
  {
    var q, r, d := Quo(Shrunk(b, v), p), Rem(Shrunk(b, v), p), LowDigit(b, v);
    QuoRem(Shrunk(b, v), p);
    hide Quo, Rem;
    ScaledProduct(b, p, q);
    QuoRemUnique(v, Scaled(b, p), q, Scaled(b, r) + d);
  }

  lemma ScaledProduct(b: Base, p: nat, q: nat)
    ensures Scaled(b, p) * q == Scaled(b, p * q)
  {
  }

  // The first digit is the quotient by its place value, the others are the remainder's.
  lemma {:induction false} LeadDigit(v: nat, b: Base, upper: bool, k: nat)
    requires k > 0 && v < Pow(b, k)
    ensures Quo(v, Pow(b, k - 1)) < 16
    ensures Numeral(v, b, upper, k)
            == [Digit(Quo(v, Pow(b, k - 1)), upper)] + Numeral(Rem(v, Pow(b, k - 1)), b, upper, k - 1)
    decreases k
  {
    if k == 1 {
      OnlyDigit(v, b, upper);
    } else {
      LeadDigit(Shrunk(b, v), b, upper, k - 1);
      OneMoreDigit(v, b, upper, k, Pow(b, k - 2));
    }
  }

  lemma OnlyDigit(v: nat, b: Base, upper: bool)
    requires v < Pow(b, 1)
    ensures Pow(b, 0) == 1 && Quo(v, 1) == v < 16 && Rem(v, 1) == 0
    ensures Numeral(v, b, upper, 1) == [Digit(v, upper)] + Numeral(0, b, upper, 0)
  {
    assert Pow(b, 1) == Scaled(b, Pow(b, 0));
    assert Shrunk(b, v) == 0 && LowDigit(b, v) == v;
    assert Numeral(v, b, upper, 1) == Numeral(0, b, upper, 0) + [Digit(v, upper)];
  }

  lemma OneMoreDigit(v: nat, b: Base, upper: bool, k: nat, p: nat)
    requires k > 1 && p == Pow(b, k - 2) && Quo(Shrunk(b, v), p) < 16
    requires Numeral(Shrunk(b, v), b, upper, k - 1)
             == [Digit(Quo(Shrunk(b, v), p), upper)] + Numeral(Rem(Shrunk(b, v), p), b, upper, k - 2)
    ensures Pow(b, k - 1) == Scaled(b, p) && Quo(v, Scaled(b, p)) == Quo(Shrunk(b, v), p)
    ensures Numeral(v, b, upper, k)
            == [Digit(Quo(v, Scaled(b, p)), upper)] + Numeral(Rem(v, Scaled(b, p)), b, upper, k - 1)
  {
    hide Quo, Rem, Digit, Shrunk, LowDigit;
    SplitPlace(v, b, p);
    var first, low := [Digit(Quo(Shrunk(b, v), p), upper)], [Digit(LowDigit(b, v), upper)];
    var rest := Numeral(Rem(Shrunk(b, v), p), b, upper, k - 2);
    assert Numeral(Rem(v, Scaled(b, p)), b, upper, k - 1) == rest + low;
    assert first + rest + low == first + (rest + low);
  }

  /** `p` is the value of the first of `k` places. */
  ghost predicate Place(b: Base, p: nat, k: nat) {
    p == if k == 0 then 0 else Pow(b, k - 1)
  }

  lemma NextPlace(b: Base, p: nat, k: nat)
    requires Place(b, p, k) && p > 0
    ensures k > 0 && p == Pow(b, k - 1) && Place(b, Shrunk(b, p), k - 1)
  {
  }

  lemma NoPlace(b: Base, k: nat, v: nat, upper: bool)
    requires Place(b, 0, k)
    ensures k == 0 && Numeral(v, b, upper, k) == ""
  {
  }

  function Append(out: string, more: string, ghost rest: string): (r: string)
    ensures r + rest == out + (more + rest)
  {
    out + more
  }

  /** alt_log_repchar */
  method RepChar(c: char, r: int) returns (out: string)
    ensures out == Repeat(c, r)
  {
    out := "";
    var left := r;
    while left > 0
      invariant out + Repeat(c, left) == Repeat(c, r)
      decreases left
    {
      left := left - 1;
      out := out + [c];
      assert out + Repeat(c, left) == out[..|out| - 1] + Repeat(c, left + 1);
    }
    assert out + Repeat(c, left) == out;
  }

  /** After counting `n` digits: `p` is the n-th place value, `left` what `v` has above it. */
  ghost predicate Counted(v: U32, b: Base, p: nat, n: nat, left: nat) {
    && n > 0 && p == Pow(b, n - 1) && left == Quo(v, Scaled(b, p))
    && DigitCount(v, b) == n + if left > 0 then DigitCount(left, b) else 0
  }

  lemma CountStarts(v: U32, b: Base)
    ensures Counted(v, b, 1, 1, Shrunk(b, v))
  {
    assert Pow(b, 0) == 1;
  }

  // One round of the counting loop: the next place value fits in 32 bits.
  lemma CountGoesOn(v: U32, b: Base, p: nat, n: nat, left: nat)
    requires Counted(v, b, p, n, left) && left > 0
    ensures Scaled(b, p) < WRAP && Shrunk(b, left) < left
    ensures Counted(v, b, Scaled(b, p), n + 1, Shrunk(b, left))
  {
    var q := Scaled(b, p);
    QuoRem(v, q);
    hide Quo, Rem;
    Multiples(q, 0, left);
    QuoQuo(v, b, q);
  }

  lemma CountEnds(v: U32, b: Base, p: nat, n: nat)
    requires Counted(v, b, p, n, 0)
    ensures n == DigitCount(v, b) && v < Pow(b, n) && Place(b, p, n) && p > 0
  {
    DigitCountExact(v, b);
    hide Quo;
  }

  /** Counting the digits and finding the largest place value.  The products are taken in
      32 bits; none of them overflows. */
  method LargestPlace(v: U32, b: Base) returns (p: U32, digitCount: nat)
    ensures digitCount == DigitCount(v, b) && v < Pow(b, digitCount) && Place(b, p, digitCount) && p > 0
  {
    hide Counted, Pow, DigitCount, Place, Shrunk, Scaled;
    p, digitCount := 1, 1;
    var vShrink := Shrunk(b, v);
    CountStarts(v, b);
    while vShrink > 0
      invariant Counted(v, b, p, digitCount, vShrink)
      decreases vShrink
    {
      CountGoesOn(v, b, p, digitCount, vShrink);
      digitCount := digitCount + 1;
      p := Scaled(b, p) % WRAP;
      vShrink := Shrunk(b, vShrink);
    }
    CountEnds(v, b, p, digitCount);
  }

  lemma QuoQuo(v: nat, b: Base, p: nat)
    requires p > 0
    ensures Quo(v, Scaled(b, p)) == Shrunk(b, Quo(v, p))
  {
    var q, r := Quo(v, p), Rem(v, p);
    QuoRem(v, p);
    hide Quo, Rem;
    var hi, lo := Shrunk(b, q), LowDigit(b, q);
    assert q == Scaled(b, hi) + lo;
    Spread(b, p, hi, lo);
    QuoRemUnique(v, Scaled(b, p), hi, p * lo + r);
  }

  lemma Spread(b: Base, p: nat, hi: nat, lo: nat)
    ensures p * (Scaled(b, hi) + lo) == Scaled(b, p) * hi + p * lo
    ensures lo < Radix(b) ==> p * lo + p <= Scaled(b, p)
  {
    if lo < Radix(b) {
      assert p * (Radix(b) - lo) >= p;
    }
  }

  /** One digit: the quotient by the place value. */
  method OneDigit(v: U32, p: U32, b: Base, upper: bool, ghost k: nat) returns (d: char, v1: U32, p1: U32)
    requires v < Pow(b, k) && Place(b, p, k) && p > 0
    ensures k > 0 && v1 < Pow(b, k - 1) && Place(b, p1, k - 1) && p1 < p
    ensures Numeral(v, b, upper, k) == [d] + Numeral(v1, b, upper, k - 1)
  {
    NextPlace(b, p, k);
    LeadDigit(v, b, upper, k);
    hide Pow, Numeral;
    assert Quo(v, p) == v / p && Rem(v, p) == v % p;
    d := Digit(v / p, upper);
    v1 := v % p;
    p1 := Shrunk(b, p);
  }

  /** The digits by dividing by ever smaller place values. */
  method PrintDigits(value: U32, place: U32, b: Base, upper: bool, ghost n: nat) returns (out: string)
    requires value < Pow(b, n) && Place(b, place, n)
    ensures out == Numeral(value, b, upper, n)
  {
    hide Numeral, Place, Pow;
    out := "";
    var v: U32, p: U32 := value, place;
    ghost var k: nat := n;
    while p != 0
      invariant v < Pow(b, k) && Place(b, p, k)
      invariant out + Numeral(v, b, upper, k) == Numeral(value, b, upper, n)
      decreases p
    {
      var d;
      d, v, p := OneDigit(v, p, b, upper, k);
      k := k - 1;
      out := Append(out, [d], Numeral(v, b, upper, k));
    }
    NoPlace(b, k, v, upper);
    assert out + "" == out;
  }

  /** Leading characters and sign. */
  method PrintLead(zero: bool, sign: bool, room: int) returns (out: string)
    ensures sign ==> out == if zero then "-" + Repeat('0', room - 1) else Repeat(' ', room - 1) + "-"
    ensures !sign ==> out == Repeat(if zero then '0' else ' ', room)
  {
    hide Repeat;
    out := "";
    var fmtBeforeDecimal := room;
    if zero {
      if sign {
        out := out + "-";
        fmtBeforeDecimal := fmtBeforeDecimal - 1;
      }
      var pad := RepChar('0', fmtBeforeDecimal);
      out := out + pad;
    } else {
      if sign {
        fmtBeforeDecimal := fmtBeforeDecimal - 1;
      }
      out := RepChar(' ', fmtBeforeDecimal);
      if sign {
        out := out + "-";
      }
    }
  }

  /** The integer part of alt_log_private_printf. */
  method PrintInteger(word: U32, f: Format) returns (out: string)
    ensures out == Layout(word, f)
  {
    var v, sign := word, false;
    if f.signed && v >= 0x8000_0000 {
      v := (WRAP - 1 - v + 1) % WRAP;
      sign := true;
    }
    assert v == Magnitude(word, f.signed) && sign == Negative(word, f.signed);
    hide Magnitude, Negative, Place, Repeat, Numeral, DigitCount, Pow, Layout;
    var p, digitCount := LargestPlace(v, f.base);
    var lead := PrintLead(f.zero, sign, f.width - digitCount);
    var digits := PrintDigits(v, p, f.base, f.upper, digitCount);
    out := lead + digits;
    LayoutParts(word, f, lead, digits);
  }

  lemma LayoutParts(word: U32, f: Format, lead: string, digits: string)
    requires digits == Digits(word, f)
    requires Negative(word, f.signed) ==>
      lead == if f.zero then "-" + Repeat('0', f.width - |digits| - 1) else Repeat(' ', f.width - |digits| - 1) + "-"
    requires !Negative(word, f.signed) ==> lead == Repeat(if f.zero then '0' else ' ', f.width - |digits|)
    ensures Layout(word, f) == lead + digits
  {
    hide Digits, Negative, Repeat;
    assert "" + Repeat('0', f.width - |digits|) == Repeat('0', f.width - |digits|);
    assert Repeat(' ', f.width - |digits|) + "" == Repeat(' ', f.width - |digits|);
  }

  // ------------------------------------------------------------------ by shifting

  /** (v & (0xF << shift)) >> shift, for shift = 4k */
  function Nibble(v: U32, k: nat): (d: nat)
    ensures d < 16
  {
    Quo(v, Pow(Hexadecimal, k)) % 16
  }

  // A nibble is the leading digit of what the shorter numeral would print.
  lemma NibbleIsDigit(v: U32, k: nat)
    ensures Numeral(Rem(v, Pow(Hexadecimal, k + 1)), Hexadecimal, false, k + 1)
            == [Digit(Nibble(v, k), false)] + Numeral(Rem(v, Pow(Hexadecimal, k)), Hexadecimal, false, k)
  {
    var p := Pow(Hexadecimal, k);
    assert Pow(Hexadecimal, k + 1) == 16 * p;
    LeadDigit(Rem(v, 16 * p), Hexadecimal, false, k + 1);
    hide Pow, Numeral, Digit;
    NibbleArithmetic(v, p);
  }

  lemma NibbleArithmetic(v: nat, p: nat)
    requires p > 0
    ensures Quo(Rem(v, 16 * p), p) == Quo(v, p) % 16 && Rem(Rem(v, 16 * p), p) == Rem(v, p)
  {
    var q, r := Quo(v, p), Rem(v, p);
    QuoRem(v, p);
    hide Quo, Rem;
    var hi, lo := q / 16, q % 16;
    Spread(Hexadecimal, p, hi, lo);
    QuoRemUnique(v, 16 * p, hi, p * lo + r);
    QuoRemUnique(p * lo + r, p, lo, r);
  }

  lemma EightNibbles(v: U32)
    ensures v < Pow(Hexadecimal, 8)
  {
    assert Pow(Hexadecimal, 2) == 256;
    assert Pow(Hexadecimal, 4) == 16 * 16 * Pow(Hexadecimal, 2);
    assert Pow(Hexadecimal, 6) == 16 * 16 * Pow(Hexadecimal, 4);
    assert Pow(Hexadecimal, 8) == 16 * 16 * Pow(Hexadecimal, 6);
  }

  // The value is below the place just above a nibble: whether that nibble is zero says
  // whether it is below the nibble's own place.
  lemma NibbleTells(v: U32, k: nat)
    requires v < Pow(Hexadecimal, k + 1)
    ensures Nibble(v, k) == 0 <==> v < Pow(Hexadecimal, k)
    ensures v > 0 && Nibble(v, k) == 0 ==> k > 0
  {
    var p := Pow(Hexadecimal, k);
    QuoRem(v, p);
    hide Quo, Rem;
    Multiples(p, 0, Quo(v, p));
    Multiples(p, 15, Quo(v, p));
    assert Pow(Hexadecimal, 0) == 1;
  }

  /** Finding the first nibble that is not zero. */
  method FirstNibble(v: U32) returns (k: nat)
    requires v > 0
    ensures v < Pow(Hexadecimal, k + 1) && (k == 0 || Pow(Hexadecimal, k) <= v)
  {
    hide Nibble, Pow;
    k := 7;
    EightNibbles(v);
    NibbleTells(v, 7);
    while Nibble(v, k) == 0
      invariant 0 <= k <= 7 && v < Pow(Hexadecimal, k + 1)
      invariant Nibble(v, k) == 0 <==> v < Pow(Hexadecimal, k)
      invariant Nibble(v, k) == 0 ==> k > 0
      decreases k
    {
      k := k - 1;
      NibbleTells(v, k);
    }
  }

  function HexDigit(digit: nat): (c: char)
    requires digit < 16
    ensures c == Digit(digit, false)
  {
    if digit <= 9 then ('0' as int + digit) as char else ('a' as int + digit - 10) as char
  }

  /** Printing that nibble and the ones below it. */
  method PrintNibbles(v: U32, first: nat) returns (out: string)
    requires v < Pow(Hexadecimal, first + 1)
    ensures out == Numeral(v, Hexadecimal, false, first + 1)
  {
    hide Nibble, Pow, Numeral, Digit, HexDigit, Quo;
    out := "";
    var k: int := first;
    assert Rem(v, Pow(Hexadecimal, first + 1)) == v;
    hide Rem;
    while k >= 0
      invariant -1 <= k <= first
      invariant out + Numeral(Rem(v, Pow(Hexadecimal, k + 1)), Hexadecimal, false, k + 1)
                == Numeral(v, Hexadecimal, false, first + 1)
    {
      NibbleIsDigit(v, k);
      var c := HexDigit(Nibble(v, k));
      out := Append(out, [c], Numeral(Rem(v, Pow(Hexadecimal, k)), Hexadecimal, false, k));
      k := k - 1;
    }
    ghost var nothing := Numeral(Rem(v, Pow(Hexadecimal, 0)), Hexadecimal, false, 0);
    assert nothing == "" && out + "" == out;
  }

  // Without width, the layout is just the numeral with as many digits as the value needs.
  lemma HexLayout(v: U32, k: nat)
    requires v < Pow(Hexadecimal, k + 1) && (k == 0 || Pow(Hexadecimal, k) <= v)
    ensures Layout(v, Format(false, Hexadecimal, false, false, -1)) == Numeral(v, Hexadecimal, false, k + 1)
  {
    DigitCountUnique(v, Hexadecimal, k + 1);
    hide Pow, Numeral, DigitCount;
    var digits := Numeral(v, Hexadecimal, false, k + 1);
    assert Repeat(' ', -1 - |digits| - 0) + "" + digits == digits;
  }

  /** The %x of alt_printf. */
  method PrintHex(v: U32) returns (out: string)
    ensures out == Layout(v, Format(false, Hexadecimal, false, false, -1))
  {
    if v == 0 {
      HexLayout(v, 0);
      return "0";
    }
    var first := FirstNibble(v);
    HexLayout(v, first);
    out := PrintNibbles(v, first);
  }
}
