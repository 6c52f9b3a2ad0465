/** The format strings of the logging printf, read by a state machine, and those of the
    small printf; what the directives mean, and where the two agree. */
module LogPrintf {
  import opened Words
  import opened NumberPrint

  /** An argument: a word, and the string it points to when it is used as a pointer. */
  datatype Arg = Arg(word: U32, text: string)

  // ------------------------------------------------------------------ what formats mean

  predicate IsDigit(c: char) { '0' <= c <= '9' }

  /** The characters between the percent sign and the letter. */
  predicate IsOption(c: char) { c == '.' || IsDigit(c) || c == 'l' }

  function IntegerFormat(c: char, zero: bool, width: int): Format
    requires c in "diuoxX"
  {
    var base := if c == 'o' then Octal else if c == 'x' || c == 'X' then Hexadecimal else Decimal;
    Format(zero, base, c == 'd' || c == 'i', c == 'X', width)
  }

  function CharOf(word: U32): char { (word % 256) as char }

  /** The text printed for a directive. */
  function Field(c: char, zero: bool, width: int, arg: Arg): string {
    if c in "diuoxX" then Layout(arg.word, IntegerFormat(c, zero, width))
    else if c == 'c' then Repeat(' ', width - 1) + [CharOf(arg.word)]
    else if c == 's' then Repeat(' ', width - |arg.text|) + arg.text
    else ""
  }

  predicate TakesArgument(c: char) { c in "diuoxXcs" }

  /** The width after one more option character: digits count up to the first point. */
  function Widened(width: int, point: int, c: char): int {
    if IsDigit(c) && point < 0 then (if width < 0 then 0 else width * 10) + DigitValue(c) else width
  }

  function Pointed(point: int, c: char): int {
    if c == '.' then 0 else if IsDigit(c) && point >= 0 then point * 10 + DigitValue(c) else point
  }

  /** What is printed for a format, given the arguments from the k-th on. */
  function Log(fmt: string, args: nat -> Arg, k: nat): string
    decreases |fmt|, 1
  {
    if fmt == "" then ""
    else if fmt[0] == '%' then LogDirective(fmt[1..], args, k)
    else [fmt[0]] + Log(fmt[1..], args, k)
  }

  function LogDirective(fmt: string, args: nat -> Arg, k: nat): string
    decreases |fmt|, 2
  {
    if fmt == "" then ""
    else if fmt[0] == '0' then LogOptions(fmt[1..], true, -1, -1, args, k)
    else if fmt[0] == '%' then "%" + Log(fmt[1..], args, k)
    else LogOptions(fmt, false, -1, -1, args, k)
  }

  function LogOptions(fmt: string, zero: bool, width: int, point: int, args: nat -> Arg, k: nat): string
    decreases |fmt|, 0
  {
    if fmt == "" then ""
    else if IsOption(fmt[0]) then
      LogOptions(fmt[1..], zero, Widened(width, point, fmt[0]), Pointed(point, fmt[0]), args, k)
    else
      Field(fmt[0], zero, width, args(k)) + Log(fmt[1..], args, if TakesArgument(fmt[0]) then k + 1 else k)
  }

  /** The same for the small printf. */
  function Small(fmt: string, args: nat -> Arg, k: nat): string {
    if fmt == "" then ""
    else if fmt[0] != '%' then [fmt[0]] + Small(fmt[1..], args, k)
    else if |fmt| == 1 then ""
    else if fmt[1] == '%' then "%" + Small(fmt[2..], args, k)
    else if fmt[1] == 'c' then [CharOf(args(k).word)] + Small(fmt[2..], args, k + 1)
    else if fmt[1] == 'x' then Layout(args(k).word, IntegerFormat('x', false, -1)) + Small(fmt[2..], args, k + 1)
    else if fmt[1] == 's' then args(k).text + Small(fmt[2..], args, k + 1)
    else Small(fmt[2..], args, k)
  }

  // ------------------------------------------------------------------ the two readers

  datatype State = Chars | FirstFmtChar | OtherFmtChar

  /** The reader's variables: its state, fmtLeadingZero, fmtBeforeDecimal,
      fmtAfterDecimal, and how many arguments it has taken. */
  datatype Reader = Reader(state: State, zero: bool, width: int, point: int, taken: nat)

  predicate Wf(r: Reader) { r.state == FirstFmtChar ==> !r.zero && r.width == -1 && r.point == -1 }

  /** What the reader still prints when `fmt` is left to read. */
  function Rest(r: Reader, fmt: string, args: nat -> Arg): string {
    match r.state
    case Chars => Log(fmt, args, r.taken)
    case FirstFmtChar => LogDirective(fmt, args, r.taken)
    case OtherFmtChar => LogOptions(fmt, r.zero, r.width, r.point, args, r.taken)
  }

  /** The letter of a directive. */
  method PrintField(c: char, zero: bool, width: int, arg: Arg) returns (out: string)
    requires !IsOption(c)
    ensures out == Field(c, zero, width, arg)
  {
    hide Layout, Repeat;
    if c == 'd' || c == 'i' || c == 'u' || c == 'o' || c == 'x' || c == 'X' {
      var fmtBase, fmtSigned, fmtCase := Decimal, true, false;
      if c == 'u' {
        fmtSigned := false;
      } else if c == 'o' {
        fmtSigned, fmtBase := false, Octal;
      } else if c == 'x' {
        fmtSigned, fmtBase := false, Hexadecimal;
      } else if c == 'X' {
        fmtSigned, fmtBase, fmtCase := false, Hexadecimal, true;
      }
      out := PrintInteger(arg.word, Format(zero, fmtBase, fmtSigned, fmtCase, width));
    } else if c == 'c' {
      out := RepChar(' ', width - 1);
      out := out + [CharOf(arg.word)];
    } else if c == 's' {
      out := RepChar(' ', width - |arg.text|);
      out := out + arg.text;
    } else {
      out := "";
    }
  }

  /** The state otherFmtChar. */
  method OtherChar(c: char, r: Reader, args: nat -> Arg, ghost rest: string) returns (out: string, next: Reader)
    requires r.state == OtherFmtChar
    ensures Wf(next) && Rest(r, [c] + rest, args) == out + Rest(next, rest, args)
  {
    assert ([c] + rest)[1..] == rest;
    hide Field, Log, LogDirective;
    out, next := "", r;
    if c == '.' {
      next := next.(point := 0);
    } else if '0' <= c <= '9' {
      if next.point < 0 {
        if next.width < 0 {
          next := next.(width := 0);
        } else {
          next := next.(width := next.width * 10);
        }
        next := next.(width := next.width + DigitValue(c));
      } else {
        next := next.(point := next.point * 10 + DigitValue(c));
      }
    } else if c == 'l' {
    } else {
      out := PrintField(c, next.zero, next.width, args(next.taken));
      if TakesArgument(c) {
        next := next.(taken := next.taken + 1);
      }
      next := next.(state := Chars);
    }
  }

  /** One round of alt_log_private_printf's loop. */
  method OneChar(c: char, r: Reader, args: nat -> Arg, ghost rest: string) returns (out: string, next: Reader)
    requires Wf(r)
    ensures Wf(next) && Rest(r, [c] + rest, args) == out + Rest(next, rest, args)
  {
    assert ([c] + rest)[1..] == rest;
    out, next := "", r;
    match r.state
    case Chars =>
      if c == '%' {
        next := Reader(FirstFmtChar, false, -1, -1, r.taken);
      } else {
        out := [c];
      }
    case FirstFmtChar =>
      if c == '0' {
        next := next.(zero := true, state := OtherFmtChar);
      } else if c == '%' {
        out, next := [c], next.(state := Chars);
      } else {
        next := next.(state := OtherFmtChar);
        out, next := OtherChar(c, next, args, rest);
      }
    case OtherFmtChar =>
      out, next := OtherChar(c, next, args, rest);
  }

  /** alt_log_private_printf: the character-by-character reader prints what the
      directives mean. */
  method LogPrintf(fmt: string, args: nat -> Arg) returns (out: string)
    ensures out == Log(fmt, args, 0)
  {
    out := "";
    var r := Reader(Chars, false, 0, 0, 0);
    var w := 0;
    assert fmt[0..] == fmt;
    hide *;
    StartsWith(r, fmt, args);
    while w < |fmt|
      invariant 0 <= w <= |fmt| && Wf(r)
      invariant out + Rest(r, fmt[w..], args) == Log(fmt, args, 0)
    {
      ghost var rest := fmt[w + 1..];
      assert fmt[w..] == [fmt[w]] + rest;
      var printed, next := OneChar(fmt[w], r, args, rest);
      out, r := Append(out, printed, Rest(next, rest, args)), next;
      w := w + 1;
    }
    NothingLeft(r, args);
    assert fmt[w..] == "" && out + "" == out;
  }

  lemma StartsWith(r: Reader, fmt: string, args: nat -> Arg)
    requires r.state == Chars && r.taken == 0
    ensures Wf(r) && Rest(r, fmt, args) == Log(fmt, args, 0)
  {
  }

  lemma NothingLeft(r: Reader, args: nat -> Arg)
    ensures Rest(r, "", args) == ""
  {
  }

  /** alt_printf */
  method SmallPrintf(fmt: string, args: nat -> Arg) returns (out: string)
    ensures out == Small(fmt, args, 0)
  {
    out := "";
    var w, taken: nat := 0, 0;
    assert fmt[0..] == fmt;
    while w < |fmt|
      invariant 0 <= w <= |fmt|
      invariant out + Small(fmt[w..], args, taken) == Small(fmt, args, 0)
    {
      ghost var left := fmt[w..];
      var c := fmt[w];
      w := w + 1;
      if c != '%' {
        out := Append(out, [c], Small(fmt[w..], args, taken));
      } else if w < |fmt| {
        c := fmt[w];
        w := w + 1;
        assert left[2..] == fmt[w..];
        ghost var after := Small(fmt[w..], args, if c in "cxs" then taken + 1 else taken);
        if c == '%' {
          out := Append(out, "%", after);
        } else if c == 'c' {
          out := Append(out, [CharOf(args(taken).word)], after);
          taken := taken + 1;
        } else if c == 'x' {
          var digits := PrintHex(args(taken).word);
          out := Append(out, digits, after);
          taken := taken + 1;
        } else if c == 's' {
          out := Append(out, args(taken).text, after);
          taken := taken + 1;
        }
      } else {
        break;
      }
    }
    assert fmt[w..] == "" && out + "" == out;
  }

  // ------------------------------------------------------------------ what holds of them

  /** No directive asks for more than the small printf knows. */
  predicate Common(fmt: string) {
    if fmt == "" then true
    else if fmt[0] != '%' then Common(fmt[1..])
    else |fmt| == 1 || (!IsOption(fmt[1]) && fmt[1] !in "diuoX" && Common(fmt[2..]))
  }

  // On the formats both know, the two implementations print the same text, whatever the
  // arguments: division by place values and nibble shifting included.
  lemma {:induction false} PrintfsAgree(fmt: string, args: nat -> Arg, k: nat)
    requires Common(fmt)
    ensures Log(fmt, args, k) == Small(fmt, args, k)
    decreases |fmt|
  {
    if fmt != "" {
      if fmt[0] != '%' {
        PrintfsAgree(fmt[1..], args, k);
      } else if |fmt| > 1 {
        PrintfsAgree(fmt[2..], args, k);
        PrintfsAgree(fmt[2..], args, k + 1);
        SharedDirective(fmt, args, k);
      }
    }
  }

  lemma SharedDirective(fmt: string, args: nat -> Arg, k: nat)
    requires |fmt| > 1 && fmt[0] == '%' && !IsOption(fmt[1]) && fmt[1] !in "diuoX"
    requires Log(fmt[2..], args, k) == Small(fmt[2..], args, k)
    requires Log(fmt[2..], args, k + 1) == Small(fmt[2..], args, k + 1)
    ensures Log(fmt, args, k) == Small(fmt, args, k)
  {
    var rest, arg := fmt[1..], args(k);
    assert rest[1..] == fmt[2..] && Log(fmt, args, k) == LogDirective(rest, args, k);
    hide Layout;
    if fmt[1] != '%' {
      assert LogDirective(rest, args, k) == LogOptions(rest, false, -1, -1, args, k);
      assert Repeat(' ', -2) + [CharOf(arg.word)] == [CharOf(arg.word)];
      assert Repeat(' ', -1 - |arg.text|) + arg.text == arg.text;
    }
  }

  predicate AllDigits(s: string) { forall i :: 0 <= i < |s| ==> IsDigit(s[i]) }

  lemma {:induction false} NumeralDigits(v: nat, k: nat)
    ensures AllDigits(Numeral(v, Decimal, false, k))
    ensures k > 0 && Pow(Decimal, k - 1) <= v < Pow(Decimal, k) ==> Numeral(v, Decimal, false, k)[0] != '0'
    decreases k
  {
    if k > 0 {
      NumeralDigits(v / 10, k - 1);
      var rest := Numeral(v / 10, Decimal, false, k - 1);
      assert Numeral(v, Decimal, false, k) == rest + [Digit(v % 10, false)];
      if k == 1 {
        assert Pow(Decimal, 1) == 10 * Pow(Decimal, 0) == 10;
      }
    }
  }

  lemma OneWidthDigit(d: char, rest: string, zero: bool, width: int, args: nat -> Arg, k: nat)
    requires IsDigit(d)
    ensures LogOptions([d] + rest, zero, width, -1, args, k)
            == LogOptions(rest, zero, (if width < 0 then 0 else width * 10) + DigitValue(d), -1, args, k)
  {
    assert ([d] + rest)[1..] == rest;
  }

  // Digits in front of the letter add up to the width they say.
  lemma {:induction false} WidthDigits(s: string, rest: string, zero: bool, args: nat -> Arg, k: nat)
    requires AllDigits(s) && s != ""
    ensures LogOptions(s + rest, zero, -1, -1, args, k) == LogOptions(rest, zero, Value(s, Decimal), -1, args, k)
    decreases |s|
  {
    var t, d := s[..|s| - 1], s[|s| - 1];
    assert s + rest == t + ([d] + rest);
    assert Value(s, Decimal) == 10 * Value(t, Decimal) + DigitValue(d);
    assert Value("", Decimal) == 0;
    hide LogOptions, Value, DigitValue, IsDigit;
    if t == "" {
      assert s + rest == [d] + rest;
      OneWidthDigit(d, rest, zero, -1, args, k);
    } else {
      WidthDigits(t, [d] + rest, zero, args, k);
      OneWidthDigit(d, rest, zero, Value(t, Decimal), args, k);
    }
  }

  // A directive with a decimal width prints its argument in a field of that width, and
  // what follows is printed after it.
  lemma WidthIsObeyed(width: nat, zero: bool, c: char, rest: string, args: nat -> Arg, k: nat)
    requires width > 0 && !IsOption(c)
    ensures var digits := Numeral(width, Decimal, false, DigitCount(width, Decimal));
      Log("%" + (if zero then "0" else "") + digits + [c] + rest, args, k)
      == Field(c, zero, width, args(k)) + Log(rest, args, if TakesArgument(c) then k + 1 else k)
  {
    hide *;
    var s := Numeral(width, Decimal, false, DigitCount(width, Decimal));
    WidthNumeral(width);
    WidthDigits(s, [c] + rest, zero, args, k);
    DirectiveWith(s, zero, c, rest, args, k);
    AtLetter(c, rest, zero, width, args, k);
  }

  lemma WidthNumeral(width: nat)
    requires width > 0
    ensures var s := Numeral(width, Decimal, false, DigitCount(width, Decimal));
      AllDigits(s) && s != "" && s[0] != '0' && Value(s, Decimal) == width
  {
    var n := DigitCount(width, Decimal);
    DigitCountExact(width, Decimal);
    NumeralDigits(width, n);
    NumeralValue(width, Decimal, false, n);
    assert n == 1 ==> Pow(Decimal, 0) == 1;
    hide Numeral, Value, Pow;
  }

  lemma AtLetter(c: char, rest: string, zero: bool, width: int, args: nat -> Arg, k: nat)
    requires !IsOption(c)
    ensures LogOptions([c] + rest, zero, width, -1, args, k)
            == Field(c, zero, width, args(k)) + Log(rest, args, if TakesArgument(c) then k + 1 else k)
  {
    assert ([c] + rest)[1..] == rest;
  }

  lemma DirectiveWith(s: string, zero: bool, c: char, rest: string, args: nat -> Arg, k: nat)
    requires AllDigits(s) && s != "" && s[0] != '0'
    ensures Log("%" + (if zero then "0" else "") + s + [c] + rest, args, k)
            == LogOptions(s + ([c] + rest), zero, -1, -1, args, k)
  {
    var fmt := "%" + (if zero then "0" else "") + s + [c] + rest;
    hide LogOptions;
    if zero {
      assert fmt[1..][1..] == s + ([c] + rest);
    } else {
      assert fmt[1..] == s + ([c] + rest);
    }
  }

  // ------------------------------------------------------------------ letter by letter

  lemma LetterDigits(c: char, word: U32, zero: bool, width: int)
    requires c in "diuoxX"
    ensures Sign(word, IntegerFormat(c, zero, width).signed) == if c in "di" && word >= 0x8000_0000 then "-" else ""
    ensures Digits(word, IntegerFormat(c, zero, width))
            == if c in "di" && word >= 0x8000_0000 then Written(0x1_0000_0000 - word, "0123456789")
               else if c in "diu" then Written(word, "0123456789")
               else if c == 'o' then Written(word, "01234567")
               else if c == 'x' then Written(word, "0123456789abcdef")
               else Written(word, "0123456789ABCDEF")
  {
    hide Numeral, DigitCount, Written;
    var v := Magnitude(word, IntegerFormat(c, zero, width).signed);
    OctalWritten(v);
    DecimalWritten(v);
    HexadecimalWritten(v);
  }

  lemma FieldPadded(c: char, zero: bool, width: int, arg: Arg, sign: string, digits: string)
    requires c in "diuoxX" && digits == Digits(arg.word, IntegerFormat(c, zero, width))
    requires sign == Sign(arg.word, IntegerFormat(c, zero, width).signed)
    ensures var pad := width - |digits| - |sign|;
      Field(c, zero, width, arg) == if zero then sign + Repeat('0', pad) + digits else Repeat(' ', pad) + sign + digits
  {
    hide Digits, Sign, Repeat;
  }

  lemma NoWidth(c: char, rest: string, args: nat -> Arg, k: nat)
    requires !IsOption(c) && c != '%'
    ensures Log("%" + [c] + rest, args, k)
            == Field(c, false, -1, args(k)) + Log(rest, args, if TakesArgument(c) then k + 1 else k)
  {
    var fmt := "%" + [c] + rest;
    assert fmt[0] == '%' && fmt[1..] == [c] + rest;
    assert LogDirective([c] + rest, args, k) == LogOptions([c] + rest, false, -1, -1, args, k);
    hide Field, Log, LogDirective;
    AtLetter(c, rest, false, -1, args, k);
  }

  lemma Letters(c: char)
    requires c in "diuoxXcs"
    ensures !IsOption(c) && c != '%' && TakesArgument(c)
  {
  }

  lemma NoPad(pad: int, sign: string, digits: string)
    requires pad <= 0
    ensures Repeat(' ', pad) + sign + digits == sign + digits
  {
  }

  // What the conversions of integers print, with no width, with one, and with one and a
  // leading zero; then the rest of the format, with the argument after.
  lemma {:induction false} IntegersPrint(c: char, sign: string, digits: string, width: nat,
                                         rest: string, args: nat -> Arg, k: nat)
    requires width > 0
    requires var word := args(k).word;
      || (c in "di" && word < 0x8000_0000 && sign == "" && digits == Written(word, "0123456789"))
      || (c in "di" && word >= 0x8000_0000 && sign == "-" && digits == Written(0x1_0000_0000 - word, "0123456789"))
      || (c == 'u' && sign == "" && digits == Written(word, "0123456789"))
      || (c == 'o' && sign == "" && digits == Written(word, "01234567"))
      || (c == 'x' && sign == "" && digits == Written(word, "0123456789abcdef"))
      || (c == 'X' && sign == "" && digits == Written(word, "0123456789ABCDEF"))
    ensures Log("%" + [c] + rest, args, k) == sign + digits + Log(rest, args, k + 1)
    ensures Log("%" + Written(width, "0123456789") + [c] + rest, args, k)
            == Repeat(' ', width - |digits| - |sign|) + sign + digits + Log(rest, args, k + 1)
    ensures Log("%0" + Written(width, "0123456789") + [c] + rest, args, k)
            == sign + Repeat('0', width - |digits| - |sign|) + digits + Log(rest, args, k + 1)
  {
    hide *;
    Letters(c);
    LetterDigits(c, args(k).word, false, -1);
    LetterDigits(c, args(k).word, false, width);
    LetterDigits(c, args(k).word, true, width);
    FieldPadded(c, false, -1, args(k), sign, digits);
    FieldPadded(c, false, width, args(k), sign, digits);
    FieldPadded(c, true, width, args(k), sign, digits);
    NoPad(-1 - |digits| - |sign|, sign, digits);
    NoWidth(c, rest, args, k);
    WithWidth(c, width, rest, args, k);
  }

  // WidthIsObeyed with the width as a programmer writes it.
  lemma WithWidth(c: char, width: nat, rest: string, args: nat -> Arg, k: nat)
    requires width > 0 && !IsOption(c) && TakesArgument(c)
    ensures Log("%" + Written(width, "0123456789") + [c] + rest, args, k)
            == Field(c, false, width, args(k)) + Log(rest, args, k + 1)
    ensures Log("%0" + Written(width, "0123456789") + [c] + rest, args, k)
            == Field(c, true, width, args(k)) + Log(rest, args, k + 1)
  {
    hide *;
    DecimalWritten(width);
    WidthIsObeyed(width, false, c, rest, args, k);
    WidthIsObeyed(width, true, c, rest, args, k);
    assert "%" + "0" == "%0" && "%" + "" == "%";
  }

  // %c prints the low byte of its argument, %s the string it points to; a width puts
  // blanks in front.
  lemma {:induction false} CharactersPrint(width: nat, rest: string, args: nat -> Arg, k: nat)
    requires width > 0
    ensures Log("%c" + rest, args, k) == [(args(k).word % 256) as char] + Log(rest, args, k + 1)
    ensures Log("%s" + rest, args, k) == args(k).text + Log(rest, args, k + 1)
    ensures Log("%" + Written(width, "0123456789") + "c" + rest, args, k)
            == Repeat(' ', width - 1) + [(args(k).word % 256) as char] + Log(rest, args, k + 1)
    ensures Log("%" + Written(width, "0123456789") + "s" + rest, args, k)
            == Repeat(' ', width - |args(k).text|) + args(k).text + Log(rest, args, k + 1)
  {
    hide *;
    Letters('c');
    Letters('s');
    NoWidth('c', rest, args, k);
    NoWidth('s', rest, args, k);
    WithWidth('c', width, rest, args, k);
    WithWidth('s', width, rest, args, k);
    TextFields(-1, args(k));
    TextFields(width, args(k));
    NoPad(-2, "", [(args(k).word % 256) as char]);
    NoPad(-1 - |args(k).text|, "", args(k).text);
    assert "%" + "c" == "%c" && "%" + "s" == "%s";
  }

  lemma TextFields(width: int, arg: Arg)
    ensures Field('c', false, width, arg) == Repeat(' ', width - 1) + "" + [(arg.word % 256) as char]
    ensures Field('s', false, width, arg) == Repeat(' ', width - |arg.text|) + "" + arg.text
  {
    hide Repeat;
    assert Repeat(' ', width - 1) + "" == Repeat(' ', width - 1);
    assert Repeat(' ', width - |arg.text|) + "" == Repeat(' ', width - |arg.text|);
  }

  // Everything else: plain text is copied, %% prints one percent sign, any other letter
  // prints nothing and takes no argument, and a directive cut short prints nothing.
  lemma {:induction false} OthersPrint(c: char, rest: string, args: nat -> Arg, k: nat)
    ensures c != '%' ==> Log([c] + rest, args, k) == [c] + Log(rest, args, k)
    ensures Log("%%" + rest, args, k) == "%" + Log(rest, args, k)
    ensures c !in "%.l0123456789diuoxXcs" ==> Log("%" + [c] + rest, args, k) == Log(rest, args, k)
    ensures Log("", args, k) == "" && Log("%", args, k) == ""
  {
    assert ([c] + rest)[1..] == rest;
    assert ("%%" + rest)[1..] == "%" + rest && ("%" + rest)[1..] == rest;
    assert "%"[1..] == "";
    if c !in "%.l0123456789diuoxXcs" {
      NoWidth(c, rest, args, k);
      assert "" + Log(rest, args, k) == Log(rest, args, k);
    }
  }

  lemma {:induction false} AfterPoint(digits: string, c: char, rest: string, zero: bool, width: int, point: nat,
                                      args: nat -> Arg, k: nat)
    requires AllDigits(digits) && !IsOption(c)
    ensures LogOptions(digits + ([c] + rest), zero, width, point, args, k)
            == Field(c, zero, width, args(k)) + Log(rest, args, if TakesArgument(c) then k + 1 else k)
    decreases |digits|
  {
    var fmt := digits + ([c] + rest);
    if digits == "" {
      assert fmt == [c] + rest && fmt[1..] == rest;
    } else {
      assert fmt[1..] == digits[1..] + ([c] + rest);
      AfterPoint(digits[1..], c, rest, zero, width, point * 10 + DigitValue(digits[0]), args, k);
    }
  }

  // The digits after a point and the letter l make no difference.
  lemma {:induction false} OptionsIgnored(c: char, width: nat, zero: bool, digits: string,
                                          rest: string, args: nat -> Arg, k: nat)
    requires width > 0 && !IsOption(c) && AllDigits(digits)
    ensures var lead := "%" + (if zero then "0" else "") + Written(width, "0123456789");
      && Log(lead + "." + (digits + ([c] + rest)), args, k) == Log(lead + [c] + rest, args, k)
      && Log(lead + "l" + ([c] + rest), args, k) == Log(lead + [c] + rest, args, k)
  {
    hide *;
    var s := Numeral(width, Decimal, false, DigitCount(width, Decimal));
    DecimalWritten(width);
    WidthIsObeyed(width, zero, c, rest, args, k);
    WidthNumeral(width);
    WidthDigits(s, "." + (digits + ([c] + rest)), zero, args, k);
    DirectiveWith(s, zero, '.', digits + ([c] + rest), args, k);
    AtPoint(digits + ([c] + rest), zero, width, args, k);
    AfterPoint(digits, c, rest, zero, width, 0, args, k);
    AtPoint([c] + rest, zero, width, args, k);
    WidthDigits(s, "l" + ([c] + rest), zero, args, k);
    DirectiveWith(s, zero, 'l', [c] + rest, args, k);
    AtLetter(c, rest, zero, width, args, k);
  }

  lemma AtPoint(rest: string, zero: bool, width: int, args: nat -> Arg, k: nat)
    ensures LogOptions("." + rest, zero, width, -1, args, k) == LogOptions(rest, zero, width, 0, args, k)
    ensures LogOptions("l" + rest, zero, width, -1, args, k) == LogOptions(rest, zero, width, -1, args, k)
  {
    assert ("." + rest)[1..] == rest && ("l" + rest)[1..] == rest;
  }

  // A text in full: each directive takes the next argument.
  lemma {:induction false} Example(args: nat -> Arg)
    requires args(0).word == 0xFFFF_FFF8 && args(1).word == 8 && args(2).word == 171
    ensures Log("%d%o%X", args, 0) == "-810AB"
  {
    hide *;
    Eight();
    HexadecimalAB();
    IntegersPrint('d', "-", "8", 1, "%o%X", args, 0);
    IntegersPrint('o', "", "10", 1, "%X", args, 1);
    IntegersPrint('X', "", "AB", 1, "", args, 2);
    OthersPrint('a', "", args, 3);
    assert "%" + "d" + "%o%X" == "%d%o%X" && "%" + "o" + "%X" == "%o%X" && "%" + "X" + "" == "%X";
    assert "-" + "8" + ("" + "10" + ("" + "AB" + "")) == "-810AB";
  }

  lemma Eight()
    ensures Written(8, "0123456789") == "8" && Written(8, "01234567") == "10"
  {
    assert Written(1, "01234567") == "1";
  }

  lemma HexadecimalAB()
    ensures Written(171, "0123456789ABCDEF") == "AB"
  {
    assert Written(10, "0123456789ABCDEF") == "A";
  }
}
