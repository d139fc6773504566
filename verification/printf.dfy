/**
 The kernel's formatter (io/printf.c): a subset of C's printf writing into
 a bounded buffer. Formatting and storing are separated the way the source
 separates them: the conversions produce characters, each handed to
 `addchar`, which stores it while room remains and always counts it.
 Variadic arguments are a sequence of 64-bit argument slots or strings;
 `va_arg` of a narrower type reads the low bits of a slot.
 */
module Printf {
  import opened CTypes
  import opened Util
  import opened IntBits
  import BitUtils
  import CString

  const Nul: Char8 := '\0'

  // ---------------------------------------------------------------------
  // The output stream
  // ---------------------------------------------------------------------

  /** `pstream_t`: the characters stored so far, the room left, and the count of characters produced. */
  datatype Stream = Stream(written: seq<Char8>, remain: int, added: int)

  /** addchar: store c while room remains; count it either way. */
  function AddChar(p: Stream, c: Char8): (q: Stream)
    ensures q.added == p.added + 1
  {
    if p.remain != 0 then Stream(p.written + [c], p.remain - 1, p.added + 1)
    else p.(added := p.added + 1)
  }

  /** A run of addchar calls, in order. */
  function AddAll(p: Stream, cs: seq<Char8>): (q: Stream)
    decreases |cs|
  {
    if |cs| == 0 then p else AddAll(AddChar(p, cs[0]), cs[1..])
  }

  /**
   With room r >= 0, the stream keeps the first r characters and counts
   all of them; with a negative room it never fills up and keeps all.
   */
  lemma {:induction false} AddAllKeeps(p: Stream, cs: seq<Char8>)
    decreases |cs|
    ensures p.remain >= 0 ==> AddAll(p, cs) == Stream(p.written + cs[..Min(p.remain, |cs|)], p.remain - Min(p.remain, |cs|), p.added + |cs|)
    ensures p.remain < 0 ==> AddAll(p, cs) == Stream(p.written + cs, p.remain - |cs|, p.added + |cs|)
  {
    if |cs| > 0 {
      var q := AddChar(p, cs[0]);
      AddAllKeeps(q, cs[1..]);
      if p.remain > 0 {
        assert cs[..Min(p.remain, |cs|)] == [cs[0]] + cs[1..][..Min(q.remain, |cs| - 1)];
      } else if p.remain < 0 {
        assert cs == [cs[0]] + cs[1..];
      }
    }
  }

  // ---------------------------------------------------------------------
  // Conversions
  // ---------------------------------------------------------------------

  /** `strprops_t`: the padding character, the signed field width (negative: left-justify) and the `#` flag. */
  datatype Props = Props(pad: Char8, npad: int, alternate: bool)

  const DefaultProps := Props(' ', 0, false)

  /** `digits[d]` of the table "0123456789abcdef". */
  function DigitChar(d: nat): (c: Char8)
    requires d < 16
    ensures c != '-' && c != 'x' && c != Nul
  {
    if d < 10 then ('0' as int + d) as char else ('a' as int + d - 10) as char
  }

  /** The value of a character of the digit table. */
  function DigitVal(c: Char8): (r: Option<nat>)
    ensures r.Some? ==> r.value < 16 && DigitChar(r.value) == c
  {
    if '0' <= c <= '9' then Some(c as int - '0' as int)
    else if 'a' <= c <= 'f' then Some(c as int - 'a' as int + 10)
    else None
  }

  lemma DigitRoundTrip(d: nat)
    requires d < 16
    ensures DigitVal(DigitChar(d)) == Some(d)
  {}

  /** The digit loop: least significant digit first, nothing for 0. */
  function LsdDigits(n: nat, base: nat): (s: seq<Char8>)
    requires 2 <= base <= 16
    decreases n
  {
    if n == 0 then [] else [DigitChar(n % base)] + LsdDigits(n / base, base)
  }

  function Reverse(s: seq<Char8>): (r: seq<Char8>)
    ensures |r| == |s|
  {
    if |s| == 0 then [] else Reverse(s[1..]) + [s[0]]
  }

  /** Every character is a digit of the table below `base`. */
  predicate Numeral(s: seq<Char8>, base: nat) {
    forall k | 0 <= k < |s| :: DigitVal(s[k]).Some? && DigitVal(s[k]).value < base
  }

  /** The value of a numeral, most significant digit first. */
  function ValueOf(s: seq<Char8>, base: nat): (v: nat)
    requires Numeral(s, base)
  {
    if |s| == 0 then 0 else ValueOf(s[..|s| - 1], base) * base + DigitVal(s[|s| - 1]).value
  }

  lemma ReverseCons(c: Char8, t: seq<Char8>)
    ensures Reverse([c] + t) == Reverse(t) + [c]
  {
    assert ([c] + t)[1..] == t;
  }

  /** Appending a digit multiplies the value by the base and adds the digit. */
  lemma NumeralSnoc(t: seq<Char8>, d: nat, base: nat)
    requires d < base <= 16 && Numeral(t, base)
    ensures Numeral(t + [DigitChar(d)], base)
    ensures ValueOf(t + [DigitChar(d)], base) == ValueOf(t, base) * base + d
  {
    var u := t + [DigitChar(d)];
    DigitRoundTrip(d);
    assert u[..|u| - 1] == t;
    assert forall k | 0 <= k < |t| :: u[k] == t[k];
  }

  lemma DivMod(n: nat, b: nat)
    requires b > 1
    ensures n == (n / b) * b + n % b
    ensures n > 0 ==> n / b < n
  {
    var q := n / b;
    assert n == q * b + n % b;
    MulMono(q, b);
  }

  lemma {:induction false} MulMono(q: nat, b: nat)
    requires b >= 2
    ensures q * b >= 2 * q
  {
    if q > 0 {
      MulMono(q - 1, b);
      assert q * b == (q - 1) * b + b;
    }
  }

  /** s is the canonical numeral of n: its digits' value is n, with no leading zero, and empty for 0. */
  predicate Spells(s: seq<Char8>, n: nat, base: nat) {
    Numeral(s, base) && ValueOf(s, base) == n && (n > 0 <==> |s| > 0) && (n > 0 ==> s[0] != '0')
  }

  /** Appending the digit d to the numeral of q spells q * base + d. */
  lemma SpellsSnoc(t: seq<Char8>, q: nat, d: nat, base: nat)
    requires d < base <= 16 && Spells(t, q, base) && (q == 0 ==> d > 0)
    ensures Spells(t + [DigitChar(d)], q * base + d, base)
  {
    NumeralSnoc(t, d, base);
    var u := t + [DigitChar(d)];
    if q == 0 {
      assert u == [DigitChar(d)];
    } else {
      MulPos(q, base);
      assert u[0] == t[0];
    }
  }

  lemma MulPos(q: nat, b: nat)
    requires q > 0 && b > 0
    ensures q * b > 0
  {}

  /** The digit loop and the reversal spell n: the numeral's value is n and it has no leading zero. */
  lemma {:induction false} DigitsSpell(n: nat, base: nat)
    requires 2 <= base <= 16
    decreases n
    ensures Spells(Reverse(LsdDigits(n, base)), n, base)
  {
    if n > 0 {
      DivMod(n, base);
      DigitsSpell(n / base, base);
      DigitsStep(n, base);
    }
  }

  /** One turn of the digit loop appends the lowest digit to the numeral of the quotient. */
  lemma DigitsStep(n: nat, base: nat)
    requires 2 <= base <= 16 && n > 0
    requires Spells(Reverse(LsdDigits(n / base, base)), n / base, base)
    ensures Spells(Reverse(LsdDigits(n, base)), n, base)
  {
    var d, q := n % base, n / base;
    DivMod(n, base);
    ReverseCons(DigitChar(d), LsdDigits(q, base));
    SpellsSnoc(Reverse(LsdDigits(q, base)), q, d, base);
  }

  /**
   print_str: a positive width pads on the left with the padding
   character; a negative one pads on the right with spaces. The
   arithmetic is the source's: the width minus the length, then the
   length added back.
   */
  function PrintStr(s: seq<Char8>, props: Props): (r: seq<Char8>)
  {
    var npad := if props.npad > 0 then props.npad - |s| else props.npad;
    var before := if props.npad > 0 then Fill(props.pad, npad) else [];
    var after := if npad < 0 then Fill(' ', -(npad + |s|)) else [];
    before + s + after
  }

  /** k copies of c; nothing when k is not positive. */
  function Fill(c: Char8, k: int): (r: seq<Char8>)
    ensures |r| == if k > 0 then k else 0
    ensures forall j | 0 <= j < |r| :: r[j] == c
  {
    if k > 0 then seq(k, _ => c) else []
  }

  /** The field is as wide as the width's magnitude or the string, whichever is larger, and is justified by the width's sign. */
  lemma PrintStrField(s: seq<Char8>, props: Props)
    ensures var r := PrintStr(s, props);
      |r| == Max(if props.npad < 0 then -props.npad else props.npad, |s|)
      && (props.npad >= 0 ==> r == Fill(props.pad, props.npad - |s|) + s)
      && (props.npad < 0 ==> r == s + Fill(' ', -props.npad - |s|))
  {}

  /** Width 0 prints the string as it is. */
  lemma NoWidth(s: seq<Char8>, props: Props)
    requires props.npad == 0
    ensures PrintStr(s, props) == s
  {
    assert [] + s + [] == s;
  }

  function Max(a: int, b: int): int {
    if a >= b then a else b
  }

  /** print_int: the sign, then the magnitude's digits; "0" for zero. */
  function IntText(n: int): (s: seq<Char8>)
  {
    var mag: nat := if n < 0 then -n else n;
    var buf := LsdDigits(mag, 10) + (if n < 0 then ['-'] else []);
    Reverse(if buf == [] then ['0'] else buf)
  }

  function PrintInt(n: int, props: Props): (r: seq<Char8>)
  {
    PrintStr(IntText(n), props)
  }

  /** The text of a signed value reads back as that value: a '-' exactly for negatives, then a canonical numeral. */
  lemma IntTextReads(n: int)
    ensures var s := IntText(n);
      |s| > 0 && (s[0] == '-' <==> n < 0)
      && var digits := if n < 0 then s[1..] else s;
      Numeral(digits, 10) && ValueOf(digits, 10) == (if n < 0 then -n else n)
      && (|digits| > 1 ==> digits[0] != '0')
  {
    if n < 0 {
      NegativeText(n);
    } else if n == 0 {
      var s := IntText(0);
      assert s == ['0'];
      assert DigitVal(s[0]) == Some(0);
      assert ValueOf(s, 10) == ValueOf([], 10) * 10 + 0;
    } else {
      var l := LsdDigits(n, 10);
      DigitsSpell(n, 10);
      assert l + [] == l;
      assert IntText(n) == Reverse(l);
    }
  }

  /** A negative value prints as '-' and the numeral of its magnitude. */
  lemma NegativeText(n: int)
    requires n < 0
    ensures IntText(n) == ['-'] + Reverse(LsdDigits(-n, 10))
    ensures Spells(IntText(n)[1..], -n, 10)
  {
    var l := LsdDigits(-n, 10);
    ReverseSnoc(l, '-');
    DigitsSpell(-n, 10);
    assert IntText(n)[1..] == Reverse(l);
  }

  /** Reversing a sequence with one more element at the end puts it first. */
  lemma {:induction false} ReverseSnoc(s: seq<Char8>, c: Char8)
    ensures Reverse(s + [c]) == [c] + Reverse(s)
  {
    if |s| > 0 {
      assert (s + [c])[1..] == s[1..] + [c];
      ReverseSnoc(s[1..], c);
    }
  }

  /**
   print_unsigned: the digits; with `#` in base 16 and a nonzero value a
   "0x" prefix, written straight to the stream ahead of the padding when
   the padding is '0' (the width then shrinks by two), otherwise put in
   front of the digits inside the field.
   */
  function PrintUnsigned(n: nat, base: nat, props: Props): (r: seq<Char8>)
    requires 2 <= base <= 16
  {
    var l := LsdDigits(n, base);
    if l == [] then PrintStr(['0'], props)
    else if props.alternate && base == 16 then
      if props.pad == '0' then
        var width := if props.npad > 0 then Max(props.npad - 2, 0) else props.npad;
        ['0', 'x'] + PrintStr(Reverse(l), props.(npad := width))
      else PrintStr(Reverse(l + ['x', '0']), props)
    else PrintStr(Reverse(l), props)
  }

  /**
   `%#x` of a nonzero value with a width w >= 0: zero padding goes between
   the prefix and the digits, any other padding goes in front of the
   prefix, and the field is max(w, digits + 2) wide.
   */
  lemma HexPrefix(n: nat, props: Props)
    requires n > 0 && props.alternate && props.npad >= 0
    ensures var digits := Reverse(LsdDigits(n, 16));
      var r := PrintUnsigned(n, 16, props);
      |r| == Max(props.npad, |digits| + 2)
      && (props.pad == '0' ==> r == "0x" + Fill('0', props.npad - 2 - |digits|) + digits)
      && (props.pad != '0' ==> r == Fill(props.pad, props.npad - 2 - |digits|) + "0x" + digits)
  {
    var digits := Reverse(LsdDigits(n, 16));
    HexUnfold(n, props);
    if props.pad == '0' {
      var width := if props.npad > 0 then Max(props.npad - 2, 0) else props.npad;
      ZeroPadField(digits, props, width);
    } else {
      PrefixField(digits, props);
    }
  }

  /** The "0x" inside the field: the padding goes in front of it. */
  lemma PrefixField(digits: seq<Char8>, props: Props)
    requires props.npad >= 0
    ensures var r := PrintStr("0x" + digits, props);
      |r| == Max(props.npad, |digits| + 2)
      && r == Fill(props.pad, props.npad - 2 - |digits|) + "0x" + digits
  {
    var s := "0x" + digits;
    PrintStrField(s, props);
    assert props.npad - |s| == props.npad - 2 - |digits|;
    var f := Fill(props.pad, props.npad - 2 - |digits|);
    assert f + s == f + "0x" + digits;
  }

  /** The field after a "0x" written ahead of it: the width less two, never below zero. */
  lemma ZeroPadField(digits: seq<Char8>, props: Props, width: int)
    requires props.npad >= 0 && width == if props.npad > 0 then Max(props.npad - 2, 0) else props.npad
    ensures var r := "0x" + PrintStr(digits, props.(npad := width));
      |r| == Max(props.npad, |digits| + 2)
      && r == "0x" + Fill(props.pad, props.npad - 2 - |digits|) + digits
  {
    PrintStrField(digits, props.(npad := width));
    if props.npad >= 2 {
      assert width - |digits| == props.npad - 2 - |digits|;
    } else {
      assert Fill(props.pad, width - |digits|) == [] == Fill(props.pad, props.npad - 2 - |digits|);
    }
  }

  /** print_unsigned in base 16 with `#` and a nonzero value, before the field is laid out. */
  lemma HexUnfold(n: nat, props: Props)
    requires n > 0 && props.alternate
    ensures var digits := Reverse(LsdDigits(n, 16));
      var width := if props.npad > 0 then Max(props.npad - 2, 0) else props.npad;
      PrintUnsigned(n, 16, props)
      == if props.pad == '0' then "0x" + PrintStr(digits, props.(npad := width)) else PrintStr("0x" + digits, props)
  {
    var l := LsdDigits(n, 16);
    assert l != [];
    assert Reverse(l + ['x', '0']) == "0x" + Reverse(l) by {
      ReverseSnoc(l + ['x'], '0');
      ReverseSnoc(l, 'x');
      assert l + ['x', '0'] == (l + ['x']) + ['0'];
    }
  }

  // ---------------------------------------------------------------------
  // The format walk
  // ---------------------------------------------------------------------

  /** A variadic argument: an integer or pointer slot, or a string. */
  datatype Arg = Num(bits: u64) | Text(s: seq<Char8>)

  /** The format character at i, with the terminator past the end. */
  function At(fmt: seq<Char8>, i: nat): Char8 {
    if i < |fmt| then fmt[i] else Nul
  }

  predicate IsDigit(c: Char8) { '0' <= c <= '9' }

  /** The number of digits starting at i. */
  function DigitRun(fmt: seq<Char8>, i: nat): (n: nat)
    requires i <= |fmt|
    decreases |fmt| - i
    ensures i + n <= |fmt| && forall k | i <= k < i + n :: IsDigit(fmt[k])
    ensures !IsDigit(At(fmt, i + n))
  {
    if i < |fmt| && IsDigit(fmt[i]) then 1 + DigitRun(fmt, i + 1) else 0
  }

  /**
   fmtnum: the width is atol of the text at j truncated to int32; the
   format advances over one optional '-' and the digits after it.
   */
  function FmtNum(fmt: seq<Char8>, j: nat): (r: (int, nat))
    requires Nul !in fmt && j <= |fmt|
    ensures j <= r.1 <= |fmt|
    ensures IsDigit(At(fmt, j)) || At(fmt, j) == '-' ==> j < r.1
  {
    var b := fmt + [Nul];
    assert b[|fmt|] == Nul;
    var sign := if At(fmt, j) == '-' then 1 else 0;
    var len := sign + DigitRun(fmt, j + sign);
    (AsI32(CString.Atol(b[j..])), j + len)
  }

  /** What one directive produced: its characters, where the format resumes, and the arguments left. */
  datatype Directive = Directive(out: seq<Char8>, next: nat, rest: seq<Arg>)

  /**
   The switch after '%' (and after each flag, via `goto morefmt`). None
   stands for undefined behaviour: an argument missing or of the wrong
   kind.
   */
  function Conversion(fmt: seq<Char8>, i: nat, props: Props, nlong: nat, args: seq<Arg>): (r: Option<Directive>)
    requires Nul !in fmt && i <= |fmt|
    decreases |fmt| - i
    ensures r.Some? ==> i <= r.value.next <= |fmt| && (i < |fmt| ==> i < r.value.next)
  {
    var f := At(fmt, i);
    if f == Nul then Some(Directive([], i, args))
    else if f == '%' then Some(Directive(['%'], i + 1, args))
    else if f == '#' then Conversion(fmt, i + 1, props.(alternate := true), nlong, args)
    else if f == '0' || IsDigit(f) || f == '-' then
      var props := if f == '0' then props.(pad := '0') else props;
      var start := if f == '0' then i + 1 else i;
      var (width, next) := FmtNum(fmt, start);
      Conversion(fmt, next, props.(npad := width), nlong, args)
    else if f == 'l' then Conversion(fmt, i + 1, props, nlong + 1, args)
    else if f == 't' || f == 'z' then Conversion(fmt, i + 1, props, 1, args)
    else if f in "cduxps" then
      if |args| == 0 then None
      else match Convert(f, props, nlong, args[0])
        case None => None
        case Some(out) => Some(Directive(out, i + 1, args[1..]))
    else Some(Directive([f], i + 1, args))
  }

  /** The conversions that consume an argument. */
  function Convert(f: Char8, props: Props, nlong: nat, arg: Arg): (r: Option<seq<Char8>>)
  {
    match arg
    case Text(s) => if f == 's' then Some(PrintStr(s, props)) else None
    case Num(bits) =>
      if f == 'c' then Some([CString.AsChar(bits)])
      else if f == 'd' then Some(PrintInt(if nlong == 0 then AsI32(bits) else AsI64(bits), props))
      else if f == 'u' then Some(PrintUnsigned(if nlong == 0 then bits % Word32 else bits, 10, props))
      else if f == 'x' then Some(PrintUnsigned(if nlong == 0 then bits % Word32 else bits, 16, props))
      else if f == 'p' then Some(PrintUnsigned(bits, 16, props.(alternate := true)))
      else None
  }

  /** The main loop from format position i: ordinary characters are copied, '%' starts a directive. */
  function FormatFrom(fmt: seq<Char8>, i: nat, args: seq<Arg>): (r: Option<seq<Char8>>)
    requires Nul !in fmt && i <= |fmt|
    decreases |fmt| - i
  {
    if i == |fmt| then Some([])
    else if fmt[i] != '%' then Prepend([fmt[i]], FormatFrom(fmt, i + 1, args))
    else match Conversion(fmt, i + 1, DefaultProps, 0, args)
      case None => None
      case Some(d) => Prepend(d.out, FormatFrom(fmt, d.next, d.rest))
  }

  function Prepend(s: seq<Char8>, r: Option<seq<Char8>>): Option<seq<Char8>> {
    match r
    case None => None
    case Some(t) => Some(s + t)
  }

  /** Everything the format produces, before it meets the buffer. */
  function Format(fmt: seq<Char8>, args: seq<Arg>): (r: Option<seq<Char8>>)
    requires Nul !in fmt
  {
    FormatFrom(fmt, 0, args)
  }

  /** A stretch of the format without '%' is copied as it is. */
  lemma {:induction false} PlainCopied(fmt: seq<Char8>, i: nat, j: nat, args: seq<Arg>)
    requires Nul !in fmt && i <= j <= |fmt| && '%' !in fmt[i..j]
    decreases j - i
    ensures FormatFrom(fmt, i, args) == Prepend(fmt[i..j], FormatFrom(fmt, j, args))
  {
    if i < j {
      assert fmt[i] == fmt[i..j][0];
      assert fmt[i] != '%';
      assert fmt[i + 1..j] == fmt[i..j][1..];
      PlainCopied(fmt, i + 1, j, args);
      assert FormatFrom(fmt, i, args) == Prepend([fmt[i]], FormatFrom(fmt, i + 1, args));
      PrependTwice([fmt[i]], fmt[i + 1..j], FormatFrom(fmt, j, args));
      assert fmt[i..j] == [fmt[i]] + fmt[i + 1..j];
    } else {
      var r := FormatFrom(fmt, j, args);
      if r.Some? {
        assert fmt[i..j] + r.value == r.value;
      }
    }
  }

  lemma PrependTwice(a: seq<Char8>, b: seq<Char8>, r: Option<seq<Char8>>)
    ensures Prepend(a, Prepend(b, r)) == Prepend(a + b, r)
  {
    if r.Some? {
      assert a + (b + r.value) == (a + b) + r.value;
    }
  }

  // ---------------------------------------------------------------------
  // my_vsnprintf
  // ---------------------------------------------------------------------

  /** The bytes a call leaves in the caller's buffer, and its return value. */
  datatype Outcome = Outcome(stored: seq<Char8>, ret: int)

  /**
   my_vsnprintf as written: the room is size - 1 and the NUL is stored
   after the kept characters. For size 0 the room is -1, which addchar's
   nonzero test never sees reach 0, so every character is stored.
   */
  function VsnprintfAsWritten(size: i32, fmt: seq<Char8>, args: seq<Arg>): (r: Option<Outcome>)
    requires Nul !in fmt
    ensures r.Some? <==> Format(fmt, args).Some?
  {
    match Format(fmt, args)
    case None => None
    case Some(text) =>
      var s := AddAll(Stream([], size - 1, 0), text);
      Some(Outcome(s.written + [Nul], s.added))
  }

  /**
   my_vsnprintf with the room test of section 7.21.6.5 of ISO C11: a
   buffer of size n receives at most n - 1 characters and a NUL, and a
   size of 0 receives nothing.
   */
  function Vsnprintf(size: i32, fmt: seq<Char8>, args: seq<Arg>): (r: Option<Outcome>)
    requires Nul !in fmt
    ensures r.Some? <==> Format(fmt, args).Some?
  {
    match Format(fmt, args)
    case None => None
    case Some(text) =>
      if size <= 0 then Some(Outcome([], |text|))
      else
        var s := AddAll(Stream([], size - 1, 0), text);
        Some(Outcome(s.written + [Nul], s.added))
  }

  /** The buffer holds the longest prefix that fits and a NUL; the return value counts every character produced. */
  lemma VsnprintfTruncates(size: i32, fmt: seq<Char8>, args: seq<Arg>)
    requires Nul !in fmt && Format(fmt, args).Some?
    ensures var text := Format(fmt, args).value;
      var o := Vsnprintf(size, fmt, args).value;
      o.ret == |text|
      && (size > 0 ==> o.stored == text[..Min(size - 1, |text|)] + [Nul] && |o.stored| <= size)
      && (size <= 0 ==> o.stored == [])
  {
    AddAllKeeps(Stream([], size - 1, 0), Format(fmt, args).value);
  }

  /** For a positive size the corrected call and the source agree. */
  lemma PositiveSizeAgrees(size: i32, fmt: seq<Char8>, args: seq<Arg>)
    requires Nul !in fmt && size > 0
    ensures VsnprintfAsWritten(size, fmt, args) == Vsnprintf(size, fmt, args)
  {}

  /** With size 0 the source stores every character and a NUL into a buffer that has no room at all. */
  lemma ZeroSizeOverruns(fmt: seq<Char8>, args: seq<Arg>)
    requires Nul !in fmt && Format(fmt, args).Some?
    ensures |VsnprintfAsWritten(0, fmt, args).value.stored| == |Format(fmt, args).value| + 1
    ensures Vsnprintf(0, fmt, args).value.stored == []
  {
    AddAllKeeps(Stream([], -1, 0), Format(fmt, args).value);
  }

  // ---------------------------------------------------------------------
  // binstr
  // ---------------------------------------------------------------------

  /** The binstr buffer: 32 digits and 8 more cells (seven separators and the NUL). */
  const BinStrSize := 32 + 8

  /** The character for bit b. */
  function BinDigit(x: u32, b: nat): (c: Char8)
  {
    if Bit(x, b) then '1' else '0'
  }

  /** The source's test `x & (1 << b)` picks the same character. */
  lemma BinDigitTest(x: u32, b: nat)
    ensures BinDigit(x, b) == if And(x, BitUtils.Pow2(b)) != 0 then '1' else '0'
  {
    TestBit(x, b);
  }

  /** The characters of the 32 bits, most significant first. */
  function BinDigits(x: u32): (ds: seq<Char8>)
    ensures |ds| == 32
  {
    seq(32, k requires 0 <= k < 32 => BinDigit(x, 31 - k))
  }

  lemma BinDigitsAt(x: u32, h: nat, d: nat)
    requires h < 8 && d < 4
    ensures BinDigits(x)[4 * h + d] == if Bit(x, 31 - 4 * h - d) then '1' else '0'
  {
    var b := 31 - 4 * h - d;
    assert 31 - (4 * h + d) == b;
    assert BinDigits(x)[4 * h + d] == BinDigit(x, b);
  }

  /** binstr from bit position i (0 is the most significant): the digit, then a separator after every fourth. */
  function BinFrom(ds: seq<Char8>, i: nat): (s: seq<Char8>)
    requires |ds| == 32 && i < 32
    decreases 32 - i
  {
    if i + 1 == 32 then [ds[i], Nul]
    else if (i + 1) % 4 == 0 then [ds[i], '\''] + BinFrom(ds, i + 1)
    else [ds[i]] + BinFrom(ds, i + 1)
  }

  /** binstr's text fills the 40-cell buffer exactly. */
  function BinStr(x: u32): (s: seq<Char8>)
    ensures |s| == BinStrSize
  {
    var ds := BinDigits(x);
    BinFromGrouped(ds, 0);
    GroupedLength(ds, 0);
    BinFrom(ds, 0)
  }

  /** Group h: digits 4h to 4h + 3. */
  function Nibble(ds: seq<Char8>, h: nat): (s: seq<Char8>)
    requires |ds| == 32 && h < 8
  {
    [ds[4 * h], ds[4 * h + 1], ds[4 * h + 2], ds[4 * h + 3]]
  }

  /** The groups from h on, a quote between two groups and the NUL after the last. */
  function Grouped(ds: seq<Char8>, h: nat): (s: seq<Char8>)
    requires |ds| == 32 && h < 8
    decreases 8 - h
  {
    if h == 7 then Nibble(ds, 7) + [Nul] else Nibble(ds, h) + ['\''] + Grouped(ds, h + 1)
  }

  /** The digit loop from the start of group h produces the groups from h on. */
  lemma {:induction false} BinFromGrouped(ds: seq<Char8>, h: nat)
    requires |ds| == 32 && h < 8
    decreases 8 - h
    ensures BinFrom(ds, 4 * h) == Grouped(ds, h)
  {
    if h < 7 {
      BinFromGrouped(ds, h + 1);
    }
    BinGroup(ds, h);
  }

  /** One group of four digits, then a separator or, after the last group, the NUL. */
  lemma BinGroup(ds: seq<Char8>, h: nat)
    requires |ds| == 32 && h < 8
    ensures BinFrom(ds, 4 * h) == Nibble(ds, h) + (if h == 7 then [Nul] else ['\''] + BinFrom(ds, 4 * h + 4))
  {
    if h == 7 {
      LastGroup(ds);
    } else {
      InnerGroup(ds, h);
    }
  }

  lemma LastGroup(ds: seq<Char8>)
    requires |ds| == 32
    ensures BinFrom(ds, 28) == Nibble(ds, 7) + [Nul]
  {
    assert BinFrom(ds, 30) == [ds[30], ds[31], Nul];
    assert BinFrom(ds, 28) == [ds[28], ds[29], ds[30], ds[31], Nul];
  }

  lemma InnerGroup(ds: seq<Char8>, h: nat)
    requires |ds| == 32 && h < 7
    ensures BinFrom(ds, 4 * h) == Nibble(ds, h) + ['\''] + BinFrom(ds, 4 * h + 4)
  {
    var s0, s1, s2, s3 := BinFrom(ds, 4 * h), BinFrom(ds, 4 * h + 1), BinFrom(ds, 4 * h + 2), BinFrom(ds, 4 * h + 3);
    var t := BinFrom(ds, 4 * h + 4);
    DigitStep(ds, h, 0);
    DigitStep(ds, h, 1);
    DigitStep(ds, h, 2);
    SepStep(ds, h);
    Four(ds[4 * h], ds[4 * h + 1], ds[4 * h + 2], ds[4 * h + 3], t);
  }

  /** Within a group the loop emits the digit and goes on. */
  lemma DigitStep(ds: seq<Char8>, h: nat, e: nat)
    requires |ds| == 32 && h < 8 && e < 3
    ensures BinFrom(ds, 4 * h + e) == [ds[4 * h + e]] + BinFrom(ds, 4 * h + e + 1)
  {
    assert (4 * h + e + 1) % 4 == e + 1;
  }

  /** At the end of an inner group the loop emits the digit and a quote. */
  lemma SepStep(ds: seq<Char8>, h: nat)
    requires |ds| == 32 && h < 7
    ensures BinFrom(ds, 4 * h + 3) == [ds[4 * h + 3], '\''] + BinFrom(ds, 4 * h + 4)
  {
    assert (4 * h + 3 + 1) % 4 == 0;
  }

  lemma Four(a: Char8, b: Char8, c: Char8, d: Char8, t: seq<Char8>)
    ensures [a] + ([b] + ([c] + ([d, '\''] + t))) == [a, b, c, d] + ['\''] + t
  {}

  /** The groups from g take five cells each. */
  lemma {:induction false} GroupedLength(ds: seq<Char8>, g: nat)
    requires |ds| == 32 && g < 8
    decreases 8 - g
    ensures |Grouped(ds, g)| == 5 * (8 - g)
  {
    if g < 7 {
      GroupedLength(ds, g + 1);
    }
  }

  /** Cell 5(h - g) + d of the groups from g holds digit d of group h, and cell 5(h - g) + 4 a quote or, for the last group, the NUL. */
  lemma {:induction false} GroupedAt(ds: seq<Char8>, g: nat, h: nat, d: nat)
    requires |ds| == 32 && g <= h < 8 && d < 5
    decreases h - g
    ensures |Grouped(ds, g)| == 5 * (8 - g)
    ensures Grouped(ds, g)[5 * (h - g) + d] == if d < 4 then ds[4 * h + d] else if h < 7 then '\'' else Nul
  {
    var s := Grouped(ds, g);
    GroupedLength(ds, g);
    if h > g {
      GroupedAt(ds, g + 1, h, d);
      var t := Grouped(ds, g + 1);
      var k := 5 * (h - g - 1) + d;
      assert 5 * (h - g) + d == 5 + k;
      assert s == (Nibble(ds, g) + ['\'']) + t;
      assert |Nibble(ds, g) + ['\'']| == 5;
      assert s[5 + k] == t[k];
    } else if g < 7 {
      assert s == Nibble(ds, g) + ['\''] + Grouped(ds, g + 1);
    } else {
      assert s == Nibble(ds, 7) + [Nul];
    }
  }

  /**
   binstr fills its 40-cell buffer: cell 5h + d holds the digit of bit
   31 - 4h - d for d < 4 ('1' exactly when the bit is set), cell 5h + 4 a
   quote for the first seven groups, and the last cell the NUL.
   */
  lemma BinStrAt(x: u32, h: nat, d: nat)
    requires h < 8 && d < 5
    ensures var s := BinStr(x);
      |s| == BinStrSize
      && s[5 * h + d] == if d < 4 then (if Bit(x, 31 - 4 * h - d) then '1' else '0') else if h < 7 then '\'' else Nul
  {
    BinStrCell(x, h, d);
    if d < 4 {
      BinDigitsAt(x, h, d);
    }
  }

  /** The cells of binstr in terms of the digit sequence. */
  lemma BinStrCell(x: u32, h: nat, d: nat)
    requires h < 8 && d < 5
    ensures var s := BinStr(x);
      |s| == BinStrSize
      && s[5 * h + d] == if d < 4 then BinDigits(x)[4 * h + d] else if h < 7 then '\'' else Nul
  {
    var ds := BinDigits(x);
    assert BinStr(x) == BinFrom(ds, 0);
    BinFromCell(ds, h, d);
  }

  lemma BinFromCell(ds: seq<Char8>, h: nat, d: nat)
    requires |ds| == 32 && h < 8 && d < 5
    ensures var s := BinFrom(ds, 0);
      |s| == BinStrSize
      && s[5 * h + d] == if d < 4 then ds[4 * h + d] else if h < 7 then '\'' else Nul
  {
    BinFromGrouped(ds, 0);
    GroupedAt(ds, 0, h, d);
  }

  // ---------------------------------------------------------------------
  // The self-test cases
  // ---------------------------------------------------------------------

  /** A conversion that takes an argument yields its text and moves past the conversion character. */
  lemma ArgConversion(fmt: seq<Char8>, i: nat, props: Props, nlong: nat, args: seq<Arg>, out: seq<Char8>)
    requires Nul !in fmt && i < |fmt| && fmt[i] in "cduxps" && |args| > 0
    requires Convert(fmt[i], props, nlong, args[0]) == Some(out)
    ensures Conversion(fmt, i, props, nlong, args) == Some(Directive(out, i + 1, args[1..]))
  {
    var f := fmt[i];
    assert At(fmt, i) == f;
    assert f == 'c' || f == 'd' || f == 'u' || f == 'x' || f == 'p' || f == 's';
    assert !(f == Nul || f == '%' || f == '#' || f == '0' || IsDigit(f) || f == '-' || f == 'l' || f == 't' || f == 'z');
  }

  /** A '%' at i emits the directive's text and resumes where the directive ends. */
  lemma DirectiveStep(fmt: seq<Char8>, i: nat, args: seq<Arg>, d: Directive)
    requires Nul !in fmt && i < |fmt| && fmt[i] == '%'
    requires Conversion(fmt, i + 1, DefaultProps, 0, args) == Some(d)
    ensures FormatFrom(fmt, i, args) == Prepend(d.out, FormatFrom(fmt, d.next, d.rest))
  {}

  /** One directive between two stretches of plain text. */
  lemma SurroundedDirective(fmt: seq<Char8>, i: nat, args: seq<Arg>, d: Directive)
    requires Nul !in fmt && i < |fmt| && fmt[i] == '%' && '%' !in fmt[..i]
    requires Conversion(fmt, i + 1, DefaultProps, 0, args) == Some(d)
    requires '%' !in fmt[d.next..]
    ensures Format(fmt, args) == Some(fmt[..i] + d.out + fmt[d.next..])
  {
    assert fmt[0..i] == fmt[..i];
    PlainCopied(fmt, 0, i, args);
    DirectiveStep(fmt, i, args, d);
    PlainCopied(fmt, d.next, |fmt|, d.rest);
    assert fmt[d.next..|fmt|] == fmt[d.next..];
    assert fmt[d.next..] + [] == fmt[d.next..];
    assert fmt[..i] + (d.out + fmt[d.next..]) == fmt[..i] + d.out + fmt[d.next..];
  }

  /** A format that ends right after its one directive. */
  lemma OnlyDirective(fmt: seq<Char8>, args: seq<Arg>, out: seq<Char8>)
    requires Nul !in fmt && |fmt| > 0 && fmt[0] == '%'
    requires Conversion(fmt, 1, DefaultProps, 0, args) == Some(Directive(out, |fmt|, []))
    ensures Format(fmt, args) == Some(out)
  {
    DirectiveStep(fmt, 0, args, Directive(out, |fmt|, []));
    assert out + [] == out;
  }

  lemma ZeroPrints()
    ensures Format("%d", [Num(0)]) == Some("0")
  {
    assert AsI32(0) == 0;
    assert IntText(0) == "0";
    assert PrintStr("0", DefaultProps) == "0";
    ArgConversion("%d", 1, DefaultProps, 0, [Num(0)], "0");
    assert [Num(0)][1..] == [];
    OnlyDirective("%d", [Num(0)], "0");
  }

  lemma NegativePrints()
    ensures Format("%d", [Num(0x1_0000_0000_0000_0000 - 12345)]) == Some("-12345")
  {
    var arg := Num(0x1_0000_0000_0000_0000 - 12345);
    assert AsI32(arg.bits) == -12345;
    NegativeDigits();
    assert PrintStr("-12345", DefaultProps) == "-12345";
    ArgConversion("%d", 1, DefaultProps, 0, [arg], "-12345");
    assert [arg][1..] == [];
    OnlyDirective("%d", [arg], "-12345");
  }

  lemma NegativeDigits()
    ensures IntText(-12345) == "-12345"
  {
    NegativeText(-12345);
    DecimalExample();
  }

  lemma DecimalExample()
    ensures Reverse(LsdDigits(12345, 10)) == "12345"
  {
    DecimalLsdExample();
    assert Reverse("54321") == "12345" by {
      assert Reverse("321") == "123";
    }
  }

  lemma DecimalLsdExample()
    ensures LsdDigits(12345, 10) == "54321"
  {
    LsdCons(1, 10, '1', []);
    LsdCons(12, 10, '2', "1");
    LsdCons(123, 10, '3', "21");
    LsdCons(1234, 10, '4', "321");
    LsdCons(12345, 10, '5', "4321");
  }

  /** One turn of the digit loop: the lowest digit, then the digits of the quotient. */
  lemma LsdCons(n: nat, base: nat, c: Char8, t: seq<Char8>)
    requires 2 <= base <= 16 && n > 0
    requires DigitChar(n % base) == c && LsdDigits(n / base, base) == t
    ensures LsdDigits(n, base) == [c] + t
  {}

  lemma AlternateHexPrints()
    ensures Format("%#x", [Num(0x1a2b)]) == Some("0x1a2b")
  {
    var props := DefaultProps.(alternate := true);
    AlternateHexDigits();
    assert 0x1a2b % Word32 == 0x1a2b;
    ArgConversion("%#x", 2, props, 0, [Num(0x1a2b)], "0x1a2b");
    assert [Num(0x1a2b)][1..] == [];
    OnlyDirective("%#x", [Num(0x1a2b)], "0x1a2b");
  }

  lemma AlternateHexDigits()
    ensures PrintUnsigned(0x1a2b, 16, DefaultProps.(alternate := true)) == "0x1a2b"
  {
    var props := DefaultProps.(alternate := true);
    HexUnfold(0x1a2b, props);
    HexDigitsExample();
    assert "0x" + "1a2b" == "0x1a2b";
    NoWidth("0x1a2b", props);
  }

  lemma HexDigitsExample()
    ensures Reverse(LsdDigits(0x1a2b, 16)) == "1a2b"
  {
    HexLsdExample();
    assert Reverse("b2a1") == "1a2b" by {
      assert Reverse("a1") == "1a";
    }
  }

  lemma HexLsdExample()
    ensures LsdDigits(0x1a2b, 16) == "b2a1"
  {
    LsdCons(0x1, 16, '1', []);
    LsdCons(0x1a, 16, 'a', "1");
    LsdCons(0x1a2, 16, '2', "a1");
    LsdCons(0x1a2b, 16, 'b', "2a1");
  }

  lemma PercentPrints()
    ensures Format("rate: 100%%", []) == Some("rate: 100%")
  {
    var fmt := "rate: 100%%";
    PlainCopied(fmt, 0, 9, []);
    assert fmt[0..9] == "rate: 100";
    assert Conversion(fmt, 10, DefaultProps, 0, []) == Some(Directive("%", 11, []));
    DirectiveStep(fmt, 9, [], Directive("%", 11, []));
    assert FormatFrom(fmt, 11, []) == Some([]);
    assert "%" + [] == "%";
    assert "rate: 100" + "%" == "rate: 100%";
  }

  /** The width of "%08x": '0' selects zero padding and atol reads 8 from the text after it. */
  lemma ZeroWidthEight()
    ensures FmtNum("%08x", 2) == (8, 3)
  {
    var b := "%08x" + [Nul];
    assert b[2..] == [] + [] + "8" + "x\0";
    assert "x\0"[1] == Nul;
    CString.AtolReads([], [], "8", "x\0");
    assert CString.DigitValue("8") == 8 by {
      assert "8"[..0] == [];
    }
    assert DigitRun("%08x", 3) == 0;
  }

  lemma ZeroPadHexText()
    ensures Convert('x', Props('0', 8, false), 0, Num(0x123)) == Some("00000123")
  {
    var props := Props('0', 8, false);
    assert 0x123 % Word32 == 0x123;
    LsdCons(0x1, 16, '1', []);
    LsdCons(0x12, 16, '2', "1");
    LsdCons(0x123, 16, '3', "21");
    assert Reverse("321") == "123" by {
      assert Reverse("21") == "12";
    }
    assert PrintUnsigned(0x123, 16, props) == PrintStr("123", props);
    assert Fill('0', 5) == "00000";
    assert PrintStr("123", props) == "00000" + "123" + [];
    assert "00000" + "123" + [] == "00000123";
    assert Convert('x', props, 0, Num(0x123)) == Some(PrintUnsigned(0x123, 16, props));
  }

  lemma ZeroPadHexPrints()
    ensures Format("%08x", [Num(0x123)]) == Some("00000123")
  {
    var fmt := "%08x";
    var props := Props('0', 8, false);
    ZeroWidthEight();
    ZeroPadHexText();
    ArgConversion(fmt, 3, props, 0, [Num(0x123)], "00000123");
    assert [Num(0x123)][1..] == [];
    assert Conversion(fmt, 1, DefaultProps, 0, [Num(0x123)]) == Some(Directive("00000123", 4, []));
    OnlyDirective(fmt, [Num(0x123)], "00000123");
  }

  /** The width of "%-10s": atol reads the sign and the digits, and the format resumes at the 's'. */
  lemma MinusWidthTen()
    ensures FmtNum("|%-10s|", 2) == (-10, 5)
  {
    var b := "|%-10s|" + [Nul];
    assert b[2..] == [] + ['-'] + "10" + "s|\0";
    assert "s|\0"[2] == Nul;
    CString.AtolReads([], ['-'], "10", "s|\0");
    assert CString.DigitValue("10") == 10 by {
      assert "10"[..1] == "1";
      assert "1"[..0] == [];
    }
    assert DigitRun("|%-10s|", 3) == 2;
  }

  lemma LeftJustifyText()
    ensures Convert('s', DefaultProps.(npad := -10), 0, Text("abc")) == Some("abc       ")
  {
    var props := DefaultProps.(npad := -10);
    assert Fill(' ', 7) == "       ";
    assert PrintStr("abc", props) == [] + "abc" + "       ";
    assert [] + "abc" == "abc";
    assert "abc" + "       " == "abc       ";
    assert Convert('s', props, 0, Text("abc")) == Some(PrintStr("abc", props));
  }

  /** The directive "%-10s" with the argument "abc". */
  lemma LeftJustifyDirective()
    ensures Conversion("|%-10s|", 2, DefaultProps, 0, [Text("abc")]) == Some(Directive("abc       ", 6, []))
  {
    var fmt := "|%-10s|";
    MinusWidthTen();
    LeftJustifyText();
    ArgConversion(fmt, 5, DefaultProps.(npad := -10), 0, [Text("abc")], "abc       ");
    assert [Text("abc")][1..] == [];
  }

  lemma LeftJustifyPrints(fmt: seq<Char8>, args: seq<Arg>)
    requires fmt == "|%-10s|" && args == [Text("abc")]
    ensures Format(fmt, args) == Some("|abc       |")
  {
    var d := Directive("abc       ", 6, []);
    LeftJustifyDirective();
    assert fmt[..1] == "|" && fmt[d.next..] == "|";
    assert Nul !in fmt;
    SurroundedDirective(fmt, 1, args, d);
    BarsAround(d.out);
  }

  lemma BarsAround(s: seq<Char8>)
    requires s == "abc       "
    ensures "|" + s + "|" == "|abc       |"
  {
  }
}
