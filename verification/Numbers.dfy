/** Numbers as text: `vsprintf_put_number` of src/core/printf.c, and `strtoul` of
    src/core/string.c, which reads them back. */
module Numbers {
  import opened Arithmetic
  import opened Division
  import Strings

  const DIGITS: nat := 66

  /** `PAD_NUL`, `PAD_NEG` and `SGN_POS`. */
  datatype Flags = Flags(padNul: bool, padNeg: bool, signed: bool)

  function DigitChar(d: nat): char
    requires d < 16
  {
    "0123456789ABCDEF"[d]
  }

  /** The digits of n, most significant first; none for zero. */
  function DigitsOf(n: nat, base: nat): (s: string)
    requires 2 <= base <= 16
    decreases n
  {
    if n == 0 then []
    else
      Smaller(n, base);
      DigitsOf(n / base, base) + [DigitChar(n % base)]
  }

  /** The text of a number: at least one digit. */
  function Numeral(n: nat, base: nat): (s: string)
    requires 2 <= base <= 16
    ensures |s| >= 1
  {
    if n == 0 then "0" else DigitsOf(n, base)
  }

  lemma Smaller(n: nat, base: nat)
    requires n > 0 && base >= 2
    ensures 0 <= n / base < n && 0 <= n % base < base
  {
    DivRem(n, base);
    MulMonotone(2, base, n / base);
  }

  function Fill(c: char, n: int): (s: string)
    ensures |s| == if n > 0 then n else 0
    ensures forall i :: 0 <= i < |s| ==> s[i] == c
  {
    if n <= 0 then [] else seq(n, _ => c)
  }

  function Layout(f: Flags, room: int, sign: string, digits: string): string {
    if f.padNeg then sign + digits + Fill(' ', room)
    else if f.padNul then sign + Fill('0', room) + digits
    else Fill(' ', room) + sign + digits
  }

  /** The printed form of a number of magnitude n: sign, digits and padding to the width. */
  function Printed(f: Flags, pad: int, n: nat, negative: bool, base: nat): string
    requires 2 <= base <= 16
  {
    var sign := if negative then "-" else "";
    Layout(f, pad - |sign| - |Numeral(n, base)|, sign, Numeral(n, base))
  }

  /** The number as printed: its magnitude, 64 bits wide. */
  function Magnitude(n: int, signed: bool): (m: nat)
    requires -B63 <= n < B63
    ensures m < B64
  {
    if n >= 0 then n else if signed then -n else n + B64
  }

  const B63: int := 0x8000_0000_0000_0000

  // --- printing -------------------------------------------------------------------------

  function Reversed(s: string): (r: string)
    ensures |r| == |s|
  {
    if s == [] then [] else [s[|s| - 1]] + Reversed(s[..|s| - 1])
  }

  lemma {:induction false} DigitCount(n: nat, base: nat, k: nat)
    requires 2 <= base <= 16 && n < Power(2, k)
    ensures |DigitsOf(n, base)| <= k
    decreases k
  {
    if n > 0 {
      assert k > 0;
      DivRem(n, base);
      if n / base >= Power(2, k - 1) { MulMonotone(2, base, n / base); }
      DigitCount(n / base, base, k - 1);
    }
  }

  lemma PowersOfTwo()
    ensures Power(2, 64) == B64
  {
    hide Power;
    SmallPower();
    PowerAdds(2, 16, 16);
    PowerAdds(2, 32, 32);
  }

  lemma SmallPower()
    ensures Power(2, 16) == 0x1_0000
  {
    assert Power(2, 8) == 0x100;
  }

  lemma AtMost64(n: nat, base: nat)
    requires 2 <= base <= 16 && n < B64
    ensures |DigitsOf(n, base)| <= 64
  {
    hide Power;
    PowersOfTwo();
    DigitCount(n, base, 64);
  }

  lemma LastDigit(n: nat, base: nat, q: nat, d: nat, done: string)
    requires n > 0 && 2 <= base <= 16 && q == n / base && d == n % base
    ensures d < 16 && DigitsOf(n, base) + Reversed(done) == DigitsOf(q, base) + Reversed(done + [DigitChar(d)])
  {
    hide DigitChar;
    Smaller(n, base);
    assert (done + [DigitChar(d)])[..|done|] == done;
  }

  lemma NoDigits(base: nat)
    requires 2 <= base <= 16
    ensures DigitsOf(0, base) == [] && Reversed([]) == []
  {
  }

  lemma OneDigit()
    ensures Reversed("0") == "0"
  {
  }

  /** The digits, least significant first, by repeated 64-by-32-bit division. */
  method TakeDigits(n0: nat, base: nat, buf: array<char>) returns (i: nat)
    requires 2 <= base <= 16 && n0 < B64 && buf.Length == DIGITS
    modifies buf
    ensures i <= DIGITS && Reversed(buf[..i]) == Numeral(n0, base)
  {
    hide DigitsOf, Reversed, DigitChar;
    i := 0;
    var n: nat := n0;
    NoDigits(base);
    AtMost64(n0, base);
    if n == 0 {
      buf[i] := '0';
      i := i + 1;
      assert buf[..1] == ['0'];
      OneDigit();
    } else {
      while n != 0
        invariant n < B64 && i <= DIGITS && DigitsOf(n0, base) == DigitsOf(n, base) + Reversed(buf[..i])
        decreases n
      {
        var q, d := ArchDiv(n, base);
        Smaller(n, base);
        LastDigit(n, base, q, d, buf[..i]);
        ghost var before := buf[..i];
        buf[i] := DigitChar(d);
        assert buf[..i + 1] == before + [DigitChar(d)];
        n := q;
        i := i + 1;
      }
    }
  }

  /** What is left in `pad` after `while (fmts->pad-- > 0)`. */
  function PadAfter(pad: int): int {
    if pad > 0 then -1 else pad - 1
  }

  /** The three padding loops and the parts between them make up the layout. */
  lemma Arranged(out: string, f: Flags, room: int, sign: string, digits: string)
    ensures
      var c := if f.padNul then '0' else ' ';
      var left := !f.padNeg && !f.padNul;
      var p := if left then PadAfter(room) else room;
      var q := if f.padNeg then p else PadAfter(p);
      var o := (if left then out + Fill(' ', room) else out) + sign;
      (if f.padNeg then o else o + Fill(c, p)) + digits + Fill(' ', q) == out + Layout(f, room, sign, digits)
  {
    assert Fill(' ', -1) == [] && Fill(' ', room - 1) + Fill(' ', 0) == Fill(' ', room - 1);
    if f.padNeg {
      assert (out + sign) + digits + Fill(' ', room) == out + (sign + digits + Fill(' ', room));
    } else if f.padNul {
      assert (out + sign) + Fill('0', room) + digits == out + (sign + Fill('0', room) + digits);
    } else {
      assert (out + Fill(' ', room)) + sign + digits == out + (Fill(' ', room) + sign + digits);
    }
  }

  lemma ArrangedString(out: string, f: Flags, room: int, shown: string)
    ensures
      (if f.padNeg then out else out + Fill(' ', room)) + shown + Fill(' ', if f.padNeg then room else PadAfter(room))
      == out + Layout(f.(padNul := false), room, "", shown)
  {
    assert Fill(' ', room) + "" == Fill(' ', room) && "" + shown == shown;
  }

  /** `struct format_struct`: what has been written, and how to write. */
  class Format {
    var buf: string
    var flags: Flags
    var pad: int
    var pre: int

    constructor (flags: Flags, pad: int, pre: int)
      ensures buf == "" && this.flags == flags && this.pad == pad && this.pre == pre
    {
      buf, this.flags, this.pad, this.pre := "", flags, pad, pre;
    }

    /** `while (fmts->pad-- > 0) *fmts->buf++ = c;` */
    method Pad(c: char)
      modifies `buf, `pad
      ensures buf == old(buf) + Fill(c, old(pad)) && pad == PadAfter(old(pad))
    {
      ghost var k := 0;
      while true
        invariant k >= 0 && (k > 0 ==> k <= old(pad)) && pad == old(pad) - k
        invariant buf == old(buf) + Fill(c, k)
        decreases pad
      {
        pad := pad - 1;
        if pad + 1 <= 0 { break; }
        buf := buf + [c];
        k := k + 1;
      }
      assert old(pad) > 0 ==> k == old(pad);
    }

    /** `while (i-- > 0) *fmts->buf++ = buf[i];` */
    method PutReversed(digits: array<char>, n: nat)
      requires n <= digits.Length
      modifies `buf
      ensures buf == old(buf) + Reversed(digits[..n])
    {
      var i: nat := n;
      while i > 0
        invariant i <= n && buf + Reversed(digits[..i]) == old(buf) + Reversed(digits[..n])
      {
        i := i - 1;
        assert digits[..i + 1][..i] == digits[..i];
        buf := buf + [digits[i]];
      }
    }

    /** `while (fmts->pad-- > len) *fmts->buf++ = ' ';` */
    method PadTo(len: nat)
      modifies `buf, `pad
      ensures buf == old(buf) + Fill(' ', old(pad) - len) && pad - len == PadAfter(old(pad) - len)
    {
      ghost var k := 0;
      while true
        invariant k >= 0 && (k > 0 ==> k <= old(pad) - len) && pad == old(pad) - k
        invariant buf == old(buf) + Fill(' ', k)
        decreases pad - len
      {
        pad := pad - 1;
        if pad + 1 <= len { break; }
        buf := buf + [' '];
        k := k + 1;
      }
      assert old(pad) - len > 0 ==> k == old(pad) - len;
    }

    /** `vsprintf_put_string`: the string, cut to the precision if there is one (-1 is none), on
        the side of the field that the flags say. */
    method PutString(str: string)
      requires Strings.NUL !in str
      modifies this
      ensures var shown := if 0 <= old(pre) < |str| then str[..old(pre)] else str;
        buf == old(buf) + Layout(old(flags).(padNul := false), old(pad) - |shown|, "", shown)
    {
      hide Fill, Layout, PadAfter;
      var len: nat := 0;
      while len < |str| && (pre < 0 || len < pre)
        invariant len <= |str| && (pre >= 0 ==> len <= pre)
      {
        len := len + 1;
      }
      ghost var shown := str[..len];
      assert shown == if 0 <= pre < |str| then str[..pre] else str;
      ArrangedString(buf, flags, pad - len, shown);
      if !flags.padNeg { PadTo(len); }
      ghost var before, rest := buf, pad;
      var i := 0;
      while i < len
        invariant 0 <= i <= len && buf == before + str[..i] && pad == rest
      {
        buf := buf + [str[i]];
        i := i + 1;
      }
      PadTo(len);
    }

    /** From the precision on: padding, sign and digits. */
    method Arrange(c: char, sign: string, digits: array<char>, i: nat) returns (hangs: bool)
      requires i <= digits.Length && c == if flags.padNul then '0' else ' '
      modifies `buf, `pad, `pre
      ensures hangs <==> old(pre) > i
      ensures !hangs ==> buf == old(buf) + Layout(flags, old(pad) - i, sign, Reversed(digits[..i]))
    {
      hide Reversed, Fill, Layout, PadAfter;
      if i > pre { pre := i; }
      pad := pad - pre;
      Arranged(buf, flags, pad, sign, Reversed(digits[..i]));
      if !flags.padNeg && !flags.padNul { Pad(' '); }
      buf := buf + sign;
      if !flags.padNeg { Pad(c); }
      if i < pre { return true; }
      PutReversed(digits, i);
      Pad(' ');
      return false;
    }

    /** `vsprintf_put_number`: it prints the number unless the precision exceeds the number of
        digits; then the loop at src/core/printf.c:118 writes zeros for ever. */
    method PutNumber(n: int, base: nat) returns (hangs: bool)
      requires -B63 <= n < B63 && (base == 0 || 2 <= base <= 16)
      modifies this
      ensures base == 0 ==> !hangs && buf == old(buf)
      ensures base > 0 ==>
        var m := Magnitude(n, old(flags).signed);
        && (hangs <==> old(pre) > |Numeral(m, base)|)
        && (!hangs ==> buf == old(buf) + Printed(old(flags), old(pad), m, old(flags).signed && n < 0, base))
    {
      hide Numeral, Reversed, Fill, Layout;
      if base == 0 { return false; }
      var c := if flags.padNul then '0' else ' ';
      var sign, m := "", if n < 0 then n + B64 else n;
      if flags.signed && n < 0 {
        sign := "-";
        m := -n;
        pad := pad - 1;
      }
      var digits := new char[DIGITS];
      var i := TakeDigits(m, base, digits);
      hangs := Arrange(c, sign, digits, i);
    }
  }

  /** `%.5u` of the number 1. */
  method FiveDigitsOfOne() returns (hangs: bool)
    ensures hangs
  {
    var f := new Format(Flags(false, false, false), 0, 5);
    OneIsOneDigit();
    hangs := f.PutNumber(1, 10);
  }

  lemma OneIsOneDigit()
    ensures Numeral(1, 10) == "1"
  {
    assert DigitsOf(1 / 10, 10) == [];
  }

  /** The printed form is as wide as asked, or as the number needs. */
  lemma PrintedWidth(f: Flags, pad: int, n: nat, negative: bool, base: nat)
    requires 2 <= base <= 16
    ensures var least := |Numeral(n, base)| + if negative then 1 else 0;
      |Printed(f, pad, n, negative, base)| == if pad > least then pad else least
  {
  }

  // --- reading back ---------------------------------------------------------------------

  /** The character at p; the string is terminated. */
  function CharAt(s: string, p: nat): char {
    if p < |s| then s[p] else Strings.NUL
  }

  predicate IsXDigit(c: char) {
    '0' <= c <= '9' || 'a' <= c <= 'f' || 'A' <= c <= 'F'
  }

  /** `TOLOWER`: bit 5 is set. */
  function ToLower(c: char): int {
    if c as int / 32 % 2 == 1 then c as int else c as int + 32
  }

  function DigitValue(c: char): int {
    if '0' <= c <= '9' then c as int - '0' as int else ToLower(c) - 'a' as int + 10
  }

  predicate Hex(s: string) {
    CharAt(s, 0) == '0' && ToLower(CharAt(s, 1)) == 'x' as int
  }

  /** The number that the digits from p on add to `acc`, 32 bits wide, and where they end. */
  function Parse(s: string, p: nat, base: nat, acc: nat): (nat, nat)
    decreases |s| - p
  {
    if p >= |s| || !IsXDigit(s[p]) || !(0 <= DigitValue(s[p]) < base) then (acc, p)
    else Parse(s, p + 1, base, (acc * base + DigitValue(s[p])) % B32)
  }

  /** `simple_guess_base` for base 0. */
  function BaseOf(s: string, base: nat): nat {
    if base > 0 then base
    else if CharAt(s, 0) != '0' then 10
    else if Hex(s) && IsXDigit(CharAt(s, 2)) then 16 else 8
  }

  /** What is read in a given base, and where its digits end. */
  function Read(s: string, base: nat): (nat, nat) {
    Parse(s, if BaseOf(s, base) == 16 && Hex(s) then 2 else 0, BaseOf(s, base), 0)
  }

  function ReadUnsigned(s: string, base: nat): nat {
    Read(s, base).0
  }

  /** `strtoul`. */
  method StrToUl(cp: string, base: nat) returns (result: nat, endp: nat)
    requires Strings.NUL !in cp
    ensures (result, endp) == Read(cp, base)
  {
    var b := base;
    if base == 0 {
      if CharAt(cp, 0) == '0' {
        b := if Hex(cp) && IsXDigit(CharAt(cp, 2)) then 16 else 8;
      } else {
        b := 10;
      }
    }
    endp := 0;
    if b == 16 && Hex(cp) { endp := 2; }
    result := 0;
    ghost var start := endp;
    while IsXDigit(CharAt(cp, endp))
      invariant Parse(cp, endp, b, result) == Parse(cp, start, b, 0)
      decreases |cp| - endp
    {
      var value := DigitValue(cp[endp]);
      if value >= b { break; }
      result := (result * b + value) % B32;
      endp := endp + 1;
    }
  }

  /** The digits below n are read as n modulo 2^32, and reading goes on behind them. */
  lemma DigitRead(d: nat)
    requires d < 16
    ensures IsXDigit(DigitChar(d)) && DigitValue(DigitChar(d)) == d && ToLower(DigitChar(d)) != 'x' as int
    ensures d == 0 ==> DigitChar(d) == '0'
  {
    assert DigitChar(d) == if d < 10 then ('0' as int + d) as char else ('A' as int + d - 10) as char;
  }

  lemma ModStep(a: nat, base: nat, r: nat, n: nat)
    requires n == a * base + r
    ensures (a % B32 * base + r) % B32 == n % B32
  {
    DivRem(a, B32);
    var q, s := a / B32, a % B32;
    assert n == B32 * (q * base) + (s * base + r) by {
      assert (B32 * q + s) * base == B32 * (q * base) + s * base;
    }
    AddMultiple(s * base + r, B32, q * base);
  }

  /** `text` stands in s from p on. */
  ghost predicate At(s: string, p: nat, text: string) {
    p + |text| <= |s| && s[p..p + |text|] == text
  }

  lemma OneRead(s: string, p: nat, base: nat, acc: nat, d: nat)
    requires p < |s| && d < base <= 16 && s[p] == DigitChar(d)
    ensures Parse(s, p, base, acc) == Parse(s, p + 1, base, (acc * base + d) % B32)
  {
    DigitRead(d);
  }

  lemma LastDigitOf(n: nat, base: nat) returns (q: nat, d: nat)
    requires n > 0 && 2 <= base <= 16
    ensures q < n && d < base && (q % B32 * base + d) % B32 == n % B32
    ensures DigitsOf(n, base) == DigitsOf(q, base) + [DigitChar(d)]
  {
    Smaller(n, base);
    q, d := n / base, n % base;
    ModStep(q, base, d, n);
  }

  lemma {:induction false} DigitsRead(s: string, p: nat, n: nat, base: nat)
    requires 2 <= base <= 16 && At(s, p, DigitsOf(n, base))
    ensures Parse(s, p, base, 0) == Parse(s, p + |DigitsOf(n, base)|, base, n % B32)
    decreases n
  {
    if n > 0 {
      hide Parse, DigitChar, DigitsOf;
      var q, d := LastDigitOf(n, base);
      var text, front := DigitsOf(n, base), DigitsOf(q, base);
      assert s[p..p + |front|] == text[..|front|] == front;
      assert s[p + |front|] == text[|front|] == DigitChar(d);
      DigitsRead(s, p, q, base);
      OneRead(s, p + |front|, base, q % B32, d);
    }
  }

  lemma {:induction false} ZerosRead(s: string, p: nat, k: nat, base: nat)
    requires 2 <= base <= 16 && p + k <= |s| && forall i :: p <= i < p + k ==> s[i] == '0'
    ensures Parse(s, p, base, 0) == Parse(s, p + k, base, 0)
    decreases k
  {
    if k > 0 { ZerosRead(s, p + 1, k - 1, base); }
  }

  lemma NumeralRead(s: string, p: nat, n: nat, base: nat)
    requires 2 <= base <= 16 && At(s, p, Numeral(n, base))
    ensures Parse(s, p, base, 0) == Parse(s, p + |Numeral(n, base)|, base, n % B32)
  {
    if n == 0 {
      assert s[p] == s[p..p + 1][0] == '0';
      ZerosRead(s, p, 1, base);
    } else {
      DigitsRead(s, p, n, base);
    }
  }

  lemma ReadingStops(s: string, p: nat, base: nat, acc: nat)
    requires p == |s| || (p < |s| && s[p] == ' ')
    ensures Parse(s, p, base, acc) == (acc, p)
  {
  }

  /** Where the numeral starts in an unsigned printed form, and that no 0x prefix is seen in it. */
  lemma PrintedParts(f: Flags, pad: int, n: nat, base: nat) returns (at: nat)
    requires 2 <= base <= 16
    ensures var s, d := Printed(f, pad, n, false, base), Numeral(n, base);
      && At(s, at, d) && (at > 0 <==> !f.padNeg && pad > |d|)
      && (forall i :: 0 <= i < at ==> s[i] == if f.padNul then '0' else ' ')
      && (at + |d| == |s| || s[at + |d|] == ' ')
  {
    var s, d := Printed(f, pad, n, false, base), Numeral(n, base);
    var room := pad - |d|;
    at := if f.padNeg || room < 0 then 0 else room;
    assert "" + d == d && Fill(' ', room) + "" == Fill(' ', room) && "" + Fill('0', room) == Fill('0', room);
  }

  lemma {:induction false} NoPrefixLetter(n: nat, base: nat, i: nat)
    requires 2 <= base <= 16 && i < |DigitsOf(n, base)|
    ensures ToLower(DigitsOf(n, base)[i]) != 'x' as int && DigitsOf(n, base)[i] != '-'
    decreases n
  {
    hide DigitChar, ToLower, DigitsOf;
    if n == 0 {
      NoDigits(base);
    } else {
      var q, d := LastDigitOf(n, base);
      DigitRead(d);
      if i < |DigitsOf(q, base)| { NoPrefixLetter(q, base, i); }
    }
  }

  /** An unsigned printed form is never taken for one with a 0x prefix, or for a negative number. */
  lemma NotHex(f: Flags, pad: int, n: nat, base: nat)
    requires 2 <= base <= 16
    ensures !Hex(Printed(f, pad, n, false, base)) && CharAt(Printed(f, pad, n, false, base), 0) != '-'
  {
    hide Printed, DigitsOf;
    var s, d := Printed(f, pad, n, false, base), Numeral(n, base);
    var at := PrintedParts(f, pad, n, base);
    forall i | 0 <= i < |d|
      ensures ToLower(d[i]) != 'x' as int && d[i] != '-' && s[at + i] == d[i]
    {
      assert s[at..at + |d|][i] == s[at + i];
      if n > 0 { NoPrefixLetter(n, base, i); }
    }
    assert forall i :: at <= i < at + |d| ==> s[i] == d[i - at];
  }

  lemma PrintedRead(f: Flags, pad: int, n: nat, base: nat)
    requires 2 <= base <= 16
    ensures ReadUnsigned(Printed(f, pad, n, false, base), base) ==
      if f.padNeg || f.padNul || pad <= |Numeral(n, base)| then n % B32 else 0
  {
    hide Printed, Numeral, Hex;
    var s := Printed(f, pad, n, false, base);
    NotHex(f, pad, n, base);
    var at := PrintedParts(f, pad, n, base);
    if at == 0 || f.padNul {
      ZerosRead(s, 0, at, base);
      NumeralRead(s, at, n, base);
      ReadingStops(s, at + |Numeral(n, base)|, base, n % B32);
    } else {
      ReadingStops(s, 0, base, 0);
    }
  }

  /** Printing and reading back: for every 64-bit number, base and padding, `strtoul` gives back
      the number modulo 2^32 exactly when no blanks come before it, or it is zero. */
  lemma RoundTripExactlyWhen(f: Flags, pad: int, n: nat, base: nat)
    requires 2 <= base <= 16
    ensures ReadUnsigned(Printed(f, pad, n, false, base), base) == n % B32 <==>
            f.padNeg || f.padNul || pad <= |Numeral(n, base)| || n % B32 == 0
  {
    hide Printed, Numeral, ReadUnsigned;
    PrintedRead(f, pad, n, base);
  }

  // --- numerals as they are written ------------------------------------------------------------

  const LOWER: string := "0123456789abcdef"
  const UPPER: string := "0123456789ABCDEF"

  /** c is the digit d, in either case. */
  predicate IsDigit(c: char, d: nat) {
    d < 16 && (c == LOWER[d] || c == UPPER[d])
  }

  /** The number that has the given digits. */
  function Value(ds: seq<nat>, base: nat): nat {
    if ds == [] then 0 else Value(ds[..|ds| - 1], base) * base + ds[|ds| - 1]
  }

  /** The text spells the digits, with letters in either case and any mix. */
  ghost predicate Spells(text: string, ds: seq<nat>, base: nat) {
    |text| == |ds| && forall i :: 0 <= i < |ds| ==> ds[i] < base && IsDigit(text[i], ds[i])
  }

  /** What follows is no digit of the base. */
  ghost predicate NoDigitFirst(rest: string, base: nat) {
    rest == [] || forall d: nat :: d < base ==> !IsDigit(rest[0], d)
  }

  /** The digits and their values, in both directions. */
  lemma DigitValueIs(c: char, d: nat)
    requires d < 16
    ensures IsDigit(c, d) <==> IsXDigit(c) && DigitValue(c) == d
  {
    assert LOWER[d] == if d < 10 then ('0' as int + d) as char else ('a' as int + d - 10) as char;
    assert UPPER[d] == if d < 10 then ('0' as int + d) as char else ('A' as int + d - 10) as char;
  }

  /** `is_xdigit` knows the sixteen digits. */
  lemma XDigitIs(c: char)
    ensures IsXDigit(c) <==> exists d: nat :: IsDigit(c, d)
  {
    if IsXDigit(c) { DigitValueIs(c, DigitValue(c)); }
    forall d: nat | IsDigit(c, d) ensures IsXDigit(c) { DigitValueIs(c, d); }
  }

  lemma XIsX(c: char)
    ensures ToLower(c) == 'x' as int <==> c == 'x' || c == 'X'
  {
  }

  lemma DigitOn(s: string, p: nat, base: nat, acc: nat, d: nat)
    requires p < |s| && d < base <= 16 && IsDigit(s[p], d)
    ensures Parse(s, p, base, acc) == Parse(s, p + 1, base, (acc * base + d) % B32)
  {
    DigitValueIs(s[p], d);
  }

  lemma DigitsStop(s: string, p: nat, base: nat, acc: nat)
    requires p <= |s| && base <= 16 && NoDigitFirst(s[p..], base)
    ensures Parse(s, p, base, acc) == (acc, p)
  {
    if p < |s| {
      assert s[p] == s[p..][0];
      DigitValueIs(s[p], if 0 <= DigitValue(s[p]) < base then DigitValue(s[p]) else 0);
    }
  }

  lemma {:induction false} DigitsOn(s: string, p: nat, ds: seq<nat>, base: nat)
    requires 2 <= base <= 16 && p + |ds| <= |s| && Spells(s[p..p + |ds|], ds, base)
    ensures Parse(s, p, base, 0) == Parse(s, p + |ds|, base, Value(ds, base) % B32)
    decreases |ds|
  {
    hide Parse, IsDigit;
    if ds != [] {
      var k: nat := |ds| - 1;
      var front, d := ds[..k], ds[k];
      assert s[p..p + |ds|][..k] == s[p..p + k] && s[p..p + |ds|][k] == s[p + k];
      DigitsOn(s, p, front, base);
      DigitOn(s, p + k, base, Value(front, base) % B32, d);
      ModStep(Value(front, base), base, d, Value(ds, base));
    }
  }

  /** A numeral in the middle of a string. */
  lemma NumeralAt(s: string, p: nat, e: nat, text: string, ds: seq<nat>, rest: string, base: nat)
    requires 2 <= base <= 16 && p <= e <= |s| && s[p..e] == text && s[e..] == rest
    requires Spells(text, ds, base) && NoDigitFirst(rest, base)
    ensures Parse(s, p, base, 0) == (Value(ds, base) % B32, e)
  {
    hide Parse, NoDigitFirst;
    DigitsOn(s, p, ds, base);
    DigitsStop(s, e, base, Value(ds, base) % B32);
  }

  lemma Placed(lead: string, text: string, rest: string) returns (s: string, e: nat)
    ensures s == lead + text + rest && |lead| <= e <= |s| && e == |lead| + |text|
    ensures s[|lead|..e] == text && s[e..] == rest && s[..|lead|] == lead
  {
    s, e := lead + text + rest, |lead| + |text|;
  }

  /** Every numeral, leading zeros and letters of either case included, is read as its number modulo 2^32
      and up to its end, unless "0x" stands in front of it in base 16. */
  lemma ReadsNumeral(text: string, ds: seq<nat>, rest: string, base: nat)
    requires 2 <= base <= 16 && Spells(text, ds, base) && NoDigitFirst(rest, base)
    requires base == 16 ==> !("0x" <= text + rest) && !("0X" <= text + rest)
    ensures Read(text + rest, base) == (Value(ds, base) % B32, |text|)
  {
    hide Parse, Spells, NoDigitFirst;
    var s, e := Placed([], text, rest);
    assert s == text + rest;
    HexIsPrefix(s);
    NumeralAt(s, 0, e, text, ds, rest, base);
  }

  lemma HexIsPrefix(s: string)
    ensures Hex(s) <==> "0x" <= s || "0X" <= s
  {
    XIsX(CharAt(s, 1));
    if |s| >= 2 { assert s[..2] == [s[0], s[1]]; }
  }

  /** A numeral behind "0x", in base 16 or with the base left to be guessed; at least one digit is needed
      for the guess. */
  lemma ReadsPrefixed(x: char, text: string, ds: seq<nat>, rest: string, base: nat)
    requires (x == 'x' || x == 'X') && Spells(text, ds, 16) && NoDigitFirst(rest, 16)
    requires base == 16 || (base == 0 && text != [])
    ensures Read(['0', x] + text + rest, base) == (Value(ds, 16) % B32, 2 + |text|)
  {
    hide Parse, NoDigitFirst;
    var s, e := Placed(['0', x], text, rest);
    HexIsPrefix(s);
    if base == 0 {
      assert s[2] == s[2..e][0] == text[0];
      DigitValueIs(text[0], ds[0]);
    }
    NumeralAt(s, 2, e, text, ds, rest, 16);
  }

  /** "0x" and a digit stand in front. */
  ghost predicate Prefixed(s: string) {
    ("0x" <= s || "0X" <= s) && |s| > 2 && exists d: nat :: IsDigit(s[2], d)
  }

  /** With the base left to be guessed a numeral that does not begin with 0 is decimal, another octal
      unless "0x" and a digit stand in front. */
  lemma ReadsGuessed(text: string, ds: seq<nat>, rest: string)
    requires var base := if ds != [] && ds[0] == 0 then 8 else 10;
      Spells(text, ds, base) && NoDigitFirst(rest, base)
    requires ds != [] && !Prefixed(text + rest)
    ensures Read(text + rest, 0) == (Value(ds, if ds[0] == 0 then 8 else 10) % B32, |text|)
  {
    hide Parse, NoDigitFirst;
    var base := if ds[0] == 0 then 8 else 10;
    var s, e := Placed([], text, rest);
    assert s == text + rest;
    HexIsPrefix(s);
    XDigitIs(CharAt(s, 2));
    DigitValueIs(text[0], ds[0]);
    DigitValueIs('0', 0);
    XDigitIs(Strings.NUL);
    assert s[0] == text[0];
    NumeralAt(s, 0, e, text, ds, rest, base);
  }

  /** `strtol` on a numeral that fits into a signed 32-bit number, with a sign or without. */
  lemma ReadsSigned(text: string, ds: seq<nat>, rest: string, base: nat)
    requires 2 <= base <= 16 && text != [] && Spells(text, ds, base) && NoDigitFirst(rest, base)
    requires base == 16 ==> !("0x" <= text + rest) && !("0X" <= text + rest)
    ensures Value(ds, base) < 0x8000_0000 ==> ReadSigned(text + rest, base) == Value(ds, base)
    ensures Value(ds, base) <= 0x8000_0000 ==> ReadSigned("-" + (text + rest), base) + Value(ds, base) == 0
  {
    hide Read, Value, Spells, NoDigitFirst, ToInt, ReadSigned, IsDigit, CharAt;
    ReadsNumeral(text, ds, rest, base);
    StartsWithDigit(text, ds, rest, base);
    SignOrNot(text + rest, base);
    SignedValue(Value(ds, base));
  }

  lemma StartsWithDigit(text: string, ds: seq<nat>, rest: string, base: nat)
    requires base <= 16 && text != [] && Spells(text, ds, base)
    ensures CharAt(text + rest, 0) != '-'
  {
    DigitValueIs(text[0], ds[0]);
  }

  lemma SignedValue(v: nat)
    ensures v < 0x8000_0000 ==> ToInt(v % B32) == v
    ensures v <= 0x8000_0000 ==> ToInt(0 - v % B32) + v == 0
  {
  }

  lemma SignOrNot(s: string, base: nat)
    ensures CharAt(s, 0) != '-' ==> ReadSigned(s, base) == ToInt(ReadUnsigned(s, base))
    ensures ReadSigned("-" + s, base) == ToInt(0 - ReadUnsigned(s, base))
  {
    assert ("-" + s)[1..] == s;
  }

  /** What is printed for n is a numeral of n in capital letters, and the only one without leading
      zeros. */
  lemma {:induction false} PrintsNumeral(n: nat, base: nat) returns (ds: seq<nat>)
    requires 2 <= base <= 16
    ensures |ds| == |Numeral(n, base)| && Value(ds, base) == n && (ds[0] == 0 ==> n == 0 && ds == [0])
    ensures forall i :: 0 <= i < |ds| ==> ds[i] < base && Numeral(n, base)[i] == UPPER[ds[i]]
    decreases n
  {
    if n == 0 {
      ds := [0];
      assert Value([0], base) == Value([], base) * base + 0;
    } else {
      Smaller(n, base);
      var q, d := n / base, n % base;
      DivRem(n, base);
      if q == 0 {
        ds := [d];
        assert DigitsOf(n, base) == DigitsOf(0, base) + [DigitChar(d)] == [DigitChar(d)];
        assert Value([d], base) == Value([], base) * base + d;
      } else {
        var front := PrintsNumeral(q, base);
        ds := front + [d];
        assert ds[..|ds| - 1] == front;
      }
    }
  }

  /** A number is printed by its absolute value if signed, as its 64-bit pattern if not. */
  lemma PrintedMagnitude(n: int)
    requires -B63 <= n < B63
    ensures Magnitude(n, true) == (if n < 0 then -n else n) && Magnitude(n, false) == n % B64
  {
    if n < 0 { QuotientUnique(n, B64, -1, n + B64); } else { QuotientUnique(n, B64, 0, n); }
  }

  /** `%5u` of the number 1 is read back as 0. */
  lemma BlankOneReadsZero()
    ensures var s := Printed(Flags(false, false, false), 5, 1, false, 10);
      s == "    1" && ReadUnsigned(s, 10) == 0
  {
    OneIsOneDigit();
    PrintedRead(Flags(false, false, false), 5, 1, 10);
    assert Fill(' ', 4) == "    ";
  }

  /** Conversion of a 32-bit pattern to `int`. */
  function ToInt(x: int): int {
    var m := x % B32;
    if m >= B32 / 2 then m - B32 else m
  }

  function ReadSigned(s: string, base: nat): int {
    if CharAt(s, 0) == '-' then ToInt(0 - ReadUnsigned(s[1..], base)) else ToInt(ReadUnsigned(s, base))
  }

  /** `strtol`. */
  method StrToL(cp: string, base: nat) returns (result: int, endp: nat)
    requires Strings.NUL !in cp
    ensures result == ReadSigned(cp, base)
    ensures endp == if CharAt(cp, 0) == '-' then 1 + Read(cp[1..], base).1 else Read(cp, base).1
  {
    if CharAt(cp, 0) == '-' {
      var r: int, e := StrToUl(cp[1..], base);
      return ToInt(-r), 1 + e;
    }
    var r: int, e := StrToUl(cp, base);
    return ToInt(r), e;
  }

  /** A negative number's printed form without blanks before it is a sign and an unsigned form. */
  lemma SignInFront(f: Flags, pad: int, n: nat, base: nat)
    requires 2 <= base <= 16
    ensures f.padNeg || f.padNul || pad <= |Numeral(n, base)| + 1 ==>
      Printed(f, pad, n, true, base) == "-" + Printed(f, pad - 1, n, false, base)
    ensures !(f.padNeg || f.padNul || pad <= |Numeral(n, base)| + 1) ==>
      CharAt(Printed(f, pad, n, true, base), 0) == ' '
  {
    hide Numeral;
    var d := Numeral(n, base);
    var room := pad - 1 - |d|;
    assert "-" + d + Fill(' ', room) == "-" + ("" + d + Fill(' ', room));
    assert "-" + Fill('0', room) + d == "-" + ("" + Fill('0', room) + d);
    assert room <= 0 ==> Fill(' ', room) + "-" + d == "-" + (Fill(' ', room) + "" + d);
  }

  /** The same for signed 32-bit numbers and `strtol`. */
  lemma SignedRoundTripExactlyWhen(f: Flags, pad: int, n: int, base: nat)
    requires 2 <= base <= 16 && -0x8000_0000 <= n < 0x8000_0000
    ensures var m, width := if n < 0 then -n else n, if n < 0 then 1 else 0;
      ReadSigned(Printed(f, pad, m, n < 0, base), base) == n <==>
      f.padNeg || f.padNul || pad <= |Numeral(m, base)| + width || n == 0
  {
    hide Printed, Numeral, ReadUnsigned;
    if n >= 0 {
      PrintedRead(f, pad, n, base);
      NotHex(f, pad, n, base);
    } else {
      var s := Printed(f, pad, -n, true, base);
      SignInFront(f, pad, -n, base);
      if CharAt(s, 0) == ' ' {
        BlankReadsZero(s, base);
      } else {
        assert s[1..] == Printed(f, pad - 1, -n, false, base);
        PrintedRead(f, pad - 1, -n, base);
      }
    }
  }

  lemma BlankReadsZero(s: string, base: nat)
    requires CharAt(s, 0) == ' '
    ensures ReadUnsigned(s, base) == 0
  {
  }
}
