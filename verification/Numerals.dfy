/** `number`: an integer as text, with sign, prefix, precision and padding. */
module Numerals {
  import opened Words

  datatype Flags = Flags(zeropad: bool, sign: bool, plus: bool, space: bool, left: bool, special: bool, small: bool)

  const TMP_SIZE := 36

  // ----- what the text is

  function Repeat(c: char, n: int): (s: string)
    ensures |s| == if n < 0 then 0 else n
    ensures forall i :: 0 <= i < |s| ==> s[i] == c
  {
    if n <= 0 then "" else Repeat(c, n - 1) + [c]
  }

  function Max(a: int, b: int): int {
    if a < b then b else a
  }

  predicate Negative(num: Word) {
    num >= 0x8000_0000
  }

  /** The value of a word read as a signed number. */
  function Signed(num: Word): int {
    if Negative(num) then num - 0x1_0000_0000 else num
  }

  /** `-num` on 32 bits. */
  function Negated(num: Word): Word {
    if num == 0 then 0 else 0x1_0000_0000 - num
  }

  function Magnitude(num: Word, flags: Flags): Word {
    if flags.sign && Negative(num) then Negated(num) else num
  }

  function SignText(num: Word, flags: Flags): string {
    if flags.sign && Negative(num) then "-" else if flags.plus then "+" else if flags.space then " " else ""
  }

  function PrefixText(base: int, flags: Flags): string {
    if !flags.special then ""
    else if base == 8 then "0"
    else if base == 16 then (if flags.small then "0x" else "0X")
    else ""
  }

  function DigitChar(d: nat, small: bool): char
    requires d < 36
  {
    if d < 10 then '0' + d as char else (if small then 'a' else 'A') + (d - 10) as char
  }

  /** The digits of `n`, lowest first; none for zero. */
  function DigitsUp(n: nat, base: nat, small: bool): (s: string)
    requires 2 <= base <= 36
    decreases n
  {
    if n == 0 then ""
    else
      HalfOrLess(n, base);
      [DigitChar(n % base, small)] + DigitsUp(n / base, base, small)
  }

  function Reverse(s: string): (r: string)
    ensures |r| == |s|
  {
    if s == "" then "" else Reverse(s[1..]) + [s[0]]
  }

  /** The usual numeral. */
  function Numeral(n: nat, base: nat, small: bool): string
    requires 2 <= base <= 36
  {
    if n == 0 then "0" else Reverse(DigitsUp(n, base, small))
  }

  /** The numeral with leading zeros up to the precision. */
  function Body(n: nat, base: nat, precision: int, small: bool): string
    requires 2 <= base <= 36
  {
    Repeat('0', precision - |Numeral(n, base, small)|) + Numeral(n, base, small)
  }

  /** Sign and prefix, then the body, and the padding in one place: after everything when
      left-justified, as zeros between prefix and digits under `zeropad`, and as spaces before
      everything otherwise. */
  function NumberText(num: Word, base: nat, size: int, precision: int, flags: Flags): string
    requires 2 <= base <= 36
  {
    var head := SignText(num, flags) + PrefixText(base, flags);
    var body := Body(Magnitude(num, flags), base, precision, flags.small);
    LaidOut(head, body, size - |head| - |body|, flags)
  }

  function LaidOut(head: string, body: string, pad: int, flags: Flags): string {
    if flags.left then head + body + Repeat(' ', pad)
    else if flags.zeropad then head + Repeat('0', pad) + body
    else Repeat(' ', pad) + head + body
  }

  // ----- the code

  /** The output buffer and the pointer into it. */
  class Output {
    const buf: array<char>
    var pos: nat

    ghost predicate Valid()
      reads this
    {
      pos <= buf.Length
    }

    /** What has been written. */
    ghost function Text(): (s: string)
      requires Valid()
      reads this, buf
      ensures |s| == pos
    {
      buf[..pos]
    }

    constructor (size: nat)
      ensures Valid() && fresh(buf) && buf.Length == size && Text() == ""
    {
      buf := new char[size];
      pos := 0;
    }

    /** Store a character and move on. */
    method Put(c: char)
      requires Valid() && pos < buf.Length
      modifies this, buf
      ensures Valid() && Text() == old(Text()) + [c]
    {
      buf[pos] := c;
      pos := pos + 1;
    }

    /** Store a character without moving on. */
    method PutHere(c: char)
      requires Valid() && pos < buf.Length
      modifies buf
      ensures Valid() && Text() == old(Text()) && buf[pos] == c
    {
      buf[pos] := c;
    }

    /** Pad with `c`, counting the size down; the test that fails counts as well. */
    method Fill(c: char, n: int) returns (left: int)
      requires Valid() && pos + Max(n, 0) <= buf.Length
      modifies this, buf
      ensures Valid() && Text() == old(Text()) + Repeat(c, n)
      ensures left == if n > 0 then -1 else n - 1
    {
      var size := n;
      while size > 0
        invariant size <= n && (n >= 0 ==> size >= 0) && (n < 0 ==> size == n)
        invariant Valid() && Text() == old(Text()) + Repeat(c, n - size)
      {
        size := size - 1;
        Put(c);
      }
      left := size - 1;
    }
  }

  function DigitTable(small: bool): string {
    if small then "0123456789abcdefghijklmnopqrstuvwxyz" else "0123456789ABCDEFGHIJKLMNOPQRSTUVWXYZ"
  }

  lemma DigitTableIs(d: nat, small: bool)
    requires d < 36
    ensures d < |DigitTable(small)| && DigitTable(small)[d] == DigitChar(d, small)
  {
  }

  /** `do_div`: the unsigned quotient and remainder; the remainder is the lowest digit. */
  method DoDiv(n: nat, base: nat, ghost small: bool) returns (q: nat, rem: nat)
    requires n > 0 && 2 <= base <= 36
    ensures rem < base && q < n
    ensures DigitsUp(n, base, small) == [DigitChar(rem, small)] + DigitsUp(q, base, small)
  {
    hide DigitsUp, DigitChar;
    DigitsUpStep(n, base, small);
    q, rem := n / base, n % base;
  }

  /** The digits of `num` into `tmp`, lowest first: the loop over `do_div`. */
  method Digits(tmp: array<char>, num: Word, base: nat, small: bool) returns (i: nat)
    requires 2 <= base <= 36 && tmp.Length == TMP_SIZE
    modifies tmp
    ensures 0 < i <= 32 && tmp[..i] == if num == 0 then "0" else DigitsUp(num, base, small)
  {
    hide DigitTable, DigitsUp, DigitChar;
    var digits := DigitTable(small);
    i := 0;
    if num == 0 {
      tmp[i] := '0';
      i := i + 1;
    } else {
      AtMost32(num, base, small);
      DigitsUpNone(base, small);
      var n: nat := num;
      ghost var done := "";
      while n != 0
        invariant i == |done| <= 32 && (n == num || i > 0) && tmp[..i] == done
        invariant DigitsUp(num, base, small) == done + DigitsUp(n, base, small)
      {
        var rem;
        n, rem := DoDiv(n, base, small);
        DigitTableIs(rem, small);
        MoveOne(done, DigitChar(rem, small), DigitsUp(n, base, small));
        tmp[i] := digits[rem];
        done := done + [digits[rem]];
        i := i + 1;
      }
    }
  }

  lemma MoveOne(s: string, c: char, t: string)
    ensures s + ([c] + t) == (s + [c]) + t && |s + ([c] + t)| > |s|
  {
  }

  /** Sign and prefix. */
  method PutHead(out: Output, sign: string, base: nat, flags: Flags)
    requires out.Valid() && |sign| <= 1 && out.pos + |sign| + |PrefixText(base, flags)| <= out.buf.Length
    modifies out, out.buf
    ensures out.Valid() && out.Text() == old(out.Text()) + (sign + PrefixText(base, flags))
  {
    hide Output.Text;
    if |sign| > 0 {
      out.Put(sign[0]);
    }
    if flags.special {
      if base == 8 {
        out.Put('0');
      } else if base == 16 {
        out.Put('0');
        DigitTableIs(33, flags.small);
        out.Put(DigitTable(flags.small)[33]);
      }
    }
  }

  lemma {:induction false} ReverseFront(s: string)
    requires s != ""
    ensures Reverse(s) == [s[|s| - 1]] + Reverse(s[..|s| - 1])
  {
    hide Reverse;
    ReverseStep(s);
    if |s| > 1 {
      var t := s[..|s| - 1];
      ReverseFront(s[1..]);
      assert s[1..][..|s| - 2] == t[1..];
      ReverseStep(t);
    } else {
      assert s[1..] == "" == s[..0];
      ReverseNone();
    }
  }

  lemma ReverseStep(s: string)
    requires s != ""
    ensures Reverse(s) == Reverse(s[1..]) + [s[0]]
  {
  }

  lemma RepeatMore(c: char, n: nat)
    ensures Repeat(c, n + 1) == Repeat(c, n) + [c]
  {
  }

  /** Zeros up to the precision, then the digits. */
  method PutBody(out: Output, tmp: array<char>, digits: nat, zeros: int)
    requires out.Valid() && tmp != out.buf && digits <= tmp.Length && digits <= zeros
    requires out.pos + zeros <= out.buf.Length
    modifies out, out.buf
    ensures out.Valid()
    ensures out.Text() == old(out.Text()) + (Repeat('0', zeros - digits) + Reverse(tmp[..digits]))
  {
    hide Repeat, Reverse;
    var i, precision := digits, zeros;
    RepeatNone('0');
    while i < precision
      invariant digits == i <= precision <= zeros
      invariant out.Valid() && out.Text() == old(out.Text()) + Repeat('0', zeros - precision)
    {
      RepeatMore('0', zeros - precision);
      precision := precision - 1;
      out.Put('0');
    }
    precision := precision - 1;
    PutDigits(out, tmp, digits);
  }

  /** The stored digits, last one first. */
  method PutDigits(out: Output, tmp: array<char>, digits: nat)
    requires out.Valid() && tmp != out.buf && digits <= tmp.Length && out.pos + digits <= out.buf.Length
    modifies out, out.buf
    ensures out.Valid() && out.Text() == old(out.Text()) + Reverse(tmp[..digits])
  {
    hide Reverse;
    var i := digits;
    ghost var before, d := out.Text(), tmp[..digits];
    ReverseNone();
    ghost var done := "";
    while i > 0
      invariant 0 <= i <= digits && tmp[..digits] == d && out.Valid()
      invariant out.Text() == before + done && |done| == digits - i
      invariant done + Reverse(tmp[..i]) == Reverse(d)
    {
      ReverseFront(tmp[..i]);
      i := i - 1;
      assert tmp[..i + 1][..i] == tmp[..i];
      out.Put(tmp[i]);
      done := done + [tmp[i]];
    }
  }

  lemma RepeatNone(c: char)
    ensures Repeat(c, 0) == ""
  {
  }

  lemma ReverseNone()
    ensures Reverse("") == ""
  {
  }

  lemma RepeatBelow(c: char, n: int)
    ensures n <= 0 ==> Repeat(c, n) == ""
    ensures |Repeat(c, n)| == Max(n, 0)
  {
  }

  /** The output loops of `number`: of the three that look at `size` only one does anything. */
  method PutNumber(out: Output, tmp: array<char>, digits: nat, zeros: int, sign: string, base: nat, size: int,
                   kind: Flags)
    requires out.Valid() && tmp != out.buf && digits <= tmp.Length && digits <= zeros && |sign| <= 1
    requires !(kind.left && kind.zeropad)
    requires out.pos + |sign| + |PrefixText(base, kind)| + zeros + Max(size, 0) <= out.buf.Length
    modifies out, out.buf
    ensures out.Valid()
    ensures out.Text() == old(out.Text()) + LaidOut(sign + PrefixText(base, kind),
      Repeat('0', zeros - digits) + Reverse(tmp[..digits]), size, kind)
  {
    hide Reverse, Repeat, PrefixText, Output.Text, LaidOut;
    var c := if kind.zeropad then '0' else ' ';
    ghost var t0, s1 := out.Text(), "";
    var width := size;
    if !(kind.zeropad || kind.left) {
      s1 := Repeat(' ', width);
      width := out.Fill(' ', width);
    }
    PutHead(out, sign, base, kind);
    ghost var s2 := "";
    if !kind.left {
      s2 := Repeat(c, width);
      RepeatBelow(c, width);
      width := out.Fill(c, width);
    }
    PutBody(out, tmp, digits, zeros);
    RepeatBelow(' ', width);
    ghost var s3 := Repeat(' ', width);
    width := out.Fill(' ', width);
    ghost var head, body := sign + PrefixText(base, kind), Repeat('0', zeros - digits) + Reverse(tmp[..digits]);
    Assemble(t0, s1, head, s2, body, s3, size, kind);
  }

  lemma Assemble(t0: string, s1: string, head: string, s2: string, body: string, s3: string, pad: int, kind: Flags)
    requires s1 == if kind.left || kind.zeropad then "" else Repeat(' ', pad)
    requires s2 == if !kind.left && kind.zeropad then Repeat('0', pad) else ""
    requires s3 == if kind.left then Repeat(' ', pad) else ""
    ensures t0 + s1 + head + s2 + body + s3 == t0 + LaidOut(head, body, pad, kind)
  {
    hide Repeat;
    assert t0 + s1 + head + s2 + body + s3 == t0 + (s1 + head + s2 + body + s3);
    assert head + s2 == if s2 == "" then head else head + s2;
    assert s1 + head == if s1 == "" then head else s1 + head;
    assert s1 + head + s2 + body + s3 == LaidOut(head, body, pad, kind);
  }

  /** Sign, magnitude, and what sign and prefix leave of the field width. */
  method SplitSign(num: Word, base: nat, size: int, kind: Flags) returns (n: Word, sign: string, width: int)
    ensures n == Magnitude(num, kind) && sign == SignText(num, kind) && |sign| <= 1
    ensures width == size - |sign| - |PrefixText(base, kind)|
  {
    n, sign := num, "";
    if kind.sign && Negative(num) {
      sign := "-";
      n := Negated(num);
    } else {
      sign := if kind.plus then "+" else if kind.space then " " else "";
    }
    width := size;
    if sign != "" {
      width := width - 1;
    }
    if kind.special {
      if base == 16 {
        width := width - 2;
      } else if base == 8 {
        width := width - 1;
      }
    }
  }

  /** `number`; false where it returns a null pointer. */
  method Number(out: Output, num: Word, base: int, size: int, precision: int, flags: Flags) returns (ok: bool)
    requires out.Valid()
    requires 2 <= base <= 36 ==> out.pos + |NumberText(num, base, size, precision, flags)| <= out.buf.Length
    modifies out, out.buf
    ensures out.Valid() && (ok <==> 2 <= base <= 36)
    ensures out.Text() == old(out.Text()) + if ok then NumberText(num, base, size, precision, flags) else ""
  {
    hide NumberText, LaidOut, Output.Text, Repeat, Reverse, DigitsUp, SignText, PrefixText, Magnitude;
    var tmp := new char[TMP_SIZE];
    var kind := flags;
    if kind.left {
      kind := kind.(zeropad := false);
    }
    ZeropadIsNoPart(num, base, flags);
    if base < 2 || base > 36 {
      return false;
    }
    var n, sign, width := SplitSign(num, base, size, kind);
    var i := Digits(tmp, n, base, kind.small);
    var zeros := precision;
    if i > zeros {
      zeros := i;
    }
    width := width - zeros;
    TextIs(tmp[..i], num, base, size, precision, flags);
    PutNumber(out, tmp, i, zeros, sign, base, width, kind);
    ok := true;
  }

  lemma BodyIs(tmp: string, n: nat, base: nat, precision: int, small: bool)
    requires 2 <= base <= 36 && tmp == if n == 0 then "0" else DigitsUp(n, base, small)
    ensures Body(n, base, precision, small) == Repeat('0', Max(precision, |tmp|) - |tmp|) + Reverse(tmp)
    ensures |Body(n, base, precision, small)| == Max(precision, |tmp|)
  {
    hide DigitsUp, Repeat, Reverse;
    ReverseOne('0');
    RepeatBelow('0', precision - |tmp|);
    RepeatBelow('0', Max(precision, |tmp|) - |tmp|);
  }

  lemma ReverseOne(c: char)
    ensures Reverse([c]) == [c]
  {
  }

  lemma ZeropadIsNoPart(num: Word, base: int, flags: Flags)
    ensures var kind := flags.(zeropad := false);
      Magnitude(num, kind) == Magnitude(num, flags) && SignText(num, kind) == SignText(num, flags)
      && PrefixText(base, kind) == PrefixText(base, flags)
  {
  }

  /** The text in terms of the digits in `tmp`. */
  lemma TextIs(tmp: string, num: Word, base: nat, size: int, precision: int, flags: Flags)
    requires 2 <= base <= 36
    requires var n := Magnitude(num, flags); tmp == if n == 0 then "0" else DigitsUp(n, base, flags.small)
    ensures var head, zeros := SignText(num, flags) + PrefixText(base, flags), Max(precision, |tmp|);
      && |NumberText(num, base, size, precision, flags)| == |head| + zeros + Max(size - |head| - zeros, 0)
      && NumberText(num, base, size, precision, flags) ==
         LaidOut(head, Repeat('0', zeros - |tmp|) + Reverse(tmp), size - |head| - zeros,
                 if flags.left then flags.(zeropad := false) else flags)
  {
    hide Body, Repeat, Reverse, DigitsUp, SignText, PrefixText, Numeral;
    BodyIs(tmp, Magnitude(num, flags), base, precision, flags.small);
  }

  lemma DigitsUpStep(n: nat, base: nat, small: bool)
    requires n > 0 && 2 <= base <= 36
    ensures DigitsUp(n, base, small) == [DigitChar(n % base, small)] + DigitsUp(n / base, base, small)
    ensures n / base < n
  {
    HalfOrLess(n, base);
  }

  lemma DigitsUpNone(base: nat, small: bool)
    requires 2 <= base <= 36
    ensures DigitsUp(0, base, small) == ""
  {
  }

  lemma {:induction false} FewDigits(n: nat, base: nat, small: bool, k: nat)
    requires 2 <= base <= 36 && n < Pow2(k)
    ensures |DigitsUp(n, base, small)| <= k
    decreases n
  {
    hide DigitChar;
    if n > 0 {
      HalfOrLess(n, base);
      FewDigits(n / base, base, small, k - 1);
    }
  }

  lemma AtMost32(num: Word, base: nat, small: bool)
    requires 2 <= base <= 36
    ensures |DigitsUp(num, base, small)| <= 32
  {
    WordsHave32Bits();
    FewDigits(num, base, small, 32);
  }

  function Pow2(k: nat): nat {
    if k == 0 then 1 else 2 * Pow2(k - 1)
  }

  lemma WordsHave32Bits()
    ensures Pow2(32) == 0x1_0000_0000
  {
    assert Pow2(8) == 0x100;
    assert Pow2(16) == 0x1_0000;
    assert Pow2(24) == 0x100_0000;
  }

  lemma HalfOrLess(n: nat, base: nat)
    requires base >= 2
    ensures n / base <= n / 2
  {
    var q := n / base;
    assert q * base <= n;
    assert q * 2 <= q * base by {
      assert q * base == q * 2 + q * (base - 2);
    }
  }
}
