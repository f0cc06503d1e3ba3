/** What readers of formatted numbers can rely on: width, placement of the padding, and that the
    number can be read back. */
module NumeralLaws {
  import opened Words
  import opened Numerals

  /** Exactly the field width, or what sign, prefix and digits need if that is more. */
  lemma WidthLaw(num: Word, base: nat, size: int, precision: int, flags: Flags)
    requires 2 <= base <= 36
    ensures var digits := |Numeral(Magnitude(num, flags), base, flags.small)|;
      && 1 <= digits <= 32
      && |NumberText(num, base, size, precision, flags)| ==
         Max(size, |SignText(num, flags)| + |PrefixText(base, flags)| + Max(precision, digits))
  {
    hide DigitsUp, SignText, PrefixText;
    var n := Magnitude(num, flags);
    WordsHave32Bits();
    if n > 0 {
      FewDigits(n, base, flags.small, 32);
      DigitsUpStep(n, base, flags.small);
    }
  }

  /** Where the padding is: compared with the same number in no field at all, there are only spaces
      more on the right, only zeros more behind the prefix, or only spaces more on the left. */
  lemma PaddingLaw(num: Word, base: nat, size: int, precision: int, flags: Flags)
    requires 2 <= base <= 36
    ensures var core := NumberText(num, base, 0, precision, flags);
      var text := NumberText(num, base, size, precision, flags);
      var head := |SignText(num, flags)| + |PrefixText(base, flags)|;
      && |text| >= |core| >= head
      && var pad := |text| - |core|;
         if flags.left then text[..|core|] == core && forall i :: |core| <= i < |text| ==> text[i] == ' '
         else if flags.zeropad then
           && text[..head] == core[..head] && text[head + pad..] == core[head..]
           && forall i :: head <= i < head + pad ==> text[i] == '0'
         else text[pad..] == core && forall i :: 0 <= i < pad ==> text[i] == ' '
  {
    hide Numeral, SignText, PrefixText, Magnitude;
    var h := SignText(num, flags) + PrefixText(base, flags);
    var b := Body(Magnitude(num, flags), base, precision, flags.small);
    var core := NumberText(num, base, 0, precision, flags);
    assert core == h + b;
  }

  // ----- reading numbers

  function DigitValue(c: char): nat {
    if '0' <= c <= '9' then (c - '0') as nat
    else if 'A' <= c <= 'Z' then (c - 'A') as nat + 10
    else if 'a' <= c <= 'z' then (c - 'a') as nat + 10
    else 36
  }

  function SkipSpaces(s: string): string {
    if s != "" && s[0] == ' ' then SkipSpaces(s[1..]) else s
  }

  /** Length of the longest prefix of `s` that is a numeral. */
  function DigitRun(s: string, base: nat): (n: nat)
    ensures n <= |s|
  {
    if s == "" || DigitValue(s[0]) >= base then 0 else 1 + DigitRun(s[1..], base)
  }

  function Value(s: string, base: nat): nat {
    if s == "" then 0 else Value(s[..|s| - 1], base) * base + DigitValue(s[|s| - 1])
  }

  predicate HasHexPrefix(s: string) {
    |s| >= 2 && s[0] == '0' && (s[1] == 'x' || s[1] == 'X')
  }

  datatype Reading = NoNumber | Read(value: int)

  function ReadUnsigned(s: string, base: nat): Reading {
    var t := if base == 16 && HasHexPrefix(s) then s[2..] else s;
    var n := DigitRun(t, base);
    if n == 0 || SkipSpaces(t[n..]) != "" then NoNumber else Read(Value(t[..n], base))
  }

  /** Reads a number: spaces, sign, hexadecimal prefix, digits, spaces. */
  function ReadNumber(s: string, base: nat): Reading {
    var t := SkipSpaces(s);
    if t != "" && t[0] == '-' then
      match ReadUnsigned(t[1..], base)
      case NoNumber => NoNumber
      case Read(v) => Read(-v)
    else ReadUnsigned(if t != "" && t[0] == '+' then t[1..] else t, base)
  }

  predicate AllDigits(s: string, base: nat) {
    forall i :: 0 <= i < |s| ==> DigitValue(s[i]) < base
  }

  predicate AllSpaces(s: string) {
    forall i :: 0 <= i < |s| ==> s[i] == ' '
  }

  lemma {:induction false} SkipsSpaces(sp: string, s: string)
    requires AllSpaces(sp)
    ensures SkipSpaces(sp + s) == SkipSpaces(s)
  {
    if sp == "" {
      assert sp + s == s;
    } else {
      assert (sp + s)[1..] == sp[1..] + s;
      SkipsSpaces(sp[1..], s);
    }
  }

  lemma {:induction false} RunIs(ds: string, rest: string, base: nat)
    requires AllDigits(ds, base) && (rest == "" || DigitValue(rest[0]) >= base)
    ensures DigitRun(ds + rest, base) == |ds|
  {
    if ds == "" {
      assert ds + rest == rest;
    } else {
      assert (ds + rest)[1..] == ds[1..] + rest;
      RunIs(ds[1..], rest, base);
    }
  }

  lemma DigitCharValue(d: nat, small: bool)
    requires d < 36
    ensures DigitValue(DigitChar(d, small)) == d
  {
  }

  lemma {:induction false} DigitsUpAreDigits(n: nat, base: nat, small: bool)
    requires 2 <= base <= 36
    ensures AllDigits(DigitsUp(n, base, small), base)
    decreases n
  {
    hide DigitChar, DigitValue, DigitsUp, AllDigits;
    if n > 0 {
      DigitsUpStep(n, base, small);
      var q, d := n / base, n % base;
      DigitsUpAreDigits(q, base, small);
      DigitCharValue(d, small);
      MoreDigits(DigitChar(d, small), DigitsUp(q, base, small), base);
    } else {
      DigitsUpNone(base, small);
      assert AllDigits("", base) by { NoDigits(base); }
    }
  }

  lemma NoDigits(base: nat)
    ensures AllDigits("", base)
  {
  }

  lemma MoreDigits(c: char, s: string, base: nat)
    requires DigitValue(c) < base && AllDigits(s, base)
    ensures AllDigits([c] + s, base)
  {
  }

  lemma {:induction false} ReverseAllDigits(s: string, base: nat)
    requires AllDigits(s, base)
    ensures AllDigits(Reverse(s), base)
  {
    if s != "" {
      ReverseAllDigits(s[1..], base);
    }
  }

  lemma ValueSnoc(s: string, c: char, base: nat)
    ensures Value(s + [c], base) == Value(s, base) * base + DigitValue(c)
  {
    assert (s + [c])[..|s|] == s;
  }

  /** Reading the digits of a numeral gives the number. */
  lemma {:induction false} DigitsReadBack(n: nat, base: nat, small: bool)
    requires 2 <= base <= 36
    ensures Value(Reverse(DigitsUp(n, base, small)), base) == n
    decreases n
  {
    hide DigitChar, DigitValue, Value, DigitsUp;
    if n == 0 {
      DigitsUpNone(base, small);
      ReverseNone();
      assert Value("", base) == 0 by { ValueEmpty(base); }
    } else {
      DigitsUpStep(n, base, small);
      var up := DigitsUp(n, base, small);
      assert up[1..] == DigitsUp(n / base, base, small);
      DigitsReadBack(n / base, base, small);
      ValueSnoc(Reverse(up[1..]), up[0], base);
      DigitCharValue(n % base, small);
      DivideBack(n, base);
    }
  }

  lemma ValueEmpty(base: nat)
    ensures Value("", base) == 0
  {
  }

  lemma DivideBack(n: nat, base: nat)
    requires base > 0
    ensures n / base * base + n % base == n
  {
  }

  lemma {:induction false} LeadingZeros(k: nat, s: string, base: nat)
    ensures Value(Repeat('0', k) + s, base) == Value(s, base)
    decreases |s| + k
  {
    hide Value, Repeat, DigitValue;
    if s != "" {
      var t, c := s[..|s| - 1], s[|s| - 1];
      LeadingZeros(k, t, base);
      ValueSnoc(Repeat('0', k) + t, c, base);
      ValueSnoc(t, c, base);
      assert t + [c] == s && Repeat('0', k) + s == Repeat('0', k) + t + [c];
    } else {
      ZerosAreZero(k, base);
      ValueEmpty(base);
      assert Repeat('0', k) + "" == Repeat('0', k);
    }
  }

  lemma {:induction false} ZerosAreZero(k: nat, base: nat)
    ensures Value(Repeat('0', k), base) == 0
  {
    hide Value;
    if k > 0 {
      ZerosAreZero(k - 1, base);
      ValueSnoc(Repeat('0', k - 1), '0', base);
    } else {
      ValueEmpty(base);
    }
  }

  lemma NumeralReadsBack(n: nat, base: nat, small: bool, k: nat)
    requires 2 <= base <= 36
    ensures var ds := Repeat('0', k) + Numeral(n, base, small);
      AllDigits(ds, base) && |ds| > 0 && Value(ds, base) == n
  {
    hide DigitsUp, Reverse, DigitChar;
    LeadingZeros(k, Numeral(n, base, small), base);
    if n > 0 {
      DigitsReadBack(n, base, small);
      DigitsUpAreDigits(n, base, small);
      ReverseAllDigits(DigitsUp(n, base, small), base);
      DigitsUpStep(n, base, small);
    } else {
      assert "0"[..0] == "";
    }
  }

  lemma DigitsThenSpaces(ds: string, sp: string, base: nat)
    requires AllDigits(ds, base) && AllSpaces(sp) && base <= 36
    ensures DigitRun(ds + sp, base) == |ds| && (ds + sp)[..|ds|] == ds && SkipSpaces((ds + sp)[|ds|..]) == ""
  {
    RunIs(ds, sp, base);
    SkipsSpaces(sp, "");
    assert sp + "" == sp && (ds + sp)[|ds|..] == sp;
  }

  lemma NoHexPrefix(ds: string, sp: string)
    requires AllDigits(ds, 16) && ds != "" && AllSpaces(sp)
    ensures !HasHexPrefix(ds + sp)
  {
    if |ds + sp| >= 2 {
      assert (ds + sp)[1] == if |ds| >= 2 then ds[1] else sp[0];
    }
  }

  /** Digits, then spaces; possibly behind a prefix. */
  lemma ReadsUnsigned(prefix: string, ds: string, sp: string, base: nat)
    requires AllDigits(ds, base) && ds != "" && AllSpaces(sp) && base <= 36
    requires prefix == "" || (base == 8 && prefix == "0") || (base == 16 && (prefix == "0x" || prefix == "0X"))
    ensures ReadUnsigned(prefix + ds + sp, base) == Read(Value(ds, base))
  {
    hide DigitRun, SkipSpaces, Value, DigitValue;
    var s := prefix + ds + sp;
    if base == 16 {
      DigitsThenSpaces(ds, sp, base);
      if prefix == "" {
        assert s == ds + sp;
        NoHexPrefix(ds, sp);
      } else {
        assert s[0] == prefix[0] && s[1] == prefix[1] && s[2..] == ds + sp;
      }
    } else {
      assert DigitValue('0') < base || prefix == "" by { ZeroIsDigit(); }
      DigitsThenSpaces(prefix + ds, sp, base);
      OneZero(prefix, ds, base);
    }
  }

  lemma ZeroIsDigit()
    ensures DigitValue('0') == 0
  {
  }

  lemma OneZero(prefix: string, ds: string, base: nat)
    requires prefix == "" || prefix == "0"
    ensures Value(prefix + ds, base) == Value(ds, base)
  {
    if prefix == "" {
      assert prefix + ds == ds;
    } else {
      assert Repeat('0', 1) == Repeat('0', 0) + ['0'] == "0";
      LeadingZeros(1, ds, base);
    }
  }

  lemma SignIsRead(sign: string, rest: string)
    requires sign in ["", "-", "+", " "] && rest != "" && rest[0] !in " -+"
    ensures SkipSpaces(sign + rest) == if sign == " " then rest else sign + rest
  {
    if sign == " " {
      assert (sign + rest)[1..] == rest;
    } else if sign == "" {
      assert sign + rest == rest;
    }
  }

  lemma {:induction false} RepeatPlus(c: char, m: nat, n: nat)
    ensures Repeat(c, m) + Repeat(c, n) == Repeat(c, m + n)
  {
    if n > 0 {
      RepeatPlus(c, m, n - 1);
      assert Repeat(c, m) + Repeat(c, n) == Repeat(c, m) + Repeat(c, n - 1) + [c];
    }
  }

  /** Leading zeros from the precision and from the padding are the same thing to a reader. */
  function ZerosBefore(num: Word, base: nat, size: int, precision: int, flags: Flags): nat
    requires 2 <= base <= 36
  {
    var n := |Numeral(Magnitude(num, flags), base, flags.small)|;
    var pad := size - |SignText(num, flags)| - |PrefixText(base, flags)| - Max(precision, n);
    Max(precision - n, 0) + if !flags.left && flags.zeropad then Max(pad, 0) else 0
  }

  lemma TextShape(num: Word, base: nat, size: int, precision: int, flags: Flags) returns (front: string, back: string)
    requires 2 <= base <= 36
    ensures AllSpaces(front) && AllSpaces(back)
    ensures front != "" ==> !flags.left && !flags.zeropad && |NumberText(num, base, size, precision, flags)| == size
    ensures back != "" ==> flags.left && |NumberText(num, base, size, precision, flags)| == size
    ensures NumberText(num, base, size, precision, flags) == front + (SignText(num, flags) + (PrefixText(base, flags) +
      (Repeat('0', ZerosBefore(num, base, size, precision, flags)) + Numeral(Magnitude(num, flags), base, flags.small))
      + back))
  {
    hide Numeral, Repeat, SignText, PrefixText, Magnitude, LaidOut;
    var sign, prefix := SignText(num, flags), PrefixText(base, flags);
    var numeral := Numeral(Magnitude(num, flags), base, flags.small);
    var zeros := Max(precision - |numeral|, 0);
    var pad := size - |sign| - |prefix| - zeros - |numeral|;
    RepeatBelow('0', precision - |numeral|);
    RepeatBelow('0', zeros);
    front, back := LaidOutShape(sign, prefix, zeros, numeral, pad, flags);
  }

  lemma LaidOutShape(sign: string, prefix: string, zeros: nat, numeral: string, pad: int, flags: Flags)
      returns (front: string, back: string)
    ensures AllSpaces(front) && AllSpaces(back)
    ensures front != "" ==> !flags.left && !flags.zeropad && pad > 0
    ensures back != "" ==> flags.left && pad > 0
    ensures |LaidOut(sign + prefix, Repeat('0', zeros) + numeral, pad, flags)| ==
            |sign| + |prefix| + zeros + |numeral| + Max(pad, 0)
    ensures LaidOut(sign + prefix, Repeat('0', zeros) + numeral, pad, flags) == front + (sign + (prefix +
      (Repeat('0', zeros + if !flags.left && flags.zeropad then Max(pad, 0) else 0) + numeral) + back))
  {
    hide Repeat;
    front, back := "", "";
    RepeatBelow(' ', pad);
    RepeatBelow('0', pad);
    var body := Repeat('0', zeros) + numeral;
    if flags.left {
      back := Repeat(' ', pad);
      assert sign + prefix + body + back == front + (sign + (prefix + body + back));
    } else if flags.zeropad {
      RepeatBelow('0', Max(pad, 0));
      RepeatPlus('0', Max(pad, 0), zeros);
      var more := Repeat('0', pad);
      assert sign + prefix + more + body == front + (sign + (prefix + (more + Repeat('0', zeros) + numeral) + back));
    } else {
      front := Repeat(' ', pad);
      assert front + (sign + prefix) + body == front + (sign + (prefix + body + back));
    }
  }

  /** Whatever the flags, field width, precision and base: the text denotes the number that was
      passed, as a signed one under SIGN (-2^31 included), as an unsigned one otherwise. */
  lemma NumberReadsBack(num: Word, base: nat, size: int, precision: int, flags: Flags)
    requires 2 <= base <= 36
    ensures ReadNumber(NumberText(num, base, size, precision, flags), base) ==
      Read(if flags.sign && num >= 0x8000_0000 then num - 0x1_0000_0000 else num)
  {
    hide Numeral, ReadUnsigned, SkipSpaces, Value, AllDigits, AllSpaces, ZerosBefore, Repeat, NumberText;
    var n, zeros := Magnitude(num, flags), ZerosBefore(num, base, size, precision, flags);
    var sign, prefix := SignText(num, flags), PrefixText(base, flags);
    var ds := Repeat('0', zeros) + Numeral(n, base, flags.small);
    var front, back := TextShape(num, base, size, precision, flags);
    NumeralReadsBack(n, base, flags.small, zeros);
    ReadsUnsigned(prefix, ds, back, base);
    var rest := prefix + ds + back;
    FirstIsDigit(prefix, ds, back, base);
    SkipsSpaces(front, sign + rest);
    SignIsRead(sign, rest);
    var t := SkipSpaces(front + (sign + rest));
    assert t == if sign == " " then rest else sign + rest;
    if sign == "-" || sign == "+" {
      assert t[1..] == rest;
    } else {
      assert t == rest;
    }
  }

  lemma FirstIsDigit(prefix: string, ds: string, back: string, base: nat)
    requires AllDigits(ds, base) && ds != "" && base <= 36 && (prefix == "" || prefix[0] == '0')
    ensures (prefix + ds + back)[0] !in " -+"
  {
    assert (prefix + ds + back)[0] == if prefix == "" then ds[0] else '0';
  }

  // ----- what is printed, character by character

  lemma {:induction false} DigitLetters(n: nat, base: nat, small: bool)
    requires 2 <= base <= 36
    ensures forall c :: c in DigitsUp(n, base, small) ==>
      c in (if small then "0123456789abcdefghijklmnopqrstuvwxyz" else "0123456789ABCDEFGHIJKLMNOPQRSTUVWXYZ")[..base]
    ensures n > 0 ==> var up := DigitsUp(n, base, small); up != "" && up[|up| - 1] != '0'
    decreases n
  {
    hide DigitsUp, DigitChar, DigitTable;
    if n > 0 {
      DigitsUpStep(n, base, small);
      DigitLetters(n / base, base, small);
      LetterIs(n % base, base, small);
      if n < base {
        DigitsUpNone(base, small);
      } else {
        assert n / base > 0;
      }
    } else {
      DigitsUpNone(base, small);
    }
  }

  lemma LetterIs(d: nat, base: nat, small: bool)
    requires d < base <= 36
    ensures DigitChar(d, small) == '0' <==> d == 0
    ensures DigitChar(d, small) in
      (if small then "0123456789abcdefghijklmnopqrstuvwxyz" else "0123456789ABCDEFGHIJKLMNOPQRSTUVWXYZ")[..base]
  {
    DigitTableIs(d, small);
    assert DigitTable(small)[..base][d] == DigitChar(d, small);
  }

  lemma {:induction false} ReverseSame(s: string)
    ensures forall c :: c in Reverse(s) ==> c in s
    ensures s != "" ==> Reverse(s)[0] == s[|s| - 1]
  {
    if s != "" {
      ReverseSame(s[1..]);
      ReverseFront(s);
    }
  }

  lemma NumeralLetters(n: nat, base: nat, small: bool)
    requires 2 <= base <= 36
    ensures forall c :: c in Numeral(n, base, small) ==>
      c in (if small then "0123456789abcdefghijklmnopqrstuvwxyz" else "0123456789ABCDEFGHIJKLMNOPQRSTUVWXYZ")[..base]
    ensures Numeral(n, base, small) != "" && (Numeral(n, base, small)[0] == '0' ==> |Numeral(n, base, small)| == 1)
  {
    hide DigitsUp, Reverse;
    DigitLetters(n, base, small);
    ReverseSame(DigitsUp(n, base, small));
    LetterIs(0, base, small);
  }

  lemma ZerosAndNumeral(k: nat, n: nat, base: nat, small: bool)
    requires 2 <= base <= 36
    ensures forall c :: c in Repeat('0', k) + Numeral(n, base, small) ==>
      c in (if small then "0123456789abcdefghijklmnopqrstuvwxyz" else "0123456789ABCDEFGHIJKLMNOPQRSTUVWXYZ")[..base]
    ensures Repeat('0', 0) + Numeral(n, base, small) == Numeral(n, base, small)
  {
    hide Numeral;
    NumeralLetters(n, base, small);
    LetterIs(0, base, small);
  }

  /** The parts of the text and what their lengths are due to. */
  lemma NumberLayout(num: Word, base: nat, size: int, precision: int, flags: Flags)
      returns (left: string, digits: string, right: string)
    requires 2 <= base <= 36
    ensures var text := NumberText(num, base, size, precision, flags);
      var zeros := ZerosBefore(num, base, size, precision, flags);
      var numeral := Numeral(Magnitude(num, flags), base, flags.small);
      && digits == Repeat('0', zeros) + numeral
      && text == left + SignText(num, flags) + PrefixText(base, flags) + digits + right && |text| >= size
      && (left != "" ==> !flags.left && !flags.zeropad && |text| == size)
      && (right != "" ==> flags.left && |text| == size)
      && (zeros > 0 ==> |digits| == precision || (flags.zeropad && !flags.left && |text| == size))
      && |digits| >= precision
    ensures AllSpaces(left) && AllSpaces(right)
  {
    hide NumberText, Numeral, Repeat, SignText, PrefixText, Magnitude, AllSpaces;
    var zeros := ZerosBefore(num, base, size, precision, flags);
    var sign, prefix := SignText(num, flags), PrefixText(base, flags);
    digits := Repeat('0', zeros) + Numeral(Magnitude(num, flags), base, flags.small);
    left, right := TextShape(num, base, size, precision, flags);
    assert left + (sign + (prefix + digits + right)) == left + sign + prefix + digits + right;
    WidthLaw(num, base, size, precision, flags);
    RepeatBelow('0', zeros);
  }

  /** The text of a number and its parts: a sign; a prefix; digits
      of the base in the asked for case, which denote the magnitude, at least `precision` of them
      and with no more leading zeros than precision or zero padding call for; and spaces on the
      side the flags say, if that is what it takes to fill the field. */
  lemma NumberParts(num: Word, base: nat, size: int, precision: int, flags: Flags)
      returns (left: string, sign: string, prefix: string, digits: string, right: string)
    requires 2 <= base <= 36
    ensures var text := NumberText(num, base, size, precision, flags);
      && text == left + sign + prefix + digits + right && |text| >= size
      && (left != "" ==> !flags.left && !flags.zeropad && |text| == size)
      && (right != "" ==> flags.left && |text| == size)
      && (|digits| > 1 && digits[0] == '0' ==>
            |digits| == precision || (flags.zeropad && !flags.left && |text| == size))
    ensures forall c :: c in left + right ==> c == ' '
    ensures sign == if flags.sign && num >= 0x8000_0000 then "-" else if flags.plus then "+"
                    else if flags.space then " " else ""
    ensures prefix == if flags.special && base == 8 then "0"
                      else if flags.special && base == 16 then (if flags.small then "0x" else "0X") else ""
    ensures digits != "" && |digits| >= precision
    ensures Value(digits, base) == if flags.sign && num >= 0x8000_0000 then 0x1_0000_0000 - num else num
    ensures forall c :: c in digits ==>
      c in (if flags.small then "0123456789abcdefghijklmnopqrstuvwxyz"
            else "0123456789ABCDEFGHIJKLMNOPQRSTUVWXYZ")[..base]
  {
    hide NumberText, Numeral, Repeat, Value, AllDigits, ZerosBefore;
    var n, zeros := Magnitude(num, flags), ZerosBefore(num, base, size, precision, flags);
    sign, prefix := SignText(num, flags), PrefixText(base, flags);
    left, digits, right := NumberLayout(num, base, size, precision, flags);
    NumeralReadsBack(n, base, flags.small, zeros);
    NumeralLetters(n, base, flags.small);
    ZerosAndNumeral(zeros, n, base, flags.small);
  }
}
