/** What a directive prints, in terms of how it is written. */
module PrintfLaws {
  import opened Words
  import opened Numerals
  import opened NumeralLaws
  import opened Printf

  /** The numeric conversions: base and signedness follow from the conversion character, the field
      width and the least number of digits from the digits in the directive (a bare `%p` counts as
      `%08p`), and sign, prefix, letters and side of the padding from its flags. */
  lemma NumbersAsWritten(it: Item, args: Args, k: nat, pos: nat)
      returns (left: string, sign: string, prefix: string, digits: string, right: string)
    requires it.Directive? && it.conv in "diuoxXpb"
    ensures var r, a, flags := Render(it, args, k, pos), args.word(k), it.flagText;
      var bare := it.conv == 'p' && it.widthText == "";
      var width := if it.widthText != "" then Value(it.widthText, 10) else if bare then 8 else 0;
      var precision := if it.precision.Dot? then Value(it.precision.digits, 10) else 0;
      var base := if it.conv in "diu" then 10 else if it.conv == 'o' then 8 else if it.conv == 'b' then 2 else 16;
      var negative := it.conv in "di" && a >= 0x8000_0000;
      && r.counts == [] && r.next == k + 1
      && r.text == left + sign + prefix + digits + right && |r.text| >= width
      && (left != "" ==> '-' !in flags && '0' !in flags && !bare && |r.text| == width)
      && (right != "" ==> '-' in flags && |r.text| == width)
      && digits != "" && |digits| >= precision
      && (|digits| > 1 && digits[0] == '0' ==>
            |digits| == precision || (('0' in flags || bare) && '-' !in flags && |r.text| == width))
      && Value(digits, base) == (if negative then 0x1_0000_0000 - a else a)
      && sign == (if negative then "-" else if '+' in flags then "+" else if ' ' in flags then " " else "")
      && prefix == (if '#' !in flags then "" else if it.conv == 'o' then "0" else if it.conv == 'x' then "0x"
                    else if it.conv == 'X' || it.conv == 'p' then "0X" else "")
      && forall c :: c in digits ==>
           c in (if it.conv == 'x' then "0123456789abcdef" else "0123456789ABCDEF")[..base]
    ensures forall c :: c in left + right ==> c == ' '
  {
    hide NumberText, Render, FlagsOf, WidthOf, PrecisionOf, Value;
    FlagsRead(it.flagText);
    FieldsRead(it);
    var base, width, kind := NumberRendering(it, args, k, pos);
    left, sign, prefix, digits, right := HexParts(args.word(k), base, width, PrecisionOf(it.precision), kind);
  }

  /** The parts of a number in a base up to 16, no width or precision being as good as 0. */
  lemma HexParts(num: Word, base: nat, size: int, precision: int, flags: Flags)
      returns (left: string, sign: string, prefix: string, digits: string, right: string)
    requires 2 <= base <= 16
    ensures var text := NumberText(num, base, size, precision, flags);
      var width, least := if size < 0 then 0 else size, if precision < 0 then 0 else precision;
      && text == left + sign + prefix + digits + right && |text| >= width
      && (left != "" ==> !flags.left && !flags.zeropad && |text| == width)
      && (right != "" ==> flags.left && |text| == width)
      && digits != "" && |digits| >= least
      && (|digits| > 1 && digits[0] == '0' ==> |digits| == least || (flags.zeropad && !flags.left && |text| == width))
    ensures forall c :: c in left + right ==> c == ' '
    ensures Value(digits, base) == if flags.sign && num >= 0x8000_0000 then 0x1_0000_0000 - num else num
    ensures sign == if flags.sign && num >= 0x8000_0000 then "-" else if flags.plus then "+"
                    else if flags.space then " " else ""
    ensures prefix == if flags.special && base == 8 then "0"
                      else if flags.special && base == 16 then (if flags.small then "0x" else "0X") else ""
    ensures forall c :: c in digits ==> c in (if flags.small then "0123456789abcdef" else "0123456789ABCDEF")[..base]
  {
    hide NumberText, Value;
    left, sign, prefix, digits, right := NumberParts(num, base, size, precision, flags);
    HexLetters(base);
  }

  lemma FlagsRead(f: string)
    ensures FlagsOf(f) == Flags('0' in f, false, '+' in f, ' ' in f, '-' in f, '#' in f, false)
  {
  }

  lemma FieldsRead(it: Item)
    requires it.Directive?
    ensures WidthOf(it.widthText) == if it.widthText != "" then Value(it.widthText, 10) else -1
    ensures PrecisionOf(it.precision) == if it.precision.Dot? then Value(it.precision.digits, 10) else -1
  {
  }

  lemma HexLetters(base: nat)
    requires base <= 16
    ensures "0123456789abcdefghijklmnopqrstuvwxyz"[..base] == "0123456789abcdef"[..base]
    ensures "0123456789ABCDEFGHIJKLMNOPQRSTUVWXYZ"[..base] == "0123456789ABCDEF"[..base]
  {
  }

  /** `%c`: the low byte of the argument as a character; spaces fill the field, behind the character
      under '-' and before it otherwise. */
  lemma CharAsWritten(it: Item, args: Args, k: nat, pos: nat)
    requires it.Directive? && it.conv == 'c'
    ensures var r, c := Render(it, args, k, pos), (args.word(k) % 0x100) as char;
      var width := if it.widthText != "" then Value(it.widthText, 10) else 0;
      && r.counts == [] && r.next == k + 1
      && |r.text| == (if width < 1 then 1 else width)
      && (if '-' in it.flagText
          then r.text[0] == c && forall i :: 1 <= i < |r.text| ==> r.text[i] == ' '
          else r.text[|r.text| - 1] == c && forall i :: 0 <= i < |r.text| - 1 ==> r.text[i] == ' ')
  {
    hide Padded, FlagsOf, WidthOf, PrecisionOf, Value, Repeat;
    FieldsRead(it);
    FlagsRead(it.flagText);
    PaddedChar((args.word(k) % 0x100) as char, WidthOf(it.widthText), '-' in it.flagText);
  }

  /** `%s`: the string at the argument, cut to the precision; the field is filled as for `%c`. */
  lemma StringAsWritten(it: Item, args: Args, k: nat, pos: nat)
    requires it.Directive? && it.conv == 's'
    ensures var r, s := Render(it, args, k, pos), args.text(args.word(k));
      var width := if it.widthText != "" then Value(it.widthText, 10) else 0;
      var cut := it.precision.Dot? && Value(it.precision.digits, 10) < |s|;
      var n := if cut then Value(it.precision.digits, 10) else |s|;
      && r.counts == [] && r.next == k + 1
      && |r.text| == (if width < n then n else width)
      && (if '-' in it.flagText
          then r.text[..n] == s[..n] && forall i :: n <= i < |r.text| ==> r.text[i] == ' '
          else r.text[|r.text| - n..] == s[..n] && forall i :: 0 <= i < |r.text| - n ==> r.text[i] == ' ')
  {
    hide Padded, Clipped, FlagsOf, WidthOf, PrecisionOf, Value, Repeat;
    FieldsRead(it);
    FlagsRead(it.flagText);
    PaddedClipped(args.text(args.word(k)), WidthOf(it.widthText), PrecisionOf(it.precision), '-' in it.flagText);
  }

  lemma PaddedIs(s: string, width: int, left: bool)
    ensures var t, n := Padded(s, width, left), |s|;
      && |t| == (if width < n then n else width)
      && (if left then t[..n] == s && forall i :: n <= i < |t| ==> t[i] == ' '
          else t[|t| - n..] == s && forall i :: 0 <= i < |t| - n ==> t[i] == ' ')
  {
  }

  lemma PaddedChar(c: char, width: int, left: bool)
    ensures var t := Padded([c], width, left);
      && |t| == (if width < 1 then 1 else width)
      && (if left then t[0] == c && forall i :: 1 <= i < |t| ==> t[i] == ' '
          else t[|t| - 1] == c && forall i :: 0 <= i < |t| - 1 ==> t[i] == ' ')
  {
    hide Padded;
    PaddedIs([c], width, left);
    var t := Padded([c], width, left);
    assert left ==> t[0] == t[..1][0];
    assert !left ==> t[|t| - 1] == t[|t| - 1..][0];
  }

  lemma PaddedClipped(s: string, width: int, precision: int, left: bool)
    ensures var t := Padded(Clipped(s, precision), width, left);
      var n := if 0 <= precision < |s| then precision else |s|;
      && |t| == (if width < n then n else width)
      && (if left then t[..n] == s[..n] && forall i :: n <= i < |t| ==> t[i] == ' '
          else t[|t| - n..] == s[..n] && forall i :: 0 <= i < |t| - n ==> t[i] == ' ')
  {
    assert s[..|s|] == s;
    var c := Clipped(s, precision);
    hide Padded;
    PaddedIs(c, width, left);
  }

  /** The other conversions: `%n` prints nothing and stores the number of characters so far; `%%` and
      a directive cut off by the end of the format print a '%'; any other one prints '%' and its
      conversion character, and takes no argument unless a '*' stands for width or precision. */
  lemma OthersAsWritten(it: Item, args: Args, k: nat, pos: nat)
    requires it.Directive? && it.conv !in "csdiuoxXpb"
    ensures var r := Render(it, args, k, pos);
      var star := it.conv == '*' && it.qualifier == "" &&
                  ((it.widthText == "" && it.precision == NoPrecision) || it.precision == Dot(""));
      && r.text == (if it.conv == 'n' then "" else if it.conv == '%' || it.conv == NUL then "%" else ['%', it.conv])
      && r.counts == (if it.conv == 'n' then [Count(args.word(k), pos)] else [])
      && r.next == k + (if it.conv == 'n' || star then 1 else 0)
  {
  }

  /** A format prints its items one after the other, each going on where the last one stopped in the
      arguments and in the text. */
  lemma {:induction false} RenderConcat(xs: seq<Item>, ys: seq<Item>, args: Args, k: nat, pos: nat)
    ensures var x := RenderAll(xs, args, k, pos);
      var y := RenderAll(ys, args, x.next, pos + |x.text|);
      RenderAll(xs + ys, args, k, pos) == Rendering(x.text + y.text, x.counts + y.counts, y.next)
    decreases |xs|
  {
    hide Render;
    if xs == [] {
      var y := RenderAll(ys, args, k, pos);
      assert xs + ys == ys && "" + y.text == y.text && [] + y.counts == y.counts;
    } else {
      var first := Render(xs[0], args, k, pos);
      assert (xs + ys)[1..] == xs[1..] + ys;
      RenderConcat(xs[1..], ys, args, first.next, pos + |first.text|);
    }
  }

  /** The base cases: no item prints nothing, and an ordinary character prints itself. */
  lemma RenderOne(it: Item, args: Args, k: nat, pos: nat)
    ensures RenderAll([it], args, k, pos) == Render(it, args, k, pos)
    ensures RenderAll([], args, k, pos) == Rendering("", [], k)
    ensures it.Plain? ==> Render(it, args, k, pos) == Rendering([it.c], [], k)
  {
    assert it.Plain? ==> Render(it, args, k, pos) == Rendering([it.c], [], k);
    hide Render;
    var r := Render(it, args, k, pos);
    assert r.text + "" == r.text && r.counts + [] == r.counts;
    assert RenderAll([it][1..], args, r.next, pos + |r.text|) == Rendering("", [], r.next);
  }
}
