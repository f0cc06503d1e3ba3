/** Format strings: their division into directives, what each directive stands for, and `vsprintf`,
    which does both in one scan. */
module Printf {
  import opened Words
  import opened Numerals
  import opened NumeralLaws

  // ----- formats

  datatype Precision = NoPrecision | Dot(digits: string)

  /** A piece of a format: an ordinary character or a directive, in the parts it was written in.
      `conv` is NUL in a directive cut off by the end of the format. */
  datatype Item = Plain(c: char)
                | Directive(flagText: string, widthText: string, precision: Precision, qualifier: string, conv: char)

  const NUL: char := '\0'
  const FLAG_CHARS := "-+ #0"
  const QUALIFIERS := "hlL"

  function ConvText(conv: char): string {
    if conv == NUL then "" else [conv]
  }

  function Spell(it: Item): string {
    match it
    case Plain(c) => [c]
    case Directive(f, w, p, q, conv) =>
      "%" + f + w + (if p.Dot? then "." + p.digits else "") + q + ConvText(conv)
  }

  function SpellAll(items: seq<Item>): string {
    if items == [] then "" else Spell(items[0]) + SpellAll(items[1..])
  }

  /** Number of flag characters `s` begins with. */
  function FlagRun(s: string): (n: nat)
    ensures n <= |s|
  {
    if s == "" || s[0] !in FLAG_CHARS then 0 else 1 + FlagRun(s[1..])
  }

  /** The first character, NUL at the end of the format. */
  function First(s: string): char {
    if s == "" then NUL else s[0]
  }

  function ParseQualified(f: string, w: string, p: Precision, s: string): Item {
    if s != "" && s[0] in QUALIFIERS then Directive(f, w, p, s[..1], First(s[1..]))
    else Directive(f, w, p, "", First(s))
  }

  /** What follows the flags `f` of a directive: width, precision, qualifier and conversion, each as
      long as possible. */
  function ParseFields(f: string, s: string): Item {
    var w := DigitRun(s, 10);
    var s2 := s[w..];
    if First(s2) == '.' then
      var d := DigitRun(s2[1..], 10);
      ParseQualified(f, s[..w], Dot(s2[1..][..d]), s2[1..][d..])
    else ParseQualified(f, s[..w], NoPrecision, s2)
  }

  /** The directive at the start of `s`, which follows the '%'. */
  function ParseDirective(s: string): Item {
    ParseFields(s[..FlagRun(s)], s[FlagRun(s)..])
  }

  function ParseItem(s: string): Item
    requires s != ""
  {
    if s[0] != '%' then Plain(s[0]) else ParseDirective(s[1..])
  }

  function Parse(s: string): seq<Item>
    requires NUL !in s
    decreases |s|
  {
    if s == "" then []
    else
      ItemIsPrefix(s);
      [ParseItem(s)] + Parse(s[|Spell(ParseItem(s))|..])
  }

  lemma QualifiedIsPrefix(f: string, w: string, p: Precision, s: string)
    requires NUL !in s
    ensures var it := ParseQualified(f, w, p, s);
      var tail := it.qualifier + ConvText(it.conv);
      it.Directive? && it.flagText == f && it.widthText == w && it.precision == p && tail <= s
  {
  }

  lemma TailIsPrefix(front: string, q: string, c: string, rest: string)
    requires q + c <= rest
    ensures front + q + c <= front + rest
  {
    assert front + q + c == front + (q + c);
  }

  lemma SplitTwice(s: string, f: nat, w: nat, mid: string, rest: string)
    requires f <= |s| && w <= |s| - f && s[f..][w..] == mid + rest
    ensures "%" + s == "%" + s[..f] + s[f..][..w] + mid + rest
  {
    var s1 := s[f..];
    assert s == s[..f] + s1;
    assert s1 == s1[..w] + (mid + rest);
  }

  lemma DirectiveIsPrefix(s: string)
    requires NUL !in s
    ensures ParseDirective(s).Directive? && Spell(ParseDirective(s)) <= "%" + s
  {
    hide ParseQualified, DigitRun, FlagRun;
    var f := FlagRun(s);
    var s1 := s[f..];
    var w := DigitRun(s1, 10);
    var s2 := s1[w..];
    var it := ParseDirective(s);
    var p, mid, rest := NoPrecision, "", s2;
    if First(s2) == '.' {
      var d := DigitRun(s2[1..], 10);
      p, mid, rest := Dot(s2[1..][..d]), "." + s2[1..][..d], s2[1..][d..];
      assert s2 == mid + rest;
    }
    QualifiedIsPrefix(s[..f], s1[..w], p, rest);
    SplitTwice(s, f, w, mid, rest);
    TailIsPrefix("%" + s[..f] + s1[..w] + mid, it.qualifier, ConvText(it.conv), rest);
  }

  lemma ItemIsPrefix(s: string)
    requires s != "" && NUL !in s
    ensures 0 < |Spell(ParseItem(s))| && Spell(ParseItem(s)) <= s
  {
    hide ParseDirective;
    if s[0] == '%' {
      DirectiveIsPrefix(s[1..]);
      assert "%" + s[1..] == s;
    }
  }

  /** The items make up the format, nothing missing and nothing twice. */
  lemma {:induction false} ParseCoversFormat(s: string)
    requires NUL !in s
    ensures SpellAll(Parse(s)) == s
    decreases |s|
  {
    hide ParseItem, Spell;
    if s != "" {
      ItemIsPrefix(s);
      var n := |Spell(ParseItem(s))|;
      ParseCoversFormat(s[n..]);
      assert Parse(s) == [ParseItem(s)] + Parse(s[n..]);
      assert s == s[..n] + s[n..];
    }
  }

  // ----- the one way to read a format

  /** An item that could not be read in another way: not an ordinary character that starts a
      directive, and in a directive every part as long as possible. */
  predicate Canonical(it: Item) {
    match it
    case Plain(c) => c != '%' && c != NUL
    case Directive(f, w, p, q, conv) =>
      && (forall i :: 0 <= i < |f| ==> f[i] in "-+ #0")
      && (forall i :: 0 <= i < |w| ==> '0' <= w[i] <= '9') && (w != "" ==> w[0] != '0')
      && (p.Dot? ==> forall i :: 0 <= i < |p.digits| ==> '0' <= p.digits[i] <= '9')
      && (q == "" || q == "h" || q == "l" || q == "L")
      && (q == "" ==> conv !in "hlL" && !('0' <= conv <= '9'))
      && (q == "" && p.NoPrecision? ==> conv != '.')
      && (q == "" && p.NoPrecision? && w == "" ==> conv !in "-+ #")
  }

  /** Canonical items, of which only the last one may be cut off by the end of the format. */
  predicate CanonicalAll(items: seq<Item>) {
    forall i :: 0 <= i < |items| ==>
      Canonical(items[i]) && (items[i].Directive? && items[i].conv == NUL ==> i == |items| - 1)
  }

  lemma {:induction false} FlagRunIs(f: string, rest: string)
    requires forall i :: 0 <= i < |f| ==> f[i] in FLAG_CHARS
    requires rest == "" || rest[0] !in FLAG_CHARS
    ensures FlagRun(f + rest) == |f|
  {
    if f == "" {
      assert f + rest == rest;
    } else {
      assert (f + rest)[1..] == f[1..] + rest;
      FlagRunIs(f[1..], rest);
    }
  }

  /** What follows the width. */
  function AfterWidth(it: Item): string
    requires it.Directive?
  {
    (if it.precision.Dot? then "." + it.precision.digits else "") + (it.qualifier + ConvText(it.conv))
  }

  /** The text behind a cut off directive is empty. */
  predicate Follows(it: Item, rest: string) {
    it.Directive? && it.conv == NUL ==> rest == ""
  }

  lemma DigitsAre(s: string)
    requires forall i :: 0 <= i < |s| ==> '0' <= s[i] <= '9'
    ensures AllDigits(s, 10) && NUL !in s
  {
  }

  lemma CanonicalFields(it: Item, rest: string)
    requires it.Directive? && Canonical(it) && Follows(it, rest)
    ensures ParseFields(it.flagText, it.widthText + (AfterWidth(it) + rest)) == it
  {
    var s2 := AfterWidth(it) + rest;
    var end := it.qualifier + ConvText(it.conv) + rest;
    ConversionIsNoDigit(it, rest);
    QualifiedIs(it, rest);
    DigitsAre(it.widthText);
    var s := it.widthText + s2;
    if it.precision.Dot? {
      DigitsAre(it.precision.digits);
      hide DigitRun, AllDigits, ParseQualified, ConvText, Canonical;
      assert s2 == ['.'] + (it.precision.digits + end);
      assert DigitValue('.') >= 10 && s2[0] == '.';
      RunIs(it.widthText, s2, 10);
      assert s[|it.widthText|..] == s2 && s[..|it.widthText|] == it.widthText;
      RunIs(it.precision.digits, end, 10);
      var s3 := it.precision.digits + end;
      assert s2[1..] == s3;
      assert s3[..|it.precision.digits|] == it.precision.digits && s3[|it.precision.digits|..] == end;
    } else {
      hide DigitRun, AllDigits, ParseQualified, ConvText, Canonical;
      assert s2 == end;
      RunIs(it.widthText, s2, 10);
      assert s[|it.widthText|..] == s2 && s[..|it.widthText|] == it.widthText;
    }
  }

  lemma ConversionIsNoDigit(it: Item, rest: string)
    requires it.Directive? && Canonical(it) && Follows(it, rest)
    ensures var end := it.qualifier + ConvText(it.conv) + rest;
      && (end == "" || DigitValue(end[0]) >= 10)
      && (it.precision.NoPrecision? ==> First(end) != '.')
      && (it.precision.NoPrecision? && it.widthText == "" ==> First(end) !in FLAG_CHARS)
  {
    var end := it.qualifier + ConvText(it.conv) + rest;
    assert First(end) == if it.qualifier == "" then it.conv else it.qualifier[0];
  }

  lemma QualifiedIs(it: Item, rest: string)
    requires it.Directive? && Canonical(it) && Follows(it, rest)
    ensures ParseQualified(it.flagText, it.widthText, it.precision, it.qualifier + ConvText(it.conv) + rest) == it
  {
    var s := it.qualifier + ConvText(it.conv) + rest;
    if it.qualifier == "" {
      assert First(s) == it.conv;
    } else {
      assert s[..1] == it.qualifier && s[1..] == ConvText(it.conv) + rest;
    }
  }

  lemma SpellIs(it: Item, rest: string)
    requires it.Directive?
    ensures Spell(it) + rest == ['%'] + (it.flagText + (it.widthText + (AfterWidth(it) + rest)))
  {
    var dot := if it.precision.Dot? then "." + it.precision.digits else "";
    Regroup(it.flagText, it.widthText, dot, it.qualifier, ConvText(it.conv), rest);
  }

  lemma Regroup(f: string, w: string, p: string, q: string, c: string, rest: string)
    ensures "%" + f + w + p + q + c + rest == ['%'] + (f + (w + (p + (q + c) + rest)))
  {
  }

  lemma CanonicalFlags(it: Item)
    requires it.Directive? && Canonical(it)
    ensures forall i :: 0 <= i < |it.flagText| ==> it.flagText[i] in FLAG_CHARS
  {
  }

  /** A canonical item is recognised as what it is, whatever may follow. */
  lemma CanonicalParses(it: Item, rest: string)
    requires Canonical(it) && Follows(it, rest)
    ensures Spell(it) != "" && ParseItem(Spell(it) + rest) == it
  {
    hide ParseFields, FlagRun, AfterWidth;
    if it.Directive? {
      CanonicalFlags(it);
      var t := it.widthText + (AfterWidth(it) + rest);
      var s := it.flagText + t;
      SpellIs(it, rest);
      FieldsStart(it, rest);
      CanonicalFields(it, rest);
      hide Spell, Canonical;
      assert (['%'] + s)[1..] == s;
      FlagRunIs(it.flagText, t);
      assert s[..|it.flagText|] == it.flagText && s[|it.flagText|..] == t;
    }
  }

  lemma FieldsStart(it: Item, rest: string)
    requires it.Directive? && Canonical(it) && Follows(it, rest)
    ensures var t := it.widthText + (AfterWidth(it) + rest);
      t == "" || t[0] !in FLAG_CHARS
  {
    var t := it.widthText + (AfterWidth(it) + rest);
    if it.widthText != "" {
      assert t[0] == it.widthText[0];
    } else if it.precision.Dot? {
      assert t[0] == '.';
    } else {
      assert t == it.qualifier + ConvText(it.conv) + rest;
      ConversionIsNoDigit(it, rest);
    }
  }

  lemma CanonicalHasNoNul(it: Item)
    requires Canonical(it)
    ensures NUL !in Spell(it)
  {
    if it.Directive? {
      DigitsAre(it.widthText);
      var dot := if it.precision.Dot? then "." + it.precision.digits else "";
      if it.precision.Dot? {
        DigitsAre(it.precision.digits);
      }
      assert NUL !in it.flagText && NUL !in it.qualifier && NUL !in ConvText(it.conv) && NUL !in dot;
      hide Canonical, ConvText;
    }
  }

  /** Formats written from canonical items are read as those items. */
  lemma {:induction false} SpelledFormatParses(items: seq<Item>)
    requires CanonicalAll(items)
    ensures NUL !in SpellAll(items) && Parse(SpellAll(items)) == items
    decreases |items|
  {
    hide Spell, Canonical, ParseItem;
    if items != [] {
      var it, rest := items[0], SpellAll(items[1..]);
      assert forall i :: 0 <= i < |items[1..]| ==> items[1..][i] == items[i + 1];
      SpelledFormatParses(items[1..]);
      CanonicalHasNoNul(it);
      CanonicalParses(it, rest);
      assert (Spell(it) + rest)[|Spell(it)|..] == rest;
      assert Parse(Spell(it) + rest) == [it] + Parse(rest);
    }
  }

  lemma {:induction false} FlagRunEnds(s: string)
    ensures forall i :: 0 <= i < FlagRun(s) ==> s[i] in FLAG_CHARS
    ensures FlagRun(s) < |s| ==> s[FlagRun(s)] !in FLAG_CHARS
  {
    if s != "" && s[0] in FLAG_CHARS {
      FlagRunEnds(s[1..]);
    }
  }

  lemma {:induction false} DigitRunEnds(s: string)
    ensures forall i :: 0 <= i < DigitRun(s, 10) ==> '0' <= s[i] <= '9'
    ensures var n := DigitRun(s, 10); n < |s| ==> !('0' <= s[n] <= '9')
  {
    if s != "" && DigitValue(s[0]) < 10 {
      DigitRunEnds(s[1..]);
    }
  }

  lemma QualifiedIsCanonical(f: string, w: string, p: Precision, s: string)
    requires NUL !in s
    requires forall i :: 0 <= i < |f| ==> f[i] in FLAG_CHARS
    requires (forall i :: 0 <= i < |w| ==> '0' <= w[i] <= '9') && (w != "" ==> w[0] != '0')
    requires p.Dot? ==> forall i :: 0 <= i < |p.digits| ==> '0' <= p.digits[i] <= '9'
    requires !('0' <= First(s) <= '9')
    requires p.NoPrecision? ==> First(s) != '.'
    requires p.NoPrecision? && w == "" ==> First(s) !in FLAG_CHARS
    ensures Canonical(ParseQualified(f, w, p, s))
  {
  }

  lemma QualifiedIsAll(f: string, w: string, p: Precision, s: string)
    requires NUL !in s && ParseQualified(f, w, p, s).conv == NUL
    ensures ParseQualified(f, w, p, s) == Directive(f, w, p, s, NUL)
  {
    if s != "" && s[0] in QUALIFIERS {
      assert s == s[..1] + s[1..];
    }
  }

  lemma DirectiveIsCanonical(s: string)
    requires NUL !in s
    ensures Canonical(ParseDirective(s))
  {
    hide FlagRun, DigitRun, ParseQualified, Canonical;
    var f := FlagRun(s);
    var s1 := s[f..];
    var w := DigitRun(s1, 10);
    var s2 := s1[w..];
    FlagRunEnds(s);
    DigitRunEnds(s1);
    assert w == 0 ==> s2 == s1;
    assert w > 0 ==> s1[..w][0] == s1[0] == s[f];
    assert w < |s1| ==> s2[0] == s1[w];
    if First(s2) == '.' {
      var d := DigitRun(s2[1..], 10);
      DigitRunEnds(s2[1..]);
      QualifiedIsCanonical(s[..f], s1[..w], Dot(s2[1..][..d]), s2[1..][d..]);
    } else {
      QualifiedIsCanonical(s[..f], s1[..w], NoPrecision, s2);
    }
  }

  /** A directive without conversion character is all there is left. */
  lemma CutOffIsLast(s: string)
    requires NUL !in s && ParseDirective(s).Directive? && ParseDirective(s).conv == NUL
    ensures Spell(ParseDirective(s)) == "%" + s
  {
    hide FlagRun, DigitRun, ParseQualified;
    var f := FlagRun(s);
    var s1 := s[f..];
    var w := DigitRun(s1, 10);
    var s2 := s1[w..];
    if First(s2) == '.' {
      var d := DigitRun(s2[1..], 10);
      var s3 := s2[1..];
      QualifiedIsAll(s[..f], s1[..w], Dot(s3[..d]), s3[d..]);
      assert s2 == "." + s3[..d] + s3[d..];
      SplitTwice(s, f, w, "." + s3[..d], s3[d..]);
    } else {
      QualifiedIsAll(s[..f], s1[..w], NoPrecision, s2);
      SplitTwice(s, f, w, "", s2);
    }
  }

  /** Every format is read as canonical items. */
  lemma {:induction false} ParseIsCanonical(s: string)
    requires NUL !in s
    ensures CanonicalAll(Parse(s))
    decreases |s|
  {
    hide ParseItem, Spell, Canonical;
    if s != "" {
      ItemIsPrefix(s);
      var it := ParseItem(s);
      var rest := s[|Spell(it)|..];
      ParseIsCanonical(rest);
      ItemIsCanonical(s);
      assert Parse(s) == [it] + Parse(rest);
      assert Parse("") == [];
    }
  }

  lemma ItemIsCanonical(s: string)
    requires s != "" && NUL !in s
    ensures var it := ParseItem(s); Canonical(it) && (it.Directive? && it.conv == NUL ==> |Spell(it)| == |s|)
  {
    hide ParseDirective;
    if s[0] == '%' {
      DirectiveIsCanonical(s[1..]);
      hide Canonical, Spell;
      DirectiveIsPrefix(s[1..]);
      if ParseDirective(s[1..]).conv == NUL {
        CutOffIsLast(s[1..]);
      }
    }
  }

  /** Reading a format gives the only canonical items that spell it. */
  lemma OneReading(s: string, items: seq<Item>)
    requires NUL !in s
    ensures items == Parse(s) <==> CanonicalAll(items) && SpellAll(items) == s
  {
    hide Parse, SpellAll, CanonicalAll;
    ParseCoversFormat(s);
    ParseIsCanonical(s);
    if CanonicalAll(items) {
      SpelledFormatParses(items);
    }
  }

  // ----- meanings

  /** Arguments are the words from the current position of the argument list on; strings are what
      lies at their addresses, up to the NUL. */
  datatype Args = Args(word: nat -> Word, text: Word -> string)

  /** A `%n` stores how many characters have been written so far. */
  datatype Count = Count(address: Word, written: nat)

  datatype Rendering = Rendering(text: string, counts: seq<Count>, next: nat)

  function FlagsOf(f: string): Flags {
    Flags('0' in f, false, '+' in f, ' ' in f, '-' in f, '#' in f, false)
  }

  function WidthOf(w: string): int {
    if w == "" then -1 else Value(w, 10)
  }

  function PrecisionOf(p: Precision): int {
    if p.Dot? then Value(p.digits, 10) else -1
  }

  /** A '*' in the place of a width or precision takes an argument, but as the scan does not move past
      it, it then is the conversion character. */
  function StarArgs(it: Item): nat {
    if it.Directive? && it.conv == '*' && it.qualifier == "" &&
       ((it.precision.NoPrecision? && it.widthText == "") || it.precision == Dot(""))
    then 1 else 0
  }

  const TAKES_ARGUMENT := "csopxXdiubn"

  function Padded(s: string, width: int, left: bool): string {
    if left then s + Repeat(' ', width - |s|) else Repeat(' ', width - |s|) + s
  }

  function Clipped(s: string, precision: int): string {
    if 0 <= precision < |s| then s[..precision] else s
  }

  /** What a conversion of the argument `a` prints. */
  function Conversion(conv: char, flags: Flags, width: int, precision: int, a: Word, text: Word -> string): string {
    match conv
    case 'c' => Padded([(a % 0x100) as char], width, flags.left)
    case 's' => Padded(Clipped(text(a), precision), width, flags.left)
    case 'o' => NumberText(a, 8, width, precision, flags)
    case 'p' => if width == -1 then NumberText(a, 16, 8, precision, flags.(zeropad := true))
                else NumberText(a, 16, width, precision, flags)
    case 'x' => NumberText(a, 16, width, precision, flags.(small := true))
    case 'X' => NumberText(a, 16, width, precision, flags)
    case 'd' => NumberText(a, 10, width, precision, flags.(sign := true))
    case 'i' => NumberText(a, 10, width, precision, flags.(sign := true))
    case 'u' => NumberText(a, 10, width, precision, flags)
    case 'b' => NumberText(a, 2, width, precision, flags)
    case 'n' => ""
    case '%' => "%"
    case _ => if conv == NUL then "%" else ['%', conv]
  }

  /** One item, its arguments beginning at number `k`, after `pos` characters. */
  function Render(it: Item, args: Args, k: nat, pos: nat): Rendering {
    match it
    case Plain(c) => Rendering([c], [], k)
    case Directive(f, w, p, q, conv) =>
      var k1 := k + StarArgs(it);
      Rendering(Conversion(conv, FlagsOf(f), WidthOf(w), PrecisionOf(p), args.word(k1), args.text),
                if conv == 'n' then [Count(args.word(k1), pos)] else [],
                if conv in TAKES_ARGUMENT then k1 + 1 else k1)
  }

  /** A format means its items' renderings, one after the other. */
  function RenderAll(items: seq<Item>, args: Args, k: nat, pos: nat): Rendering
    decreases |items|
  {
    if items == [] then Rendering("", [], k)
    else
      var r := Render(items[0], args, k, pos);
      var rest := RenderAll(items[1..], args, r.next, pos + |r.text|);
      Rendering(r.text + rest.text, r.counts + rest.counts, rest.next)
  }

  /** Every numeric conversion, whatever its flags, width and precision, can be read back: signed for
      `d` and `i`, unsigned otherwise. */
  lemma NumbersReadBack(it: Item, args: Args, k: nat, pos: nat)
    requires it.Directive? && it.conv in "diuoxXpb"
    ensures var a := args.word(k);
      var base := if it.conv in "diu" then 10 else if it.conv == 'o' then 8 else if it.conv == 'b' then 2 else 16;
      ReadNumber(Render(it, args, k, pos).text, base) ==
      Read(if it.conv in "di" && a >= 0x8000_0000 then a - 0x1_0000_0000 else a)
  {
    hide NumberText, ReadNumber, FlagsOf, WidthOf, PrecisionOf;
    var a := args.word(k);
    FlagsAreUnsigned(it.flagText);
    var base, width, kind := NumberRendering(it, args, k, pos);
    NumberReadsBack(a, base, width, PrecisionOf(it.precision), kind);
  }

  /** The call of `number` behind a numeric conversion. */
  lemma NumberRendering(it: Item, args: Args, k: nat, pos: nat) returns (base: nat, width: int, kind: Flags)
    requires it.Directive? && it.conv in "diuoxXpb"
    ensures base == if it.conv in "diu" then 10 else if it.conv == 'o' then 8 else if it.conv == 'b' then 2 else 16
    ensures var f := FlagsOf(it.flagText);
      var wide := it.conv == 'p' && WidthOf(it.widthText) == -1;
      && width == (if wide then 8 else WidthOf(it.widthText))
      && kind == f.(sign := f.sign || it.conv in "di", small := f.small || it.conv == 'x', zeropad := f.zeropad || wide)
    ensures Render(it, args, k, pos) ==
            Rendering(NumberText(args.word(k), base, width, PrecisionOf(it.precision), kind), [], k + 1)
  {
    hide NumberText, FlagsOf, WidthOf, PrecisionOf;
    base := if it.conv in "diu" then 10 else if it.conv == 'o' then 8 else if it.conv == 'b' then 2 else 16;
    var f := FlagsOf(it.flagText);
    var wide := it.conv == 'p' && WidthOf(it.widthText) == -1;
    width := if wide then 8 else WidthOf(it.widthText);
    kind := f.(sign := f.sign || it.conv in "di", small := f.small || it.conv == 'x', zeropad := f.zeropad || wide);
    assert f == f.(sign := f.sign, small := f.small, zeropad := f.zeropad);
  }

  lemma FlagsAreUnsigned(f: string)
    ensures !FlagsOf(f).sign
  {
  }

  /** A directive that ends in '*' prints the '%' and the '*' and drops everything between them. */
  lemma StarPrintsItself(it: Item, args: Args, k: nat, pos: nat)
    requires it.Directive? && it.conv == '*'
    ensures Render(it, args, k, pos) == Rendering("%*", [], k + StarArgs(it))
  {
  }

  /** A '*' does not do what it does elsewhere. Behind any flags and width and in the place of a
      precision too, it is printed with the '%', what was read between them is dropped, and what
      follows is printed as it stands. */
  lemma StarStaysLiteral(s: string, args: Args, k: nat, pos: nat)
    requires s != "" && s[0] == '%' && NUL !in s && ParseItem(s).Directive? && ParseItem(s).conv == '*'
    ensures |Spell(ParseItem(s))| <= |s|
    ensures RenderAll(Parse(s), args, k, pos).text ==
      "%*" + RenderAll(Parse(s[|Spell(ParseItem(s))|..]), args, k + StarArgs(ParseItem(s)), pos + 2).text
  {
    hide ParseItem, Spell, Render, StarArgs;
    ItemIsPrefix(s);
    var it, rest := ParseItem(s), s[|Spell(ParseItem(s))|..];
    StarPrintsItself(it, args, k, pos);
    assert Parse(s) == [it] + Parse(rest);
    assert ([it] + Parse(rest))[1..] == Parse(rest);
  }

  /** Which '*' take an argument: one right behind the flags, and one right behind the dot. */
  lemma StarTakesArgument(f: string, w: string, p: Precision, rest: string)
    requires Canonical(Directive(f, w, p, "", '*'))
    ensures var it := Directive(f, w, p, "", '*');
      && ParseItem(Spell(it) + rest) == it
      && StarArgs(it) == if (w == "" && p.NoPrecision?) || p == Dot("") then 1 else 0
  {
    CanonicalParses(Directive(f, w, p, "", '*'), rest);
  }
}
