/** `vsprintf`: one scan over the format that reads arguments and fills the buffer as it goes. */
module Vsprintf {
  import opened Words
  import opened Numerals
  import opened NumeralLaws
  import opened Printf

  /** `*format`: the character at `f`, the terminator at the end, and never anything beyond it. */
  function At(format: string, f: nat): char
    requires f <= |format|
  {
    if f < |format| then format[f] else NUL
  }

  /** The loop at `repeat`: skips the '%' and the flags. */
  method ScanFlags(format: string, f: nat) returns (flags: Flags, g: nat)
    requires f < |format| && NUL !in format
    ensures g == f + 1 + FlagRun(format[f + 1..]) && flags == FlagsOf(format[f + 1..g])
  {
    flags := Flags(false, false, false, false, false, false, false);
    g := f + 1;
    while At(format, g) in FLAG_CHARS
      invariant f + 1 <= g <= |format|
      invariant FlagRun(format[f + 1..]) == g - (f + 1) + FlagRun(format[g..])
      invariant flags == FlagsOf(format[f + 1..g])
      decreases |format| - g
    {
      assert format[f + 1..g + 1] == format[f + 1..g] + [format[g]];
      assert format[g..][1..] == format[g + 1..];
      match At(format, g) {
        case '-' => flags := flags.(left := true);
        case '+' => flags := flags.(plus := true);
        case ' ' => flags := flags.(space := true);
        case '#' => flags := flags.(special := true);
        case _ => flags := flags.(zeropad := true);
      }
      g := g + 1;
    }
  }

  predicate IsDigit(c: char) {
    '0' <= c <= '9'
  }

  /** `skip_atoi`. */
  method SkipAtoi(format: string, f: nat) returns (i: nat, g: nat)
    requires f <= |format|
    ensures g == f + DigitRun(format[f..], 10) && g <= |format| && i == Value(format[f..g], 10)
  {
    i, g := 0, f;
    while IsDigit(At(format, g))
      invariant f <= g <= |format| && i == Value(format[f..g], 10)
      invariant DigitRun(format[f..], 10) == g - f + DigitRun(format[g..], 10)
      decreases |format| - g
    {
      assert format[f..g + 1] == format[f..g] + [format[g]];
      ValueSnoc(format[f..g], format[g], 10);
      assert format[g..][1..] == format[g + 1..];
      i := i * 10 + (At(format, g) - '0') as nat;
      g := g + 1;
    }
  }

  /** The field width: digits, or an argument for a '*', which stays where it is. */
  method ScanWidth(format: string, f: nat, flags: Flags, args: Args, k: nat)
    returns (kind: Flags, width: int, g: nat, k': nat)
    requires f <= |format|
    ensures g == f + DigitRun(format[f..], 10)
    ensures k' == k + if g == f && At(format, f) == '*' then 1 else 0
    ensures k' == k ==> kind == flags && width == WidthOf(format[f..g])
  {
    hide DigitRun, Value;
    kind, width, g, k' := flags, -1, f, k;
    DigitRunNone(format[f..]);
    if IsDigit(At(format, g)) {
      width, g := SkipAtoi(format, g);
    } else if At(format, g) == '*' {
      width := Signed(args.word(k'));
      k' := k' + 1;
      if width < 0 {
        width := -width;
        kind := kind.(left := true);
      }
    }
  }

  /** The precision: after a '.', digits, or an argument for a '*', or nothing. */
  method ScanPrecision(format: string, f: nat, args: Args, k: nat) returns (precision: int, g: nat, k': nat)
    requires f <= |format|
    ensures At(format, f) != '.' ==> precision == -1 && g == f && k' == k
    ensures At(format, f) == '.' ==>
      && g == f + 1 + DigitRun(format[f + 1..], 10)
      && k' == k + (if g == f + 1 && At(format, g) == '*' then 1 else 0)
      && (k' == k ==> precision == Value(format[f + 1..g], 10))
  {
    hide DigitRun, Value;
    precision, g, k' := -1, f, k;
    if At(format, g) == '.' {
      g := g + 1;
      DigitRunNone(format[g..]);
      ValueEmpty(10);
      assert format[g..g] == "";
      if IsDigit(At(format, g)) {
        precision, g := SkipAtoi(format, g);
      } else if At(format, g) == '*' {
        precision := Signed(args.word(k'));
        k' := k' + 1;
      }
      if precision < 0 {
        precision := 0;
      }
    }
  }

  /** Width, precision and qualifier, up to the conversion character. */
  method ScanFields(format: string, f: nat, ghost flagText: string, flags: Flags, args: Args, k: nat)
    returns (kind: Flags, width: int, precision: int, g: nat, k': nat)
    requires f <= |format| && NUL !in format
    ensures f <= g <= |format|
    ensures var it := ParseFields(flagText, format[f..]);
      && it.Directive? && it.flagText == flagText
      && At(format, g) == it.conv && k' == k + StarArgs(it)
      && (it.conv != '*' ==> kind == flags && width == WidthOf(it.widthText) && precision == PrecisionOf(it.precision))
      && g + (if it.conv == NUL then 0 else 1) == f + |Spell(it)| - 1 - |flagText|
  {
    hide DigitRun, Value, Spell, StarArgs, ParseQualified, ParseFields;
    var k1;
    kind, width, g, k1 := ScanWidth(format, f, flags, args, k);
    ghost var g1, p := g, NoPrecision;
    precision, g, k' := ScanPrecision(format, g, args, k1);
    if At(format, g1) == '.' {
      p := Dot(format[g1 + 1..g]);
    }
    ghost var g2 := g;
    if At(format, g) in QUALIFIERS {
      g := g + 1;
    }
    FieldsAre(format, f, g1, p, g2, flagText);
    QualifiedIs(format, format[f..g1], p, g2, flagText);
  }

  lemma QualifiedIs(format: string, w: string, p: Precision, g: nat, flagText: string)
    requires g <= |format| && NUL !in format
    ensures var it := ParseQualified(flagText, w, p, format[g..]);
      var conv := g + if At(format, g) in QUALIFIERS then 1 else 0;
      && it.Directive? && it.flagText == flagText && it.widthText == w && it.precision == p
      && conv <= |format| && At(format, conv) == it.conv
      && conv + (if it.conv == NUL then 0 else 1) + 1 + |flagText| + |w| + (if p.Dot? then 1 + |p.digits| else 0)
         == g + |Spell(it)|
      && StarArgs(it) == if At(format, g) == '*' && (p == Dot("") || (p.NoPrecision? && w == "")) then 1 else 0
  {
  }

  lemma FieldsAre(format: string, f: nat, g1: nat, p: Precision, g2: nat, flagText: string)
    requires f <= g1 <= g2 <= |format| && NUL !in format
    requires g1 == f + DigitRun(format[f..], 10)
    requires At(format, g1) != '.' ==> g2 == g1 && p == NoPrecision
    requires At(format, g1) == '.' ==>
      g1 < g2 == g1 + 1 + DigitRun(format[g1 + 1..], 10) && p == Dot(format[g1 + 1..g2])
    ensures ParseFields(flagText, format[f..]) == ParseQualified(flagText, format[f..g1], p, format[g2..])
  {
    hide DigitRun, ParseQualified;
    var s := format[f..];
    assert s[..g1 - f] == format[f..g1] && s[g1 - f..] == format[g1..];
    if At(format, g1) == '.' {
      assert format[g1..][1..] == format[g1 + 1..];
      assert format[g1 + 1..][..g2 - g1 - 1] == format[g1 + 1..g2];
      assert format[g1 + 1..][g2 - g1 - 1..] == format[g2..];
    }
  }

  lemma DigitRunNone(s: string)
    ensures IsDigit(First(s)) <==> DigitRun(s, 10) > 0
  {
  }

  // ----- output

  /** `%c`. */
  method PutChar(out: Output, c: char, width: int, left: bool)
    requires out.Valid() && out.pos + Max(width, 1) <= out.buf.Length
    modifies out, out.buf
    ensures out.Valid() && out.Text() == old(out.Text()) + Padded([c], width, left)
  {
    hide Repeat, Output.Text;
    var w := width;
    RepeatBelow(' ', width - 1);
    if !left {
      w := SpacesUntil(out, w);
    }
    out.Put(c);
    RepeatBelow(' ', w - 1);
    w := SpacesUntil(out, w);
  }

  /** Spaces while the width, counted down before each test, is positive. */
  method SpacesUntil(out: Output, width: int) returns (w: int)
    requires out.Valid() && out.pos + Max(width - 1, 0) <= out.buf.Length
    modifies out, out.buf
    ensures out.Valid() && out.Text() == old(out.Text()) + Repeat(' ', width - 1)
    ensures w == if width > 0 then 0 else width - 1
  {
    hide Output.Text;
    w := width - 1;
    while w > 0
      invariant w <= width - 1 && (width > 0 ==> w >= 0) && (width <= 0 ==> w == width - 1)
      invariant out.Valid() && out.Text() == old(out.Text()) + Repeat(' ', width - 1 - w)
    {
      out.Put(' ');
      w := w - 1;
    }
  }

  /** Spaces while the width, counted down after each test, exceeds the length. */
  method SpacesDown(out: Output, len: nat, width: int) returns (w: int)
    requires out.Valid() && out.pos + Max(width - len, 0) <= out.buf.Length
    modifies out, out.buf
    ensures out.Valid() && out.Text() == old(out.Text()) + Repeat(' ', width - len)
    ensures w == if len < width then len - 1 else width - 1
  {
    hide Output.Text;
    w := width;
    while len < w
      invariant w <= width && (len <= width ==> len <= w) && (width < len ==> w == width)
      invariant out.Valid() && out.Text() == old(out.Text()) + Repeat(' ', width - w)
    {
      w := w - 1;
      out.Put(' ');
    }
    w := w - 1;
  }

  /** The first `len` characters of a string. */
  method CopyString(out: Output, s: string, len: nat)
    requires out.Valid() && len <= |s| && out.pos + len <= out.buf.Length
    modifies out, out.buf
    ensures out.Valid() && out.Text() == old(out.Text()) + s[..len]
  {
    hide Output.Text;
    var i := 0;
    while i < len
      invariant 0 <= i <= len && out.Valid() && out.Text() == old(out.Text()) + s[..i]
    {
      assert s[..i + 1] == s[..i] + [s[i]];
      out.Put(s[i]);
      i := i + 1;
    }
  }

  /** `%s`. */
  method PutString(out: Output, s: string, width: int, precision: int, left: bool)
    requires out.Valid() && out.pos + Max(width, |Clipped(s, precision)|) <= out.buf.Length
    modifies out, out.buf
    ensures out.Valid() && out.Text() == old(out.Text()) + Padded(Clipped(s, precision), width, left)
  {
    hide Repeat, Output.Text;
    var w, p, len := width, precision, |s|;
    if p < 0 {
      p := len;
    } else if len > p {
      len := p;
    }
    RepeatBelow(' ', width - len);
    if !left {
      w := SpacesDown(out, len, w);
    }
    CopyString(out, s, len);
    RepeatBelow(' ', w - len);
    w := SpacesDown(out, len, w);
  }

  /** The `switch` over the conversion character. */
  method Convert(out: Output, conv: char, flags: Flags, width: int, precision: int, args: Args, k: nat)
    returns (k': nat, counts: seq<Count>)
    requires out.Valid()
    requires out.pos + |Conversion(conv, flags, width, precision, args.word(k), args.text)| <= out.buf.Length
    modifies out, out.buf
    ensures out.Valid()
    ensures out.Text() == old(out.Text()) + Conversion(conv, flags, width, precision, args.word(k), args.text)
    ensures k' == if conv in TAKES_ARGUMENT then k + 1 else k
    ensures counts == if conv == 'n' then [Count(args.word(k), old(out.pos))] else []
  {
    hide Output.Text, NumberText, Padded, Clipped;
    k', counts := k, [];
    var ok;
    match conv {
      case 'c' =>
        var a := args.word(k');
        k' := k' + 1;
        PaddedLength([(a % 0x100) as char], width, flags.left);
        PutChar(out, (a % 0x100) as char, width, flags.left);
      case 's' =>
        var s := args.text(args.word(k'));
        k' := k' + 1;
        PaddedLength(Clipped(s, precision), width, flags.left);
        PutString(out, s, width, precision, flags.left);
      case 'o' =>
        ok := Number(out, args.word(k'), 8, width, precision, flags);
        k' := k' + 1;
      case 'p' =>
        var w, fl := width, flags;
        if w == -1 {
          w := 8;
          fl := fl.(zeropad := true);
        }
        ok := Number(out, args.word(k'), 16, w, precision, fl);
        k' := k' + 1;
      case 'x' =>
        ok := Number(out, args.word(k'), 16, width, precision, flags.(small := true));
        k' := k' + 1;
      case 'X' =>
        ok := Number(out, args.word(k'), 16, width, precision, flags);
        k' := k' + 1;
      case 'd' =>
        ok := Number(out, args.word(k'), 10, width, precision, flags.(sign := true));
        k' := k' + 1;
      case 'i' =>
        ok := Number(out, args.word(k'), 10, width, precision, flags.(sign := true));
        k' := k' + 1;
      case 'u' =>
        ok := Number(out, args.word(k'), 10, width, precision, flags);
        k' := k' + 1;
      case 'b' =>
        ok := Number(out, args.word(k'), 2, width, precision, flags);
        k' := k' + 1;
      case 'n' =>
        counts := [Count(args.word(k'), out.pos)];
        k' := k' + 1;
      case _ =>
        if conv != '%' {
          out.Put('%');
        }
        if conv != NUL {
          out.Put(conv);
        }
    }
  }

  lemma PaddedLength(s: string, width: int, left: bool)
    ensures |Padded(s, width, left)| == Max(width, |s|)
  {
  }

  // ----- the whole scan

  /** The rest of the format, from `f` on, adds what is missing from the whole rendering. */
  ghost predicate Remaining(whole: Rendering, done: string, counts: seq<Count>, format: string, f: nat, args: Args,
                            k: nat)
    requires f <= |format| && NUL !in format
  {
    var rest := RenderAll(Parse(format[f..]), args, k, |done|);
    whole.text == done + rest.text && whole.counts == counts + rest.counts
  }

  lemma RemainingStep(whole: Rendering, done: string, counts: seq<Count>, format: string, f: nat, args: Args,
                      k: nat, g: nat)
    requires f < |format| && NUL !in format && Remaining(whole, done, counts, format, f, args, k)
    requires var it := ParseItem(format[f..]); g == f + |Spell(it)|
    ensures var r := Render(ParseItem(format[f..]), args, k, |done|);
      g <= |format| && |done| + |r.text| <= |whole.text|
      && Remaining(whole, done + r.text, counts + r.counts, format, g, args, r.next)
  {
    hide Render, ParseItem, Spell;
    var s := format[f..];
    ItemIsPrefix(s);
    var it := ParseItem(s);
    assert s[|Spell(it)|..] == format[g..];
    assert Parse(s) == [it] + Parse(format[g..]);
    var r := Render(it, args, k, |done|);
    var rest := RenderAll(Parse(format[g..]), args, r.next, |done + r.text|);
    assert ([it] + Parse(format[g..]))[1..] == Parse(format[g..]);
    assert RenderAll(Parse(s), args, k, |done|) == Rendering(r.text + rest.text, r.counts + rest.counts, rest.next);
    assert done + (r.text + rest.text) == done + r.text + rest.text;
    assert counts + (r.counts + rest.counts) == counts + r.counts + rest.counts;
  }

  lemma Starts(format: string, args: Args)
    requires NUL !in format
    ensures Remaining(RenderAll(Parse(format), args, 0, 0), "", [], format, 0, args, 0)
  {
    hide Parse, RenderAll;
    assert format[0..] == format;
    var r := RenderAll(Parse(format), args, 0, 0);
    assert "" + r.text == r.text && [] + r.counts == r.counts;
  }

  lemma Ends(whole: Rendering, done: string, counts: seq<Count>, format: string, args: Args, k: nat)
    requires NUL !in format && Remaining(whole, done, counts, format, |format|, args, k)
    ensures whole.text == done && whole.counts == counts
  {
  }

  lemma PlainItem(s: string, args: Args, k: nat, pos: nat)
    requires s != "" && s[0] != '%'
    ensures |Spell(ParseItem(s))| == 1 && Render(ParseItem(s), args, k, pos) == Rendering([s[0]], [], k)
  {
  }

  /** One directive: the scan from its '%' to just past its conversion character. */
  method Directive(out: Output, format: string, f: nat, args: Args, k: nat, ghost room: nat)
    returns (g: nat, k': nat, counts: seq<Count>)
    requires f < |format| && format[f] == '%' && NUL !in format && out.Valid()
    requires room == |Render(ParseItem(format[f..]), args, k, out.pos).text| && out.pos + room <= out.buf.Length
    modifies out, out.buf
    ensures out.Valid() && g == f + |Spell(ParseItem(format[f..]))|
    ensures var r := Render(ParseItem(format[f..]), args, k, old(out.pos));
      out.Text() == old(out.Text()) + r.text && counts == r.counts && k' == r.next
  {
    hide Output.Text, Spell, Conversion, StarArgs, FlagRun, FlagsOf, WidthOf, PrecisionOf, ParseFields;
    ghost var s := format[f + 1..];
    assert format[f..][1..] == s;
    var flags, g1 := ScanFlags(format, f);
    assert s[..FlagRun(s)] == format[f + 1..g1] && s[FlagRun(s)..] == format[g1..];
    var kind, width, precision, g2, k1 := ScanFields(format, g1, format[f + 1..g1], flags, args, k);
    ghost var it := ParseItem(format[f..]);
    if it.conv == '*' {
      AnyStar(kind, width, precision, args.word(k1), args.text);
      AnyStar(FlagsOf(it.flagText), WidthOf(it.widthText), PrecisionOf(it.precision), args.word(k1), args.text);
    }
    g := g2;
    k', counts := Convert(out, At(format, g), kind, width, precision, args, k1);
    if At(format, g) != NUL {
      g := g + 1;
    }
  }

  lemma AnyStar(flags: Flags, width: int, precision: int, a: Word, text: Word -> string)
    ensures Conversion('*', flags, width, precision, a, text) == "%*"
  {
  }

  /** The scan writes exactly what the format means, and ends with the terminator. */
  method Vsprintf(out: Output, format: string, args: Args) returns (len: nat, counts: seq<Count>)
    requires NUL !in format && out.Valid() && out.pos == 0
    requires |RenderAll(Parse(format), args, 0, 0).text| < out.buf.Length
    modifies out, out.buf
    ensures var r := RenderAll(Parse(format), args, 0, 0);
      && out.Valid() && out.Text() == r.text && len == |r.text| && counts == r.counts
      && len < out.buf.Length && out.buf[len] == NUL
  {
    hide Output.Text, Render, Spell, ParseItem, Remaining;
    ghost var whole := RenderAll(Parse(format), args, 0, 0);
    var f, k := 0, 0;
    counts := [];
    assert out.Text() == "";
    Starts(format, args);
    while At(format, f) != NUL
      invariant f <= |format| && out.Valid() && Remaining(whole, out.Text(), counts, format, f, args, k)
      decreases |format| - f
    {
      RemainingStep(whole, out.Text(), counts, format, f, args, k, f + |Spell(ParseItem(format[f..]))|);
      ItemIsPrefix(format[f..]);
      if At(format, f) != '%' {
        PlainItem(format[f..], args, k, out.pos);
        out.Put(At(format, f));
        assert counts + [] == counts;
        f := f + 1;
      } else {
        var more;
        f, k, more := Directive(out, format, f, args, k, |Render(ParseItem(format[f..]), args, k, out.pos).text|);
        counts := counts + more;
      }
    }
    Ends(whole, out.Text(), counts, format, args, k);
    len := out.pos;
    out.PutHere(NUL);
  }
}
