/** `printk_color`: format into a buffer, then type the buffer onto the screen. */
module Printk {
  import opened Numerals
  import opened Printf
  import opened Console
  import Vsprintf

  const BUFFER_SIZE := 1024
  const BLACK: Color := 0
  const WHITE: Color := 15

  /** When the text fits the buffer, the screen goes on from where it was by exactly what the format
      means, up to the first NUL that a `%c` or a string may have put there. */
  method PrintkColor(screen: Screen, back: Color, fore: Color, format: string, args: Args) returns (counts: seq<Count>)
    requires screen.Valid() && NUL !in format
    requires |RenderAll(Parse(format), args, 0, 0).text| < 1024
    modifies screen, screen.video
    ensures screen.Valid()
    ensures var r := RenderAll(Parse(format), args, 0, 0);
      screen.roll == TypeAll(old(screen.roll), BeforeNul(r.text), back, fore) && counts == r.counts
  {
    hide RenderAll, Parse, TypeAll;
    var out := new Output(BUFFER_SIZE);
    var i;
    i, counts := Vsprintf.Vsprintf(out, format, args);
    out.PutHere(NUL);
    TerminatedText(out.buf[..], out.pos);
    WriteColor(screen, out.buf, back, fore);
  }

  /** `printk`: white on black. */
  method Printk(screen: Screen, format: string, args: Args) returns (counts: seq<Count>)
    requires screen.Valid() && NUL !in format
    requires |RenderAll(Parse(format), args, 0, 0).text| < 1024
    modifies screen, screen.video
    ensures screen.Valid()
    ensures var r := RenderAll(Parse(format), args, 0, 0);
      screen.roll == TypeAll(old(screen.roll), BeforeNul(r.text), 0, 15) && counts == r.counts
  {
    counts := PrintkColor(screen, BLACK, WHITE, format, args);
  }

  lemma {:induction false} TerminatedText(s: string, n: nat)
    requires n < |s| && s[n] == NUL
    ensures NUL in s && BeforeNul(s) == BeforeNul(s[..n])
  {
    if n > 0 && s[0] != NUL {
      TerminatedText(s[1..], n - 1);
      assert s[1..][..n - 1] == s[..n][1..];
    }
  }
}
