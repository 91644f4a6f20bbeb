/** What the printer writes, in terms of the text forms: which run of zeros is abbreviated, when the
    last two components become a dotted quad, and where a token is cut. */
module PrinterSpec {
  import opened Options
  import opened Text
  import opened Address
  import opened Forms

  // ----- the longest run of zeros -----

  /** The number of consecutive zero components from index i on. */
  function RunLength(c: Components, i: nat): (n: nat)
    requires i <= 8
    ensures i + n <= 8
    decreases 8 - i
  {
    if i < 8 && c[i] == 0 then 1 + RunLength(c, i + 1) else 0
  }

  /** The leftmost of the longest runs, or position 0 and length 0 if no component is zero. */
  ghost predicate IsLongestRun(c: Components, pos: nat, len: nat)
  {
    && pos < 8 && len == RunLength(c, pos)
    && (forall i | 0 <= i < 8 :: RunLength(c, i) <= len)
    && (forall i | 0 <= i < pos :: RunLength(c, i) < len)
  }

  /** The leftmost longest run that starts at or after i. */
  function LongestFrom(c: Components, i: nat): (r: (nat, nat))
    requires i < 8
    decreases 8 - i
  {
    if i == 7 then (7, RunLength(c, 7))
    else
      var (pos, len) := LongestFrom(c, i + 1);
      if RunLength(c, i) >= len then (i, RunLength(c, i)) else (pos, len)
  }

  function LongestRun(c: Components): (nat, nat)
  {
    LongestFrom(c, 0)
  }

  lemma {:induction false} LongestFromIsLongest(c: Components, i: nat)
    requires i < 8
    ensures var (pos, len) := LongestFrom(c, i);
      && i <= pos < 8 && len == RunLength(c, pos)
      && (forall k | i <= k < 8 :: RunLength(c, k) <= len)
      && (forall k | i <= k < pos :: RunLength(c, k) < len)
    decreases 8 - i
  {
    if i < 7 {
      LongestFromIsLongest(c, i + 1);
    }
  }

  lemma LongestRunIsLongest(c: Components)
    ensures IsLongestRun(c, LongestRun(c).0, LongestRun(c).1)
  {
    LongestFromIsLongest(c, 0);
  }

  lemma LongestRunIsUnique(c: Components, pos: nat, len: nat)
    requires IsLongestRun(c, pos, len)
    ensures LongestRun(c) == (pos, len)
  {
    LongestRunIsLongest(c);
    var (pos', len') := LongestRun(c);
    assert RunLength(c, pos) <= len' && RunLength(c, pos') <= len;
  }

  // ----- the form that is printed -----

  function Hexes(c: seq<U16>): (gs: seq<string>)
    ensures |gs| == |c|
  {
    seq(|c|, k requires 0 <= k < |c| => Hex(c[k]))
  }

  function QuadOf(hi: U16, lo: U16): seq<string>
  {
    [Dec(hi / 0x100), Dec(hi % 0x100), Dec(lo / 0x100), Dec(lo % 0x100)]
  }

  /** A run of two or more zeros becomes "::", unless the dotted quad takes its place. */
  function HasGap(a: AddressFull): bool
  {
    var (pos, len) := LongestRun(a.components);
    len > 1 && !(a.flags.maskOrEmbed && pos == 6)
  }

  /** With the mask (or embedding) bit set the last two components are printed as a dotted quad,
      unless the abbreviated run reaches past the start of component 6. */
  function HasQuad(a: AddressFull): bool
  {
    var (pos, len) := LongestRun(a.components);
    a.flags.maskOrEmbed && !(HasGap(a) && pos + len > 6)
  }

  function FormOf(a: AddressFull): Form
  {
    LongestRunIsLongest(a.components);
    var (pos, len) := LongestRun(a.components);
    var end := if HasQuad(a) then 6 else 8;
    Form(
      Hexes(a.components[..if HasGap(a) then pos else end]),
      HasGap(a),
      if HasGap(a) then Hexes(a.components[pos + len..end]) else [],
      if HasQuad(a) then QuadOf(a.components[6], a.components[7]) else [],
      if a.flags.maskOrEmbed then Some(Dec(a.mask)) else None,
      if a.flags.hasPort then Some(Dec(a.port)) else None)
  }

  // ----- the printed text -----

  /** snprintf into a buffer of 16 bytes. */
  function Snprintf(s: string): (t: string)
    ensures |t| <= 15
  {
    if |s| <= 15 then s else s[..15]
  }

  /** The text of a compatible address before it is cut to the token buffer. */
  function CompatText(a: AddressFull): string
  {
    QuadText(QuadOf(a.components[0], a.components[1])) + if a.flags.hasPort then ":" + Dec(a.port) else ""
  }

  function Printed(a: AddressFull): string
  {
    if a.flags.compat then Snprintf(CompatText(a)) else TextOfForm(FormOf(a))
  }

  /** The printed text up to and including the last component. */
  function Head(a: AddressFull): string
  {
    (if a.flags.hasPort then "[" else "") + Body(FormOf(a))
  }

  /** The single character written for an abbreviation at the very end is checked as if it were
      two. */
  function Slack(a: AddressFull): nat
  {
    var (pos, len) := LongestRun(a.components);
    if HasGap(a) && pos > 0 && pos + len == 8 then 1 else 0
  }

  /** When a buffer of the given size makes the printer return a string rather than NULL. A mask
      or a port that does not fit is cut short without a NULL. */
  predicate Fits(a: AddressFull, size: nat)
  {
    size >= 4 && (a.flags.compat || |Head(a)| + Slack(a) < size - 1)
  }
}
