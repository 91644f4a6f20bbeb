/** The text forms of section 2.2 of RFC 4291, with a prefix length and with the bracketed port of
    section 6 of RFC 5952, and what address each denotes. */
module Forms {
  import opened Options
  import opened Text
  import opened Address

  // ----- the forms -----

  /** The groups left and right of a "::" (gap), or all of them on the left when there is none; the
      four octets of a dotted quad, or none; a prefix length; a port. */
  datatype Form = Form(left: seq<string>, gap: bool, right: seq<string>, quad: seq<string>,
                       mask: Option<string>, port: Option<string>)

  predicate IsGroup(g: string) { g != "" && AllHex(g) && Value(g, 16) <= 0xffff }

  predicate IsOctet(o: string) { o != "" && AllDecimal(o) && AllHex(o) && Value(o, 10) <= 0xff }

  predicate IsMask(m: string) { AllDecimal(m) && AllHex(m) && Value(m, 10) <= 128 }

  predicate IsPort(p: string) { AllDecimal(p) && AllHex(p) && Value(p, 10) <= 0xffff }

  predicate AreGroups(gs: seq<string>) { forall k | 0 <= k < |gs| :: IsGroup(gs[k]) }

  predicate IsQuad(quad: seq<string>) { |quad| == 4 && forall k | 0 <= k < 4 :: IsOctet(quad[k]) }

  /** The number of 16-bit components that are written out. */
  function Width(f: Form): nat
  {
    |f.left| + |f.right| + (if f.quad == [] then 0 else 2)
  }

  /** A dotted quad with no hexadecimal group before it. */
  predicate QuadOnly(f: Form) { f.quad != [] && f.left == [] && f.right == [] }

  predicate WellFormed(f: Form)
  {
    && AreGroups(f.left) && AreGroups(f.right)
    && (f.quad == [] || IsQuad(f.quad))
    && (f.mask.Some? ==> IsMask(f.mask.value))
    && (f.port.Some? ==> IsPort(f.port.value))
    && Width(f) <= 8
    && (!f.gap ==> f.right == [] && (Width(f) == 8 || QuadOnly(f)))
  }

  // ----- their text -----

  function Joined(items: seq<string>): string
  {
    if items == [] then "" else if |items| == 1 then items[0] else items[0] + ":" + Joined(items[1..])
  }

  /** Every group followed by a colon. */
  function Colons(gs: seq<string>): string
  {
    if gs == [] then "" else gs[0] + ":" + Colons(gs[1..])
  }

  lemma {:induction false} JoinedSnoc(items: seq<string>, last: string)
    ensures Joined(items + [last]) == Colons(items) + last
  {
    if items != [] {
      assert (items + [last])[1..] == items[1..] + [last];
      JoinedSnoc(items[1..], last);
    }
  }

  lemma {:induction false} JoinedColon(gs: seq<string>)
    requires gs != []
    ensures Joined(gs) + ":" == Colons(gs)
  {
    if |gs| == 1 {
      assert Colons(gs[1..]) == "";
    } else {
      JoinedColon(gs[1..]);
      assert Joined(gs) + ":" == gs[0] + ":" + (Joined(gs[1..]) + ":");
    }
  }

  function QuadText(quad: seq<string>): string
    requires |quad| == 4
  {
    quad[0] + "." + quad[1] + "." + quad[2] + "." + quad[3]
  }

  function QuadItem(quad: seq<string>): seq<string>
    requires quad == [] || |quad| == 4
  {
    if quad == [] then [] else [QuadText(quad)]
  }

  function Body(f: Form): string
    requires f.quad == [] || |f.quad| == 4
  {
    if f.gap then Joined(f.left) + "::" + Joined(f.right + QuadItem(f.quad))
    else Joined(f.left + QuadItem(f.quad))
  }

  function MaskText(mask: Option<string>): string
  {
    if mask.Some? then "/" + mask.value else ""
  }

  function PortText(port: Option<string>): string
  {
    if port.Some? then "]:" + port.value else ""
  }

  function TextOfForm(f: Form): string
    requires f.quad == [] || |f.quad| == 4
  {
    (if f.port.Some? then "[" else "") + Body(f) + MaskText(f.mask) + PortText(f.port)
  }

  // ----- the address they denote -----

  function GroupValues(gs: seq<string>): (vs: seq<U16>)
    requires AreGroups(gs)
    ensures |vs| == |gs|
  {
    seq(|gs|, k requires 0 <= k < |gs| => Value(gs[k], 16))
  }

  function QuadValues(quad: seq<string>): (vs: seq<U16>)
    requires quad == [] || IsQuad(quad)
    ensures |vs| == if quad == [] then 0 else 2
  {
    if quad == [] then []
    else [Value(quad[0], 10) * 0x100 + Value(quad[1], 10), Value(quad[2], 10) * 0x100 + Value(quad[3], 10)]
  }

  function Zeros(n: nat): (z: seq<U16>)
    ensures |z| == n
  {
    seq(n, _ => 0)
  }

  /** The components: left, zeros for the gap, right, packed quad. The library keeps a quad with no
      group before it in the first two components, also after "::". */
  function Denoted(f: Form): Components
    requires WellFormed(f)
  {
    if QuadOnly(f) then QuadValues(f.quad) + Zeros(6)
    else GroupValues(f.left) + Zeros(8 - Width(f)) + GroupValues(f.right) + QuadValues(f.quad)
  }

  function DenotedAddress(f: Form): AddressFull
    requires WellFormed(f)
  {
    AddressFull(
      Denoted(f),
      if f.port.Some? then Value(f.port.value, 10) else 0,
      if f.mask.Some? then Value(f.mask.value, 10) else 0,
      Flags(f.port.Some?, f.mask.Some? || f.quad != [], QuadOnly(f), 0))
  }
}
