/** The two-way promise of the library, address to text to address: exactly which addresses keep it,
    over every value of every field, and what the command-line tool therefore reports. */
module RoundTrip {
  import opened Options
  import opened Text
  import opened Address
  import opened ReaderSpec
  import opened Forms
  import opened FormReading
  import opened PrinterSpec
  import opened Acceptance
  import ReaderFacts
  import Printer
  import Reader

  /** The printed text parses, and the comparison of the result with the original is 0. */
  ghost predicate RoundTrips(a: AddressFull)
  {
    var r := ParseText(Printed(a));
    r.ok && Compare(a, r.out) == 0
  }

  /** The first six components are zero and the seventh is not: the text is "::" and a quad. */
  predicate PrintsAsQuadOnly(c: Components)
  {
    (forall k | 0 <= k < 6 :: c[k] == 0) && c[6] != 0
  }

  function QuadLength(a: AddressFull): nat
  {
    |QuadText(QuadOf(a.components[0], a.components[1]))|
  }

  /** When a compatible address's text is not hurt by the 16-byte token buffer: it has at most 15
      characters, or the only character lost is the port's single digit 0. */
  predicate SurvivesTokenBuffer(a: AddressFull)
  {
    a.flags.hasPort ==> |CompatText(a)| <= 15 || (a.port == 0 && QuadLength(a) == 14)
  }

  /** Exactly the addresses that survive printing and parsing. */
  predicate Restorable(a: AddressFull)
  {
    && a.flags.rest == 0
    && (if a.flags.compat then
          && a.flags.maskOrEmbed && a.mask == 0
          && (forall k | 2 <= k < 8 :: a.components[k] == 0)
          && SurvivesTokenBuffer(a)
        else
          a.flags.maskOrEmbed ==> a.mask <= 128 && !PrintsAsQuadOnly(a.components))
  }

  // ----- printed groups and quads denote what they were printed from -----

  lemma HexIsGroup(v: U16)
    ensures IsGroup(Hex(v)) && Value(Hex(v), 16) == v
  {
    NumeralDenotes(v, 16);
  }

  lemma DecIsDecimal(n: nat)
    ensures AllHex(Dec(n)) && AllDecimal(Dec(n)) && Dec(n) != "" && Value(Dec(n), 10) == n
  {
    NumeralDenotes(n, 10);
  }

  lemma HexesDenote(c: seq<U16>)
    ensures AreGroups(Hexes(c)) && GroupValues(Hexes(c)) == c
  {
    forall k | 0 <= k < |c|
      ensures IsGroup(Hexes(c)[k]) && Value(Hexes(c)[k], 16) == c[k]
    {
      HexIsGroup(c[k]);
    }
  }

  lemma TwoOctets(v: U16)
    ensures v / 0x100 <= 0xff && v % 0x100 <= 0xff && v / 0x100 * 0x100 + v % 0x100 == v
  {
  }

  lemma OctetDenotes(v: nat)
    requires v <= 0xff
    ensures IsOctet(Dec(v)) && Value(Dec(v), 10) == v
  {
    DecIsDecimal(v);
  }

  lemma QuadDenotes(hi: U16, lo: U16)
    ensures IsQuad(QuadOf(hi, lo)) && QuadValues(QuadOf(hi, lo)) == [hi, lo]
  {
    TwoOctets(hi);
    TwoOctets(lo);
    OctetDenotes(hi / 0x100);
    OctetDenotes(hi % 0x100);
    OctetDenotes(lo / 0x100);
    OctetDenotes(lo % 0x100);
  }

  // ----- addresses that are not compatible -----

  lemma {:induction false} RunIsZero(c: Components, i: nat)
    requires i <= 8
    ensures forall k | i <= k < i + RunLength(c, i) :: c[k] == 0
    ensures i + RunLength(c, i) < 8 ==> c[i + RunLength(c, i)] != 0
    decreases 8 - i
  {
    if i < 8 && c[i] == 0 {
      RunIsZero(c, i + 1);
    }
  }

  lemma {:induction false} ZerosAreARun(c: Components, i: nat, j: nat)
    requires i <= j <= 8 && forall k | i <= k < j :: c[k] == 0
    ensures RunLength(c, i) >= j - i
    decreases j - i
  {
    if i < j {
      ZerosAreARun(c, i + 1, j);
    }
  }

  lemma QuadOnlyExactly(a: AddressFull)
    requires a.flags.maskOrEmbed
    ensures QuadOnly(FormOf(a)) <==> PrintsAsQuadOnly(a.components)
  {
    var c := a.components;
    var (pos, len) := LongestRun(c);
    LongestRunIsLongest(c);
    RunIsZero(c, pos);
    if PrintsAsQuadOnly(c) {
      ZerosAreARun(c, 0, 6);
      RunIsZero(c, 0);
      assert RunLength(c, 0) == 6;
      assert LongestRun(c) == (0, 6);
    }
  }

  /** The components left of the gap, in it, and right of it up to the quad. */
  ghost function Cuts(a: AddressFull): (r: (nat, nat, nat))
    ensures r.0 <= r.1 <= r.2 <= 8
  {
    LongestRunIsLongest(a.components);
    var (pos, len) := LongestRun(a.components);
    var end := if HasQuad(a) then 6 else 8;
    if HasGap(a) then (pos, pos + len, end) else (end, end, end)
  }

  lemma FormByCuts(a: AddressFull)
    ensures var f, (i, j, end) := FormOf(a), Cuts(a);
      && AreGroups(f.left) && GroupValues(f.left) == a.components[..i]
      && AreGroups(f.right) && GroupValues(f.right) == a.components[j..end]
      && (f.quad == [] || IsQuad(f.quad)) && QuadValues(f.quad) == a.components[end..]
      && (!f.gap ==> i == j == end)
  {
    var (i, j, end) := Cuts(a);
    HexesDenote(a.components[..i]);
    HexesDenote(a.components[j..end]);
    QuadByCuts(a);
  }

  lemma QuadByCuts(a: AddressFull)
    ensures var f, end := FormOf(a), Cuts(a).2;
      (f.quad == [] || IsQuad(f.quad)) && QuadValues(f.quad) == a.components[end..]
  {
    QuadDenotes(a.components[6], a.components[7]);
    assert a.components[6..] == [a.components[6], a.components[7]] && a.components[8..] == [];
  }

  lemma GapIsZero(a: AddressFull)
    ensures var (i, j, end) := Cuts(a); a.components[i..j] == Zeros(j - i)
  {
    RunIsZero(a.components, LongestRun(a.components).0);
  }

  lemma FourParts(c: Components, i: nat, j: nat, end: nat)
    requires i <= j <= end <= 8
    ensures c == c[..i] + c[i..j] + c[j..end] + c[end..]
  {
  }

  /** The form that is printed denotes the components it was made from. */
  lemma FormDenotesComponents(a: AddressFull)
    ensures var f := FormOf(a).(mask := None, port := None);
      && (!QuadOnly(f) ==> WellFormed(f))
      && (!QuadOnly(f) ==> Denoted(f) == a.components)
  {
    var f := FormOf(a).(mask := None, port := None);
    var (i, j, end) := Cuts(a);
    FormByCuts(a);
    GapIsZero(a);
    FourParts(a.components, i, j, end);
    assert |f.left| == i && |f.right| == end - j;
    assert Width(f) == 8 - (j - i);
  }

  lemma FormIsWellFormed(a: AddressFull)
    ensures WellFormed(FormOf(a).(mask := None, port := None))
  {
    if QuadOnly(FormOf(a)) {
      QuadDenotes(a.components[6], a.components[7]);
    } else {
      FormDenotesComponents(a);
    }
  }

  /** The mask and port texts of a form do not change its components. */
  lemma MaskAndPortAreSeparate(f: Form, mask: Option<string>, port: Option<string>)
    requires WellFormed(f)
    requires mask.Some? ==> IsMask(mask.value)
    requires port.Some? ==> IsPort(port.value)
    ensures var g := f.(mask := mask, port := port);
      WellFormed(g) && Denoted(g) == Denoted(f) && QuadOnly(g) == QuadOnly(f)
  {
  }

  lemma FormParts(a: AddressFull)
    requires a.flags.maskOrEmbed ==> a.mask <= 128
    ensures WellFormed(FormOf(a))
    ensures DenotedAddress(FormOf(a)).flags == Flags(a.flags.hasPort, a.flags.maskOrEmbed, QuadOnly(FormOf(a)), 0)
    ensures a.flags.hasPort ==> DenotedAddress(FormOf(a)).port == a.port
    ensures a.flags.maskOrEmbed ==> DenotedAddress(FormOf(a)).mask == a.mask
    ensures Denoted(FormOf(a)) == Denoted(FormOf(a).(mask := None, port := None))
  {
    DecIsDecimal(a.mask);
    DecIsDecimal(a.port);
    FormIsWellFormed(a);
    var f := FormOf(a);
    assert f.quad != [] ==> a.flags.maskOrEmbed;
    MaskAndPortAreSeparate(f.(mask := None, port := None), f.mask, f.port);
  }

  lemma RoundTripOfForm(a: AddressFull)
    requires !a.flags.compat && (a.flags.maskOrEmbed ==> a.mask <= 128)
    ensures ParseText(Printed(a)).ok
    ensures Compare(a, ParseText(Printed(a)).out) == 0 <==> a.flags.rest == 0 && !QuadOnly(FormOf(a))
  {
    FormParts(a);
    FormsAreAccepted(FormOf(a));
    var b := DenotedAddress(FormOf(a));
    CompareZero(a, b);
    if !QuadOnly(FormOf(a)) {
      FormDenotesComponents(a);
    }
  }

  lemma LargeMaskRejected(a: AddressFull)
    requires !a.flags.compat && a.flags.maskOrEmbed && a.mask > 128
    ensures !ParseText(Printed(a)).ok
  {
    var f := FormOf(a);
    DecIsDecimal(a.mask);
    DecIsDecimal(a.port);
    FormIsWellFormed(a);
    assert !(0 <= Wrap32(a.mask) <= 128);
    OutOfRangeMaskRejected(f);
  }

  // ----- compatible addresses -----

  lemma {:induction false} PrefixValue(s: string, j: nat)
    requires AllHex(s) && j <= |s|
    ensures Value(s[..j], 10) <= Value(s, 10)
    ensures j < |s| ==> 10 * Value(s[..j], 10) <= Value(s, 10)
  {
    if j < |s| {
      var t := s[..|s| - 1];
      assert t[..j] == s[..j];
      PrefixValue(t, j);
    } else {
      assert s[..j] == s;
    }
  }

  /** A proper prefix of a printed number denotes another number, except the empty prefix of 0. */
  lemma CutPort(n: nat, j: nat)
    requires j < |Dec(n)|
    ensures AllHex(Dec(n)[..j]) && AllDecimal(Dec(n)[..j])
    ensures Value(Dec(n)[..j], 10) <= n
    ensures Value(Dec(n)[..j], 10) == n <==> n == 0 && j == 0
  {
    DecIsDecimal(n);
    PrefixValue(Dec(n), j);
    if j == 0 {
      assert Dec(n)[..j] == "";
    } else {
      assert |Dec(n)| > 1;
    }
  }

  function CompatAddress(a: AddressFull, port: Option<U16>): AddressFull
  {
    AddressFull([a.components[0], a.components[1]] + Zeros(6), port.GetOr(0), 0, Flags(port.Some?, true, true, 0))
  }

  /** What is read back from the text of a compatible address, cut to 15 characters. */
  lemma CompatReadBack(a: AddressFull) returns (port: Option<U16>)
    requires a.flags.compat
    ensures ParseText(Printed(a)) == Result(true, CompatAddress(a, port), [])
    ensures !a.flags.hasPort ==> port == None
    ensures a.flags.hasPort ==> (port == Some(a.port) <==> SurvivesTokenBuffer(a))
  {
    var quad := QuadOf(a.components[0], a.components[1]);
    var q := QuadText(quad);
    QuadDenotes(a.components[0], a.components[1]);
    Printer.QuadLength(a.components[0], a.components[1]);
    DecIsDecimal(a.port);
    if !a.flags.hasPort {
      assert CompatText(a) == q;
      QuadAccepted(quad);
      port := None;
    } else if |CompatText(a)| <= 15 {
      QuadAndPortAccepted(quad, Dec(a.port));
      port := Some(a.port);
    } else if |q| == 15 {
      assert Printed(a) == q;
      QuadAccepted(quad);
      port := None;
    } else {
      var j := 14 - |q|;
      var digits := Dec(a.port)[..j];
      assert Printed(a) == q + (":" + digits);
      CutPort(a.port, j);
      QuadAndPortAccepted(quad, digits);
      port := Some(Value(digits, 10));
    }
  }

  lemma RoundTripOfCompat(a: AddressFull)
    requires a.flags.compat
    ensures ParseText(Printed(a)).ok
    ensures Compare(a, ParseText(Printed(a)).out) == 0 <==> Restorable(a)
  {
    var port := CompatReadBack(a);
    var b := CompatAddress(a, port);
    CompareZero(a, b);
    var c := a.components;
    assert b.components == c <==> forall k | 2 <= k < 8 :: c[k] == 0;
  }

  // ----- the main results -----

  /** For every address, with every value of every field: printing it and parsing the text gives back
      an address that compares equal exactly when the address is restorable. */
  lemma RoundTripExactly(a: AddressFull)
    ensures RoundTrips(a) <==> Restorable(a)
  {
    if a.flags.compat {
      RoundTripOfCompat(a);
    } else if a.flags.maskOrEmbed && a.mask > 128 {
      LargeMaskRejected(a);
    } else {
      RoundTripOfForm(a);
      if a.flags.maskOrEmbed {
        QuadOnlyExactly(a);
      }
    }
  }

  /** The one family of uncompatible addresses that comes back as something else: the two low
      components return in the first two places, marked as an IPv4 address. */
  lemma QuadOnlyComesBackMisplaced(a: AddressFull)
    requires !a.flags.compat && a.flags.maskOrEmbed && a.mask <= 128 && PrintsAsQuadOnly(a.components)
    ensures ParseText(Printed(a)) == Result(true,
      AddressFull([a.components[6], a.components[7]] + Zeros(6), if a.flags.hasPort then a.port else 0, a.mask,
        Flags(a.flags.hasPort, true, true, 0)), [])
  {
    FormParts(a);
    QuadOnlyExactly(a);
    QuadDenotes(a.components[6], a.components[7]);
    FormsAreAccepted(FormOf(a));
  }

  /** Whatever a parse produced is printed as text that parses. */
  lemma ProducedReadsBack(a: AddressFull)
    requires ReaderFacts.Produced(a)
    ensures ParseText(Printed(a)).ok
  {
    AcceptedAgain(a);
  }

  /** Addresses that agree print alike, and among restorable addresses only those do. */
  lemma PrintedTellsApart(a: AddressFull, b: AddressFull)
    ensures Agree(a, b) ==> Printed(a) == Printed(b)
    ensures Restorable(a) && Restorable(b) && Printed(a) == Printed(b) ==> Agree(a, b)
  {
    if Agree(a, b) {
      assert a.flags.compat ==> CompatText(a) == CompatText(b);
      assert !a.flags.compat ==> FormOf(a) == FormOf(b);
    }
    if Restorable(a) && Restorable(b) && Printed(a) == Printed(b) {
      RoundTripExactly(a);
      RoundTripExactly(b);
      var c := ParseText(Printed(a)).out;
      CompareZero(a, c);
      CompareZero(b, c);
    }
  }

  // ----- through a buffer -----

  lemma NoTerminatorInDec(n: nat)
    ensures '\0' !in Dec(n)
  {
    DecIsDecimal(n);
  }

  ghost predicate NoTerminator(text: string)
  {
    text != "" && forall k | 0 <= k < |text| :: text[k] != '\0'
  }

  function Suffix(a: AddressFull): string
  {
    MaskText(FormOf(a).mask) + PortText(FormOf(a).port)
  }

  lemma HeadAndSuffix(f: Form)
    requires f.quad == [] || |f.quad| == 4
    ensures TextOfForm(f) == ((if f.port.Some? then "[" else "") + Body(f)) + (MaskText(f.mask) + PortText(f.port))
  {
  }

  lemma SuffixHasNoTerminator(mask: Option<string>, port: Option<string>)
    requires mask.Some? ==> '\0' !in mask.value
    requires port.Some? ==> '\0' !in port.value
    ensures '\0' !in MaskText(mask) + PortText(port)
  {
  }

  /** The mask only shows in the suffix, and with a small one the text is accepted. */
  lemma LargeMaskHasNoTerminator(a: AddressFull)
    requires !a.flags.compat && a.flags.maskOrEmbed
    ensures NoTerminator(Printed(a))
  {
    var b := a.(mask := 0);
    AcceptedAgain(b);
    AcceptedHasNoTerminator(Printed(b));
    OnlyMaskDiffers(a, b);
    HeadAndSuffix(FormOf(a));
    HeadAndSuffix(FormOf(b));
    NoTerminatorInDec(a.mask);
    NoTerminatorInDec(a.port);
    SuffixHasNoTerminator(FormOf(a).mask, FormOf(a).port);
    Printer.PrintedLength(a);
    OtherSuffix(Head(a), Suffix(b), Suffix(a));
  }

  lemma OtherSuffix(head: string, tail: string, other: string)
    requires NoTerminator(head + tail) && '\0' !in other && head + other != ""
    ensures NoTerminator(head + other)
  {
    assert forall k | 0 <= k < |head| :: (head + tail)[k] == head[k];
  }

  /** No printed text contains a terminator, whether it is accepted or not. */
  lemma PrintedHasNoTerminator(a: AddressFull)
    ensures NoTerminator(Printed(a))
  {
    if !a.flags.compat && a.flags.maskOrEmbed && a.mask > 128 {
      LargeMaskHasNoTerminator(a);
    } else {
      AcceptedAgain(a);
      AcceptedHasNoTerminator(Printed(a));
    }
  }

  lemma AcceptedAgain(a: AddressFull)
    requires a.flags.compat || (a.flags.maskOrEmbed ==> a.mask <= 128)
    ensures ParseText(Printed(a)).ok
  {
    if a.flags.compat {
      RoundTripOfCompat(a);
    } else {
      RoundTripOfForm(a);
    }
  }

  lemma OnlyMaskDiffers(a: AddressFull, b: AddressFull)
    requires b == a.(mask := 0)
    ensures Head(a) == Head(b)
  {
    assert FormOf(a).(mask := None) == FormOf(b).(mask := None);
  }

  method StrLen(buffer: array<char>) returns (n: nat)
    requires '\0' in buffer[..]
    ensures n < buffer.Length && buffer[n] == '\0'
    ensures forall k | 0 <= k < n :: buffer[k] != '\0'
  {
    n := 0;
    while buffer[n] != '\0'
      invariant 0 <= n < buffer.Length && '\0' in buffer[n..]
      invariant forall k | 0 <= k < n :: buffer[k] != '\0'
      decreases buffer.Length - n
    {
      assert buffer[n..] == [buffer[n]] + buffer[n + 1..];
      n := n + 1;
    }
  }

  /** Parse what was printed into a buffer. */
  method ParseBuffer(ghost a: AddressFull, buffer: array<char>, garbage: AddressFull)
    returns (ok: bool, out: AddressFull)
    requires buffer.Length == STRING_SIZE && Printer.Holds(buffer[..], STRING_SIZE, Printed(a))
    ensures Result(ok, out, ParseText(Printed(a)).diags) == ParseText(Printed(a))
  {
    ghost var text := Printed(a);
    Printer.PrintedLength(a);
    PrintedHasNoTerminator(a);
    ghost var rest := buffer[|text|..];
    assert text[..|text|] == text && buffer[..] == text + rest;
    var n := StrLen(buffer);
    assert n == |text|;
    ParsedFromBuffer(text, rest, n, garbage);
    var diags;
    ok, out, diags := Reader.FromStrDiag(buffer[..], n, garbage);
  }

  /** Print an address into a buffer of IPV6_STRING_SIZE characters, parse the buffer and compare:
      for every address, the result is the same exactly when the address is restorable. */
  method PrintAndParse(a: AddressFull, garbage: AddressFull) returns (same: bool)
    ensures same <==> Restorable(a)
  {
    Printer.StringSizeSuffices(a, STRING_SIZE);
    RoundTripExactly(a);
    var buffer := new char[STRING_SIZE];
    var ok := Printer.ToStr(a, buffer, STRING_SIZE);
    var b;
    ok, b := ParseBuffer(a, buffer, garbage);
    if !ok {
      return false;
    }
    var compare := CompareAddresses(a, b);
    same := compare == 0;
  }

  // ----- the command-line tool -----

  /** The tool parses its argument, prints the address, parses the text again and compares. It
      reports a bad argument for a text the parser rejects, and success or a failed comparison
      according to the parsed address; printing and the second parse never fail. */
  method CommandLine(arg: string, garbage: AddressFull) returns (code: int)
    requires '\0' !in arg
    ensures var r := FromStr(arg + "\0", |arg|, garbage);
      code == if !r.ok then 2 else if Restorable(r.out) then 0 else 5
  {
    var str := arg + "\0";
    assert str[|arg|] == '\0';
    var ok, addr, diags := Reader.FromStrDiag(str, |arg|, garbage);
    if !ok {
      return 2;
    }
    ReaderFacts.VerdictMatchesDiagnostics(str, |arg|, garbage);
    ProducedReadsBack(addr);
    Printer.StringSizeSuffices(addr, STRING_SIZE);
    var buffer := new char[STRING_SIZE];
    ok := Printer.ToStr(addr, buffer, STRING_SIZE);
    if !ok {
      assert false;  // exit code 3
    }
    var addr2;
    ok, addr2 := ParseBuffer(addr, buffer, garbage);
    if !ok {
      assert false;  // exit code 4
    }
    var compare := CompareAddresses(addr, addr2);
    RoundTripExactly(addr);
    code := if compare != 0 then 5 else 0;
  }

  lemma OneDigitValue(c: char)
    requires IsDecimal(c)
    ensures AllHex([c]) && AllDecimal([c])
    ensures Value([c], 16) == Value([c], 10) == DigitValue(c)
  {
    ValueSnoc("", c, 16);
    ValueSnoc("", c, 10);
    assert "" + [c] == [c];
  }

  lemma OneToFour()
    ensures IsQuad(["1", "2", "3", "4"]) && QuadValues(["1", "2", "3", "4"]) == [0x102, 0x304]
    ensures IsGroup("0") && GroupValues(["0"]) == [0]
  {
    OneDigitValue('0');
    OneDigitValue('1');
    OneDigitValue('2');
    OneDigitValue('3');
    OneDigitValue('4');
  }

  lemma ZeroGapQuadText(quad: string)
    ensures Joined(["0"]) + "::" + Joined([] + [quad]) == "0::" + quad
  {
    assert [] + [quad] == [quad];
    assert Joined(["0"]) == "0" && "0" + "::" == "0::";
  }

  lemma ZeroGapQuad() returns (f: Form)
    ensures WellFormed(f) && TextOfForm(f) == "0::1.2.3.4"
    ensures !QuadOnly(f) && Denoted(f) == Zeros(6) + [0x102, 0x304] && f.quad != []
  {
    f := Form(["0"], true, [], ["1", "2", "3", "4"], None, None);
    OneToFour();
    ZeroGapQuadText(QuadText(f.quad));
    assert QuadText(f.quad) == "1.2.3.4";
  }

  lemma ZeroGapQuadIsNotRestorable(f: Form)
    requires WellFormed(f) && !QuadOnly(f) && Denoted(f) == Zeros(6) + [0x102, 0x304] && f.quad != []
    ensures ParseText(TextOfForm(f)).ok && !Restorable(ParseText(TextOfForm(f)).out)
  {
    FormsAreAccepted(f);
    assert PrintsAsQuadOnly(Denoted(f));
  }

  /** An accepted argument for which the tool reports a failed comparison: 0::1.2.3.4. */
  lemma ComparisonCanFail(garbage: AddressFull) returns (arg: string)
    ensures arg == "0::1.2.3.4"
    ensures var r := FromStr(arg + "\0", |arg|, garbage); r.ok && !Restorable(r.out)
  {
    var f := ZeroGapQuad();
    ZeroGapQuadIsNotRestorable(f);
    AcceptedHasNoTerminator(TextOfForm(f));
    arg := TextOfForm(f);
    assert |arg| == |"0::1.2.3.4"|;
    ParsedFromBuffer(arg, "\0", |arg|, garbage);
  }
}
