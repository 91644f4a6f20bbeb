/** Consequences of reading well-formed text: the RFC's own forms, dotted quads with a port, prefix
    lengths that are out of range, and texts that sit in a caller's buffer. */
module Acceptance {
  import opened Options
  import opened Text
  import opened Address
  import opened ReaderSpec
  import opened Forms
  import opened FormReading
  import ReaderFacts

  // ----- IPv4 with a port -----

  /** a.b.c.d:port, where the port may be empty (and is then 0). */
  lemma QuadAndPortAccepted(quad: seq<string>, port: string)
    requires IsQuad(quad) && IsPort(port)
    ensures ParseText(QuadText(quad) + (":" + port)) ==
      Result(true, AddressFull(QuadValues(quad) + Zeros(6), Value(port, 10), 0, Flags(true, true, true, 0)), [])
  {
    var t := Run(INITIAL, QuadText(quad));
    RunAppend(INITIAL, QuadText(quad), ":" + port);
    var d := ReadLastQuad(INITIAL, quad);
    RunAppend(t, ":", port);
    RunOne(t, ':');
    ReadPortDigits(d, port);
    ConcludeQuad(quad, Run(Goto(d, Port), port), port);
  }

  lemma ConcludeQuad(quad: seq<string>, u: Reader, port: string)
    requires IsQuad(quad) && IsPort(port) && !u.hasError
    requires var d := FilledQuad(INITIAL, QuadValues(quad));
      Transition(u, Whitespace, ' ') == d.(out := WithPort(d.out, Some(port)))
    ensures var (ok, t) := Conclude(u);
      && ok && t.diags == []
      && t.out == AddressFull(QuadValues(quad) + Zeros(6), Value(port, 10), 0, Flags(true, true, true, 0))
  {
    PutIntoZeros([], QuadValues(quad));
  }

  lemma QuadAccepted(quad: seq<string>)
    requires IsQuad(quad)
    ensures ParseText(QuadText(quad)) ==
      Result(true, AddressFull(QuadValues(quad) + Zeros(6), 0, 0, Flags(false, true, true, 0)), [])
  {
    var f := Form([], false, [], quad, None, None);
    assert TextOfForm(f) == QuadText(quad) by {
      assert Joined([QuadText(quad)]) == QuadText(quad);
    }
    FormsAreAccepted(f);
  }

  // ----- prefix lengths out of range -----

  lemma ParseFails(text: string)
    requires Run(INITIAL, text).hasError || Transition(Run(INITIAL, text), Whitespace, ' ').hasError
    ensures !ParseText(text).ok
  {
  }

  lemma OutOfRangeMaskFails(s: Reader, mask: string)
    requires !s.hasError && s.current == Cidr && s.token == ""
    requires AllDecimal(mask) && !(0 <= Accumulated(mask, 10) <= 128)
    ensures var u := Run(s, mask);
      && !u.hasError
      && Transition(u, Whitespace, ' ').hasError
      && Step(u, ']').hasError
  {
    ReadDigits(s, mask);
    assert "" + mask == mask;
    MaskOutOfRange(s.(token := mask));
  }

  lemma MaskOutOfRange(s: Reader)
    requires s.current == Cidr && AllDecimal(s.token) && !(0 <= Accumulated(s.token, 10) <= 128)
    ensures Transition(s, Whitespace, ' ').hasError && Step(s, ']').hasError
  {
  }

  lemma AfterSlash(f: Form) returns (s: Reader)
    requires WellFormed(f)
    ensures var opening := if f.port.Some? then "[" else "";
      Run(INITIAL, opening + Body(f) + "/") == s
    ensures !s.hasError && s.current == Cidr && s.token == ""
  {
    var prefix := (if f.port.Some? then "[" else "") + Body(f);
    var d := ReadBody(f);
    RunAppend(INITIAL, prefix, "/");
    RunOne(Run(INITIAL, prefix), '/');
    s := Goto(d, Cidr);
  }

  /** A mask whose 32-bit value is not between 0 and 128 makes the text unacceptable. */
  lemma OutOfRangeMaskRejected(f: Form)
    requires WellFormed(f.(mask := None))
    requires f.mask.Some? && AllDecimal(f.mask.value) && !(0 <= Accumulated(f.mask.value, 10) <= 128)
    ensures !ParseText(TextOfForm(f)).ok
  {
    var prefix := (if f.port.Some? then "[" else "") + Body(f) + "/";
    var mask, port := f.mask.value, PortText(f.port);
    var s := AfterSlash(f.(mask := None));
    assert prefix == (if f.port.Some? then "[" else "") + Body(f.(mask := None)) + "/";
    assert TextOfForm(f) == prefix + (mask + port);
    RunAppend(INITIAL, prefix, mask + port);
    RunAppend(s, mask, port);
    OutOfRangeMaskFails(s, mask);
    var u := Run(s, mask);
    assert Run(INITIAL, TextOfForm(f)) == Run(u, port);
    if f.port.Some? {
      assert port[0] == ']';
      assert Run(u, port) == Run(Step(u, ']'), port[1..]);
    }
    ParseFails(TextOfForm(f));
  }

  // ----- texts in a buffer -----

  lemma {:induction false} AcceptedCharacters(s: Reader, text: string)
    requires !Run(s, text).hasError
    ensures forall k | 0 <= k < |text| :: text[k] != '\0'
    decreases |text|
  {
    if text != "" {
      AcceptedCharacters(Step(s, text[0]), text[1..]);
      assert forall k | 1 <= k < |text| :: text[k] == text[1..][k - 1];
    }
  }

  lemma {:induction false} TextBeforeRest(text: string, rest: string, inputBytes: nat)
    requires forall k | 0 <= k < |text| :: text[k] != '\0'
    requires inputBytes == |text| || (inputBytes > |text| && rest != "" && rest[0] == '\0')
    ensures TextOf(text + rest, inputBytes) == text
  {
    if text == "" {
      assert text + rest == rest;
    } else {
      assert (text + rest)[1..] == text[1..] + rest;
      TextBeforeRest(text[1..], rest, inputBytes - 1);
    }
  }

  lemma EmptyTextRejected()
    ensures !ParseText("").ok
  {
  }

  lemma AcceptedHasNoTerminator(text: string)
    requires ParseText(text).ok
    ensures text != "" && forall k | 0 <= k < |text| :: text[k] != '\0'
  {
    EmptyTextRejected();
    AcceptedCharacters(INITIAL, text);
  }

  /** Whatever follows a text in its buffer, accepted or not, the verdict, the address and the
      diagnostics are those of the text: either its length is given, or a terminator follows. */
  lemma ParsedFromBuffer(text: string, rest: string, inputBytes: nat, prior: AddressFull)
    requires text != "" && forall k | 0 <= k < |text| :: text[k] != '\0'
    requires |text| <= inputBytes <= STRING_SIZE
    requires inputBytes == |text| || (rest != "" && rest[0] == '\0')
    ensures FromStr(text + rest, inputBytes, prior) == ParseText(text)
  {
    TextBeforeRest(text, rest, inputBytes);
  }

  /** An input that begins with its terminator is rejected as invalid, and otherwise one of more than
      66 characters for its size; neither touches the output. Up to 66 characters the text decides. */
  lemma InputSize(input: string, inputBytes: nat, prior: AddressFull)
    requires input != ""
    ensures input[0] == '\0' ==> FromStr(input, inputBytes, prior) == Result(false, prior, [InvalidInput])
    ensures input[0] != '\0' && inputBytes > 66 ==>
      FromStr(input, inputBytes, prior) == Result(false, prior, [StringSizeExceeded])
    ensures input[0] != '\0' && inputBytes <= 66 ==>
      FromStr(input, inputBytes, prior) == ParseText(TextOf(input, inputBytes))
  {
  }

  // ----- the forms of section 2.2 of RFC 4291 -----

  predicate IsRfcGroup(g: string) { 1 <= |g| <= 4 && AllHex(g) }

  predicate IsRfcOctet(o: string) { 1 <= |o| <= 3 && IsOctet(o) }

  /** Eight groups, or up to seven around one "::"; a dotted quad counts for two groups and follows
      at least one; a prefix length of up to three digits and a port of up to five. */
  predicate IsRfcForm(f: Form)
  {
    && (forall k | 0 <= k < |f.left| :: IsRfcGroup(f.left[k]))
    && (forall k | 0 <= k < |f.right| :: IsRfcGroup(f.right[k]))
    && (f.quad == [] || (|f.quad| == 4 && forall k | 0 <= k < 4 :: IsRfcOctet(f.quad[k])))
    && !QuadOnly(f)
    && (if f.gap then Width(f) <= 7 else Width(f) == 8 && f.right == [])
    && (f.mask.Some? ==> 1 <= |f.mask.value| <= 3 && IsMask(f.mask.value))
    && (f.port.Some? ==> 1 <= |f.port.value| <= 5 && IsPort(f.port.value))
  }

  /** What the RFC says a form denotes: left, zeros for the gap, right, packed quad. */
  function RfcComponents(f: Form): Components
    requires WellFormed(f) && (f.gap || Width(f) == 8)
  {
    GroupValues(f.left) + Zeros(8 - Width(f)) + GroupValues(f.right) + QuadValues(f.quad)
  }

  lemma RfcGroupIsGroup(g: string)
    requires IsRfcGroup(g)
    ensures IsGroup(g)
  {
    HexValueBound(g);
    PowerMonotone(16, |g|, 4);
    PowersOfSixteen();
  }

  lemma RfcFormIsWellFormed(f: Form)
    requires IsRfcForm(f)
    ensures WellFormed(f)
  {
    forall k | 0 <= k < |f.left|
      ensures IsGroup(f.left[k])
    {
      RfcGroupIsGroup(f.left[k]);
    }
    forall k | 0 <= k < |f.right|
      ensures IsGroup(f.right[k])
    {
      RfcGroupIsGroup(f.right[k]);
    }
  }

  lemma {:induction false} JoinedLength(items: seq<string>, bound: nat)
    requires forall k | 0 <= k < |items| :: |items[k]| <= bound
    ensures |Joined(items)| <= |items| * (bound + 1)
    ensures items != [] ==> |Joined(items)| <= |items| * (bound + 1) - 1
  {
    if |items| > 1 {
      JoinedLength(items[1..], bound);
      assert |items| * (bound + 1) == (|items| - 1) * (bound + 1) + (bound + 1);
    }
  }

  lemma RfcTailLength(gs: seq<string>, quad: seq<string>)
    requires forall k | 0 <= k < |gs| :: IsRfcGroup(gs[k])
    requires quad == [] || (|quad| == 4 && forall k | 0 <= k < 4 :: IsRfcOctet(quad[k]))
    ensures |Joined(gs + QuadItem(quad))| <= 5 * |gs| + if quad == [] then 0 else 15
  {
    JoinedLength(gs, 4);
    if quad != [] {
      JoinedSnoc(gs, QuadText(quad));
      if gs != [] { JoinedColon(gs); }
      assert |QuadText(quad)| == |quad[0]| + |quad[1]| + |quad[2]| + |quad[3]| + 3;
    } else {
      assert gs + QuadItem(quad) == gs;
    }
  }

  lemma RfcFormLength(f: Form)
    requires IsRfcForm(f)
    ensures |TextOfForm(f)| <= STRING_SIZE
  {
    RfcTailLength(f.left, if f.gap then [] else f.quad);
    assert f.left + QuadItem([]) == f.left;
    RfcTailLength(f.right, f.quad);
  }

  /** Every form of the RFC is accepted from a buffer, and its components are the left groups, zeros
      for the gap, the right groups and the packed quad. */
  lemma RfcFormsAreAccepted(f: Form, rest: string, prior: AddressFull)
    requires IsRfcForm(f)
    ensures WellFormed(f)
    ensures FromStr(TextOfForm(f) + rest, |TextOfForm(f)|, prior) == Result(true, DenotedAddress(f), [])
    ensures DenotedAddress(f).components == RfcComponents(f)
    ensures !DenotedAddress(f).flags.compat
  {
    RfcFormIsWellFormed(f);
    RfcFormLength(f);
    FormsAreAccepted(f);
    AcceptedHasNoTerminator(TextOfForm(f));
    ParsedFromBuffer(TextOfForm(f), rest, |TextOfForm(f)|, prior);
  }

  /** The one form of the RFC that is read differently: a dotted quad directly after "::", with or
      without a prefix length and a port, lands in the first two components, like an IPv4 address,
      instead of the last two. */
  lemma QuadAfterGapIsMisplaced(f: Form)
    requires WellFormed(f) && f.gap && QuadOnly(f)
    ensures ParseText(TextOfForm(f)) ==
      Result(true, AddressFull(QuadValues(f.quad) + Zeros(6), DenotedAddress(f).port, DenotedAddress(f).mask,
                               Flags(f.port.Some?, true, true, 0)), [])
    ensures RfcComponents(f) == Zeros(6) + QuadValues(f.quad)
  {
    FormsAreAccepted(f);
  }

  /** Among all well-formed texts with "::", exactly which get the components that the RFC gives them:
      those with a group before their quad, or no quad, or a quad of zeros. */
  lemma RfcComponentsExactly(f: Form)
    requires WellFormed(f) && f.gap
    ensures ParseText(TextOfForm(f)).ok
    ensures ParseText(TextOfForm(f)).out.components == RfcComponents(f) <==>
      !QuadOnly(f) || QuadValues(f.quad) == [0, 0]
  {
    FormsAreAccepted(f);
    if QuadOnly(f) {
      var q, c := QuadValues(f.quad), Denoted(f);
      assert c[0] == q[0] && c[1] == q[1];
      assert RfcComponents(f)[0] == 0 && RfcComponents(f)[1] == 0;
      if q == [0, 0] {
        assert c == RfcComponents(f);
      }
    }
  }

  // ----- a group of too many digits -----

  lemma WideGroupThenGap(s: Reader)
    requires s == INITIAL.(current := V6Separator, components := 1)
    ensures Conclude(Step(s, ':')).0
    ensures Conclude(Step(s, ':')).1.out == ZERO_ADDRESS && Conclude(Step(s, ':')).1.diags == []
  {
    assert Expand(ZERO_COMPONENTS, 1, 1) == ZERO_COMPONENTS;
  }

  /** 80000000:: is accepted as the address of zeros, because the range check of a group has no lower
      bound. */
  lemma WideGroupCanBeAccepted()
    ensures Value("80000000", 16) > 0xffff
    ensures ParseText("80000000::") == Result(true, ZERO_ADDRESS, [])
  {
    ReaderFacts.WideGroupIsStored();
    var g, s := "80000000", INITIAL.(current := V6Separator, components := 1);
    var t := INITIAL.(current := AddrComponent, token := g);
    ReadGroup(INITIAL, g);
    assert "80000000::" == g + "::";
    RunAppend(INITIAL, g, "::");
    assert "::" == ":" + ":";
    RunAppend(t, ":", ":");
    RunOne(t, ':');
    assert Step(t, ':') == s;
    RunOne(s, ':');
    WideGroupThenGap(s);
  }
}
