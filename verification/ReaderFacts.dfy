/** What holds of the reader after every prefix of every text, and what that says about the verdict,
    the diagnostics and the address. */
module ReaderFacts {
  import opened Options
  import opened Text
  import opened Address
  import opened ReaderSpec

  /** Cells from here on have not been written. */
  function Frontier(s: Reader): int
  {
    if s.embedding then s.v4Embedding + (s.v4Octets + 1) / 2 else s.components
  }

  /** The part that holds even after an error. */
  ghost predicate Counted(s: Reader)
  {
    && (s.hasError <==> s.diags != [])
    && s.zerorun <= s.components
    && (!s.hasZerorun ==> s.zerorun == 0)
    && (s.current == AddrComponent ==> AllHex(s.token) && s.token != "")
    && (s.current == Cidr || s.current == Port ==> AllDecimal(s.token))
  }

  /** The part that holds until the first error. */
  ghost predicate Healthy(s: Reader)
  {
    && s.current != Failed
    && (s.embedding ==> s.v4Embedding + 2 == s.components && (s.compat <==> s.v4Embedding == 0))
    && (!s.embedding ==> s.v4Octets == 0 && !s.compat)
    && (forall k | Frontier(s) <= k < 8 :: s.out.components[k] == 0)
    && (s.embedding && s.v4Octets % 2 == 1 ==> s.out.components[Frontier(s) - 1] % 0x100 == 0)
    && s.out.flags.rest == 0 && !s.out.flags.compat
    && s.out.mask <= 128
    && (!s.out.flags.maskOrEmbed ==> s.out.mask == 0)
    && (!s.out.flags.hasPort ==> s.out.port == 0)
  }

  ghost predicate Invariant(s: Reader)
  {
    && Counted(s)
    && |s.diags| <= 2
    && (!s.hasError ==> Healthy(s))
  }

  lemma InitialInvariant()
    ensures Invariant(INITIAL)
  {
  }

  lemma HighOctet(cell: U16, octet: int)
    requires cell == 0
    ensures OrOctet(cell, octet, true) % 0x100 == 0
  {
    var v := (octet % 0x1_0000) * 0x100;
    assert v % 0x1_0000 % 0x100 == 0;
  }

  /** Parsing the pending component keeps the invariant up to the state, which the caller sets. */
  lemma ParseComponentKeeps(s: Reader)
    requires Invariant(s) && !s.hasError && s.current == AddrComponent
    ensures var t := ParseComponent(s);
      && t.zerorun == s.zerorun && t.hasZerorun == s.hasZerorun && s.components <= t.components
      && t.embedding == s.embedding && t.compat == s.compat
      && (t.hasError <==> t.diags != []) && |t.diags| <= 2
      && (|t.diags| == 2 ==> t.embedding && t.v4Octets == 4)
      && (!t.hasError ==> forall st: State | st != Failed :: Healthy(Goto(t, st)))
  {
    if s.embedding {
      var (s1, octet) := ReadToken(s, 10);
      if AllDecimal(s.token) && s.v4Octets < 4 && octet <= 0xff {
        if s.v4Octets % 2 == 0 {
          HighOctet(s.out.components[s.v4Embedding + s.v4Octets / 2], octet);
        }
      }
    }
  }

  lemma BeginEmbeddingKeeps(s: Reader)
    requires Invariant(s) && !s.hasError && s.current == AddrComponent
    requires s.embedding || s.components < 7
    ensures var t := BeginEmbedding(s);
      && Invariant(t) && !t.hasError && t.current == AddrComponent && t.embedding && t.diags == []
  {
  }

  ghost predicate Fits(input: EventClass, c: char)
  {
    && (input == Digit ==> IsDecimal(c))
    && (input == HexLetter ==> IsHex(c))
  }

  /** A reader after a transition: the invariant, and a second diagnostic only from a fifth octet. */
  ghost predicate Kept(t: Reader)
  {
    && Invariant(t)
    && (|t.diags| == 2 ==> t.embedding && t.v4Octets == 4)
  }

  lemma GotoKeeps(s: Reader, st: State)
    requires Invariant(s) && !s.hasError && st != Failed && st != AddrComponent
    ensures Kept(Goto(s, st))
  {
  }

  lemma FailKeeps(s: Reader, d: Diag)
    requires Invariant(s) && !s.hasError
    ensures Kept(Fail(s, d))
  {
  }

  /** A token grows by a digit of its kind. */
  lemma GrowKeeps(s: Reader, st: State, c: char)
    requires Invariant(s) && !s.hasError && s.current == st
    requires (st == AddrComponent && IsHex(c)) || ((st == Cidr || st == Port) && IsDecimal(c))
    ensures Kept(Grow(s, st, c))
  {
  }

  lemma BeginKeeps(s: Reader, c: char)
    requires Invariant(s) && !s.hasError && IsHex(c)
    ensures Kept(Grow(s.(token := ""), AddrComponent, c))
  {
  }

  lemma EndComponentKeeps(s: Reader, st: State)
    requires Invariant(s) && !s.hasError && s.current == AddrComponent && st != Failed && st != AddrComponent
    ensures Kept(Goto(ParseComponent(s), st))
  {
    ParseComponentKeeps(s);
    if !ParseComponent(s).hasError {
      assert Healthy(Goto(ParseComponent(s), st));
    }
  }

  lemma FromAddrComponentKeeps(s: Reader, input: EventClass, c: char)
    requires Invariant(s) && !s.hasError && s.current == AddrComponent && Fits(input, c)
    ensures Kept(FromAddrComponent(s, input, c))
  {
    match input
    case Digit => GrowKeeps(s, AddrComponent, c);
    case HexLetter => GrowKeeps(s, AddrComponent, c);
    case CloseBracket => EndComponentKeeps(s, PostAddr);
    case Whitespace => EndComponentKeeps(s, Start);
    case V6ComponentSep =>
      EndComponentKeeps(s, Port);
      EndComponentKeeps(s, V6Separator);
      FailKeeps(s, V4IncorrectPosition);
    case V4Separator =>
      if s.embedding || s.components < 7 {
        BeginEmbeddingKeeps(s);
        EndComponentKeeps(BeginEmbedding(s), Start);
      }
    case IfaceMark => EndComponentKeeps(s, Iface);
    case CidrMask => EndComponentKeeps(s, Cidr);
    case OpenBracket => FailKeeps(s, InvalidInput);
  }

  lemma FromV6SeparatorKeeps(s: Reader, input: EventClass, c: char)
    requires Invariant(s) && !s.hasError && s.current == V6Separator && Fits(input, c)
    ensures Kept(FromV6Separator(s, input, c))
  {
    match input
    case V6ComponentSep => FailKeeps(s, InvalidAbbrev);
    case Whitespace => GotoKeeps(s, Start);
    case CloseBracket => GotoKeeps(s, PostAddr);
    case OpenBracket => FailKeeps(s, InvalidBrackets);
    case Digit => BeginKeeps(s, c);
    case HexLetter => BeginKeeps(s, c);
    case IfaceMark => GotoKeeps(s, Iface);
    case CidrMask => GotoKeeps(s, Cidr);
    case V4Separator => FailKeeps(s, InvalidInput);
  }

  lemma FromStartKeeps(s: Reader, input: EventClass, c: char)
    requires Invariant(s) && !s.hasError && s.current == Start && Fits(input, c)
    ensures Kept(FromStart(s, input, c))
  {
    match input
    case Digit => BeginKeeps(s, c);
    case HexLetter => BeginKeeps(s, c);
    case CloseBracket => GotoKeeps(s, PostAddr);
    case V6ComponentSep => GotoKeeps(s, V6Separator);
    case CidrMask => GotoKeeps(s, Cidr);
    case Whitespace =>
    case OpenBracket => FailKeeps(s, InvalidBrackets);
    case _ => FailKeeps(s, InvalidInput);
  }

  lemma ParseNumberKeeps(s: Reader)
    requires Invariant(s) && !s.hasError
    requires s.current == Cidr || s.current == Port
    ensures s.current == Cidr ==> Kept(ParseCidr(s))
    ensures s.current == Port ==> Kept(ParsePort(s))
  {
    if s.current == Cidr && -1 < Accumulated(s.token, 10) < 129 {
      assert ParseCidr(s).diags == [];
    }
  }

  lemma FromCidrKeeps(s: Reader, input: EventClass, c: char)
    requires Invariant(s) && !s.hasError && s.current == Cidr && Fits(input, c)
    ensures Kept(FromCidr(s, input, c))
  {
    ParseNumberKeeps(s);
    var t := ParseCidr(s);
    match input
    case Digit => GrowKeeps(s, Cidr, c);
    case CloseBracket => EndNumberKeeps(t, PostAddr);
    case Whitespace => EndNumberKeeps(t, Start);
    case IfaceMark => EndNumberKeeps(t, Iface);
    case _ => FailKeeps(s, InvalidInput);
  }

  /** The state set after a parse, whether or not the parse failed. */
  lemma EndNumberKeeps(t: Reader, st: State)
    requires Kept(t) && st != Failed && st != AddrComponent
    ensures Kept(Goto(t, st))
  {
  }

  lemma FromPortKeeps(s: Reader, input: EventClass, c: char)
    requires Invariant(s) && !s.hasError && s.current == Port && Fits(input, c)
    ensures Kept(FromPort(s, input, c))
  {
    ParseNumberKeeps(s);
    match input
    case Digit => GrowKeeps(s, Port, c);
    case Whitespace => EndNumberKeeps(ParsePort(s), Start);
    case _ => FailKeeps(s, InvalidInput);
  }

  lemma FromIfaceKeeps(s: Reader, input: EventClass)
    requires Invariant(s) && !s.hasError && (s.current == Iface || s.current == PostAddr)
    ensures s.current == Iface ==> Kept(FromIface(s, input))
    ensures s.current == PostAddr ==> Kept(FromPostAddr(s, input))
  {
    GotoKeeps(s, Start);
    GotoKeeps(s, PostAddr);
    GotoKeeps(s, Port);
    FailKeeps(s, InvalidInput);
  }

  lemma TransitionKeeps(s: Reader, input: EventClass, c: char)
    requires Invariant(s) && !s.hasError && Fits(input, c)
    ensures Kept(Transition(s, input, c))
  {
    match s.current
    case Start => FromStartKeeps(s, input, c);
    case AddrComponent => FromAddrComponentKeeps(s, input, c);
    case V6Separator => FromV6SeparatorKeeps(s, input, c);
    case Cidr => FromCidrKeeps(s, input, c);
    case Port => FromPortKeeps(s, input, c);
    case _ => FromIfaceKeeps(s, input);
  }

  /** Counting a bracket touches nothing the invariant speaks of. */
  lemma CountingKeeps(s: Reader, n: nat)
    requires Invariant(s)
    ensures Invariant(s.(brackets := n))
  {
  }

  lemma StepKeeps(s: Reader, c: char)
    requires Invariant(s) && !s.hasError
    ensures Invariant(Step(s, c))
  {
    match Classify(c)
    case None => ForeignKeeps(s, InvalidInputChar);
    case Some(OpenBracket) => BracketKeeps(s, c);
    case Some(input) => TransitionKeeps(s, input, c);
  }

  lemma BracketKeeps(s: Reader, c: char)
    requires Invariant(s) && !s.hasError
    ensures Invariant(Transition(s.(brackets := s.brackets + 1), OpenBracket, c))
  {
    CountingKeeps(s, s.brackets + 1);
    TransitionKeeps(s.(brackets := s.brackets + 1), OpenBracket, c);
  }

  lemma ForeignKeeps(s: Reader, d: Diag)
    requires Invariant(s) && !s.hasError
    ensures Invariant(Fail(s, d))
  {
  }

  lemma {:induction false} RunKeeps(s: Reader, text: string)
    requires Invariant(s)
    ensures Invariant(Run(s, text))
    decreases |text|
  {
    if text != "" && !s.hasError {
      StepKeeps(s, text[0]);
      RunKeeps(Step(s, text[0]), text[1..]);
    }
  }

  /** The reader invariant after every prefix of every text. */
  lemma ReaderInvariant(text: string, k: nat)
    requires k <= |text|
    ensures Invariant(Run(INITIAL, text[..k]))
  {
    InitialInvariant();
    RunKeeps(INITIAL, text[..k]);
  }

  /** What a successful parse can put into the output structure. */
  ghost predicate Produced(a: AddressFull)
  {
    && a.flags.rest == 0
    && a.mask <= 128
    && (!a.flags.maskOrEmbed ==> a.mask == 0)
    && (!a.flags.hasPort ==> a.port == 0)
    && (a.flags.compat ==> a.flags.maskOrEmbed && forall k | 2 <= k < 8 :: a.components[k] == 0)
  }

  /** At the end of the text neither of the two rejections of the run expansion can happen: the
      counts it moves are in range, the left copy ends before the right copy begins, and failure
      always comes with a diagnostic. */
  lemma ConcludeFacts(s: Reader)
    requires Invariant(s) && !s.hasError
    ensures var t := Transition(s, Whitespace, ' ');
      && t.zerorun <= t.components
      && 0 <= t.components - t.zerorun <= 8
      && t.zerorun <= 8 - (t.components - t.zerorun)
    ensures var (ok, t) := Conclude(s);
      && (ok <==> t.diags == [])
      && |t.diags| <= 2
      && (ok ==> Produced(t.out))
  {
    TransitionKeeps(s, Whitespace, ' ');
  }

  /** A parse succeeds exactly when the callback was never called; otherwise it was called once or
      twice. */
  lemma VerdictMatchesDiagnostics(input: string, inputBytes: nat, prior: AddressFull)
    requires input != ""
    ensures var r := FromStr(input, inputBytes, prior);
      && (r.ok <==> r.diags == [])
      && |r.diags| <= 2
      && (r.ok ==> Produced(r.out))
  {
    if input[0] != '\0' && inputBytes <= STRING_SIZE {
      var text := TextOf(input, inputBytes);
      assert text[..|text|] == text;
      ReaderInvariant(text, |text|);
      var s := Run(INITIAL, text);
      if !s.hasError {
        ConcludeFacts(s);
      }
    }
  }

  // ----- which tokens are accepted -----

  /** A number of d digits in the base is below 2^31, so its 32-bit accumulation does not wrap. */
  lemma ShortTokensDoNotWrap(token: string, base: nat)
    requires AllHex(token)
    requires (base == 16 && |token| <= 7) || (base == 10 && AllDecimal(token) && |token| <= 9)
    ensures Accumulated(token, base) == Value(token, base)
  {
    if base == 16 {
      HexValueBound(token);
      PowerMonotone(16, |token|, 7);
      PowersOfSixteen();
    } else {
      DecimalValueBound(token);
      PowerMonotone(10, |token|, 9);
      PowersOfTen();
    }
  }

  /** A hexadecimal group of any length is stored modulo 2^16. It is accepted when its value modulo
      2^32 is at most 0xffff, or is 2^31 or more, because the accumulator is then negative and the
      range check has no lower bound. */
  lemma GroupAcceptance(s: Reader)
    requires !s.hasError && !s.embedding && s.components < 8 && AllHex(s.token)
    ensures var t, v := ParseComponent(s), Value(s.token, 16);
      && (!t.hasError <==> v % 0x1_0000_0000 <= 0xffff || v % 0x1_0000_0000 >= 0x8000_0000)
      && (!t.hasError ==> t.components == s.components + 1 && t.out.components[s.components] == v % 0x1_0000)
      && (|s.token| <= 7 ==> (!t.hasError <==> v <= 0xffff))
      && (t.hasError ==> t.diags == s.diags + [V6ComponentOutOfRange])
  {
    var v := Value(s.token, 16);
    var q := v / 0x1_0000_0000;
    assert v == q * 0x1_0000_0000 + v % 0x1_0000_0000;
    WrapPeriod(v % 0x1_0000_0000, q);
    WrappedModulo(v);
    if |s.token| <= 7 { ShortTokensDoNotWrap(s.token, 16); }
  }

  lemma WrappedModulo(v: nat)
    ensures Wrap32(v) % 0x1_0000 == v % 0x1_0000
  {
    var k := (v + 0x8000_0000) / 0x1_0000_0000;
    assert Wrap32(v) == v + (-k * 0x1_0000) * 0x1_0000;
  }

  /** What an accepted octet stores in its component: the two low bytes of its value, or-ed in, moved
      up by a byte for the first octet of a pair. In range and over clear bytes that is the octet
      itself; out of range it can also change the octet stored before it. */
  ghost predicate OctetStored(s: Reader, v: nat, t: Reader)
    requires s.v4Octets < 4 && s.v4Embedding <= 6
  {
    var i := s.v4Embedding + s.v4Octets / 2;
    var cell, stored := s.out.components[i], t.out.components[i];
    && t.v4Octets == s.v4Octets + 1 && t.out == s.out.(components := s.out.components[i := stored])
    && (s.v4Octets % 2 == 0 ==>
          && stored == BitOr(cell, v % 0x1_0000 * 0x100) % 0x1_0000
          && (cell == 0 ==> stored == v % 0x100 * 0x100))
    && (s.v4Octets % 2 == 1 ==>
          && stored == BitOr(cell, v % 0x1_0000)
          && (cell % 0x100 == 0 && v % 0x1_0000 <= 0xff ==> stored == cell + v % 0x1_0000))
  }

  lemma HighByte(v: nat)
    ensures (v % 0x1_0000 * 0x100) % 0x1_0000 == v % 0x100 * 0x100
  {
    var w := v % 0x1_0000;
    assert w % 0x100 == v % 0x100 by {
      assert v == v / 0x1_0000 * 0x1_0000 + w;
    }
    assert w * 0x100 == w / 0x100 * 0x1_0000 + w % 0x100 * 0x100;
  }

  lemma OrWord(cell: U16, w: U16)
    ensures BitOr(cell, w) < 0x1_0000
    ensures cell % 0x100 == 0 && w <= 0xff ==> BitOr(cell, w) == cell + w
  {
    Pow2Of8();
    BitOrBound(cell, w, 16);
    if cell % 0x100 == 0 && w <= 0xff {
      assert cell == cell / 0x100 * 0x100;
      BitOrOctet(cell / 0x100, w);
    }
  }

  lemma HighOctetMeaning(cell: U16, octet: int, v: nat)
    requires octet % 0x1_0000 == v % 0x1_0000
    ensures OrOctet(cell, octet, true) == BitOr(cell, v % 0x1_0000 * 0x100) % 0x1_0000
    ensures cell == 0 ==> OrOctet(cell, octet, true) == v % 0x100 * 0x100
  {
    assert LowWord(octet) == v % 0x1_0000;
    HighByte(v);
  }

  lemma LowOctetMeaning(cell: U16, octet: int, w: U16)
    requires octet % 0x1_0000 == w
    ensures OrOctet(cell, octet, false) == BitOr(cell, w)
    ensures cell % 0x100 == 0 && w <= 0xff ==> OrOctet(cell, octet, false) == cell + w
  {
    OrWord(cell, w);
  }

  lemma OctetIsOred(s: Reader)
    requires !s.hasError && s.embedding && s.v4Octets < 4 && s.v4Embedding <= 6
    requires AllDecimal(s.token) && AllHex(s.token)
    ensures var t, i := ParseComponent(s), s.v4Embedding + s.v4Octets / 2;
      t.hasError ||
      t == StoreComponent(s, i,
             OrOctet(s.out.components[i], Accumulated(s.token, 10), s.v4Octets % 2 == 0))
           .(v4Octets := s.v4Octets + 1, token := "")
  {
  }

  lemma AcceptedOctetIsStored(s: Reader)
    requires !s.hasError && s.embedding && s.v4Octets < 4 && s.v4Embedding <= 6
    requires AllDecimal(s.token) && AllHex(s.token)
    ensures ParseComponent(s).hasError || OctetStored(s, Value(s.token, 10), ParseComponent(s))
  {
    var v := Value(s.token, 10);
    OctetIsOred(s);
    WrappedModulo(v);
    var cell := s.out.components[s.v4Embedding + s.v4Octets / 2];
    HighOctetMeaning(cell, Accumulated(s.token, 10), v);
    LowOctetMeaning(cell, Accumulated(s.token, 10), v % 0x1_0000);
  }

  lemma DecimalAccumulation(token: string)
    requires AllDecimal(token) && AllHex(token)
    ensures var v := Value(token, 10);
      var w := v % 0x1_0000_0000;
      && Accumulated(token, 10) == (if w < 0x8000_0000 then w else w - 0x1_0000_0000)
      && (|token| <= 9 ==> w == v < 0x8000_0000)
  {
    var v := Value(token, 10);
    var q := v / 0x1_0000_0000;
    assert v == q * 0x1_0000_0000 + v % 0x1_0000_0000;
    WrapPeriod(v % 0x1_0000_0000, q);
    if |token| <= 9 {
      DecimalValueBound(token);
      PowerMonotone(10, |token|, 9);
      PowersOfTen();
    }
  }

  /** Octets, masks and ports: accepted exactly in their ranges for tokens of up to nine digits. For
      longer ones the value modulo 2^32 counts, and an octet may then also be 2^31 or more. */
  lemma DecimalAcceptance(s: Reader)
    requires !s.hasError && AllDecimal(s.token) && AllHex(s.token)
    ensures var v := Value(s.token, 10);
      var w := v % 0x1_0000_0000;
      && (s.embedding && s.v4Octets < 4 && s.v4Embedding <= 6 ==>
            && (!ParseComponent(s).hasError <==> w <= 0xff || w >= 0x8000_0000)
            && (!ParseComponent(s).hasError ==> OctetStored(s, v, ParseComponent(s)))
            && (ParseComponent(s).hasError ==> ParseComponent(s).diags == s.diags + [V4ComponentOutOfRange]))
      && (!ParseCidr(s).hasError <==> w <= 128)
      && (!ParsePort(s).hasError <==> w <= 0xffff)
      && (!ParseCidr(s).hasError ==> ParseCidr(s).out.mask == w)
      && (!ParsePort(s).hasError ==> ParsePort(s).out.port == w)
      && (ParseCidr(s).hasError ==> ParseCidr(s).diags == s.diags + [InvalidCidrMask])
      && (ParsePort(s).hasError ==> ParsePort(s).diags == s.diags + [InvalidPort])
      && (|s.token| <= 9 ==> w == v < 0x8000_0000)
  {
    DecimalAccumulation(s.token);
    if s.embedding && s.v4Octets < 4 && s.v4Embedding <= 6 {
      AcceptedOctetIsStored(s);
    }
  }

  /** A ninth group and a fifth octet are one too many, whatever their value. */
  lemma NoRoomLeft(s: Reader)
    requires !s.hasError && AllHex(s.token)
    ensures !s.embedding && s.components == 8 ==>
      ParseComponent(s).hasError && ParseComponent(s).diags == s.diags + [V6BadComponentCount]
    ensures s.embedding && s.v4Octets == 4 && AllDecimal(s.token) ==>
      ParseComponent(s).hasError && ParseComponent(s).diags == s.diags + [V4BadComponentCount]
  {
  }

  lemma TimesSixteen(s: string, v: nat)
    requires AllHex(s) && Value(s, 16) == v
    ensures AllHex(s + "0") && Value(s + "0", 16) == v * 16
  {
    ValueSnoc(s, '0', 16);
  }

  lemma EightyMillionHex()
    ensures AllHex("80000000") && Value("80000000", 16) == 0x8000_0000
  {
    ValueSnoc("", '8', 16);
    assert "" + ['8'] == "8";
    assert "8" + "0" == "80";
    TimesSixteen("8", 8);
    assert "80" + "0" == "800";
    TimesSixteen("80", 0x80);
    assert "800" + "0" == "8000";
    TimesSixteen("800", 0x800);
    assert "8000" + "0" == "80000";
    TimesSixteen("8000", 0x8000);
    assert "80000" + "0" == "800000";
    TimesSixteen("80000", 0x8_0000);
    assert "800000" + "0" == "8000000";
    TimesSixteen("800000", 0x80_0000);
    assert "8000000" + "0" == "80000000";
    TimesSixteen("8000000", 0x800_0000);
  }

  /** Eight hexadecimal digits can be too many: 80000000 is stored as the group 0. */
  lemma WideGroupIsStored()
    ensures var s := INITIAL.(current := AddrComponent, token := "80000000");
      && AllHex(s.token) && Value(s.token, 16) > 0xffff
      && ParseComponent(s) == INITIAL.(current := AddrComponent, components := 1)
  {
    EightyMillionHex();
    assert Wrap32(0x8000_0000) % 0x1_0000 == 0;
    assert ZERO_COMPONENTS[0 := 0] == ZERO_COMPONENTS;
  }

  /** A reader inside a compatible quad, between octets. */
  ghost predicate BetweenOctets(s: Reader, octets: nat)
  {
    && !s.hasError && s.diags == [] && s.current == Start
    && s.embedding && s.compat && s.v4Embedding == 0 && s.v4Octets == octets
  }

  lemma FirstOctetRead()
    ensures BetweenOctets(Run(INITIAL, "1."), 1)
  {
    TwoCharacters(INITIAL, '1', '.');
  }

  lemma NextOctetRead(s: Reader, d: char)
    requires BetweenOctets(s, 1) && IsDecimal(d)
    ensures BetweenOctets(Run(s, [d, '.']), 2)
  {
    TwoCharacters(s, d, '.');
  }

  lemma LetterOctetFails(s: Reader)
    requires BetweenOctets(s, 2)
    ensures var u := Run(s, "a");
      !u.hasError && Conclude(u).1.diags == [InvalidInput, V4BadComponentCount]
  {
    RunOne(s, 'a');
    var t := Run(s, "a");
    assert t.current == AddrComponent && !AllDecimal(t.token) by { assert !IsDecimal(t.token[|t.token| - 1]); }
  }

  /** A letter in the last octet is reported twice: as a character that is not a decimal digit, and
      as an incomplete quad. */
  lemma TwoDiagnosticsAreReachable()
    ensures ParseText("1.2.a").diags == [InvalidInput, V4BadComponentCount]
  {
    FirstOctetRead();
    NextOctetRead(Run(INITIAL, "1."), '2');
    LetterOctetFails(Run(Run(INITIAL, "1."), "2."));
    assert "1.2.a" == "1." + ("2." + "a");
    RunAppend(INITIAL, "1.", "2." + "a");
    RunAppend(Run(INITIAL, "1."), "2.", "a");
  }

  lemma OneDigit(d: char)
    requires IsDecimal(d)
    ensures AllDecimal([d]) && AllHex([d])
    ensures 0 <= Accumulated([d], 10) <= 9 && 0 <= Accumulated([d], 16) <= 9
  {
    ValueSnoc("", d, 10);
    ValueSnoc("", d, 16);
    assert "" + [d] == [d];
  }

  /** A digit between components and the dot after it. */
  lemma TwoCharacters(s: Reader, d: char, dot: char)
    requires !s.hasError && s.current == Start && IsDecimal(d) && dot == '.'
    ensures Run(s, [d, dot]) == Step(s.(current := AddrComponent, token := [d]), dot)
    ensures AllDecimal([d]) && AllHex([d]) && 0 <= Accumulated([d], 10) <= 9 && 0 <= Accumulated([d], 16) <= 9
  {
    OneDigit(d);
    var t := s.(current := AddrComponent, token := [d]);
    assert Run(s, [d]) == t by {
      RunOne(s, d);
      assert "" + [d] == [d];
    }
    assert [d, dot] == [d] + [dot];
    RunAppend(s, [d], [dot]);
    RunOne(t, dot);
  }
}
