/** What the reader accepts beyond the standard, as laws over all texts: blanks, an opening bracket
    that is never closed, a stray colon at either end, and interface names. */
module Leniency {
  import opened Options
  import opened Text
  import opened ReaderSpec
  import opened Forms
  import opened FormReading

  // ----- blanks -----

  predicate IsBlank(c: char) { c == ' ' || c == '\t' || c == '\n' || c == '\r' }

  predicate AreBlanks(text: string) { forall k | 0 <= k < |text| :: IsBlank(text[k]) }

  lemma BlankClass(c: char)
    requires IsBlank(c)
    ensures Classify(c) == Some(Whitespace)
  {
  }

  lemma AnyBlank(s: Reader, c: char)
    ensures Transition(s, Whitespace, c) == Transition(s, Whitespace, ' ')
  {
  }

  lemma BlankStep(s: Reader, c: char)
    requires IsBlank(c)
    ensures Step(s, c) == Transition(s, Whitespace, ' ')
  {
    BlankClass(c);
    AnyBlank(s, c);
  }

  /** A second blank changes nothing. */
  lemma BlankTwice(s: Reader)
    ensures var t := Transition(s, Whitespace, ' '); t.hasError || Transition(t, Whitespace, ' ') == t
  {
  }

  lemma {:induction false} MoreBlanks(s: Reader, blanks: string)
    requires AreBlanks(blanks)
    requires s.hasError || Transition(s, Whitespace, ' ') == s
    ensures Run(s, blanks) == s
    decreases |blanks|
  {
    if blanks != "" && !s.hasError {
      BlankStep(s, blanks[0]);
      MoreBlanks(s, blanks[1..]);
    }
  }

  lemma RunBlanks(s: Reader, blanks: string)
    requires AreBlanks(blanks) && blanks != "" && !s.hasError
    ensures Run(s, blanks) == Transition(s, Whitespace, ' ')
  {
    BlankStep(s, blanks[0]);
    BlankTwice(s);
    MoreBlanks(Step(s, blanks[0]), blanks[1..]);
  }

  /** Blanks before a text change nothing, whatever the text is. */
  lemma BlanksBefore(blanks: string, text: string)
    requires AreBlanks(blanks)
    ensures ParseText(blanks + text) == ParseText(text)
  {
    RunAppend(INITIAL, blanks, text);
    MoreBlanks(INITIAL, blanks);
  }

  /** Blanks after a text change neither the verdict nor, if it is accepted, the address. */
  lemma BlanksAfter(text: string, blanks: string)
    requires AreBlanks(blanks)
    ensures ParseText(text + blanks).ok == ParseText(text).ok
    ensures ParseText(text).ok ==> ParseText(text + blanks) == ParseText(text)
  {
    RunAppend(INITIAL, text, blanks);
    var s := Run(INITIAL, text);
    if blanks == "" {
      assert text + blanks == text;
    } else if !s.hasError {
      RunBlanks(s, blanks);
      BlankTwice(s);
    }
  }

  /** Between two texts all blanks, and any number of them, are the same. */
  lemma BlanksBetween(left: string, blanks: string, others: string, right: string)
    requires AreBlanks(blanks) && blanks != "" && AreBlanks(others) && others != ""
    ensures ParseText(left + (blanks + right)) == ParseText(left + (others + right))
  {
    var s := Run(INITIAL, left);
    RunAppend(INITIAL, left, blanks + right);
    RunAppend(INITIAL, left, others + right);
    RunAppend(s, blanks, right);
    RunAppend(s, others, right);
    if !s.hasError {
      RunBlanks(s, blanks);
      RunBlanks(s, others);
    }
  }

  // ----- brackets -----

  /** The count of brackets only matters for an opening bracket. */
  lemma GroupIgnoresBrackets(s: Reader, b: nat)
    ensures ParseV6Component(s.(brackets := b)) == ParseV6Component(s).(brackets := b)
  {
    TokenIgnoresBrackets(s, 16, b);
  }

  lemma TokenIgnoresBrackets(s: Reader, base: nat, b: nat)
    requires base == 10 || base == 16
    ensures var (t, v) := ReadToken(s, base); ReadToken(s.(brackets := b), base) == (t.(brackets := b), v)
  {
  }

  predicate OctetIsStored(s: Reader)
  {
    var (t, octet) := ReadToken(s, 10);
    t.v4Octets < 4 && octet <= 0xff && t.v4Embedding <= 6
  }

  lemma StoredOctetIgnoresBrackets(s: Reader, b: nat)
    requires OctetIsStored(s)
    ensures ParseV4Component(s.(brackets := b)) == ParseV4Component(s).(brackets := b)
  {
    var (t, octet) := ReadToken(s, 10);
    TokenIgnoresBrackets(s, 10, b);
    StoreIgnoresBrackets(t, octet, b);
  }

  lemma BadOctetIgnoresBrackets(s: Reader, b: nat)
    requires !OctetIsStored(s)
    ensures ParseV4Component(s.(brackets := b)) == ParseV4Component(s).(brackets := b)
  {
    TokenIgnoresBrackets(s, 10, b);
  }

  lemma OctetIgnoresBrackets(s: Reader, b: nat)
    ensures ParseV4Component(s.(brackets := b)) == ParseV4Component(s).(brackets := b)
  {
    if OctetIsStored(s) {
      StoredOctetIgnoresBrackets(s, b);
    } else {
      BadOctetIgnoresBrackets(s, b);
    }
  }

  lemma StoreIgnoresBrackets(t: Reader, octet: int, b: nat)
    requires t.v4Octets < 4 && octet <= 0xff && t.v4Embedding <= 6
    ensures var i := t.v4Embedding + t.v4Octets / 2;
      var cell := OrOctet(t.out.components[i], octet, t.v4Octets % 2 == 0);
      StoreComponent(t.(brackets := b), i, cell) == StoreComponent(t, i, cell).(brackets := b)
  {
  }

  lemma ComponentIgnoresBrackets(s: Reader, b: nat)
    ensures ParseComponent(s.(brackets := b)) == ParseComponent(s).(brackets := b)
  {
    GroupIgnoresBrackets(s, b);
    OctetIgnoresBrackets(s, b);
  }

  lemma MaskIgnoresBrackets(s: Reader, b: nat)
    ensures ParseCidr(s.(brackets := b)) == ParseCidr(s).(brackets := b)
  {
    TokenIgnoresBrackets(s, 10, b);
  }

  lemma PortIgnoresBrackets(s: Reader, b: nat)
    ensures ParsePort(s.(brackets := b)) == ParsePort(s).(brackets := b)
  {
    TokenIgnoresBrackets(s, 10, b);
  }

  lemma BeginIgnoresBrackets(s: Reader, b: nat)
    ensures BeginEmbedding(s.(brackets := b)) == BeginEmbedding(s).(brackets := b)
  {
  }

  lemma DotIgnoresBrackets(s: Reader, b: nat)
    ensures FromAddrComponent(s.(brackets := b), V4Separator, '.') ==
            FromAddrComponent(s, V4Separator, '.').(brackets := b)
  {
    BeginIgnoresBrackets(s, b);
    ComponentIgnoresBrackets(BeginEmbedding(s), b);
  }

  lemma EndIgnoresBrackets(s: Reader, input: EventClass, c: char, b: nat)
    requires input == CloseBracket || input == Whitespace || input == IfaceMark || input == CidrMask
    ensures FromAddrComponent(s.(brackets := b), input, c) == FromAddrComponent(s, input, c).(brackets := b)
  {
    ComponentIgnoresBrackets(s, b);
  }

  lemma ColonIgnoresBrackets(s: Reader, b: nat)
    ensures FromAddrComponent(s.(brackets := b), V6ComponentSep, ':') ==
            FromAddrComponent(s, V6ComponentSep, ':').(brackets := b)
  {
    ComponentIgnoresBrackets(s, b);
  }

  lemma GotoIgnoresBrackets(d: Reader, st: State, b: nat)
    ensures Goto(d.(brackets := b), st) == Goto(d, st).(brackets := b)
  {
  }

  /** The state that an input leads to from a prefix length, or none if it is an error. */
  function AfterCidr(input: EventClass): Option<State>
  {
    match input
    case CloseBracket => Some(PostAddr)
    case Whitespace => Some(Start)
    case IfaceMark => Some(Iface)
    case _ => None
  }

  lemma CidrByInput(s: Reader, input: EventClass, c: char)
    requires s.current == Cidr && input != Digit
    ensures Transition(s, input, c) ==
      if AfterCidr(input).Some? then Goto(ParseCidr(s), AfterCidr(input).value) else Fail(s, InvalidInput)
  {
  }

  lemma CidrIgnoresBrackets(s: Reader, input: EventClass, c: char, b: nat)
    requires s.current == Cidr
    ensures Transition(s.(brackets := b), input, c) == Transition(s, input, c).(brackets := b)
  {
    if input != Digit {
      CidrByInput(s, input, c);
      CidrByInput(s.(brackets := b), input, c);
      MaskIgnoresBrackets(s, b);
      if AfterCidr(input).Some? { GotoIgnoresBrackets(ParseCidr(s), AfterCidr(input).value, b); }
    }
  }

  lemma PortByInput(s: Reader, input: EventClass, c: char)
    requires s.current == Port && input != Digit
    ensures Transition(s, input, c) ==
      if input == Whitespace then Goto(ParsePort(s), Start) else Fail(s, InvalidInput)
  {
  }

  lemma FromPortIgnoresBrackets(s: Reader, input: EventClass, c: char, b: nat)
    requires s.current == Port
    ensures Transition(s.(brackets := b), input, c) == Transition(s, input, c).(brackets := b)
  {
    if input != Digit {
      PortByInput(s, input, c);
      PortByInput(s.(brackets := b), input, c);
      PortIgnoresBrackets(s, b);
      GotoIgnoresBrackets(ParsePort(s), Start, b);
    }
  }

  lemma StartIgnoresBrackets(s: Reader, input: EventClass, c: char, b: nat)
    requires input != OpenBracket
    requires s.current == Start
    ensures Transition(s.(brackets := b), input, c) == Transition(s, input, c).(brackets := b)
  {
  }

  lemma SeparatorIgnoresBrackets(s: Reader, input: EventClass, c: char, b: nat)
    requires s.current == V6Separator
    ensures Transition(s.(brackets := b), input, c) == Transition(s, input, c).(brackets := b)
  {
  }

  lemma IfaceIgnoresBrackets(s: Reader, input: EventClass, c: char, b: nat)
    requires s.current == Iface
    ensures Transition(s.(brackets := b), input, c) == Transition(s, input, c).(brackets := b)
  {
  }

  lemma PostAddrIgnoresBrackets(s: Reader, input: EventClass, c: char, b: nat)
    requires s.current == PostAddr
    ensures Transition(s.(brackets := b), input, c) == Transition(s, input, c).(brackets := b)
  {
  }

  lemma PendingIgnoresBrackets(s: Reader, input: EventClass, c: char, b: nat)
    requires s.current == AddrComponent
    ensures Transition(s.(brackets := b), input, c) == Transition(s, input, c).(brackets := b)
  {
    match input
    case Digit =>
    case HexLetter =>
    case OpenBracket =>
    case V4Separator => DotIgnoresBrackets(s, b);
    case V6ComponentSep => ColonIgnoresBrackets(s, b);
    case _ => EndIgnoresBrackets(s, input, c, b);
  }

  lemma TransitionIgnoresBrackets(s: Reader, input: EventClass, c: char, b: nat)
    requires input != OpenBracket
    ensures Transition(s.(brackets := b), input, c) == Transition(s, input, c).(brackets := b)
  {
    match s.current
    case Start => StartIgnoresBrackets(s, input, c, b);
    case AddrComponent => PendingIgnoresBrackets(s, input, c, b);
    case V6Separator => SeparatorIgnoresBrackets(s, input, c, b);
    case Iface => IfaceIgnoresBrackets(s, input, c, b);
    case Cidr => CidrIgnoresBrackets(s, input, c, b);
    case PostAddr => PostAddrIgnoresBrackets(s, input, c, b);
    case Port => FromPortIgnoresBrackets(s, input, c, b);
    case Failed =>
  }

  lemma StepIgnoresBrackets(s: Reader, c: char, b: nat)
    requires c != '['
    ensures Step(s.(brackets := b), c) == Step(s, c).(brackets := b)
  {
    match Classify(c)
    case None =>
    case Some(input) => TransitionIgnoresBrackets(s, input, c, b);
  }

  lemma {:induction false} RunIgnoresBrackets(s: Reader, text: string, b: nat)
    requires '[' !in text
    ensures Run(s.(brackets := b), text) == Run(s, text).(brackets := b)
    decreases |text|
  {
    if text != "" && !s.hasError {
      StepIgnoresBrackets(s, text[0], b);
      RunIgnoresBrackets(Step(s, text[0]), text[1..], b);
    }
  }

  lemma ConcludeIgnoresBrackets(s: Reader, b: nat)
    ensures Conclude(s.(brackets := b)).0 == Conclude(s).0
    ensures Conclude(s.(brackets := b)).1.out == Conclude(s).1.out
    ensures Conclude(s.(brackets := b)).1.diags == Conclude(s).1.diags
  {
    TransitionIgnoresBrackets(s, Whitespace, ' ', b);
  }

  /** An opening bracket in front changes nothing, closed or not. */
  lemma OpeningBracketIsIgnored(text: string)
    requires '[' !in text
    ensures ParseText("[" + text) == ParseText(text)
  {
    RunAppend(INITIAL, "[", text);
    RunOne(INITIAL, '[');
    RunIgnoresBrackets(INITIAL, text, 1);
    ConcludeIgnoresBrackets(Run(INITIAL, text), 1);
  }

  // ----- stray colons -----

  /** A colon before a text that begins with a digit changes nothing. */
  lemma LeadingColonIsIgnored(text: string)
    requires text != "" && IsHex(text[0])
    ensures ParseText(":" + text) == ParseText(text)
  {
    RunAppend(INITIAL, ":", text);
    RunOne(INITIAL, ':');
    assert Step(Step(INITIAL, ':'), text[0]) == Step(INITIAL, text[0]);
  }

  /** A reader that has met nothing but groups, colons, brackets and blanks. */
  ghost predicate Plain(s: Reader)
  {
    && !s.embedding && !s.compat
    && (s.current == Start || s.current == AddrComponent || s.current == V6Separator)
  }

  predicate IsPlain(c: char) { c != '.' && c != '/' && c != '%' && c != ']' }

  lemma PlainInput(s: Reader, input: EventClass, c: char)
    requires Plain(s) && input != V4Separator && input != CidrMask && input != IfaceMark && input != CloseBracket
    ensures var t := Transition(s, input, c); t.hasError || Plain(t)
  {
  }

  lemma PlainStep(s: Reader, c: char)
    requires Plain(s) && IsPlain(c)
    ensures Step(s, c).hasError || Plain(Step(s, c))
    ensures IsHex(c) ==> Step(s, c).current == AddrComponent && Step(s, c).hasError == s.hasError
  {
    match Classify(c)
    case None =>
    case Some(OpenBracket) => PlainInput(s.(brackets := s.brackets + 1), OpenBracket, c);
    case Some(input) => PlainInput(s, input, c);
  }

  lemma {:induction false} PlainRun(s: Reader, text: string)
    requires Plain(s) && forall k | 0 <= k < |text| :: IsPlain(text[k])
    ensures Run(s, text).hasError || Plain(Run(s, text))
    decreases |text|
  {
    if text != "" && !s.hasError {
      PlainStep(s, text[0]);
      if !Step(s, text[0]).hasError {
        PlainRun(Step(s, text[0]), text[1..]);
      }
    }
  }

  lemma PlainEnd(text: string)
    requires text != "" && IsHex(text[|text| - 1]) && forall k | 0 <= k < |text| :: IsPlain(text[k])
    ensures var s := Run(INITIAL, text); s.hasError || (Plain(s) && s.current == AddrComponent)
  {
    var n := |text| - 1;
    PlainRun(INITIAL, text[..n]);
    assert text == text[..n] + [text[n]];
    RunAppend(INITIAL, text[..n], [text[n]]);
    if !Run(INITIAL, text[..n]).hasError {
      RunPrefix(INITIAL, text, n);
      assert text[..n + 1] == text;
      PlainStep(Run(INITIAL, text[..n]), text[n]);
    }
  }

  lemma ColonOrEnd(s: Reader)
    requires !s.hasError && Plain(s) && s.current == AddrComponent
    ensures var t := Step(s, ':');
      if t.hasError then
        var u := Transition(s, Whitespace, ' '); u.hasError && u.out == t.out && u.diags == t.diags && !u.embedding
      else Transition(t, Whitespace, ' ') == Transition(s, Whitespace, ' ')
  {
  }

  /** A colon after groups changes nothing. */
  lemma TrailingColonIsIgnored(text: string)
    requires text != "" && IsHex(text[|text| - 1]) && forall k | 0 <= k < |text| :: IsPlain(text[k])
    ensures ParseText(text + ":") == ParseText(text)
  {
    PlainEnd(text);
    RunAppend(INITIAL, text, ":");
    var s := Run(INITIAL, text);
    if !s.hasError {
      RunOne(s, ':');
      ColonOrEnd(s);
    }
  }

  // ----- interface names -----

  /** The characters that an interface name can hold: the alphabet without blanks and "]". */
  predicate IsNameCharacter(c: char) { IsHex(c) || c == ':' || c == '.' || c == '/' || c == '%' || c == '[' }

  lemma {:induction false} ReadName(s: Reader, name: string) returns (b: nat)
    requires !s.hasError && s.current == Iface
    requires forall k | 0 <= k < |name| :: IsNameCharacter(name[k])
    ensures Run(s, name) == s.(brackets := b)
    decreases |name|
  {
    b := s.brackets;
    if name != "" {
      b := if name[0] == '[' then s.brackets + 1 else s.brackets;
      assert Step(s, name[0]) == s.(brackets := b);
      b := ReadName(s.(brackets := b), name[1..]);
    }
  }

  /** Where a name can begin, "%" ends what is pending like the end of the text does. */
  lemma PercentStep(t: Reader)
    requires t.current == AddrComponent || t.current == V6Separator || t.current == Cidr
    ensures Step(t, '%') == Transition(t, Whitespace, ' ').(current := Iface)
  {
  }

  /** After a name, what was pending before it has ended. */
  lemma ReadPercentName(t: Reader, d: Reader, name: string) returns (b: nat)
    requires !t.hasError && !d.hasError && Transition(t, Whitespace, ' ') == Goto(d, Start)
    requires t.current == AddrComponent || t.current == V6Separator || t.current == Cidr
    requires forall k | 0 <= k < |name| :: IsNameCharacter(name[k])
    ensures Run(t, "%" + name) == Goto(d, Iface).(brackets := b)
  {
    RunAppend(t, "%", name);
    RunOne(t, '%');
    PercentStep(t);
    assert Goto(d, Start).(current := Iface) == Goto(d, Iface);
    b := ReadName(Goto(d, Iface), name);
  }

  ghost predicate CanTakeName(t: Reader)
  {
    && !t.hasError && (t.current == AddrComponent || t.current == V6Separator || t.current == Cidr)
    && !Transition(t, Whitespace, ' ').hasError
  }

  /** What closes a name closes what was pending before it in the same way. */
  lemma AfterName(t: Reader, c: char)
    requires CanTakeName(t) && (c == ']' || IsBlank(c))
    ensures Step(Transition(t, Whitespace, ' ').(current := Iface), c) == Step(t, c)
  {
    if IsBlank(c) {
      BlankStep(t, c);
      BlankStep(Transition(t, Whitespace, ' ').(current := Iface), c);
    }
  }

  lemma EndedIsStart(t: Reader)
    requires CanTakeName(t)
    ensures var d := Transition(t, Whitespace, ' ');
      d == Goto(d, Start) && Goto(d, Iface) == d.(current := Iface) && Transition(Goto(d, Iface), Whitespace, ' ') == d
  {
  }

  lemma NameThenRest(t: Reader, name: string, rest: string) returns (b: nat)
    requires CanTakeName(t) && '[' !in rest
    requires forall k | 0 <= k < |name| :: IsNameCharacter(name[k])
    requires rest != "" && (rest[0] == ']' || IsBlank(rest[0]))
    ensures Run(t, "%" + name + rest) == Run(t, rest).(brackets := b)
  {
    var d := Transition(t, Whitespace, ' ');
    EndedIsStart(t);
    b := ReadPercentName(t, d, name);
    RunAppend(t, "%" + name, rest);
    var u := Goto(d, Iface);
    assert u == d.(current := Iface);
    RunIgnoresBrackets(u, rest, b);
    AfterName(t, rest[0]);
  }

  lemma NameThenEnd(t: Reader, name: string)
    requires CanTakeName(t) && forall k | 0 <= k < |name| :: IsNameCharacter(name[k])
    ensures var u := Run(t, "%" + name);
      && !u.hasError && Conclude(u).0 == Conclude(t).0
      && Conclude(u).1.out == Conclude(t).1.out && Conclude(u).1.diags == Conclude(t).1.diags
  {
    var d := Transition(t, Whitespace, ' ');
    EndedIsStart(t);
    var b := ReadPercentName(t, d, name);
    var u := Goto(d, Iface);
    SameEnd(u, t);
    ConcludeIgnoresBrackets(u, b);
  }

  lemma SameEnd(s: Reader, t: Reader)
    requires Transition(s, Whitespace, ' ') == Transition(t, Whitespace, ' ')
    ensures Conclude(s) == Conclude(t)
  {
  }

  /** An interface name is read over, wherever one can stand: what follows it is the end of the text,
      a closing bracket or a blank. */
  lemma NameIsIgnored(before: string, name: string, rest: string)
    requires CanTakeName(Run(INITIAL, before)) && '[' !in rest
    requires forall k | 0 <= k < |name| :: IsNameCharacter(name[k])
    requires rest == "" || rest[0] == ']' || IsBlank(rest[0])
    ensures ParseText(before + ("%" + name + rest)) == ParseText(before + rest)
  {
    var t := Run(INITIAL, before);
    RunAppend(INITIAL, before, "%" + name + rest);
    RunAppend(INITIAL, before, rest);
    if rest == "" {
      assert "%" + name + rest == "%" + name;
      NameThenEnd(t, name);
    } else {
      var b := NameThenRest(t, name, rest);
      if !Run(t, rest).hasError { ConcludeIgnoresBrackets(Run(t, rest), b); }
    }
  }

  /** A well-formed text up to its port. */
  function UpToPort(f: Form): string
    requires f.quad == [] || |f.quad| == 4
  {
    (if f.port.Some? then "[" else "") + Body(f) + MaskText(f.mask)
  }

  lemma NameCanFollow(f: Form)
    requires WellFormed(f)
    ensures CanTakeName(Run(INITIAL, UpToPort(f)))
  {
    var prefix := (if f.port.Some? then "[" else "") + Body(f);
    var d := ReadBody(f);
    RunAppend(INITIAL, prefix, MaskText(f.mask));
    if f.mask.Some? {
      var d' := ReadMask(Run(INITIAL, prefix), d, f.mask.value);
    }
  }

  /** Every well-formed text can have an interface name after its address or mask, and denotes the
      same address with it. */
  lemma NamedFormsAreAccepted(f: Form, name: string)
    requires WellFormed(f) && forall k | 0 <= k < |name| :: IsNameCharacter(name[k])
    ensures ParseText(UpToPort(f) + ("%" + name + PortText(f.port))) == Result(true, DenotedAddress(f), [])
  {
    NameCanFollow(f);
    assert f.port.Some? ==> '[' !in PortText(f.port);
    NameIsIgnored(UpToPort(f), name, PortText(f.port));
    assert UpToPort(f) + PortText(f.port) == TextOfForm(f);
    FormsAreAccepted(f);
  }

  // ----- blanks before a port -----

  lemma MoreBlanksAfterBracket(d: Reader, blanks: string)
    requires AreBlanks(blanks) && !d.hasError
    ensures Run(Goto(d, PostAddr), blanks) == Goto(d, PostAddr)
  {
    assert Transition(Goto(d, PostAddr), Whitespace, ' ') == Goto(d, PostAddr);
    MoreBlanks(Goto(d, PostAddr), blanks);
  }

  lemma BlanksBeforeColon(t: Reader, d: Reader, blanks: string, port: string)
    requires Ends(t, d) && AreBlanks(blanks)
    ensures Run(t, "]" + (blanks + (":" + port))) == Run(t, "]:" + port)
  {
    assert "]:" + port == "]" + (":" + port);
    RunAppend(t, "]", blanks + (":" + port));
    RunAppend(t, "]", ":" + port);
    RunOne(t, ']');
    RunAppend(Goto(d, PostAddr), blanks, ":" + port);
    MoreBlanksAfterBracket(d, blanks);
  }

  /** Blanks between the bracket and the port change nothing. */
  lemma BlanksBeforePort(f: Form, blanks: string)
    requires WellFormed(f) && f.port.Some? && AreBlanks(blanks)
    ensures ParseText(UpToPort(f) + ("]" + (blanks + (":" + f.port.value)))) == Result(true, DenotedAddress(f), [])
  {
    var t := Run(INITIAL, UpToPort(f));
    var d := EndsBeforePort(f);
    RunAppend(INITIAL, UpToPort(f), "]" + (blanks + (":" + f.port.value)));
    RunAppend(INITIAL, UpToPort(f), "]:" + f.port.value);
    BlanksBeforeColon(t, d, blanks, f.port.value);
    assert UpToPort(f) + ("]:" + f.port.value) == TextOfForm(f);
    FormsAreAccepted(f);
  }

  lemma EndsBeforePort(f: Form) returns (d: Reader)
    requires WellFormed(f)
    ensures Ends(Run(INITIAL, UpToPort(f)), d)
  {
    var prefix := (if f.port.Some? then "[" else "") + Body(f);
    d := ReadBody(f);
    RunAppend(INITIAL, prefix, MaskText(f.mask));
    if f.mask.Some? {
      d := ReadMask(Run(INITIAL, prefix), d, f.mask.value);
    }
  }
}
