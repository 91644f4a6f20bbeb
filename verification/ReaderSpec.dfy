/** The address reader as a function on values: what one character, and then the end of the text,
    do to the reader. Here the pending token is the text read so far for it; the class in
    Reader.dfy keeps a position and a length into the input instead. */
module ReaderSpec {
  import opened Options
  import opened Text
  import opened Address

  datatype State =
    | Start          // STATE_NONE
    | AddrComponent
    | V6Separator
    | Cidr
    | Iface
    | Port
    | PostAddr
    | Failed         // STATE_ERROR

  datatype EventClass =
    | Digit
    | HexLetter
    | V4Separator
    | V6ComponentSep
    | CidrMask
    | IfaceMark
    | OpenBracket
    | CloseBracket
    | Whitespace

  datatype Diag =
    | StringSizeExceeded
    | InvalidInput
    | InvalidInputChar
    | V6BadComponentCount
    | V4BadComponentCount
    | V6ComponentOutOfRange
    | V4ComponentOutOfRange
    | InvalidPort
    | InvalidCidrMask
    | V4RequiredBits
    | V4IncorrectPosition
    | InvalidBrackets
    | InvalidAbbrev

  type Count4 = x: int | 0 <= x <= 4
  type Count8 = x: int | 0 <= x <= 8

  datatype Reader = Reader(
    current: State,
    token: string,
    components: Count8,
    brackets: nat,
    zerorun: Count8,
    v4Embedding: Count8,
    v4Octets: Count4,
    hasZerorun: bool,
    hasError: bool,
    embedding: bool,
    compat: bool,
    out: AddressFull,
    diags: seq<Diag>)

  const INITIAL := Reader(Start, "", 0, 0, 0, 0, 0, false, false, false, false, ZERO_ADDRESS, [])

  function Classify(c: char): Option<EventClass>
  {
    if IsDecimal(c) then Some(Digit)
    else if IsHex(c) then Some(HexLetter)
    else match c
      case ':' => Some(V6ComponentSep)
      case '.' => Some(V4Separator)
      case '/' => Some(CidrMask)
      case '%' => Some(IfaceMark)
      case '[' => Some(OpenBracket)
      case ']' => Some(CloseBracket)
      case ' ' => Some(Whitespace)
      case '\t' => Some(Whitespace)
      case '\n' => Some(Whitespace)
      case '\r' => Some(Whitespace)
      case _ => None
  }

  // ----- small steps -----

  /** ipv6_error: the callback is called and the error flag sticks. */
  function Fail(s: Reader, d: Diag): Reader
  {
    s.(diags := s.diags + [d], hasError := true, current := Failed, token := "")
  }

  /** CHANGE_STATE to a state that has no token, or that begins an empty one. */
  function Goto(s: Reader, st: State): Reader
  {
    s.(current := st, token := "")
  }

  function Grow(s: Reader, st: State, c: char): Reader
  {
    s.(current := st, token := s.token + [c])
  }

  /** The 32-bit result of a token loop that met only digits of its base. */
  function Accumulated(token: string, base: nat): int
    requires AllHex(token)
  {
    Wrap32(Value(token, base))
  }

  /** The state a token loop leaves, and its result: a character outside the base is reported and
      the result is then 0. */
  function ReadToken(s: Reader, base: nat): (Reader, int)
    requires base == 10 || base == 16
  {
    if base == 10 && AllDecimal(s.token) then (s, Accumulated(s.token, 10))
    else if base == 16 && AllHex(s.token) then (s, Accumulated(s.token, 16))
    else (Fail(s, InvalidInput), 0)
  }

  function StoreComponent(s: Reader, i: int, v: U16): Reader
    requires 0 <= i < 8
  {
    s.(out := s.out.(components := s.out.components[i := v]))
  }

  /** ipv6_parse_component, lines 265-285. The range check has no lower bound. */
  function ParseV6Component(s: Reader): Reader
  {
    var (s1, component) := ReadToken(s, 16);
    if s1.components >= 8 then Fail(s1, V6BadComponentCount)
    else if component > 0xffff then Fail(s1, V6ComponentOutOfRange)
    else
      StoreComponent(s1, s1.components, component % 0x1_0000)
      .(components := s1.components + 1, token := "")
  }

  /** The conversion to uint16_t. */
  function LowWord(x: int): (w: U16)
    ensures w == x % 0x1_0000
  {
    if 0 <= x < 0x1_0000 then x else x % 0x1_0000
  }

  /** The 16-bit cell after an octet has been shifted into place and or-ed in. */
  function OrOctet(cell: U16, octet: int, high: bool): U16
  {
    var half := LowWord(octet);
    LowWord(BitOr(cell, if high then half * 0x100 else half))
  }

  /** ipv4_parse_component, lines 288-320. */
  function ParseV4Component(s: Reader): Reader
  {
    var (s1, octet) := ReadToken(s, 10);
    if s1.v4Octets >= 4 then Fail(s1, V4BadComponentCount)
    else if octet > 0xff then Fail(s1, V4ComponentOutOfRange)
    else if s1.v4Embedding > 6 then Fail(s1, V4RequiredBits)
    else
      var i := s1.v4Embedding + s1.v4Octets / 2;
      StoreComponent(s1, i, OrOctet(s1.out.components[i], octet, s1.v4Octets % 2 == 0))
      .(v4Octets := s1.v4Octets + 1, token := "")
  }

  function ParseComponent(s: Reader): Reader
  {
    if s.embedding then ParseV4Component(s) else ParseV6Component(s)
  }

  function ParseCidr(s: Reader): Reader
  {
    var (s1, mask) := ReadToken(s, 10);
    if -1 < mask < 129 then
      s1.(out := s1.out.(mask := mask, flags := s1.out.flags.(maskOrEmbed := true)))
    else Fail(s1, InvalidCidrMask)
  }

  function ParsePort(s: Reader): Reader
  {
    var (s1, port) := ReadToken(s, 10);
    if -1 < port <= 0xffff then
      s1.(out := s1.out.(port := port, flags := s1.out.flags.(hasPort := true)))
    else Fail(s1, InvalidPort)
  }

  // ----- the transition function, one function per state -----

  function FromStart(s: Reader, input: EventClass, c: char): Reader
  {
    match input
    case Digit => Grow(s.(token := ""), AddrComponent, c)
    case HexLetter => Grow(s.(token := ""), AddrComponent, c)
    case OpenBracket => if s.brackets == 1 then s else Fail(s, InvalidBrackets)
    case CloseBracket => Goto(s, PostAddr)
    case V6ComponentSep => Goto(s, V6Separator)
    case CidrMask => Goto(s, Cidr)
    case Whitespace => s
    case _ => Fail(s, InvalidInput)
  }

  /** The first dot marks where the embedding begins and reserves two components. */
  function BeginEmbedding(s: Reader): Reader
  {
    if s.embedding then s
    else
      var s1 := s.(v4Embedding := s.components, embedding := true);
      if s.components >= 7 then Fail(s1, V4RequiredBits)
      else s1.(compat := s.compat || s.components == 0, components := s.components + 2)
  }

  function FromAddrComponent(s: Reader, input: EventClass, c: char): Reader
  {
    match input
    case Digit => Grow(s, AddrComponent, c)
    case HexLetter => Grow(s, AddrComponent, c)
    case CloseBracket => Goto(ParseComponent(s), PostAddr)
    case Whitespace => Goto(ParseComponent(s), Start)
    case V6ComponentSep =>
      if s.compat then Goto(ParseComponent(s), Port)
      else if s.embedding then Fail(s, V4IncorrectPosition)
      else Goto(ParseComponent(s), V6Separator)
    case V4Separator =>
      var s1 := BeginEmbedding(s);
      if !s.embedding && s.components >= 7 then s1
      else Goto(ParseComponent(s1), Start)
    case IfaceMark => Goto(ParseComponent(s), Iface)
    case CidrMask => Goto(ParseComponent(s), Cidr)
    case OpenBracket => Fail(s, InvalidInput)
  }

  function FromV6Separator(s: Reader, input: EventClass, c: char): Reader
  {
    match input
    case V6ComponentSep =>
      if s.hasZerorun then Fail(s, InvalidAbbrev)
      else s.(zerorun := s.components, hasZerorun := true)
    case Whitespace => Goto(s, Start)
    case CloseBracket => Goto(s, PostAddr)
    case OpenBracket => Fail(s, InvalidBrackets)
    case Digit => Grow(s.(token := ""), AddrComponent, c)
    case HexLetter => Grow(s.(token := ""), AddrComponent, c)
    case IfaceMark => Goto(s, Iface)
    case CidrMask => Goto(s, Cidr)
    case V4Separator => Fail(s, InvalidInput)
  }

  function FromIface(s: Reader, input: EventClass): Reader
  {
    match input
    case Whitespace => Goto(s, Start)
    case CloseBracket => Goto(s, PostAddr)
    case _ => s
  }

  function FromCidr(s: Reader, input: EventClass, c: char): Reader
  {
    match input
    case Digit => Grow(s, Cidr, c)
    case CloseBracket => Goto(ParseCidr(s), PostAddr)
    case Whitespace => Goto(ParseCidr(s), Start)
    case IfaceMark => Goto(ParseCidr(s), Iface)
    case _ => Fail(s, InvalidInput)
  }

  function FromPostAddr(s: Reader, input: EventClass): Reader
  {
    match input
    case Whitespace => s
    case V6ComponentSep => Goto(s, Port)
    case _ => Fail(s, InvalidInput)
  }

  function FromPort(s: Reader, input: EventClass, c: char): Reader
  {
    match input
    case Digit => Grow(s, Port, c)
    case Whitespace => Goto(ParsePort(s), Start)
    case _ => Fail(s, InvalidInput)
  }

  /** ipv6_state_transition; c is the character whose class is the input. */
  function Transition(s: Reader, input: EventClass, c: char): Reader
  {
    match s.current
    case Start => FromStart(s, input, c)
    case AddrComponent => FromAddrComponent(s, input, c)
    case V6Separator => FromV6Separator(s, input, c)
    case Iface => FromIface(s, input)
    case Cidr => FromCidr(s, input, c)
    case PostAddr => FromPostAddr(s, input)
    case Port => FromPort(s, input, c)
    case Failed => s
  }

  // ----- whole texts -----

  /** One iteration of the character loop. */
  function Step(s: Reader, c: char): Reader
  {
    match Classify(c)
    case None => Fail(s, InvalidInputChar)
    case Some(OpenBracket) => Transition(s.(brackets := s.brackets + 1), OpenBracket, c)
    case Some(input) => Transition(s, input, c)
  }

  /** The character loop, which is left at the first error. */
  function Run(s: Reader, text: string): Reader
    decreases |text|
  {
    if text == "" || s.hasError then s else Run(Step(s, text[0]), text[1..])
  }

  lemma {:induction false} RunAppend(s: Reader, text: string, rest: string)
    ensures Run(s, text + rest) == Run(Run(s, text), rest)
    decreases |text|
  {
    if text == "" {
      assert text + rest == rest;
    } else if !s.hasError {
      assert (text + rest)[0] == text[0] && (text + rest)[1..] == text[1..] + rest;
      RunAppend(Step(s, text[0]), text[1..], rest);
    }
  }

  /** Running over one more character; an error decides the whole run. */
  lemma RunPrefix(s: Reader, text: string, k: nat)
    requires k < |text| && !Run(s, text[..k]).hasError
    ensures Run(s, text[..k + 1]) == Step(Run(s, text[..k]), text[k])
    ensures Run(s, text[..k + 1]).hasError ==> Run(s, text) == Run(s, text[..k + 1])
  {
    var c := [text[k]];
    assert c[1..] == "" && text[..k + 1] == text[..k] + c;
    RunAppend(s, text[..k], c);
    assert text == text[..k + 1] + text[k + 1..];
    RunAppend(s, text[..k + 1], text[k + 1..]);
  }

  lemma RunOne(s: Reader, c: char)
    requires !s.hasError
    ensures Run(s, [c]) == Step(s, c)
  {
    assert [c][1..] == "";
  }

  /** Left components, zeros, right components. */
  function Expand(c: Components, zerorun: Count8, components: Count8): Components
    requires zerorun <= components
  {
    var target := 8 - (components - zerorun);
    seq(8, k requires 0 <= k < 8 =>
      if k < zerorun then c[k] else if k < target then 0 else c[k - target + zerorun])
  }

  /** After the last character: lines 724-783. The result says whether the parse succeeded. */
  function Conclude(s: Reader): (bool, Reader)
  {
    var s1 := Transition(s, Whitespace, ' ');
    var s2 :=
      if !s1.embedding then s1
      else if s1.v4Octets != 4 then Fail(s1, V4BadComponentCount)
      else s1.(out := s1.out.(flags := s1.out.flags.(maskOrEmbed := true)));
    if s2.hasError then (false, s2)
    else if s2.compat then (true, s2.(out := s2.out.(flags := s2.out.flags.(compat := true))))
    else if !s2.hasZerorun then
      if s2.components < 8 then (false, Fail(s2, V6BadComponentCount)) else (true, s2)
    else if s2.components < s2.zerorun then (false, s2)
    else
      (true, s2.(out := s2.out.(components := Expand(s2.out.components, s2.zerorun, s2.components))))
  }

  /** sizeof "[1234:1234:1234:1234:1234:1234:1234:1234/128%longinterface]:65535" */
  const STRING_SIZE := 66

  /** The part of the memory at an input pointer that the parser looks at: up to inputBytes
      characters, ending early at a terminator. */
  function TextOf(input: string, inputBytes: nat): (t: string)
    ensures |t| <= inputBytes && t <= input
  {
    if inputBytes == 0 || input == "" || input[0] == '\0' then ""
    else [input[0]] + TextOf(input[1..], inputBytes - 1)
  }

  datatype Result = Result(ok: bool, out: AddressFull, diags: seq<Diag>)

  /** The verdict on a text that got past the argument checks. */
  function ParseText(text: string): Result
  {
    var s := Run(INITIAL, text);
    if s.hasError then Result(false, s.out, s.diags)
    else
      var (ok, s') := Conclude(s);
      Result(ok, s'.out, s'.diags)
  }

  /** ipv6_from_str_diag: prior is the content of the output structure before the call. */
  function FromStr(input: string, inputBytes: nat, prior: AddressFull): Result
    requires input != ""
  {
    if input[0] == '\0' then Result(false, prior, [InvalidInput])
    else if inputBytes > STRING_SIZE then Result(false, prior, [StringSizeExceeded])
    else ParseText(TextOf(input, inputBytes))
  }
}
