/** The address reader as the program has it: an object whose fields are updated for every
    character, with the token kept as a position and a length into the input. Every method is
    proved to do to the object's abstract value what the function of the same name in ReaderSpec
    does, and no read goes past the terminator or the first character after the given length. */
module Reader {
  import opened Options
  import opened Text
  import opened Address
  import R = ReaderSpec

  /** What a C string argument of inputBytes characters allows to be read: that many characters and
      one more, or up to a terminator. */
  ghost predicate Readable(input: string, inputBytes: nat)
  {
    |input| > inputBytes || '\0' in input
  }

  /** Where the character loop stops. */
  lemma {:induction false} TextEnds(input: string, inputBytes: nat)
    requires Readable(input, inputBytes)
    ensures var n := |R.TextOf(input, inputBytes)|;
      && n < |input|
      && n <= inputBytes
      && (n < inputBytes ==> input[n] == '\0')
      && (forall k | 0 <= k < n :: input[k] != '\0')
      && R.TextOf(input, inputBytes) == input[..n]
  {
    if inputBytes != 0 && input != "" && input[0] != '\0' {
      assert '\0' in input ==> '\0' in input[1..] by {
        if '\0' in input { assert input == [input[0]] + input[1..]; }
      }
      TextEnds(input[1..], inputBytes - 1);
      var n := |R.TextOf(input, inputBytes)|;
      assert forall k | 1 <= k < n :: input[k] == input[1..][k - 1];
    }
  }

  class AddressReader {
    const input: string
    const inputBytes: nat
    ghost const textLen: nat  // where the character loop stops
    const cells: array<U16>
    var port: U16
    var mask: U32
    var flags: Flags
    var current: R.State
    var position: nat
    var components: R.Count8
    var tokenPosition: nat
    var tokenLen: nat
    var brackets: nat
    var zerorun: R.Count8
    var v4Embedding: R.Count8
    var v4Octets: R.Count4
    var hasZerorun: bool
    var hasError: bool
    var embedding: bool
    var compat: bool
    var diags: seq<R.Diag>  // the calls of the diagnostic callback

    ghost predicate HasToken()
      reads this
    {
      current in {R.AddrComponent, R.Cidr, R.Port}
    }

    ghost predicate NoTerminator()
    {
      forall k | 0 <= k < textLen && k < |input| :: input[k] != '\0'
    }

    /** What never changes: the text lies in the readable memory and has eight cells to go to. */
    ghost predicate Framed()
    {
      && cells.Length == 8
      && textLen < |input|
      && textLen <= inputBytes
      && (textLen < inputBytes ==> input[textLen] == '\0')
      && NoTerminator()
    }

    /** In the token states the token ends where the next character is read. */
    ghost predicate Valid()
      reads this
    {
      && Framed()
      && position <= textLen
      && (HasToken() ==> tokenPosition + tokenLen == position)
    }

    ghost function Token(): string
      reads this
    {
      if HasToken() && tokenPosition + tokenLen <= |input| then input[tokenPosition..tokenPosition + tokenLen] else ""
    }

    ghost function Abs(): R.Reader
      requires cells.Length == 8
      reads this, cells
    {
      R.Reader(current, Token(), components, brackets, zerorun, v4Embedding, v4Octets,
        hasZerorun, hasError, embedding, compat, AddressFull(cells[..], port, mask, flags), diags)
    }

    constructor (input: string, inputBytes: nat)
      requires Readable(input, inputBytes)
      ensures Valid() && fresh(cells)
      ensures Abs() == R.INITIAL && position == 0
      ensures this.input == input && this.inputBytes == inputBytes
      ensures textLen == |R.TextOf(input, inputBytes)|
    {
      TextEnds(input, inputBytes);
      this.input, this.inputBytes := input, inputBytes;
      textLen := |R.TextOf(input, inputBytes)|;
      cells := new U16[8](_ => 0);
      port, mask, flags := 0, 0, NO_FLAGS;
      current, position, components, tokenPosition, tokenLen := R.Start, 0, 0, 0, 0;
      brackets, zerorun, v4Embedding, v4Octets := 0, 0, 0, 0;
      hasZerorun, hasError, embedding, compat := false, false, false, false;
      diags := [];
      new;
      assert cells[..] == ZERO_COMPONENTS;
    }

    method Error(d: R.Diag)
      requires cells.Length == 8
      modifies `diags, `hasError, `current
      ensures Abs() == R.Fail(old(Abs()), d)
    {
      diags := diags + [d];
      hasError := true;
      current := R.Failed;
    }

    /** The token is readable and has no terminator in it, so "Invalid token" is never reported. */
    ghost predicate TokenInText()
      reads this
    {
      && Framed()
      && HasToken()
      && tokenPosition + tokenLen <= textLen
    }

    method ReadDecimalToken() returns (accumulate: int)
      requires TokenInText()
      modifies `diags, `hasError, `current
      ensures (Abs(), accumulate) == R.ReadToken(old(Abs()), 10)
    {
      ghost var token := Token();
      if tokenPosition + tokenLen > inputBytes {
        assert false;
      }
      var cp := tokenPosition;
      var ep := cp + tokenLen;
      accumulate := 0;
      while input[cp] != '\0' && cp < ep
        decreases ep - cp
        invariant tokenPosition <= cp <= ep
        invariant Abs() == old(Abs())
        invariant AllDecimal(token[..cp - tokenPosition]) && AllHex(token[..cp - tokenPosition])
        invariant accumulate == R.Accumulated(token[..cp - tokenPosition], 10)
      {
        var c := input[cp];
        ghost var k := cp - tokenPosition;
        assert c == token[k];
        if IsDecimal(c) {
          var digit := DigitValue(c);
          assert token[..k + 1] == token[..k] + [c];
          ValueSnoc(token[..k], c, 10);
          WrapAccumulate(Value(token[..k], 10), 10, digit);
          accumulate := Wrap32(accumulate * 10 + digit);
        } else {
          Error(R.InvalidInput);
          return 0;
        }
        cp := cp + 1;
      }
      assert token[..cp - tokenPosition] == token;
    }

    method ReadHexadecimalToken() returns (accumulate: int)
      requires TokenInText()
      modifies `diags, `hasError, `current
      ensures (Abs(), accumulate) == R.ReadToken(old(Abs()), 16)
    {
      ghost var token := Token();
      if tokenPosition + tokenLen > inputBytes {
        assert false;
      }
      var cp := tokenPosition;
      var ep := cp + tokenLen;
      accumulate := 0;
      while input[cp] != '\0' && cp < ep
        decreases ep - cp
        invariant tokenPosition <= cp <= ep
        invariant Abs() == old(Abs())
        invariant AllHex(token[..cp - tokenPosition])
        invariant accumulate == R.Accumulated(token[..cp - tokenPosition], 16)
      {
        var c := input[cp];
        ghost var k := cp - tokenPosition;
        assert c == token[k];
        if !IsHex(c) {
          Error(R.InvalidInput);
          return 0;
        }
        var digit := DigitValue(c);
        assert token[..k + 1] == token[..k] + [c];
        ValueSnoc(token[..k], c, 16);
        WrapAccumulate(Value(token[..k], 16), 16, digit);
        accumulate := Wrap32(accumulate * 16 + digit);
        cp := cp + 1;
      }
      assert token[..cp - tokenPosition] == token;
    }

    method StoreComponent(i: int, v: U16)
      requires cells.Length == 8 && 0 <= i < 8
      modifies cells
      ensures Abs() == R.StoreComponent(old(Abs()), i, v)
    {
      ghost var before := cells[..];
      cells[i] := v;
      assert cells[..] == before[i := v];
    }

    method ParseV6Component()
      requires TokenInText()
      modifies this, cells
      ensures Abs() == R.ParseV6Component(old(Abs())) && position == old(position)
    {
      var component := ReadHexadecimalToken();
      if !(components < 8) {
        Error(R.V6BadComponentCount);
        return;
      }
      if !(component <= 0xffff) {
        Error(R.V6ComponentOutOfRange);
        return;
      }
      StoreComponent(components, component % 0x1_0000);
      components := components + 1;
      tokenPosition := 0;
      tokenLen := 0;
    }

    method ParseV4Component()
      requires TokenInText()
      modifies this, cells
      ensures Abs() == R.ParseV4Component(old(Abs())) && position == old(position)
    {
      var octet := ReadDecimalToken();
      if !(v4Octets < 4) {
        Error(R.V4BadComponentCount);
        return;
      }
      if !(octet <= 0xff) {
        Error(R.V4ComponentOutOfRange);
        return;
      }
      if !(v4Embedding <= 6) {
        Error(R.V4RequiredBits);
        return;
      }
      var i := v4Embedding + v4Octets / 2;
      var cell := R.OrOctet(cells[i], octet, v4Octets % 2 == 0);
      StoreComponent(i, cell);
      v4Octets := v4Octets + 1;
      tokenPosition := 0;
      tokenLen := 0;
    }

    method ParseComponent()
      requires TokenInText()
      modifies this, cells
      ensures Abs() == R.ParseComponent(old(Abs())) && position == old(position)
    {
      if embedding {
        ParseV4Component();
      } else {
        ParseV6Component();
      }
    }

    method ParseCidr()
      requires TokenInText()
      modifies this
      ensures Abs() == R.ParseCidr(old(Abs())) && position == old(position)
    {
      var value := ReadDecimalToken();
      if !(value > -1 && value < 129) {
        Error(R.InvalidCidrMask);
        return;
      }
      mask := value;
      flags := flags.(maskOrEmbed := true);
    }

    method ParsePort()
      requires TokenInText()
      modifies this
      ensures Abs() == R.ParsePort(old(Abs())) && position == old(position)
    {
      var value := ReadDecimalToken();
      if !(value > -1 && value <= 0xffff) {
        Error(R.InvalidPort);
        return;
      }
      port := value;
      flags := flags.(hasPort := true);
    }

    /** BEGIN_TOKEN */
    method BeginToken(offset: nat)
      requires Framed() && position + offset < |input|
      modifies `tokenPosition, `tokenLen
      ensures tokenPosition == position + offset && tokenLen == 0
      ensures Token() == ""
    {
      tokenPosition := position + offset;
      tokenLen := 0;
    }

    method GrowToken()
      requires Framed() && HasToken() && position < textLen
      requires tokenPosition + tokenLen == position
      modifies `tokenLen
      ensures tokenPosition + tokenLen == position + 1
      ensures Token() == old(Token()) + [input[position]]
    {
      tokenLen := tokenLen + 1;
    }

    /** The character being processed: a blank once the text has ended. */
    ghost function Here(): char
      reads this
    {
      if position < textLen && position < |input| then input[position] else ' '
    }

    /** What every transition leaves: the token ends just after the current character, so the
        object is valid again once the position has moved on. */
    ghost predicate Advanced()
      reads this
    {
      && Framed()
      && position <= textLen
      && (HasToken() ==> tokenPosition + tokenLen == position + 1)
    }

    /** Only the blank that stands for the end of the text is raised after the text. */
    ghost predicate Raised(event: R.EventClass)
      reads this
    {
      event != R.Whitespace ==> position < textLen
    }

    /** The first digit of a component. */
    method BeginComponent()
      requires Valid() && position < textLen
      modifies `current, `tokenPosition, `tokenLen
      ensures Advanced()
      ensures Abs() == R.Grow(old(Abs()).(token := ""), R.AddrComponent, old(Here()))
    {
      current := R.AddrComponent;
      BeginToken(0);
      GrowToken();
    }

    method FromStart(event: R.EventClass)
      requires Valid() && current == R.Start && Raised(event)
      modifies this
      ensures Advanced() && position == old(position)
      ensures Abs() == R.FromStart(old(Abs()), event, old(Here()))
    {
      match event
      case Digit | HexLetter =>
        BeginComponent();
      case OpenBracket =>
        if brackets != 1 {
          Error(R.InvalidBrackets);
        }
      case CloseBracket => current := R.PostAddr;
      case V6ComponentSep => current := R.V6Separator;
      case CidrMask =>
        current := R.Cidr;
        BeginToken(1);
      case Whitespace =>
      case _ => Error(R.InvalidInput);
    }

    /** Parse the pending component and move on, to a new token if the next state has one. */
    method EndComponent(next: R.State)
      requires Valid() && current == R.AddrComponent && next != R.AddrComponent
      requires next == R.Cidr || next == R.Port ==> position < textLen
      modifies this, cells
      ensures Advanced() && position == old(position)
      ensures Abs() == R.Goto(R.ParseComponent(old(Abs())), next)
    {
      ParseComponent();
      current := next;
      if next == R.Cidr || next == R.Port {
        BeginToken(1);
      }
    }

    method EndOctet()
      requires Valid() && current == R.AddrComponent && position < textLen
      modifies this, cells
      ensures Advanced() && position == old(position)
      ensures Abs() == R.FromAddrComponent(old(Abs()), R.V4Separator, old(Here()))
    {
      if !embedding {
        v4Embedding := components;
        embedding := true;
        if !(components < 7) {
          Error(R.V4RequiredBits);
          return;
        }
        if components == 0 {
          compat := true;
        }
        components := components + 2;
        assert Abs() == R.BeginEmbedding(old(Abs()));
      }
      EndComponent(R.Start);
    }

    method FromAddrComponent(event: R.EventClass)
      requires Valid() && current == R.AddrComponent && Raised(event)
      modifies this, cells
      ensures Advanced() && position == old(position)
      ensures Abs() == R.FromAddrComponent(old(Abs()), event, old(Here()))
    {
      match event
      case Digit | HexLetter => GrowToken();
      case CloseBracket => EndComponent(R.PostAddr);
      case Whitespace => EndComponent(R.Start);
      case V6ComponentSep =>
        if compat {
          EndComponent(R.Port);
        } else if embedding {
          Error(R.V4IncorrectPosition);
        } else {
          EndComponent(R.V6Separator);
        }
      case V4Separator => EndOctet();
      case IfaceMark => EndComponent(R.Iface);
      case CidrMask => EndComponent(R.Cidr);
      case OpenBracket => Error(R.InvalidInput);
    }

    method FromV6Separator(event: R.EventClass)
      requires Valid() && current == R.V6Separator && Raised(event)
      modifies this
      ensures Advanced() && position == old(position)
      ensures Abs() == R.FromV6Separator(old(Abs()), event, old(Here()))
    {
      match event
      case V6ComponentSep =>
        if hasZerorun {
          Error(R.InvalidAbbrev);
          return;
        }
        zerorun := components;
        hasZerorun := true;
      case Whitespace => current := R.Start;
      case CloseBracket => current := R.PostAddr;
      case OpenBracket => Error(R.InvalidBrackets);
      case Digit | HexLetter =>
        BeginComponent();
      case IfaceMark => current := R.Iface;
      case CidrMask =>
        BeginToken(0);
        current := R.Cidr;
        BeginToken(1);
      case V4Separator => Error(R.InvalidInput);
    }

    method FromIface(event: R.EventClass)
      requires Valid() && current == R.Iface
      modifies this
      ensures Advanced() && position == old(position)
      ensures Abs() == R.FromIface(old(Abs()), event)
    {
      match event
      case Whitespace => current := R.Start;
      case CloseBracket => current := R.PostAddr;
      case _ =>
    }

    method FromCidr(event: R.EventClass)
      requires Valid() && current == R.Cidr && Raised(event)
      modifies this
      ensures Advanced() && position == old(position)
      ensures Abs() == R.FromCidr(old(Abs()), event, old(Here()))
    {
      match event
      case Digit => GrowToken();
      case CloseBracket =>
        ParseCidr();
        current := R.PostAddr;
      case Whitespace =>
        ParseCidr();
        current := R.Start;
      case IfaceMark =>
        ParseCidr();
        current := R.Iface;
      case _ => Error(R.InvalidInput);
    }

    method FromPostAddr(event: R.EventClass)
      requires Valid() && current == R.PostAddr && Raised(event)
      modifies this
      ensures Advanced() && position == old(position)
      ensures Abs() == R.FromPostAddr(old(Abs()), event)
    {
      match event
      case Whitespace =>
      case V6ComponentSep =>
        current := R.Port;
        BeginToken(1);
      case _ => Error(R.InvalidInput);
    }

    method FromPort(event: R.EventClass)
      requires Valid() && current == R.Port && Raised(event)
      modifies this
      ensures Advanced() && position == old(position)
      ensures Abs() == R.FromPort(old(Abs()), event, old(Here()))
    {
      match event
      case Digit => GrowToken();
      case Whitespace =>
        ParsePort();
        current := R.Start;
      case _ => Error(R.InvalidInput);
    }

    method Transition(event: R.EventClass)
      requires Valid() && Raised(event)
      modifies this, cells
      ensures Advanced() && position == old(position)
      ensures Abs() == R.Transition(old(Abs()), event, old(Here()))
    {
      match current
      case Start => FromStart(event);
      case AddrComponent => FromAddrComponent(event);
      case V6Separator => FromV6Separator(event);
      case Iface => FromIface(event);
      case Cidr => FromCidr(event);
      case PostAddr => FromPostAddr(event);
      case Port => FromPort(event);
      case Failed =>
    }

    /** One iteration of the character loop. */
    method ReadCharacter()
      requires Valid() && position < textLen
      modifies this, cells
      ensures Framed() && Abs() == R.Step(old(Abs()), old(input[position]))
      ensures Valid() && position == old(position) + 1
    {
      var c := input[position];
      var event := R.Classify(c);
      if event == None {
        Error(R.InvalidInputChar);
      } else {
        CountBracket(c);
        Transition(event.value);
      }
      Advance();
    }

    method CountBracket(c: char)
      requires cells.Length == 8
      modifies `brackets
      ensures Abs() == if R.Classify(c) == Some(R.OpenBracket) then old(Abs()).(brackets := old(brackets) + 1)
                       else old(Abs())
    {
      if c == '[' {
        brackets := brackets + 1;
      }
    }

    method Advance()
      requires Advanced() && position < textLen
      modifies `position
      ensures Valid() && Abs() == old(Abs()) && position == old(position) + 1
    {
      position := position + 1;
    }

    /** The character loop. */
    method ReadText()
      requires Valid() && position == 0 && Abs() == R.INITIAL
      modifies this, cells
      ensures Framed() && Abs() == R.Run(R.INITIAL, input[..textLen])
      ensures !hasError ==> Valid() && position == textLen
    {
      ghost var text := input[..textLen];
      while input[position] != '\0' && position < inputBytes
        invariant Valid()
        invariant Abs() == R.Run(R.INITIAL, text[..position])
        invariant !hasError
        decreases inputBytes - position
      {
        R.RunPrefix(R.INITIAL, text, position);
        ReadCharacter();
        if hasError {
          return;
        }
      }
      assert text[..position] == text;
    }

    /** Move the components right of the zero run to the end and clear the ones between. */
    method ExpandZerorun()
      requires cells.Length == 8 && zerorun <= components
      modifies cells
      ensures Abs() == old(Abs()).(out := old(Abs()).out.(
                         components := R.Expand(old(Abs()).out.components, zerorun, components)))
    {
      ghost var before := cells[..];
      var dst := new U16[8](_ => 0);
      var moveCount := components - zerorun;
      var target := 8 - moveCount;
      if target < 0 || target + moveCount > 8 {
        assert false;
      }
      forall k | 0 <= k < moveCount {
        dst[target + k] := cells[zerorun + k];
      }
      forall k | target <= k < 8
        ensures dst[k] == before[k - target + zerorun]
      {
        var j := k - target;
        assert dst[target + j] == cells[zerorun + j];
      }
      forall k | 0 <= k < zerorun {
        dst[k] := cells[k];
      }
      forall k | 0 <= k < 8 {
        cells[k] := dst[k];
      }
      assert cells[..] == R.Expand(before, zerorun, components);
    }

    method Conclude() returns (ok: bool)
      requires Valid() && position == textLen
      modifies this, cells
      ensures cells.Length == 8 && (ok, Abs()) == R.Conclude(old(Abs()))
    {
      Transition(R.Whitespace);
      if embedding {
        if v4Octets != 4 {
          Error(R.V4BadComponentCount);
        } else {
          flags := flags.(maskOrEmbed := true);
        }
      }
      if hasError {
        return false;
      }
      if compat {
        flags := flags.(compat := true);
        return true;
      }
      if !hasZerorun {
        if components < NUM_COMPONENTS {
          Error(R.V6BadComponentCount);
          return false;
        }
        return true;
      }
      var moveCount: int := components as int - zerorun;
      if moveCount < 0 || moveCount > NUM_COMPONENTS {
        return false;
      }
      ExpandZerorun();
      return true;
    }
  }

  /** ipv6_from_str_diag: prior is what the output structure held before the call, diags the calls
      of the callback. */
  method FromStrDiag(input: string, inputBytes: nat, prior: AddressFull)
    returns (ok: bool, out: AddressFull, diags: seq<R.Diag>)
    requires input != "" && Readable(input, inputBytes)
    ensures R.Result(ok, out, diags) == R.FromStr(input, inputBytes, prior)
  {
    if input[0] == '\0' {
      return false, prior, [R.InvalidInput];
    }
    if inputBytes > R.STRING_SIZE {
      return false, prior, [R.StringSizeExceeded];
    }
    TextEnds(input, inputBytes);
    var state := new AddressReader(input, inputBytes);
    state.ReadText();
    if state.hasError {
      ok := false;
    } else {
      ok := state.Conclude();
    }
    out := AddressFull(state.cells[..], state.port, state.mask, state.flags);
    diags := state.diags;
  }
}
