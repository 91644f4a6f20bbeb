/** Texts that no reader state can save: a character outside the alphabet, a second "::", a second
    opening bracket. */
module Rejection {
  import opened Options
  import opened Text
  import opened ReaderSpec
  import opened FormReading
  import opened Acceptance
  import ReaderFacts

  /** An error in any prefix decides the verdict. */
  lemma ErrorDecides(text: string, k: nat)
    requires k <= |text| && Run(INITIAL, text[..k]).hasError
    ensures !ParseText(text).ok
  {
    assert text == text[..k] + text[k..];
    RunAppend(INITIAL, text[..k], text[k..]);
  }

  lemma NextCharacter(text: string, k: nat)
    requires k < |text| && !Run(INITIAL, text[..k]).hasError
    ensures Run(INITIAL, text[..k + 1]) == Step(Run(INITIAL, text[..k]), text[k])
  {
    RunPrefix(INITIAL, text, k);
  }

  const ALPHABET := "0123456789abcdefABCDEF:./%[] \t\n\r"

  lemma DigitsAreInAlphabet(c: char)
    requires IsDecimal(c)
    ensures c in ALPHABET
  {
    assert ALPHABET[c as int - '0' as int] == c;
  }

  lemma LettersAreInAlphabet(c: char)
    requires IsHex(c) && !IsDecimal(c)
    ensures c in ALPHABET
  {
    if c >= 'a' {
      assert ALPHABET[10 + c as int - 'a' as int] == c;
    } else {
      assert ALPHABET[16 + c as int - 'A' as int] == c;
    }
  }

  lemma MarksAreInAlphabet(c: char)
    requires c == ':' || c == '.' || c == '/' || c == '%' || c == '[' || c == ']'
             || c == ' ' || c == '\t' || c == '\n' || c == '\r'
    ensures c in ALPHABET
  {
    assert ALPHABET[22..] == ":./%[] \t\n\r";
    assert ALPHABET[22] == ':' && ALPHABET[23] == '.' && ALPHABET[24] == '/' && ALPHABET[25] == '%';
    assert ALPHABET[26] == '[' && ALPHABET[27] == ']' && ALPHABET[28] == ' ';
    assert ALPHABET[29] == '\t' && ALPHABET[30] == '\n' && ALPHABET[31] == '\r';
  }

  lemma ForeignCharacter(c: char)
    requires c !in ALPHABET
    ensures Classify(c) == None
  {
    if Classify(c).Some? {
      if IsDecimal(c) {
        DigitsAreInAlphabet(c);
      } else if IsHex(c) {
        LettersAreInAlphabet(c);
      } else {
        MarksAreInAlphabet(c);
      }
    }
  }

  /** No text with a character outside the alphabet of addresses is accepted; if nothing before it was
      wrong, that character is what is reported. */
  lemma ForeignCharacterRejected(text: string, k: nat)
    requires k < |text| && text[k] !in "0123456789abcdefABCDEF:./%[] \t\n\r"
    ensures !ParseText(text).ok
    ensures !Run(INITIAL, text[..k]).hasError ==> ParseText(text).diags == [InvalidInputChar]
  {
    ForeignCharacter(text[k]);
    if Run(INITIAL, text[..k]).hasError {
      ErrorDecides(text, k);
    } else {
      NextCharacter(text, k);
      ErrorDecides(text, k + 1);
      NoDiagnosticYet(text, k);
      assert text == text[..k + 1] + text[k + 1..];
      RunAppend(INITIAL, text[..k + 1], text[k + 1..]);
    }
  }

  lemma NoDiagnosticYet(text: string, k: nat)
    requires k <= |text| && !Run(INITIAL, text[..k]).hasError
    ensures Run(INITIAL, text[..k]).diags == []
  {
    ReaderFacts.ReaderInvariant(text, k);
  }

  // ----- without an interface name every character is looked at -----

  ghost predicate Attentive(s: Reader)
  {
    s.current != Iface && s.current != Failed
  }

  /** Only "%" leads to the interface state, and only an error to the failed one. */
  lemma StateStaysAttentive(s: Reader, input: EventClass, c: char)
    requires Attentive(s) && input != IfaceMark
    ensures var t := Transition(s, input, c); t.hasError || Attentive(t)
  {
    match s.current
    case AddrComponent => ComponentStaysAttentive(s, input, c);
    case _ =>
  }

  lemma ComponentStaysAttentive(s: Reader, input: EventClass, c: char)
    requires input != IfaceMark
    ensures var t := FromAddrComponent(s, input, c); t.hasError || Attentive(t)
  {
  }

  lemma StepStaysAttentive(s: Reader, c: char)
    requires Attentive(s) && c != '%'
    ensures Step(s, c).hasError || Attentive(Step(s, c))
  {
    match Classify(c)
    case None =>
    case Some(OpenBracket) => StateStaysAttentive(s.(brackets := s.brackets + 1), OpenBracket, c);
    case Some(input) => StateStaysAttentive(s, input, c);
  }

  /** The number of brackets stays, and a run that is marked stays marked. */
  ghost predicate Remembers(s: Reader, t: Reader)
  {
    (s.hasZerorun ==> t.hasZerorun) && s.brackets == t.brackets
  }

  lemma ComponentRemembers(s: Reader)
    ensures Remembers(s, ParseComponent(s))
  {
  }

  lemma BeginRemembers(s: Reader)
    ensures Remembers(s, BeginEmbedding(s))
  {
  }

  lemma SuffixRemembers(s: Reader)
    ensures Remembers(s, ParseCidr(s)) && Remembers(s, ParsePort(s))
  {
  }

  lemma AddrComponentRemembers(s: Reader, input: EventClass, c: char)
    ensures Remembers(s, FromAddrComponent(s, input, c))
  {
    BeginRemembers(s);
    ComponentRemembers(s);
    ComponentRemembers(BeginEmbedding(s));
  }

  lemma StateRemembers(s: Reader, input: EventClass, c: char)
    ensures Remembers(s, Transition(s, input, c))
  {
    match s.current
    case Start =>
    case AddrComponent => AddrComponentRemembers(s, input, c);
    case V6Separator =>
    case Iface =>
    case Cidr => SuffixRemembers(s);
    case PostAddr =>
    case Port => SuffixRemembers(s);
    case Failed =>
  }

  lemma StepRemembers(s: Reader, c: char)
    ensures s.hasZerorun ==> Step(s, c).hasZerorun
    ensures s.brackets <= Step(s, c).brackets
  {
    match Classify(c)
    case None =>
    case Some(OpenBracket) => StateRemembers(s.(brackets := s.brackets + 1), OpenBracket, c);
    case Some(input) => StateRemembers(s, input, c);
  }

  lemma {:induction false} RunStaysAttentive(s: Reader, text: string)
    requires !s.hasError && Attentive(s) && '%' !in text
    ensures Run(s, text).hasError || Attentive(Run(s, text))
    decreases |text|
  {
    if text != "" {
      StepStaysAttentive(s, text[0]);
      if !Step(s, text[0]).hasError {
        RunStaysAttentive(Step(s, text[0]), text[1..]);
      }
    }
  }

  lemma {:induction false} RunRemembers(s: Reader, text: string)
    ensures s.hasZerorun ==> Run(s, text).hasZerorun
    ensures s.brackets <= Run(s, text).brackets
    decreases |text|
  {
    if text != "" && !s.hasError {
      StepRemembers(s, text[0]);
      RunRemembers(Step(s, text[0]), text[1..]);
    }
  }

  /** What is remembered at a prefix is remembered at every longer one. */
  lemma PrefixRemembers(text: string, j: nat, k: nat)
    requires j <= k <= |text|
    ensures Run(INITIAL, text[..j]).hasZerorun ==> Run(INITIAL, text[..k]).hasZerorun
    ensures Run(INITIAL, text[..j]).brackets <= Run(INITIAL, text[..k]).brackets
  {
    assert text[..k] == text[..j] + text[j..k];
    RunAppend(INITIAL, text[..j], text[j..k]);
    RunRemembers(Run(INITIAL, text[..j]), text[j..k]);
  }

  lemma PrefixIsAttentive(text: string, k: nat)
    requires k <= |text| && '%' !in text && !Run(INITIAL, text[..k]).hasError
    ensures Attentive(Run(INITIAL, text[..k]))
  {
    RunStaysAttentive(INITIAL, text[..k]);
  }

  // ----- a second abbreviation -----

  lemma OneColon(s: Reader)
    requires !s.hasError && Attentive(s) && !Step(s, ':').hasError
    ensures var t := Step(s, ':');
      t.current == Port || (t.current == V6Separator && (t.hasZerorun == s.hasZerorun || s.current == V6Separator))
    ensures s.current == V6Separator ==> Step(s, ':').hasZerorun && Step(s, ':').current == V6Separator
    ensures Step(s, ':').current == V6Separator ==> s.hasZerorun ==> Step(s, ':').hasZerorun
  {
  }

  /** Two colons in a row mark the run, once; in any other place they are an error. */
  lemma TwoColons(s: Reader)
    requires !s.hasError && Attentive(s) && !Step(s, ':').hasError && !Step(Step(s, ':'), ':').hasError
    ensures var u := Step(Step(s, ':'), ':');
      !s.hasZerorun && u.hasZerorun && u.current == V6Separator
  {
    OneColon(s);
  }

  lemma AfterDoubleColon(text: string, k: nat)
    requires '%' !in text && DoubleColonAt(text, k) && ParseText(text).ok
    ensures !Run(INITIAL, text[..k]).hasZerorun
    ensures var u := Run(INITIAL, text[..k + 2]); !u.hasError && u.hasZerorun && u.current == V6Separator
  {
    PrefixHasNoError(text, k);
    PrefixHasNoError(text, k + 1);
    PrefixHasNoError(text, k + 2);
    PrefixIsAttentive(text, k);
    NextCharacter(text, k);
    NextCharacter(text, k + 1);
    TwoColons(Run(INITIAL, text[..k]));
  }

  lemma PrefixHasNoError(text: string, k: nat)
    requires k <= |text| && ParseText(text).ok
    ensures !Run(INITIAL, text[..k]).hasError
  {
    if Run(INITIAL, text[..k]).hasError {
      ErrorDecides(text, k);
    }
  }

  /** "::" can appear only once: section 2.2 of RFC 4291. */
  lemma SecondAbbreviationRejected(text: string, j: nat, k: nat)
    requires '%' !in text && j < k && DoubleColonAt(text, j) && DoubleColonAt(text, k)
    ensures !ParseText(text).ok
  {
    if ParseText(text).ok {
      AfterDoubleColon(text, j);
      AfterDoubleColon(text, k);
      if k == j + 1 {
        NextCharacter(text, j + 2);
      } else {
        PrefixRemembers(text, j + 2, k);
      }
    }
  }

  // ----- a second opening bracket -----

  lemma OneBracket(s: Reader)
    requires !s.hasError && Attentive(s) && !Step(s, '[').hasError
    ensures s.brackets == 0 && s.current == Start && Step(s, '[').brackets == 1
  {
  }

  lemma AfterBracket(text: string, k: nat)
    requires k < |text| && '%' !in text && text[k] == '[' && ParseText(text).ok
    ensures Run(INITIAL, text[..k]).brackets == 0 && Run(INITIAL, text[..k + 1]).brackets == 1
  {
    PrefixHasNoError(text, k);
    PrefixHasNoError(text, k + 1);
    PrefixIsAttentive(text, k);
    NextCharacter(text, k);
    OneBracket(Run(INITIAL, text[..k]));
  }

  /** Only one opening bracket is accepted. */
  lemma SecondBracketRejected(text: string, j: nat, k: nat)
    requires '%' !in text && j < k < |text| && text[j] == '[' && text[k] == '['
    ensures !ParseText(text).ok
  {
    if ParseText(text).ok {
      AfterBracket(text, j);
      AfterBracket(text, k);
      PrefixRemembers(text, j + 1, k);
    }
  }

  // ----- a prefix length out of range -----

  /** A slash ends what came before it and begins a prefix length, or is an error. */
  lemma OneSlash(s: Reader)
    requires !s.hasError && Attentive(s) && !Step(s, '/').hasError
    ensures Step(s, '/').current == Cidr && Step(s, '/').token == ""
  {
  }

  lemma EndOfMask(s: Reader, c: char)
    requires s.current == Cidr && AllDecimal(s.token) && !(0 <= Accumulated(s.token, 10) <= 128) && !IsDecimal(c)
    ensures Step(s, c).hasError
  {
    match Classify(c)
    case None =>
    case Some(input) => EndOfMaskInput(s, input, c);
  }

  lemma EndOfMaskInput(s: Reader, input: EventClass, c: char)
    requires AllDecimal(s.token) && !(0 <= Accumulated(s.token, 10) <= 128) && input != Digit
    ensures FromCidr(s, input, c).hasError
  {
    assert ParseCidr(s).hasError;
  }

  lemma AfterMask(s: Reader, mask: string, after: string)
    requires !s.hasError && s.current == Cidr && s.token == "" && (after != "" ==> !IsDecimal(after[0]))
    requires AllDecimal(mask) && !(0 <= Accumulated(mask, 10) <= 128)
    ensures var u := Run(s, mask + after); u.hasError || Transition(u, Whitespace, ' ').hasError
  {
    RunAppend(s, mask, after);
    OutOfRangeMaskFails(s, mask);
    var u := Run(s, mask);
    if after != "" {
      ReadDigits(s, mask);
      assert "" + mask == mask;
      EndOfMask(u, after[0]);
    }
  }

  /** A decimal number after a slash whose 32-bit value is not between 0 and 128 makes any text
      unacceptable, whatever comes before it and after it. */
  lemma OutOfRangeMaskRejected(before: string, mask: string, after: string)
    requires '%' !in before && (after != "" ==> !IsDecimal(after[0]))
    requires AllDecimal(mask) && AllHex(mask) && !(0 <= Accumulated(mask, 10) <= 128)
    ensures !ParseText(before + ("/" + (mask + after))).ok
  {
    var s := Run(INITIAL, before);
    RunAppend(INITIAL, before, "/" + (mask + after));
    RunAppend(s, "/", mask + after);
    if !s.hasError {
      RunOne(s, '/');
      RunStaysAttentive(INITIAL, before);
      if !Step(s, '/').hasError {
        OneSlash(s);
        AfterMask(Step(s, '/'), mask, after);
      }
    }
    ParseFails(before + ("/" + (mask + after)));
  }

  // ----- characters that cannot follow one another -----

  /** d cannot follow c: a dot needs a digit before it; "[" cannot follow a digit or a mark of the
      address; "/" and ":" are no part of a prefix length; after "]" only blanks and ":" can come. */
  predicate DeadEnd(c: char, d: char)
  {
    || (d == '.' && !IsHex(c))
    || (d == '[' && (IsHex(c) || c == ':' || c == '/' || c == ']'))
    || (c == '/' && (d == '/' || d == ':' || (IsHex(d) && !IsDecimal(d))))
    || (c == ']' && (d == '/' || d == ']' || IsHex(d)))
  }

  lemma StateAfterDigit(s: Reader, c: char)
    requires !s.hasError && Attentive(s) && IsHex(c) && !Step(s, c).hasError
    ensures Step(s, c).current == AddrComponent || Step(s, c).current == Cidr || Step(s, c).current == Port
  {
  }

  lemma StateAfterInput(s: Reader, input: EventClass, c: char)
    requires Attentive(s) && input != Digit && input != HexLetter && input != IfaceMark
    ensures var t := Transition(s, input, c);
      !t.hasError ==>
      && (input == V6ComponentSep ==> t.current == V6Separator || t.current == Port)
      && (input == CidrMask ==> t.current == Cidr)
      && (input == CloseBracket ==> t.current == PostAddr)
      && t.current != AddrComponent
  {
    match s.current
    case AddrComponent => ComponentEnds(s, input, c);
    case _ =>
  }

  lemma ComponentEnds(s: Reader, input: EventClass, c: char)
    requires input != Digit && input != HexLetter && input != IfaceMark
    ensures var t := FromAddrComponent(s, input, c);
      !t.hasError ==>
      && (input == V6ComponentSep ==> t.current == V6Separator || t.current == Port)
      && (input == CidrMask ==> t.current == Cidr)
      && (input == CloseBracket ==> t.current == PostAddr)
      && t.current != AddrComponent
  {
  }

  lemma StateAfterMark(s: Reader, c: char)
    requires !s.hasError && Attentive(s) && !IsHex(c) && c != '%' && !Step(s, c).hasError
    ensures c == ':' ==> Step(s, c).current == V6Separator || Step(s, c).current == Port
    ensures c == '/' ==> Step(s, c).current == Cidr
    ensures c == ']' ==> Step(s, c).current == PostAddr
    ensures Step(s, c).current != AddrComponent
  {
    match Classify(c)
    case None =>
    case Some(OpenBracket) => StateAfterInput(s.(brackets := s.brackets + 1), OpenBracket, c);
    case Some(input) => StateAfterInput(s, input, c);
  }

  lemma DeadEndInState(s: Reader, c: char, d: char)
    requires !s.hasError && Attentive(s) && DeadEnd(c, d)
    requires s.current == AddrComponent ==> IsHex(c)
    requires IsHex(c) ==> s.current == AddrComponent || s.current == Cidr || s.current == Port
    requires c == ':' ==> s.current == V6Separator || s.current == Port
    requires c == '/' ==> s.current == Cidr
    requires c == ']' ==> s.current == PostAddr
    ensures Step(s, d).hasError
  {
  }

  /** No text without an interface name in which such a pair stands is accepted. */
  lemma DeadEndRejected(text: string, k: nat)
    requires '%' !in text && k + 1 < |text| && DeadEnd(text[k], text[k + 1])
    ensures !ParseText(text).ok
  {
    if ParseText(text).ok {
      PrefixHasNoError(text, k);
      PrefixHasNoError(text, k + 1);
      PrefixHasNoError(text, k + 2);
      PrefixIsAttentive(text, k);
      PrefixIsAttentive(text, k + 1);
      NextCharacter(text, k);
      NextCharacter(text, k + 1);
      var s := Run(INITIAL, text[..k]);
      if IsHex(text[k]) {
        StateAfterDigit(s, text[k]);
      } else {
        StateAfterMark(s, text[k]);
      }
      DeadEndInState(Step(s, text[k]), text[k], text[k + 1]);
    }
  }
}
