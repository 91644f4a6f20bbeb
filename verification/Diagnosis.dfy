/** Which single diagnostic a malformed text is reported with, for each kind of mistake. */
module Diagnosis {
  import opened Options
  import opened Text
  import opened ReaderSpec
  import opened Forms
  import opened FormReading
  import opened Counting
  import ReaderFacts
  import Rejection

  /** The text is rejected, and the callback was called once. */
  ghost predicate Reported(text: string, d: Diag)
  {
    !ParseText(text).ok && ParseText(text).diags == [d]
  }

  /** The first mistake is the one reported, whatever comes after it. */
  lemma ErrorHere(before: string, c: char, after: string, d: Diag)
    requires !Run(INITIAL, before).hasError
    requires var t := Step(Run(INITIAL, before), c); t.hasError && t.diags == Run(INITIAL, before).diags + [d]
    ensures Reported(before + ([c] + after), d)
  {
    var s := Run(INITIAL, before);
    RunAppend(INITIAL, before, [c] + after);
    RunAppend(s, [c], after);
    RunOne(s, c);
    assert before[..|before|] == before;
    Rejection.NoDiagnosticYet(before, |before|);
  }

  /** A mistake that only shows at the end of the text. */
  lemma ErrorAtEnd(text: string, d: Diag)
    requires !Run(INITIAL, text).hasError
    requires var e := Transition(Run(INITIAL, text), Whitespace, ' ');
      e.hasError && e.diags == Run(INITIAL, text).diags + [d] && (e.embedding ==> e.v4Octets == 4)
    ensures Reported(text, d)
  {
    assert text[..|text|] == text;
    Rejection.NoDiagnosticYet(text, |text|);
  }

  /** An address that is complete but for its count. */
  lemma BadCount(text: string, d: Diag)
    requires !Run(INITIAL, text).hasError
    requires var e := Transition(Run(INITIAL, text), Whitespace, ' ');
      && !e.hasError && e.diags == Run(INITIAL, text).diags
      && (if d == V4BadComponentCount then e.embedding && e.v4Octets != 4
          else d == V6BadComponentCount && !e.embedding && !e.compat && !e.hasZerorun && e.components < 8)
    ensures Reported(text, d)
  {
    assert text[..|text|] == text;
    Rejection.NoDiagnosticYet(text, |text|);
  }

  // ----- counts -----

  lemma InitialReading()
    ensures Reading(INITIAL, 0) && !INITIAL.hasZerorun
  {
  }

  lemma PendingGroup(before: string, n: nat, g: string)
    requires Reading(Run(INITIAL, before), n) && IsToken(g)
    ensures Run(INITIAL, before + g) == Run(INITIAL, before).(current := AddrComponent, token := g)
  {
    RunAppend(INITIAL, before, g);
    ReadGroup(Run(INITIAL, before), g);
  }

  /** A colon, or the end, after a group that cannot be stored. */
  lemma BadGroup(before: string, n: nat, g: string, after: string, d: Diag)
    requires Reading(Run(INITIAL, before), n) && IsToken(g) && (after == "" || after[0] == ':')
    requires var t := ParseComponent(Run(INITIAL, before).(current := AddrComponent, token := g));
      t.hasError && t.diags == Run(INITIAL, before).diags + [d]
    ensures Reported(before + g + after, d)
  {
    PendingGroup(before, n, g);
    var t := Run(INITIAL, before + g);
    if after == "" {
      assert before + g + after == before + g;
      PendingStops(t);
      ErrorAtEnd(before + g, d);
    } else {
      ColonAfterGroup(t);
      assert after == [':'] + after[1..];
      ErrorHere(before + g, ':', after[1..], d);
    }
  }

  lemma JoinedSplit(gs: seq<string>, k: nat) returns (after: string)
    requires k < |gs|
    ensures Joined(gs) == Colons(gs[..k]) + gs[k] + after && (after == "" || after[0] == ':')
    decreases |gs|
  {
    if k == 0 {
      after := if |gs| == 1 then "" else ":" + Joined(gs[1..]);
    } else {
      after := JoinedSplit(gs[1..], k - 1);
      assert gs[..k] == [gs[0]] + gs[1..][..k - 1];
      var front := Colons(gs[1..][..k - 1]);
      assert Colons(gs[..k]) == gs[0] + ":" + front by { assert gs[..k][1..] == gs[1..][..k - 1]; }
      assert gs[0] + ":" + (front + gs[k] + after) == gs[0] + ":" + front + gs[k] + after;
    }
  }

  lemma GroupsAsShape(gs: seq<string>)
    ensures ShapeText(Form(gs, false, [], [], None, None)) == Joined(gs)
  {
    assert gs + DottedItem([]) == gs;
  }

  lemma GroupsAcceptedExactly(gs: seq<string>)
    requires AreGroups(gs)
    ensures ParseText(Joined(gs)).ok <==> |gs| == 8
  {
    GroupsAsShape(gs);
    GroupsAreStorable(gs);
    ShapesAcceptedExactly(Form(gs, false, [], [], None, None));
  }

  /** Groups with colons between them: accepted exactly if they are eight; otherwise the count is
      reported. */
  lemma GroupsByCount(gs: seq<string>)
    requires AreGroups(gs)
    ensures ParseText(Joined(gs)).ok <==> |gs| == 8
    ensures |gs| != 8 ==> Reported(Joined(gs), V6BadComponentCount)
  {
    GroupsAcceptedExactly(gs);
    if gs == [] {
      EmptyText();
    } else if |gs| < 8 {
      TooFewGroups(gs);
    } else if |gs| > 8 {
      TooManyGroups(gs);
    }
  }

  lemma EmptyText()
    ensures Reported("", V6BadComponentCount)
  {
  }

  lemma TooManyGroups(gs: seq<string>)
    requires AreGroups(gs) && |gs| > 8
    ensures Reported(Joined(gs), V6BadComponentCount)
  {
    InitialReading();
    var after := JoinedSplit(gs, 8);
    GroupsAreStorable(gs);
    CountGroups(INITIAL, 0, gs[..8]);
    var before := Colons(gs[..8]);
    ReaderFacts.NoRoomLeft(Run(INITIAL, before).(current := AddrComponent, token := gs[8]));
    BadGroup(before, 8, gs[8], after, V6BadComponentCount);
  }

  lemma GroupsAreStorable(gs: seq<string>)
    requires AreGroups(gs)
    ensures AreTokens(gs) && AreStorableGroups(gs)
  {
  }

  lemma TooFewGroups(gs: seq<string>)
    requires AreGroups(gs) && 0 < |gs| < 8
    ensures Reported(Joined(gs), V6BadComponentCount)
  {
    InitialReading();
    GroupsAreStorable(gs);
    var d := CountTailGroups(INITIAL, 0, gs);
    FewGroupsStop(Joined(gs), Run(INITIAL, Joined(gs)), d, gs);
  }

  lemma FewGroupsStop(text: string, t: Reader, d: Reader, gs: seq<string>)
    requires AreTokens(gs) && AreStorableGroups(gs) && 0 < |gs| < 8 && t == Run(INITIAL, text)
    requires Outcome(t, d, TailFits(0, gs, [])) && Counting.Counted(INITIAL, d, 0, gs, [])
    ensures Reported(text, V6BadComponentCount)
  {
    NoErrorNoDiagnostic(t, text);
    BadCount(text, V6BadComponentCount);
  }

  /** No error at the blank after the text either, so still nothing has been reported. */
  lemma NoErrorNoDiagnostic(t: Reader, text: string)
    requires t == Run(INITIAL, text) && !t.hasError && !Transition(t, Whitespace, ' ').hasError
    ensures Transition(t, Whitespace, ' ').diags == t.diags
  {
    var longer := text + " ";
    RunAppend(INITIAL, text, " ");
    RunOne(t, ' ');
    assert longer[..|longer|] == longer && text[..|text|] == text;
    Rejection.NoDiagnosticYet(longer, |longer|);
    Rejection.NoDiagnosticYet(text, |text|);
  }

  lemma OctetsAreStorable(os: seq<string>)
    requires forall k | 0 <= k < |os| :: IsOctet(os[k])
    ensures AreTokens(os) && AreStorableOctets(os)
  {
  }

  lemma DottedSplit(os: seq<string>, k: nat) returns (after: string)
    requires k < |os|
    ensures Dotted(os) == Dots(os[..k]) + os[k] + after && (after == "" || after[0] == '.')
    decreases |os|
  {
    if k == 0 {
      after := if |os| == 1 then "" else "." + Dotted(os[1..]);
    } else {
      after := DottedSplit(os[1..], k - 1);
      assert os[..k] == [os[0]] + os[1..][..k - 1];
      var front := Dots(os[1..][..k - 1]);
      assert Dots(os[..k]) == os[0] + "." + front by { assert os[..k][1..] == os[1..][..k - 1]; }
      assert os[0] + "." + (front + os[k] + after) == os[0] + "." + front + os[k] + after;
    }
  }

  lemma OctetsAsShape(os: seq<string>)
    requires |os| != 1
    ensures ShapeText(Form([], false, [], os, None, None)) == Dotted(os)
  {
    var none: seq<string> := [];
    assert none + DottedItem(os) == DottedItem(os);
    if os != [] { assert Joined([Dotted(os)]) == Dotted(os); }
  }

  lemma OneOctetRejected(o: string)
    requires IsOctet(o)
    ensures !ParseText(o).ok
  {
    GroupsAsShape([o]);
    assert Joined([o]) == o;
    ShapesAcceptedExactly(Form([o], false, [], [], None, None));
  }

  lemma OctetsAcceptedExactly(os: seq<string>)
    requires forall k | 0 <= k < |os| :: IsOctet(os[k])
    ensures ParseText(Dotted(os)).ok <==> |os| == 4
  {
    if |os| == 1 {
      OneOctetRejected(os[0]);
    } else {
      OctetsAsShape(os);
      OctetsAreStorable(os);
      ShapesAcceptedExactly(Form([], false, [], os, None, None));
    }
  }

  /** Dotted octets: accepted exactly if they are four; otherwise, if there are two or more, their
      count is reported. */
  lemma OctetsByCount(os: seq<string>)
    requires forall k | 0 <= k < |os| :: IsOctet(os[k])
    ensures ParseText(Dotted(os)).ok <==> |os| == 4
    ensures |os| >= 2 && |os| != 4 ==> Reported(Dotted(os), V4BadComponentCount)
  {
    OctetsAcceptedExactly(os);
    if |os| > 4 {
      TooManyOctets(os);
    } else if 2 <= |os| < 4 {
      TooFewOctets(os);
    }
  }

  lemma TooFewOctets(os: seq<string>)
    requires 2 <= |os| < 4 && forall k | 0 <= k < |os| :: IsOctet(os[k])
    ensures Reported(Dotted(os), V4BadComponentCount)
  {
    InitialReading();
    OctetsAreStorable(os);
    var d := CountQuad(INITIAL, 0, os);
    FewOctetsStop(Dotted(os), Run(INITIAL, Dotted(os)), d, os);
  }

  lemma FewOctetsStop(text: string, t: Reader, d: Reader, os: seq<string>)
    requires AreTokens(os) && AreStorableOctets(os) && 2 <= |os| < 4 && t == Run(INITIAL, text)
    requires Outcome(t, d, TailFits(0, [], os)) && Counting.Counted(INITIAL, d, 0, [], os)
    ensures Reported(text, V4BadComponentCount)
  {
    NoErrorNoDiagnostic(t, text);
    BadCount(text, V4BadComponentCount);
  }

  lemma AfterDots(os: seq<string>)
    requires 1 <= |os| <= 4 && AreTokens(os) && AreStorableOctets(os)
    ensures InQuad(Run(INITIAL, Dots(os)), 0, |os|)
  {
    InitialReading();
    var first := os[0] + ".";
    assert Dots(os) == first + Dots(os[1..]);
    RunAppend(INITIAL, first, Dots(os[1..]));
    CountFirstOctet(INITIAL, 0, os[0]);
    CountOctets(Run(INITIAL, first), 0, 1, os[1..]);
  }

  lemma TooManyOctets(os: seq<string>)
    requires |os| > 4 && forall k | 0 <= k < |os| :: IsOctet(os[k])
    ensures Reported(Dotted(os), V4BadComponentCount)
  {
    OctetsAreStorable(os);
    var after := DottedSplit(os, 4);
    AfterDots(os[..4]);
    var before := Dots(os[..4]);
    ReaderFacts.NoRoomLeft(Run(INITIAL, before).(current := AddrComponent, token := os[4]));
    BadOctet(before, 4, os[4], after, V4BadComponentCount);
  }

  /** A dot, or the end, after an octet that cannot be stored. */
  lemma BadOctet(before: string, k: nat, o: string, after: string, d: Diag)
    requires InQuad(Run(INITIAL, before), 0, k) && IsToken(o) && (after == "" || after[0] == '.')
    requires var t := ParseComponent(Run(INITIAL, before).(current := AddrComponent, token := o));
      t.hasError && t.diags == Run(INITIAL, before).diags + [d] && (after == "" ==> k == 4)
    ensures Reported(before + o + after, d)
  {
    var s := Run(INITIAL, before);
    RunAppend(INITIAL, before, o);
    ReadGroup(s, o);
    var t := s.(current := AddrComponent, token := o);
    if after == "" {
      assert before + o + after == before + o;
      PendingStops(t);
      OctetCountKept(t);
      ErrorAtEnd(before + o, d);
    } else {
      DotAfterOctet(t);
      assert after == ['.'] + after[1..];
      ErrorHere(before + o, '.', after[1..], d);
    }
  }

  lemma OctetCountKept(t: Reader)
    requires t.embedding && t.v4Octets == 4
    ensures ParseComponent(t).v4Octets == t.v4Octets
  {
  }

  // ----- numbers out of range -----

  /** A group out of range after groups in range. */
  lemma GroupOutOfRangeReported(gs: seq<string>, g: string, after: string)
    requires AreGroups(gs) && |gs| < 8 && IsToken(g) && !StorableGroup(g) && (after == "" || after[0] == ':')
    ensures Reported(Colons(gs) + g + after, V6ComponentOutOfRange)
  {
    InitialReading();
    GroupsAreStorable(gs);
    CountGroups(INITIAL, 0, gs);
    ReaderFacts.GroupAcceptance(Run(INITIAL, Colons(gs)).(current := AddrComponent, token := g));
    BadGroup(Colons(gs), |gs|, g, after, V6ComponentOutOfRange);
  }

  /** An octet out of range after octets in range, with a dot after it. */
  lemma OctetOutOfRangeReported(os: seq<string>, o: string, after: string)
    requires 1 <= |os| < 4 && (forall k | 0 <= k < |os| :: IsOctet(os[k]))
    requires IsToken(o) && AllDecimal(o) && !StorableOctet(o) && after != "" && after[0] == '.'
    ensures Reported(Dots(os) + o + after, V4ComponentOutOfRange)
  {
    OctetsAreStorable(os);
    AfterDots(os);
    ReaderFacts.DecimalAcceptance(Run(INITIAL, Dots(os)).(current := AddrComponent, token := o));
    BadOctet(Dots(os), |os|, o, after, V4ComponentOutOfRange);
  }

  lemma AfterBody(f: Form) returns (t: Reader, d: Reader)
    requires WellFormed(f) && f.mask.None?
    ensures t == Run(INITIAL, (if f.port.Some? then "[" else "") + Body(f)) && Settles(t, d)
    ensures d.embedding ==> d.v4Octets == 4
    ensures d.embedding == (f.quad != []) && d.compat == QuadOnly(f)
    ensures d.diags == [] && (f.quad != [] ==> t.current == AddrComponent)
  {
    d := ReadBody(f);
    t := Run(INITIAL, (if f.port.Some? then "[" else "") + Body(f));
    DoneFields(f);
    assert Goto(d, Start) == Done(f);
  }

  /** A prefix length out of range after a well-formed address. */
  lemma MaskOutOfRangeReported(f: Form, mask: string)
    requires WellFormed(f) && f.mask.None? && f.port.None?
    requires AllDecimal(mask) && AllHex(mask) && !MaskInRange(Some(mask))
    ensures Reported(Body(f) + ("/" + mask), InvalidCidrMask)
  {
    var t, d := AfterBody(f);
    assert "" + Body(f) == Body(f);
    RunAppend(INITIAL, Body(f), "/" + mask);
    RunAppend(t, "/", mask);
    RunOne(t, '/');
    ReadDigits(Goto(d, Cidr), mask);
    assert "" + mask == mask;
    var c := Goto(d, Cidr).(token := mask);
    ReaderFacts.DecimalAcceptance(c);
    EndOfBadMask(c);
    ErrorAtEnd(Body(f) + ("/" + mask), InvalidCidrMask);
  }

  lemma EndOfBadMask(c: Reader)
    requires c.current == Cidr && ParseCidr(c).hasError && ParseCidr(c).diags == c.diags + [InvalidCidrMask]
    ensures var e := Transition(c, Whitespace, ' ');
      e.hasError && e.diags == c.diags + [InvalidCidrMask] && e.embedding == c.embedding && e.v4Octets == c.v4Octets
  {
  }

  /** A port out of range after a well-formed address in brackets. */
  lemma PortOutOfRangeReported(f: Form, port: string)
    requires WellFormed(f) && f.mask.None? && f.port == Some("")
    requires AllDecimal(port) && AllHex(port) && !PortInRange(Some(port))
    ensures Reported("[" + Body(f) + ("]:" + port), InvalidPort)
  {
    var t, d := AfterBody(f);
    RunAppend(INITIAL, "[" + Body(f), "]:" + port);
    var p := PendingPort(t, d, port);
    ReaderFacts.DecimalAcceptance(p);
    EndOfBadPort(p);
    ErrorAtEnd("[" + Body(f) + ("]:" + port), InvalidPort);
  }

  lemma PendingPort(t: Reader, d: Reader, port: string) returns (p: Reader)
    requires Ends(t, d) && AllDecimal(port)
    ensures p == Goto(d, Port).(token := port) && Run(t, "]:" + port) == p
  {
    assert "]:" + port == "]" + (":" + port);
    RunAppend(t, "]", ":" + port);
    RunOne(t, ']');
    RunAppend(Goto(d, PostAddr), ":", port);
    RunOne(Goto(d, PostAddr), ':');
    ColonAfterBracket(d);
    ReadDigits(Goto(d, Port), port);
    assert "" + port == port;
    p := Goto(d, Port).(token := port);
  }

  lemma EndOfBadPort(p: Reader)
    requires p.current == Port && ParsePort(p).hasError && ParsePort(p).diags == p.diags + [InvalidPort]
    ensures var e := Transition(p, Whitespace, ' ');
      e.hasError && e.diags == p.diags + [InvalidPort] && e.embedding == p.embedding && e.v4Octets == p.v4Octets
  {
  }

  // ----- characters in the wrong place -----

  /** The characters that have a meaning elsewhere in a text. */
  predicate IsMisplaced(c: char)
  {
    (IsHex(c) && !IsDecimal(c)) || c == ':' || c == '.' || c == '/' || c == '%' || c == '[' || c == ']'
  }

  /** After a port only blanks can come, and more digits. */
  lemma AfterPortReported(f: Form, port: string, c: char, after: string)
    requires WellFormed(f) && f.mask.None? && f.port == Some("") && AllDecimal(port)
    requires IsMisplaced(c)
    ensures Reported("[" + Body(f) + ("]:" + port) + ([c] + after), InvalidInput)
  {
    var t, d := AfterBody(f);
    RunAppend(INITIAL, "[" + Body(f), "]:" + port);
    var p := PendingPort(t, d, port);
    BadPortCharacter(p, c);
    ErrorHere("[" + Body(f) + ("]:" + port), c, after, InvalidInput);
  }

  lemma BadPortCharacter(p: Reader, c: char)
    requires p.current == Port && !p.hasError
    requires IsMisplaced(c)
    ensures Step(p, c).hasError && Step(p, c).diags == p.diags + [InvalidInput]
  {
  }

  /** No group can follow a dotted quad that itself follows a group. */
  lemma GroupAfterQuadReported(f: Form, after: string)
    requires WellFormed(f) && f.mask.None? && f.port.None? && f.quad != [] && !QuadOnly(f)
    ensures Reported(Body(f) + ([':'] + after), V4IncorrectPosition)
  {
    var t, d := AfterBody(f);
    assert "" + Body(f) == Body(f);
    QuadIsPending(t, d);
    ErrorHere(Body(f), ':', after, V4IncorrectPosition);
  }

  lemma QuadIsPending(t: Reader, d: Reader)
    requires Settles(t, d) && d.embedding && !d.compat && t.current == AddrComponent
    ensures Step(t, ':').hasError && Step(t, ':').diags == t.diags + [V4IncorrectPosition]
  {
    EmbeddingKept(t);
    assert Goto(d, Start) == Goto(ParseComponent(t), Start);
    ColonInQuad(t);
  }

  lemma EmbeddingKept(t: Reader)
    requires t.current == AddrComponent
    ensures ParseComponent(t).embedding == t.embedding && ParseComponent(t).compat == t.compat
    ensures Transition(t, Whitespace, ' ') == Goto(ParseComponent(t), Start)
  {
  }

  lemma ColonInQuad(t: Reader)
    requires t.current == AddrComponent && t.embedding && !t.compat
    ensures Step(t, ':').hasError && Step(t, ':').diags == t.diags + [V4IncorrectPosition]
  {
  }

  /** A dotted part needs room for two components. */
  lemma QuadTooLateReported(gs: seq<string>, o: string, after: string)
    requires AreGroups(gs) && 7 <= |gs| <= 8 && IsToken(o)
    ensures Reported(Colons(gs) + o + (['.'] + after), V4RequiredBits)
  {
    InitialReading();
    GroupsAreStorable(gs);
    CountGroups(INITIAL, 0, gs);
    PendingGroup(Colons(gs), |gs|, o);
    DotWithoutRoom(Run(INITIAL, Colons(gs) + o));
    ErrorHere(Colons(gs) + o, '.', after, V4RequiredBits);
  }

  lemma DotWithoutRoom(t: Reader)
    requires t.current == AddrComponent && !t.embedding && t.components >= 7
    ensures Step(t, '.').hasError && Step(t, '.').diags == t.diags + [V4RequiredBits]
  {
  }

  /** A third colon in a row. */
  lemma TripleColonReported(gs: seq<string>, after: string)
    requires AreGroups(gs) && |gs| <= 8
    ensures Reported(Joined(gs) + "::" + ([':'] + after), InvalidAbbrev)
  {
    InitialReading();
    GroupsAreStorable(gs);
    CountGap(INITIAL, gs);
    var t := Run(INITIAL, Joined(gs) + "::");
    GapIsPending(t);
    ErrorHere(Joined(gs) + "::", ':', after, InvalidAbbrev);
  }

  lemma GapIsPending(t: Reader)
    requires !t.hasError && t.current == V6Separator && t.hasZerorun
    ensures Step(t, ':').hasError && Step(t, ':').diags == t.diags + [InvalidAbbrev]
    ensures Step(t, '[').hasError && Step(t, '[').diags == t.diags + [InvalidBrackets]
  {
  }

  /** Brackets in the wrong place: two opening ones, one after "::", and a closing one in front. */
  lemma BracketsReported(c: char, after: string)
    ensures Reported("[" + (['['] + after), InvalidBrackets)
    ensures Reported("::" + (['['] + after), InvalidBrackets)
    ensures IsHex(c) ==> Reported("]" + ([c] + after), InvalidInput)
  {
    RunOne(INITIAL, '[');
    ErrorHere("[", '[', after, InvalidBrackets);
    InitialReading();
    CountGapAlone(INITIAL);
    GapIsPending(Run(INITIAL, "::"));
    ErrorHere("::", '[', after, InvalidBrackets);
    RunOne(INITIAL, ']');
    if IsHex(c) {
      ErrorHere("]", c, after, InvalidInput);
    }
  }

  /** Neither a dot nor an interface name can begin a text. */
  lemma BadBeginning(after: string)
    ensures Reported("" + (['.'] + after), InvalidInput)
    ensures Reported("" + (['%'] + after), InvalidInput)
  {
    ErrorHere("", '.', after, InvalidInput);
    ErrorHere("", '%', after, InvalidInput);
  }
}
