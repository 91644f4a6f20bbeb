/** The reader accepts every well-formed text with the address it denotes: one lemma for each piece
    of text, from a single group to the whole. */
module FormReading {
  import opened Options
  import opened Text
  import opened Address
  import opened ReaderSpec
  import opened Forms

  // ----- reading one group -----

  /** A reader between components. */
  ghost predicate Between(s: Reader)
  {
    && !s.hasError
    && (s.current == Start || s.current == V6Separator)
    && s.token == ""
  }

  lemma {:induction false} ReadDigits(s: Reader, g: string)
    requires !s.hasError
    requires (s.current == AddrComponent && AllHex(g)) || ((s.current == Cidr || s.current == Port) && AllDecimal(g))
    ensures Run(s, g) == s.(token := s.token + g)
    decreases |g|
  {
    if g == "" {
      assert s.token + g == s.token;
    } else {
      assert Step(s, g[0]) == Grow(s, s.current, g[0]);
      ReadDigits(Grow(s, s.current, g[0]), g[1..]);
      assert s.token + g == s.token + [g[0]] + g[1..];
    }
  }

  lemma ReadGroup(s: Reader, g: string)
    requires Between(s) && g != "" && AllHex(g)
    ensures Run(s, g) == s.(current := AddrComponent, token := g)
  {
    ReadDigits(Step(s, g[0]), g[1..]);
    assert [g[0]] + g[1..] == g;
  }

  lemma SmallAccumulation(token: string, base: nat)
    requires AllHex(token) && Value(token, base) <= 0xffff
    ensures Accumulated(token, base) == Value(token, base)
  {
  }

  /** A colon, slash or bracket after a group, or the end of the text, stores the group. */
  lemma StoreGroup(s: Reader)
    requires !s.hasError && s.current == AddrComponent && !s.embedding && s.components < 8
    requires IsGroup(s.token)
    ensures ParseComponent(s) ==
      StoreComponent(s, s.components, Value(s.token, 16)).(components := s.components + 1, token := "")
  {
    SmallAccumulation(s.token, 16);
  }

  function Put(c: Components, at: nat, vs: seq<U16>): Components
    requires at + |vs| <= 8
  {
    c[..at] + vs + c[at + |vs|..]
  }

  function PutGroups(s: Reader, vs: seq<U16>): Reader
    requires s.components + |vs| <= 8
  {
    s.(components := s.components + |vs|,
       out := s.out.(components := Put(s.out.components, s.components, vs)))
  }

  lemma ReadGroupAndColon(s: Reader, g: string)
    requires Between(s) && !s.embedding && !s.compat && s.components < 8 && IsGroup(g)
    ensures Run(s, g + ":") == Goto(PutGroups(s, [Value(g, 16)]), V6Separator)
  {
    RunAppend(s, g, ":");
    ReadGroup(s, g);
    var t := s.(current := AddrComponent, token := g);
    StoreGroup(t);
    assert Run(t, ":") == Step(t, ':') by { RunOne(t, ':'); }
    assert s.out.components[s.components := Value(g, 16)] == Put(s.out.components, s.components, [Value(g, 16)]);
  }

  lemma {:induction false} ReadGroupsAndColons(s: Reader, gs: seq<string>)
    requires Between(s) && !s.embedding && !s.compat && s.components + |gs| <= 8 && AreGroups(gs)
    ensures Run(s, Colons(gs)) ==
      if gs == [] then s else Goto(PutGroups(s, GroupValues(gs)), V6Separator)
    decreases |gs|
  {
    if gs != [] {
      var first := gs[0] + ":";
      assert Colons(gs) == first + Colons(gs[1..]);
      RunAppend(s, first, Colons(gs[1..]));
      ReadGroupAndColon(s, gs[0]);
      var t := Goto(PutGroups(s, [Value(gs[0], 16)]), V6Separator);
      ReadGroupsAndColons(t, gs[1..]);
      assert GroupValues(gs) == [Value(gs[0], 16)] + GroupValues(gs[1..]);
      PutTwice(s.out.components, s.components, [Value(gs[0], 16)], GroupValues(gs[1..]));
    }
  }

  lemma PutTwice(c: Components, at: nat, vs: seq<U16>, ws: seq<U16>)
    requires at + |vs| + |ws| <= 8
    ensures Put(Put(c, at, vs), at + |vs|, ws) == Put(c, at, vs + ws)
  {
  }

  // ----- reading a dotted quad -----

  lemma OrHighOctet(v: U8)
    ensures OrOctet(0, v, true) == v * 0x100
  {
  }

  lemma OrLowOctet(h: nat, v: U8)
    requires h <= 0xff
    ensures OrOctet(h * 0x100, v, false) == h * 0x100 + v
  {
    BitOrOctet(h, v);
    OrFits(h * 0x100, v, h * 0x100 + v);
  }

  lemma OrFits(cell: U16, v: U8, w: U16)
    requires BitOr(cell, v) == w
    ensures OrOctet(cell, v, false) == w
  {
  }

  lemma OctetAccumulates(o: string)
    requires IsOctet(o)
    ensures 0 <= Accumulated(o, 10) == Value(o, 10) <= 0xff
  {
    SmallAccumulation(o, 10);
  }

  /** An even-numbered octet goes into the high byte of a clear component. */
  lemma StoreHighOctet(s: Reader)
    requires !s.hasError && s.current == AddrComponent && s.embedding && IsOctet(s.token)
    requires s.v4Octets < 4 && s.v4Octets % 2 == 0 && s.v4Embedding <= 6
    requires s.out.components[s.v4Embedding + s.v4Octets / 2] == 0
    ensures ParseComponent(s) ==
      StoreComponent(s, s.v4Embedding + s.v4Octets / 2, Value(s.token, 10) * 0x100)
      .(v4Octets := s.v4Octets + 1, token := "")
  {
    OctetAccumulates(s.token);
    OrHighOctet(Value(s.token, 10));
  }

  /** An odd-numbered octet joins the one before it. */
  lemma StoreLowOctet(s: Reader, h: nat)
    requires !s.hasError && s.current == AddrComponent && s.embedding && IsOctet(s.token)
    requires s.v4Octets < 4 && s.v4Octets % 2 == 1 && s.v4Embedding <= 6 && h <= 0xff
    requires s.out.components[s.v4Embedding + s.v4Octets / 2] == h * 0x100
    ensures ParseComponent(s) ==
      StoreComponent(s, s.v4Embedding + s.v4Octets / 2, h * 0x100 + Value(s.token, 10))
      .(v4Octets := s.v4Octets + 1, token := "")
  {
    OctetAccumulates(s.token);
    OrLowOctet(h, Value(s.token, 10));
  }

  function QuadSoFar(s: Reader, at: nat, v0: U16, v1: U16, octets: Count4, compat: bool): Reader
    requires at <= 6
  {
    s.(current := Start, token := "", embedding := true, compat := compat,
       v4Embedding := at, components := at + 2, v4Octets := octets,
       out := s.out.(components := s.out.components[at := v0][at + 1 := v1]))
  }

  /** A reader with room for a quad. */
  ghost predicate RoomForQuad(s: Reader)
  {
    && Between(s)
    && !s.embedding && !s.compat && s.v4Octets == 0 && s.components <= 6
    && s.out.components[s.components] == 0 && s.out.components[s.components + 1] == 0
  }

  /** The first dot opens the embedding and stores the octet before it. */
  lemma FirstDot(s: Reader, o: string)
    requires RoomForQuad(s) && IsOctet(o)
    ensures Step(s.(current := AddrComponent, token := o), '.') ==
      QuadSoFar(s, s.components, Value(o, 10) * 0x100, 0, 1, s.components == 0)
  {
    var t := s.(current := AddrComponent, token := o,
                v4Embedding := s.components, embedding := true, compat := s.components == 0,
                components := s.components + 2);
    StoreHighOctet(t);
    UpdateZero(s.out.components, s.components, Value(o, 10) * 0x100);
  }

  lemma ReadFirstOctet(s: Reader, o: string)
    requires RoomForQuad(s) && IsOctet(o)
    ensures Run(s, o + ".") == QuadSoFar(s, s.components, Value(o, 10) * 0x100, 0, 1, s.components == 0)
  {
    RunAppend(s, o, ".");
    ReadGroup(s, o);
    RunOne(s.(current := AddrComponent, token := o), '.');
    FirstDot(s, o);
  }

  lemma UpdateZero(c: Components, at: nat, v: U16)
    requires at <= 6 && c[at + 1] == 0
    ensures c[at := v][at + 1 := 0] == c[at := v]
  {
  }

  lemma DotAfterOctet(t: Reader)
    requires t.current == AddrComponent && t.embedding
    ensures Step(t, '.') == Goto(ParseComponent(t), Start)
  {
    assert Classify('.') == Some(V4Separator);
    DotInQuad(t);
  }

  lemma DotInQuad(t: Reader)
    requires t.embedding
    ensures FromAddrComponent(t, V4Separator, '.') == Goto(ParseComponent(t), Start)
  {
    assert BeginEmbedding(t) == t;
  }

  /** A quad at a given place whose first octets have been read, between two octets. */
  lemma SecondDot(s: Reader, at: nat, v: U8, o: string)
    requires at <= 6 && !s.hasError && IsOctet(o)
    ensures Step(QuadSoFar(s, at, v * 0x100, 0, 1, at == 0).(current := AddrComponent, token := o), '.')
            == QuadSoFar(s, at, v * 0x100 + Value(o, 10), 0, 2, at == 0)
  {
    OverwriteFirst(s.out.components, at, v * 0x100, v * 0x100 + Value(o, 10));
    var t := QuadSoFar(s, at, v * 0x100, 0, 1, at == 0).(current := AddrComponent, token := o);
    DotAfterOctet(t);
    StoreLowOctet(t, v);
  }

  lemma OverwriteFirst(c: Components, at: nat, v: U16, w: U16)
    requires at <= 6
    ensures c[at := v][at + 1 := 0][at := w] == c[at := w][at + 1 := 0]
  {
  }

  lemma ThirdDot(s: Reader, at: nat, v: U16, o: string)
    requires at <= 6 && !s.hasError && IsOctet(o)
    ensures Step(QuadSoFar(s, at, v, 0, 2, at == 0).(current := AddrComponent, token := o), '.')
            == QuadSoFar(s, at, v, Value(o, 10) * 0x100, 3, at == 0)
  {
    var t := QuadSoFar(s, at, v, 0, 2, at == 0).(current := AddrComponent, token := o);
    DotAfterOctet(t);
    StoreHighOctet(t);
    var c := s.out.components;
    assert c[at := v][at + 1 := 0][at + 1 := Value(o, 10) * 0x100] == c[at := v][at + 1 := Value(o, 10) * 0x100];
  }

  /** A group and the character after it. */
  lemma ReadGroupAnd(s: Reader, g: string, c: char)
    requires Between(s) && g != "" && AllHex(g)
    ensures Run(s, g + [c]) == Step(s.(current := AddrComponent, token := g), c)
  {
    RunAppend(s, g, [c]);
    ReadGroup(s, g);
    RunOne(s.(current := AddrComponent, token := g), c);
  }

  lemma ReadSecondOctet(s: Reader, prefix: string, at: nat, v: U8, o: string)
    requires at <= 6 && !s.hasError && IsOctet(o)
    requires Run(s, prefix) == QuadSoFar(s, at, v * 0x100, 0, 1, at == 0)
    ensures Run(s, prefix + (o + ".")) == QuadSoFar(s, at, v * 0x100 + Value(o, 10), 0, 2, at == 0)
  {
    RunAppend(s, prefix, o + ".");
    ReadGroupAnd(QuadSoFar(s, at, v * 0x100, 0, 1, at == 0), o, '.');
    SecondDot(s, at, v, o);
  }

  lemma ReadThirdOctet(s: Reader, prefix: string, at: nat, v: U16, o: string)
    requires at <= 6 && !s.hasError && IsOctet(o)
    requires Run(s, prefix) == QuadSoFar(s, at, v, 0, 2, at == 0)
    ensures Run(s, prefix + (o + ".")) == QuadSoFar(s, at, v, Value(o, 10) * 0x100, 3, at == 0)
  {
    RunAppend(s, prefix, o + ".");
    ReadGroupAnd(QuadSoFar(s, at, v, 0, 2, at == 0), o, '.');
    ThirdDot(s, at, v, o);
  }

  lemma ReadFourthOctet(s: Reader, prefix: string, at: nat, v: U16, v': U16, o: string)
    requires at <= 6 && !s.hasError && IsOctet(o)
    requires Run(s, prefix) == QuadSoFar(s, at, v, v', 3, at == 0)
    ensures Run(s, prefix + o) == QuadSoFar(s, at, v, v', 3, at == 0).(current := AddrComponent, token := o)
  {
    RunAppend(s, prefix, o);
    ReadGroup(QuadSoFar(s, at, v, v', 3, at == 0), o);
  }

  /** After three octets and their dots, and the fourth octet, which is still pending. */
  lemma ReadQuad(s: Reader, quad: seq<string>)
    requires RoomForQuad(s) && IsQuad(quad)
    ensures Run(s, QuadText(quad)) ==
      QuadSoFar(s, s.components, Value(quad[0], 10) * 0x100 + Value(quad[1], 10),
        Value(quad[2], 10) * 0x100, 3, s.components == 0).(current := AddrComponent, token := quad[3])
  {
    var at, v0 := s.components, Value(quad[0], 10);
    var v, v' := v0 * 0x100 + Value(quad[1], 10), Value(quad[2], 10) * 0x100;
    var one := quad[0] + ".";
    var two := one + (quad[1] + ".");
    var three := two + (quad[2] + ".");
    ReadFirstOctet(s, quad[0]);
    ReadSecondOctet(s, one, at, v0, quad[1]);
    ReadThirdOctet(s, two, at, v, quad[2]);
    ReadFourthOctet(s, three, at, v, v', quad[3]);
    assert QuadText(quad) == three + quad[3];
  }

  // ----- reading the part after the last gap -----

  /** What was being read is complete: a blank (or the end of the text) and a closing bracket both
      lead to the reader d, in the state that follows each. */
  ghost predicate Ends(t: Reader, d: Reader)
  {
    && !t.hasError && !d.hasError
    && Transition(t, Whitespace, ' ') == Goto(d, Start)
    && Step(t, ']') == Goto(d, PostAddr)
  }

  /** The same for the address part, which a slash can also follow. */
  ghost predicate Settles(t: Reader, d: Reader)
  {
    && Ends(t, d) && Step(t, '/') == Goto(d, Cidr)
    && (t.current == AddrComponent || t.current == V6Separator)
  }

  lemma ComponentSettles(t: Reader)
    requires !t.hasError && t.current == AddrComponent && !ParseComponent(t).hasError
    ensures Settles(t, ParseComponent(t))
  {
  }

  lemma SeparatorSettles(t: Reader)
    requires !t.hasError && t.current == V6Separator
    ensures Settles(t, t)
  {
  }

  /** The reader once groups, and perhaps a quad, have been stored. */
  function Filled(s: Reader, groups: seq<U16>, quad: seq<U16>): Reader
    requires |quad| == 0 || |quad| == 2
    requires s.components + |groups| + |quad| <= 8
  {
    if quad == [] then Goto(PutGroups(s, groups), Start)
    else
      var at := s.components + |groups|;
      Goto(PutGroups(s, groups + quad), Start)
      .(embedding := true, compat := at == 0, v4Embedding := at, v4Octets := 4)
  }

  ghost predicate Blank(s: Reader)
  {
    && Between(s)
    && !s.embedding && !s.compat && s.v4Octets == 0
    && forall k | s.components <= k < 8 :: s.out.components[k] == 0
  }

  lemma PutGroupsTwice(s: Reader, vs: seq<U16>, ws: seq<U16>)
    requires s.components + |vs| + |ws| <= 8
    ensures PutGroups(PutGroups(s, vs), ws) == PutGroups(s, vs + ws)
    ensures PutGroups(s, []) == s
  {
    PutTwice(s.out.components, s.components, vs, ws);
    assert Put(s.out.components, s.components, []) == s.out.components;
  }

  lemma ReadLastGroup(s: Reader, last: string) returns (d: Reader)
    requires Between(s) && !s.embedding && !s.compat && s.components < 8 && IsGroup(last)
    ensures Settles(Run(s, last), d)
    ensures Goto(d, Start) == Goto(PutGroups(s, [Value(last, 16)]), Start)
  {
    ReadGroup(s, last);
    var t := s.(current := AddrComponent, token := last);
    StoreGroup(t);
    ComponentSettles(t);
    d := ParseComponent(t);
    assert s.out.components[s.components := Value(last, 16)] == Put(s.out.components, s.components, [Value(last, 16)]);
  }

  /** The reader after groups that are each followed by a colon. */
  function AfterColons(s: Reader, gs: seq<string>): Reader
    requires AreGroups(gs) && s.components + |gs| <= 8
  {
    if gs == [] then s else Goto(PutGroups(s, GroupValues(gs)), V6Separator)
  }

  lemma RunUpToLast(s: Reader, gs: seq<string>, last: string)
    requires Blank(s) && AreGroups(gs) && s.components + |gs| <= 8
    ensures Run(s, Joined(gs + [last])) == Run(AfterColons(s, gs), last)
  {
    JoinedSnoc(gs, last);
    RunAppend(s, Colons(gs), last);
    ReadGroupsAndColons(s, gs);
  }

  lemma AfterColonsPut(s: Reader, gs: seq<string>, ws: seq<U16>)
    requires AreGroups(gs) && s.components + |gs| + |ws| <= 8
    ensures Goto(PutGroups(AfterColons(s, gs), ws), Start) == Goto(PutGroups(s, GroupValues(gs) + ws), Start)
  {
    PutGroupsTwice(s, GroupValues(gs), ws);
  }

  lemma ReadTailGroups(s: Reader, gs: seq<string>) returns (d: Reader)
    requires Blank(s) && gs != [] && AreGroups(gs) && s.components + |gs| <= 8
    ensures Settles(Run(s, Joined(gs)), d)
    ensures Goto(d, Start) == Filled(s, GroupValues(gs), [])
  {
    var front, last := gs[..|gs| - 1], gs[|gs| - 1];
    assert gs == front + [last];
    RunUpToLast(s, front, last);
    d := ReadLastGroup(AfterColons(s, front), last);
    AfterColonsPut(s, front, [Value(last, 16)]);
    assert GroupValues(gs) == GroupValues(front) + [Value(last, 16)];
  }

  /** The reader once a quad has been stored. */
  function FilledQuad(s: Reader, vs: seq<U16>): Reader
    requires |vs| == 2 && s.components <= 6
  {
    Goto(PutGroups(s, vs), Start)
    .(embedding := true, compat := s.components == 0, v4Embedding := s.components, v4Octets := 4)
  }

  /** The fourth octet, which is still pending when the quad has been read. */
  lemma LastOctet(s: Reader, quad: seq<string>, t: Reader) returns (d: Reader)
    requires RoomForQuad(s) && IsQuad(quad)
    requires t == QuadSoFar(s, s.components, Value(quad[0], 10) * 0x100 + Value(quad[1], 10),
                    Value(quad[2], 10) * 0x100, 3, s.components == 0).(current := AddrComponent, token := quad[3])
    ensures Settles(t, d) && d == ParseComponent(t)
    ensures Goto(d, Start) == FilledQuad(s, QuadValues(quad))
  {
    var at := s.components;
    var v0 := Value(quad[0], 10) * 0x100 + Value(quad[1], 10);
    var v1 := Value(quad[2], 10) * 0x100 + Value(quad[3], 10);
    PutPair(s.out.components, at, v0, Value(quad[2], 10) * 0x100, v1);
    StoreLowOctet(t, Value(quad[2], 10));
    ComponentSettles(t);
    d := ParseComponent(t);
  }

  lemma PutPair(c: Components, at: nat, v: U16, w: U16, w': U16)
    requires at <= 6
    ensures c[at := v][at + 1 := w][at + 1 := w'] == Put(c, at, [v, w'])
  {
  }

  lemma ReadLastQuad(s: Reader, quad: seq<string>) returns (d: Reader)
    requires RoomForQuad(s) && IsQuad(quad)
    ensures Settles(Run(s, QuadText(quad)), d)
    ensures Goto(d, Start) == FilledQuad(s, QuadValues(quad))
    ensures Run(s, QuadText(quad)).current == AddrComponent
    ensures s.components == 0 ==> Step(Run(s, QuadText(quad)), ':') == Goto(d, Port)
  {
    ReadQuad(s, quad);
    d := LastOctet(s, quad, Run(s, QuadText(quad)));
  }

  lemma ReadTailQuad(s: Reader, gs: seq<string>, quad: seq<string>) returns (d: Reader)
    requires Blank(s) && AreGroups(gs) && IsQuad(quad) && s.components + |gs| + 2 <= 8
    ensures Settles(Run(s, Joined(gs + QuadItem(quad))), d)
    ensures Goto(d, Start) == Filled(s, GroupValues(gs), QuadValues(quad))
    ensures quad != [] ==> Run(s, Joined(gs + QuadItem(quad))).current == AddrComponent
  {
    RunUpToLast(s, gs, QuadText(quad));
    d := ReadLastQuad(AfterColons(s, gs), quad);
    AfterColonsPut(s, gs, QuadValues(quad));
  }

  /** The items after the gap, or all of them: afterwards the address part is complete. */
  lemma ReadTail(s: Reader, gs: seq<string>, quad: seq<string>) returns (d: Reader)
    requires Blank(s) && AreGroups(gs) && (quad == [] || IsQuad(quad))
    requires s.components + |gs| + |QuadValues(quad)| <= 8
    requires gs == [] && quad == [] ==> s.current == V6Separator
    ensures Settles(Run(s, Joined(gs + QuadItem(quad))), d)
    ensures Goto(d, Start) == Filled(s, GroupValues(gs), QuadValues(quad))
    ensures quad != [] ==> Run(s, Joined(gs + QuadItem(quad))).current == AddrComponent
  {
    if quad != [] {
      d := ReadTailQuad(s, gs, quad);
    } else if gs != [] {
      assert gs + QuadItem(quad) == gs;
      d := ReadTailGroups(s, gs);
    } else {
      SeparatorSettles(s);
      d := s;
      assert Put(s.out.components, s.components, []) == s.out.components;
    }
  }

  // ----- reading the mask and the port -----

  function WithMask(a: AddressFull, mask: Option<string>): AddressFull
    requires mask.Some? ==> IsMask(mask.value)
  {
    if mask.None? then a else a.(mask := Value(mask.value, 10), flags := a.flags.(maskOrEmbed := true))
  }

  function WithPort(a: AddressFull, port: Option<string>): AddressFull
    requires port.Some? ==> IsPort(port.value)
  {
    if port.None? then a else a.(port := Value(port.value, 10), flags := a.flags.(hasPort := true))
  }

  lemma ReadMask(t: Reader, d: Reader, mask: string) returns (d': Reader)
    requires Settles(t, d) && IsMask(mask)
    ensures Ends(Run(t, "/" + mask), d') && Run(t, "/" + mask).current == Cidr
    ensures Goto(d', Start) == Goto(d, Start).(out := WithMask(d.out, Some(mask)))
  {
    RunAppend(t, "/", mask);
    RunOne(t, '/');
    ReadDigits(Goto(d, Cidr), mask);
    assert "" + mask == mask;
    d' := MaskEnds(d, mask);
  }

  lemma MaskEnds(d: Reader, mask: string) returns (d': Reader)
    requires !d.hasError && IsMask(mask)
    ensures Ends(Goto(d, Cidr).(token := mask), d')
    ensures Goto(d', Start) == Goto(d, Start).(out := WithMask(d.out, Some(mask)))
  {
    SmallAccumulation(mask, 10);
    d' := ParseCidr(Goto(d, Cidr).(token := mask));
  }

  lemma ReadPortDigits(d: Reader, port: string)
    requires !d.hasError && IsPort(port)
    ensures var u := Run(Goto(d, Port), port);
      && !u.hasError
      && Transition(u, Whitespace, ' ') == Goto(d, Start).(out := WithPort(d.out, Some(port)))
  {
    ReadDigits(Goto(d, Port), port);
    assert "" + port == port;
    PortEnds(d, port);
  }

  lemma PortEnds(d: Reader, port: string)
    requires !d.hasError && IsPort(port)
    ensures Transition(d.(current := Port, token := port), Whitespace, ' ') ==
      Goto(d, Start).(out := WithPort(d.out, Some(port)))
  {
    SmallAccumulation(port, 10);
  }

  lemma ReadPort(t: Reader, d: Reader, port: string)
    requires Ends(t, d) && IsPort(port)
    ensures var u := Run(t, "]:" + port);
      && !u.hasError
      && Transition(u, Whitespace, ' ') == Goto(d, Start).(out := WithPort(d.out, Some(port)))
  {
    assert "]:" + port == "]" + (":" + port);
    RunAppend(t, "]", ":" + port);
    RunOne(t, ']');
    RunAppend(Goto(d, PostAddr), ":", port);
    RunOne(Goto(d, PostAddr), ':');
    ReadPortDigits(d, port);
  }

  lemma ReadSuffix(t: Reader, d: Reader, mask: Option<string>, port: Option<string>)
    requires Settles(t, d)
    requires mask.Some? ==> IsMask(mask.value)
    requires port.Some? ==> IsPort(port.value)
    ensures var u := Run(t, MaskText(mask) + PortText(port));
      && !u.hasError
      && Transition(u, Whitespace, ' ') == Goto(d, Start).(out := WithPort(WithMask(d.out, mask), port))
  {
    RunAppend(t, MaskText(mask), PortText(port));
    var t', d' := t, d;
    if mask.Some? {
      d' := ReadMask(t, d, mask.value);
      t' := Run(t, MaskText(mask));
    }
    if port.Some? {
      ReadPort(t', d', port.value);
    }
  }

  // ----- whole forms -----

  /** The reader before the address part: a bracket has been counted if there is a port. */
  function Opened(port: Option<string>): Reader
  {
    INITIAL.(brackets := if port.Some? then 1 else 0)
  }

  lemma ReadOpening(port: Option<string>)
    ensures Run(INITIAL, if port.Some? then "[" else "") == Opened(port)
  {
    RunOne(INITIAL, '[');
  }

  /** The reader before the tail: the groups left of the gap are stored and the gap is marked. */
  function BeforeTail(f: Form): Reader
    requires WellFormed(f)
  {
    if f.gap then
      Goto(PutGroups(Opened(f.port), GroupValues(f.left)), V6Separator)
      .(zerorun := |f.left|, hasZerorun := true)
    else Opened(f.port)
  }

  lemma ReadGap(f: Form)
    requires WellFormed(f) && f.gap
    ensures Run(Opened(f.port), Joined(f.left) + "::") == BeforeTail(f)
  {
    var s := Opened(f.port);
    if f.left == [] {
      assert Joined(f.left) + "::" == ":" + ":";
      RunAppend(s, ":", ":");
      RunOne(s, ':');
      GapMark(s);
      assert GroupValues(f.left) == [] && PutGroups(s, []) == s by { PutGroupsTwice(s, [], []); }
    } else {
      JoinedColon(f.left);
      assert Joined(f.left) + "::" == Colons(f.left) + ":";
      RunAppend(s, Colons(f.left), ":");
      ReadGroupsAndColons(s, f.left);
      GapMark(PutGroups(s, GroupValues(f.left)));
    }
  }

  /** The second colon marks the run of zeros. */
  lemma GapMark(s: Reader)
    requires !s.hasError && !s.hasZerorun
    ensures var t := Goto(s, V6Separator);
      Run(t, ":") == t.(zerorun := s.components, hasZerorun := true)
  {
    RunOne(Goto(s, V6Separator), ':');
  }

  function TailGroups(f: Form): seq<string> { if f.gap then f.right else f.left }

  /** The components that are written after the gap, or all of them. */
  function TailValues(f: Form): seq<U16>
    requires WellFormed(f)
  {
    GroupValues(TailGroups(f)) + QuadValues(f.quad)
  }

  function Done(f: Form): Reader
    requires WellFormed(f)
  {
    Filled(BeforeTail(f), GroupValues(TailGroups(f)), QuadValues(f.quad))
  }

  lemma BeforeTailIsBlank(f: Form)
    requires WellFormed(f)
    ensures Blank(BeforeTail(f))
  {
    if f.gap {
      assert AreGroups(f.left) && |f.left| <= 8;
      PutIntoZeros([], GroupValues(f.left));
      assert BeforeTail(f).out.components == GroupValues(f.left) + Zeros(8 - |f.left|);
    } else {
      assert BeforeTail(f).out.components == ZERO_COMPONENTS;
    }
  }

  /** Opening bracket and address part. */
  lemma ReadBody(f: Form) returns (d: Reader)
    requires WellFormed(f)
    ensures Settles(Run(INITIAL, (if f.port.Some? then "[" else "") + Body(f)), d)
    ensures Goto(d, Start) == Done(f)
    ensures f.quad != [] ==> Run(INITIAL, (if f.port.Some? then "[" else "") + Body(f)).current == AddrComponent
  {
    var opening := if f.port.Some? then "[" else "";
    var tail := Joined(TailGroups(f) + QuadItem(f.quad));
    RunAppend(INITIAL, opening, Body(f));
    ReadOpening(f.port);
    if f.gap {
      assert Body(f) == (Joined(f.left) + "::") + tail;
      RunAppend(Opened(f.port), Joined(f.left) + "::", tail);
      ReadGap(f);
    }
    BeforeTailIsBlank(f);
    d := ReadTail(BeforeTail(f), TailGroups(f), f.quad);
  }

  lemma PutAfter(left: seq<U16>, vs: seq<U16>)
    requires |left| + |vs| <= 8
    ensures Put(left + Zeros(8 - |left|), |left|, vs) == left + vs + Zeros(8 - |left| - |vs|)
  {
  }

  lemma PutIntoZeros(left: seq<U16>, vs: seq<U16>)
    requires |left| + |vs| <= 8
    ensures Put(Put(ZERO_COMPONENTS, 0, left), |left|, vs) == left + vs + Zeros(8 - |left| - |vs|)
    ensures Put(ZERO_COMPONENTS, 0, vs) == vs + Zeros(8 - |vs|)
  {
    assert ZERO_COMPONENTS == [] + Zeros(8);
    PutAfter([], left);
    PutAfter([], vs);
    PutAfter(left, vs);
    assert [] + left == left && [] + vs == vs;
  }

  lemma ExpandOpensTheGap(left: seq<U16>, vs: seq<U16>)
    requires |left| + |vs| <= 8
    ensures Expand(left + vs + Zeros(8 - |left| - |vs|), |left|, |left| + |vs|)
            == left + Zeros(8 - |left| - |vs|) + vs
  {
  }

  lemma DoneFields(f: Form)
    requires WellFormed(f)
    ensures var t := Done(f);
      && t.components == Width(f) && t.compat == QuadOnly(f)
      && t.hasZerorun == f.gap && t.zerorun == (if f.gap then |f.left| else 0)
      && t.embedding == (f.quad != []) && (t.embedding ==> t.v4Octets == 4)
      && t.diags == [] && !t.hasError && t.current == Start
      && t.out == ZERO_ADDRESS.(components := t.out.components)
      && t.out.components == Put(BeforeTail(f).out.components, if f.gap then |f.left| else 0, TailValues(f))
  {
    assert f.quad == [] ==> TailValues(f) == GroupValues(TailGroups(f));
  }

  lemma DoneComponents(f: Form)
    requires WellFormed(f)
    ensures f.gap ==> Done(f).out.components == GroupValues(f.left) + TailValues(f) + Zeros(8 - Width(f))
    ensures !f.gap || QuadOnly(f) ==> Done(f).out.components == TailValues(f) + Zeros(8 - Width(f))
  {
    DoneFields(f);
    PutIntoZeros(if f.gap then GroupValues(f.left) else [], TailValues(f));
    if f.gap && QuadOnly(f) {
      assert GroupValues(f.left) == [] && [] + TailValues(f) == TailValues(f);
    }
  }

  lemma DenotedByTail(f: Form)
    requires WellFormed(f)
    ensures !QuadOnly(f) && f.gap ==> Denoted(f) == GroupValues(f.left) + Zeros(8 - Width(f)) + TailValues(f)
    ensures !QuadOnly(f) && !f.gap ==> Denoted(f) == TailValues(f) + Zeros(8 - Width(f))
    ensures QuadOnly(f) ==> Denoted(f) == TailValues(f) + Zeros(8 - Width(f))
  {
    if QuadOnly(f) {
      assert TailValues(f) == QuadValues(f.quad);
    } else if !f.gap {
      assert GroupValues(f.right) == [] && Zeros(8 - Width(f)) == [];
    }
  }

  /** What the components hold when the text ends, before the gap is opened up. */
  lemma FilledComponents(f: Form)
    requires WellFormed(f)
    ensures if f.gap && !QuadOnly(f) then Expand(Done(f).out.components, |f.left|, Width(f)) == Denoted(f)
            else Done(f).out.components == Denoted(f)
  {
    DoneComponents(f);
    DenotedByTail(f);
    if f.gap && !QuadOnly(f) {
      ExpandOpensTheGap(GroupValues(f.left), TailValues(f));
    }
  }

  lemma ConcludeForm(f: Form, u: Reader)
    requires WellFormed(f) && !u.hasError
    requires Transition(u, Whitespace, ' ') == Done(f).(out := WithPort(WithMask(Done(f).out, f.mask), f.port))
    ensures var (ok, t) := Conclude(u);
      ok && t.out == DenotedAddress(f) && t.diags == []
  {
    DoneFields(f);
    FilledComponents(f);
  }

  /** A whole text up to its end. */
  lemma ReadForm(f: Form)
    requires WellFormed(f)
    ensures var u := Run(INITIAL, TextOfForm(f));
      && !u.hasError
      && Transition(u, Whitespace, ' ') == Done(f).(out := WithPort(WithMask(Done(f).out, f.mask), f.port))
  {
    var prefix := (if f.port.Some? then "[" else "") + Body(f);
    var suffix := MaskText(f.mask) + PortText(f.port);
    assert TextOfForm(f) == prefix + suffix;
    RunAppend(INITIAL, prefix, suffix);
    var d := ReadBody(f);
    ReadSuffix(Run(INITIAL, prefix), d, f.mask, f.port);
    assert d.out == Done(f).out;
  }

  /** Every well-formed text is accepted without a diagnostic, as the address it denotes. */
  lemma FormsAreAccepted(f: Form)
    requires WellFormed(f)
    ensures ParseText(TextOfForm(f)) == Result(true, DenotedAddress(f), [])
  {
    ReadForm(f);
    ConcludeForm(f, Run(INITIAL, TextOfForm(f)));
  }
}
