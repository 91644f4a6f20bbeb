/** Exactly which texts made of groups, "::", octets, a prefix length and a port are accepted: any
    number of groups and octets, of any length and value. */
module Counting {
  import opened Options
  import opened Text
  import opened ReaderSpec
  import opened Forms
  import opened FormReading
  import ReaderFacts

  // ----- shapes -----

  predicate IsToken(g: string) { g != "" && AllHex(g) }

  predicate AreTokens(gs: seq<string>) { forall k | 0 <= k < |gs| :: IsToken(gs[k]) }

  /** Octets with dots between them. */
  function Dotted(os: seq<string>): string
  {
    if os == [] then "" else if |os| == 1 then os[0] else os[0] + "." + Dotted(os[1..])
  }

  /** Every octet followed by a dot. */
  function Dots(os: seq<string>): string
  {
    if os == [] then "" else os[0] + "." + Dots(os[1..])
  }

  /** A form with any number of groups and octets, but for a single octet, which is a group. */
  predicate IsShape(f: Form)
  {
    && AreTokens(f.left) && AreTokens(f.right) && AreTokens(f.quad) && |f.quad| != 1
    && (f.mask.Some? ==> AllDecimal(f.mask.value) && AllHex(f.mask.value))
    && (f.port.Some? ==> AllDecimal(f.port.value) && AllHex(f.port.value))
    && (!f.gap ==> f.right == [])
  }

  function DottedItem(os: seq<string>): seq<string> { if os == [] then [] else [Dotted(os)] }

  function ShapeBody(f: Form): string
  {
    if f.gap then Joined(f.left) + "::" + Joined(f.right + DottedItem(f.quad))
    else Joined(f.left + DottedItem(f.quad))
  }

  function ShapeText(f: Form): string
  {
    (if f.port.Some? then "[" else "") + ShapeBody(f) + (MaskText(f.mask) + PortText(f.port))
  }

  lemma ShapeTextOfForm(f: Form)
    requires f.quad == [] || |f.quad| == 4
    ensures ShapeText(f) == TextOfForm(f)
  {
    if f.quad != [] {
      assert Dotted(f.quad) == QuadText(f.quad) by {
        var q := f.quad;
        assert q[1..][1..] == q[2..] && q[2..][1..] == q[3..];
        assert Dotted(q[3..]) == q[3];
        assert Dotted(q[2..]) == q[2] + "." + q[3];
        assert Dotted(q[1..]) == q[1] + "." + (q[2] + "." + q[3]);
      }
    }
    assert ShapeBody(f) == Body(f);
  }

  // ----- which tokens are accepted -----

  predicate StorableGroup(g: string)
    requires AllHex(g)
  {
    var w := Value(g, 16) % 0x1_0000_0000;
    w <= 0xffff || w >= 0x8000_0000
  }

  predicate AreStorableGroups(gs: seq<string>)
    requires AreTokens(gs)
  {
    forall k | 0 <= k < |gs| :: StorableGroup(gs[k])
  }

  predicate StorableOctet(o: string)
    requires AllHex(o)
  {
    AllDecimal(o) && var w := Value(o, 10) % 0x1_0000_0000; w <= 0xff || w >= 0x8000_0000
  }

  predicate AreStorableOctets(os: seq<string>)
    requires AreTokens(os)
  {
    forall k | 0 <= k < |os| :: StorableOctet(os[k])
  }

  predicate MaskInRange(mask: Option<string>)
    requires mask.Some? ==> AllHex(mask.value)
  {
    mask.Some? ==> Value(mask.value, 10) % 0x1_0000_0000 <= 128
  }

  predicate PortInRange(port: Option<string>)
    requires port.Some? ==> AllHex(port.value)
  {
    port.Some? ==> Value(port.value, 10) % 0x1_0000_0000 <= 0xffff
  }

  predicate TokensInRange(f: Form)
    requires IsShape(f)
  {
    && AreStorableGroups(f.left) && AreStorableGroups(f.right) && AreStorableOctets(f.quad)
    && MaskInRange(f.mask) && PortInRange(f.port)
  }

  /** Four octets or none; and eight components, or up to eight around "::", or a quad alone. */
  predicate CountsFit(f: Form)
  {
    && (f.quad == [] || |f.quad| == 4)
    && Width(f) <= 8 && (f.gap || Width(f) == 8 || QuadOnly(f))
  }

  // ----- groups -----

  /** What the verdict depends on, apart from errors. */
  ghost predicate SameCounts(s: Reader, t: Reader)
  {
    && t.components == s.components && t.hasZerorun == s.hasZerorun && t.zerorun == s.zerorun
    && t.embedding == s.embedding && t.compat == s.compat && t.v4Octets == s.v4Octets
    && t.v4Embedding == s.v4Embedding
  }

  /** Between groups, n of them stored. */
  ghost predicate Reading(s: Reader, n: nat)
  {
    && Between(s) && s.components == n && s.zerorun <= n
    && !s.embedding && !s.compat && s.v4Octets == 0
  }

  /** A pending group is stored exactly if there is room and it is in range. */
  lemma GroupEnds(t: Reader, n: nat)
    requires !t.hasError && !t.embedding && t.components == n && IsToken(t.token)
    ensures var d := ParseComponent(t);
      && (!d.hasError <==> n < 8 && StorableGroup(t.token))
      && (!d.hasError ==> d == t.(components := n + 1, token := "", out := d.out))
  {
    if n < 8 { ReaderFacts.GroupAcceptance(t); }
  }

  lemma ColonAfterGroup(t: Reader)
    requires t.current == AddrComponent && !t.embedding && !t.compat
    ensures Step(t, ':') == Goto(ParseComponent(t), V6Separator)
  {
  }

  lemma CountGroup(s: Reader, n: nat, g: string)
    requires Reading(s, n) && IsToken(g)
    ensures var t := Run(s, g + ":");
      && (!t.hasError <==> n < 8 && StorableGroup(g))
      && (!t.hasError ==> Reading(t, n + 1) && t.current == V6Separator && t.hasZerorun == s.hasZerorun)
  {
    RunAppend(s, g, ":");
    ReadGroup(s, g);
    var t := s.(current := AddrComponent, token := g);
    RunOne(t, ':');
    ColonAfterGroup(t);
    GroupEnds(t, n);
  }

  ghost predicate GroupsFit(n: nat, gs: seq<string>)
    requires AreTokens(gs)
  {
    n + |gs| <= 8 && AreStorableGroups(gs)
  }

  lemma {:induction false} CountGroups(s: Reader, n: nat, gs: seq<string>)
    requires Reading(s, n) && AreTokens(gs)
    ensures var t := Run(s, Colons(gs));
      && (!t.hasError <==> GroupsFit(n, gs))
      && (!t.hasError ==> Reading(t, n + |gs|) && t.hasZerorun == s.hasZerorun
                          && (if gs == [] then t == s else t.current == V6Separator))
    decreases |gs|
  {
    if gs != [] {
      var first := gs[0] + ":";
      assert Colons(gs) == first + Colons(gs[1..]);
      RunAppend(s, first, Colons(gs[1..]));
      CountGroup(s, n, gs[0]);
      var t := Run(s, first);
      if !t.hasError {
        CountGroups(t, n + 1, gs[1..]);
        assert GroupsFit(n, gs) <==> GroupsFit(n + 1, gs[1..]);
      }
    }
  }

  // ----- octets -----

  /** Inside a dotted part that began after n components, k octets stored. */
  ghost predicate InQuad(s: Reader, n: nat, k: nat)
  {
    && !s.hasError && s.current == Start && s.token == ""
    && s.embedding && n <= 6 && s.v4Embedding == n && s.components == n + 2 && s.zerorun <= n
    && s.compat == (n == 0) && s.v4Octets == k
  }

  lemma OctetEnds(t: Reader, n: nat, k: nat)
    requires !t.hasError && t.embedding && n <= 6 && t.v4Embedding == n && t.v4Octets == k && IsToken(t.token)
    ensures var d := ParseComponent(t);
      && (!d.hasError <==> k < 4 && StorableOctet(t.token))
      && (!d.hasError ==> d == t.(v4Octets := k + 1, token := "", out := d.out))
  {
    if k < 4 && AllDecimal(t.token) { ReaderFacts.DecimalAcceptance(t); }
  }

  lemma CountFirstOctet(s: Reader, n: nat, o: string)
    requires Reading(s, n) && IsToken(o)
    ensures var t := Run(s, o + ".");
      && (!t.hasError <==> n <= 6 && StorableOctet(o))
      && (!t.hasError ==> InQuad(t, n, 1) && t.hasZerorun == s.hasZerorun)
  {
    RunAppend(s, o, ".");
    ReadGroup(s, o);
    var t := s.(current := AddrComponent, token := o);
    RunOne(t, '.');
    if n <= 6 {
      var u := t.(v4Embedding := n, embedding := true, compat := n == 0, components := n + 2);
      assert BeginEmbedding(t) == u;
      OctetEnds(u, n, 0);
      assert Step(t, '.') == Goto(ParseComponent(u), Start);
    }
  }

  lemma CountOctet(s: Reader, n: nat, k: nat, o: string)
    requires InQuad(s, n, k) && IsToken(o)
    ensures var t := Run(s, o + ".");
      && (!t.hasError <==> k < 4 && StorableOctet(o))
      && (!t.hasError ==> InQuad(t, n, k + 1) && t.hasZerorun == s.hasZerorun)
  {
    RunAppend(s, o, ".");
    ReadGroup(s, o);
    var t := s.(current := AddrComponent, token := o);
    RunOne(t, '.');
    DotAfterOctet(t);
    OctetEnds(t, n, k);
  }

  ghost predicate OctetsFit(k: nat, os: seq<string>)
    requires AreTokens(os)
  {
    k + |os| <= 4 && AreStorableOctets(os)
  }

  lemma {:induction false} CountOctets(s: Reader, n: nat, k: nat, os: seq<string>)
    requires InQuad(s, n, k) && AreTokens(os)
    ensures var t := Run(s, Dots(os));
      && (!t.hasError <==> OctetsFit(k, os))
      && (!t.hasError ==> InQuad(t, n, k + |os|) && t.hasZerorun == s.hasZerorun)
    decreases |os|
  {
    if os != [] {
      var first := os[0] + ".";
      assert Dots(os) == first + Dots(os[1..]);
      RunAppend(s, first, Dots(os[1..]));
      CountOctet(s, n, k, os[0]);
      var t := Run(s, first);
      if !t.hasError {
        CountOctets(t, n, k + 1, os[1..]);
        assert OctetsFit(k, os) <==> OctetsFit(k + 1, os[1..]);
      }
    }
  }

  lemma {:induction false} DottedSnoc(os: seq<string>, last: string)
    ensures Dotted(os + [last]) == Dots(os) + last
  {
    if os != [] {
      assert (os + [last])[1..] == os[1..] + [last];
      DottedSnoc(os[1..], last);
    }
  }

  // ----- the address part -----

  /** What is pending ends in the same way, in the reader d, at a blank, a bracket and a slash; d may
      have met an error. */
  ghost predicate Stops(t: Reader, d: Reader)
  {
    StopsForBracket(t, d) && Step(t, '/') == Goto(d, Cidr)
  }

  ghost predicate StopsForBracket(t: Reader, d: Reader)
  {
    !t.hasError && Transition(t, Whitespace, ' ') == Goto(d, Start) && Step(t, ']') == Goto(d, PostAddr)
  }

  lemma PendingStops(t: Reader)
    requires !t.hasError && t.current == AddrComponent
    ensures Stops(t, ParseComponent(t))
  {
  }

  lemma NothingPending(t: Reader)
    requires Between(t)
    ensures Stops(t, t)
  {
  }

  /** The part after "::", or all of it, with n components before it. */
  ghost predicate TailFits(n: nat, gs: seq<string>, os: seq<string>)
    requires AreTokens(gs) && AreTokens(os)
  {
    && n + |gs| + (if os == [] then 0 else 2) <= 8 && |os| <= 4
    && AreStorableGroups(gs) && AreStorableOctets(os)
  }

  /** An error has been met, or the reader d is where the address part ends; without an error exactly
      if everything fits. */
  ghost predicate Outcome(t: Reader, d: Reader, fits: bool)
  {
    if t.hasError then !fits else Stops(t, d) && (!d.hasError <==> fits)
  }

  ghost predicate Counted(s: Reader, d: Reader, n: nat, gs: seq<string>, os: seq<string>)
  {
    && d.components == n + |gs| + (if os == [] then 0 else 2) && d.zerorun <= d.components
    && d.hasZerorun == s.hasZerorun && d.embedding == (os != []) && d.compat == (os != [] && n + |gs| == 0)
    && d.v4Octets == |os|
  }

  lemma CountTailGroups(s: Reader, n: nat, gs: seq<string>) returns (d: Reader)
    requires Reading(s, n) && AreTokens(gs) && gs != []
    ensures Outcome(Run(s, Joined(gs)), d, TailFits(n, gs, []))
    ensures TailFits(n, gs, []) ==> Counted(s, d, n, gs, [])
  {
    var front, last := gs[..|gs| - 1], gs[|gs| - 1];
    assert gs == front + [last];
    JoinedSnoc(front, last);
    RunAppend(s, Colons(front), last);
    CountGroups(s, n, front);
    assert TailFits(n, gs, []) <==> n + |front| < 8 && AreStorableGroups(front) && StorableGroup(last);
    var s1 := Run(s, Colons(front));
    d := s1;
    if !s1.hasError {
      ReadGroup(s1, last);
      var t := s1.(current := AddrComponent, token := last);
      PendingStops(t);
      GroupEnds(t, n + |front|);
      d := ParseComponent(t);
    }
  }

  /** Octets from the second on, the last of them pending. */
  lemma CountLastOctets(s: Reader, n: nat, os: seq<string>) returns (d: Reader)
    requires InQuad(s, n, 1) && AreTokens(os) && os != []
    ensures Outcome(Run(s, Dotted(os)), d, OctetsFit(1, os))
    ensures OctetsFit(1, os) ==>
      && d.components == n + 2 && d.zerorun <= n && d.hasZerorun == s.hasZerorun
      && d.embedding && d.compat == (n == 0) && d.v4Octets == 1 + |os|
  {
    var front, last := os[..|os| - 1], os[|os| - 1];
    assert os == front + [last];
    DottedSnoc(front, last);
    RunAppend(s, Dots(front), last);
    CountOctets(s, n, 1, front);
    assert OctetsFit(1, os) <==> 1 + |front| < 4 && AreStorableOctets(front) && StorableOctet(last);
    var s1 := Run(s, Dots(front));
    d := s1;
    if !s1.hasError {
      ReadGroup(s1, last);
      var t := s1.(current := AddrComponent, token := last);
      PendingStops(t);
      OctetEnds(t, n, 1 + |front|);
      d := ParseComponent(t);
    }
  }

  lemma CountQuad(s: Reader, n: nat, os: seq<string>) returns (d: Reader)
    requires Reading(s, n) && AreTokens(os) && |os| >= 2
    ensures Outcome(Run(s, Dotted(os)), d, TailFits(n, [], os))
    ensures TailFits(n, [], os) ==> Counted(s, d, n, [], os)
  {
    var first, rest := os[0], os[1..];
    assert os == [first] + rest;
    assert Dotted(os) == (first + ".") + Dotted(rest);
    RunAppend(s, first + ".", Dotted(rest));
    CountFirstOctet(s, n, first);
    assert TailFits(n, [], os) <==> n <= 6 && StorableOctet(first) && OctetsFit(1, rest);
    var s1 := Run(s, first + ".");
    d := s1;
    if !s1.hasError {
      d := CountLastOctets(s1, n, rest);
    }
  }

  lemma CountTail(s: Reader, n: nat, gs: seq<string>, os: seq<string>) returns (d: Reader)
    requires Reading(s, n) && AreTokens(gs) && AreTokens(os) && |os| != 1
    ensures Outcome(Run(s, Joined(gs + DottedItem(os))), d, TailFits(n, gs, os))
    ensures TailFits(n, gs, os) ==> Counted(s, d, n, gs, os)
  {
    if os != [] {
      JoinedSnoc(gs, Dotted(os));
      RunAppend(s, Colons(gs), Dotted(os));
      CountGroups(s, n, gs);
      d := Run(s, Colons(gs));
      if !d.hasError {
        d := CountQuad(d, n + |gs|, os);
      }
    } else if gs != [] {
      assert gs + DottedItem(os) == gs;
      d := CountTailGroups(s, n, gs);
    } else {
      NothingPending(s);
      d := s;
    }
  }

  // ----- prefix length and port -----

  lemma CountMask(t: Reader, d: Reader, mask: string) returns (d': Reader)
    requires Stops(t, d) && AllDecimal(mask) && AllHex(mask)
    ensures var u := Run(t, "/" + mask);
      if u.hasError then d.hasError
      else
        && StopsForBracket(u, d') && !d.hasError
        && (!d'.hasError <==> MaskInRange(Some(mask)))
        && (!d'.hasError ==> SameCounts(d, d'))
  {
    RunAppend(t, "/", mask);
    RunOne(t, '/');
    d' := d;
    if !d.hasError {
      var c := Goto(d, Cidr);
      ReadDigits(c, mask);
      assert "" + mask == mask;
      d' := MaskVerdict(c.(token := mask));
    }
  }

  lemma MaskVerdict(c: Reader) returns (d': Reader)
    requires !c.hasError && c.current == Cidr && AllDecimal(c.token) && AllHex(c.token)
    ensures StopsForBracket(c, d')
    ensures !d'.hasError <==> MaskInRange(Some(c.token))
    ensures !d'.hasError ==> SameCounts(c, d')
  {
    ReaderFacts.DecimalAcceptance(c);
    d' := ParseCidr(c);
  }

  lemma PortVerdict(p: Reader)
    requires !p.hasError && p.current == Port && AllDecimal(p.token) && AllHex(p.token)
    ensures var e := Transition(p, Whitespace, ' ');
      && (!e.hasError <==> PortInRange(Some(p.token)))
      && (!e.hasError ==> SameCounts(p, e))
  {
    ReaderFacts.DecimalAcceptance(p);
  }

  /** How the text ends: with an error exactly unless everything was good. */
  ghost predicate Finishes(u: Reader, d: Reader, good: bool)
  {
    var e := Transition(u, Whitespace, ' ');
    && (good <==> !u.hasError && !e.hasError)
    && (good ==> SameCounts(d, e))
  }

  lemma CountPort(t: Reader, d: Reader, port: string)
    requires StopsForBracket(t, d) && AllDecimal(port) && AllHex(port)
    ensures Finishes(Run(t, "]:" + port), d, !d.hasError && PortInRange(Some(port)))
  {
    assert "]:" + port == "]" + (":" + port);
    RunAppend(t, "]", ":" + port);
    RunOne(t, ']');
    if !d.hasError {
      var a := Goto(d, PostAddr);
      RunAppend(a, ":", port);
      RunOne(a, ':');
      ColonAfterBracket(d);
      CountPortDigits(d, port);
    }
  }

  lemma ColonAfterBracket(d: Reader)
    ensures Step(Goto(d, PostAddr), ':') == Goto(d, Port)
  {
  }

  lemma CountPortDigits(d: Reader, port: string)
    requires !d.hasError && AllDecimal(port) && AllHex(port)
    ensures Finishes(Run(Goto(d, Port), port), d, PortInRange(Some(port)))
  {
    var p := Goto(d, Port);
    ReadDigits(p, port);
    assert "" + port == port;
    PortVerdict(p.(token := port));
  }

  lemma CountSuffix(t: Reader, d: Reader, mask: Option<string>, port: Option<string>)
    requires Stops(t, d)
    requires mask.Some? ==> AllDecimal(mask.value) && AllHex(mask.value)
    requires port.Some? ==> AllDecimal(port.value) && AllHex(port.value)
    ensures Finishes(Run(t, MaskText(mask) + PortText(port)), d, !d.hasError && MaskInRange(mask) && PortInRange(port))
  {
    RunAppend(t, MaskText(mask), PortText(port));
    var t', d' := Run(t, MaskText(mask)), d;
    if mask.Some? {
      d' := CountMask(t, d, mask.value);
    }
    if !t'.hasError && port.Some? {
      CountPort(t', d', port.value);
    }
  }

  // ----- whole texts -----

  /** The verdict at the end of a text. */
  lemma VerdictByCounts(u: Reader)
    requires !u.hasError && !Transition(u, Whitespace, ' ').hasError
    requires var e := Transition(u, Whitespace, ' '); e.zerorun <= e.components
    ensures var e := Transition(u, Whitespace, ' ');
      Conclude(u).0 <==> (e.embedding ==> e.v4Octets == 4) && (e.compat || e.hasZerorun || e.components == 8)
  {
  }

  lemma FirstColon(s: Reader)
    requires s.current == Start
    ensures Step(s, ':') == Goto(s, V6Separator)
  {
  }

  lemma MarkingColon(t: Reader, n: nat)
    requires Reading(t, n) && t.current == V6Separator && !t.hasZerorun
    ensures Reading(Step(t, ':'), n) && Step(t, ':').hasZerorun && Step(t, ':').current == V6Separator
  {
  }

  lemma CountGapAlone(s: Reader)
    requires Reading(s, 0) && s.current == Start && !s.hasZerorun
    ensures Reading(Run(s, "::"), 0) && Run(s, "::").hasZerorun && Run(s, "::").current == V6Separator
  {
    assert "::" == ":" + ":";
    RunAppend(s, ":", ":");
    RunOne(s, ':');
    FirstColon(s);
    RunOne(Goto(s, V6Separator), ':');
    MarkingColon(Goto(s, V6Separator), 0);
  }

  lemma CountGap(s: Reader, left: seq<string>)
    requires Reading(s, 0) && s.current == Start && AreTokens(left) && !s.hasZerorun
    ensures var t := Run(s, Joined(left) + "::");
      && (!t.hasError <==> GroupsFit(0, left))
      && (!t.hasError ==> Reading(t, |left|) && t.hasZerorun && t.current == V6Separator)
  {
    if left == [] {
      assert Joined(left) + "::" == "::";
      CountGapAlone(s);
    } else {
      JoinedColon(left);
      assert Joined(left) + "::" == Colons(left) + ":";
      RunAppend(s, Colons(left), ":");
      CountGroups(s, 0, left);
      var t := Run(s, Colons(left));
      if !t.hasError {
        RunOne(t, ':');
        MarkingColon(t, |left|);
      }
    }
  }

  ghost predicate BodyFits(f: Form)
    requires IsShape(f)
  {
    && Width(f) <= 8 && |f.quad| <= 4
    && AreStorableGroups(f.left) && AreStorableGroups(f.right) && AreStorableOctets(f.quad)
  }

  lemma CountBody(s: Reader, f: Form) returns (d: Reader)
    requires IsShape(f) && Reading(s, 0) && s.current == Start && !s.hasZerorun
    ensures Outcome(Run(s, ShapeBody(f)), d, BodyFits(f))
    ensures BodyFits(f) ==>
      && d.components == Width(f) && d.zerorun <= d.components && d.hasZerorun == f.gap
      && d.embedding == (f.quad != []) && d.compat == QuadOnly(f) && d.v4Octets == |f.quad|
  {
    if f.gap {
      RunAppend(s, Joined(f.left) + "::", Joined(f.right + DottedItem(f.quad)));
      CountGap(s, f.left);
      d := Run(s, Joined(f.left) + "::");
      if !d.hasError {
        d := CountTail(d, |f.left|, f.right, f.quad);
      }
    } else {
      d := CountTail(s, 0, f.left, f.quad);
    }
  }

  /** Any text made of groups, "::", octets, a prefix length and a port, as many and as long as they
      may be, is accepted exactly if every number is in range as a 32-bit value, there are four octets
      or none, and the components are eight, or up to eight around "::", or a quad alone. */
  lemma ShapesAcceptedExactly(f: Form)
    requires IsShape(f)
    ensures ParseText(ShapeText(f)).ok <==> TokensInRange(f) && CountsFit(f)
  {
    var opening := if f.port.Some? then "[" else "";
    var suffix := MaskText(f.mask) + PortText(f.port);
    assert ShapeText(f) == opening + (ShapeBody(f) + suffix);
    RunAppend(INITIAL, opening, ShapeBody(f) + suffix);
    ReadOpening(f.port);
    var s := Opened(f.port);
    RunAppend(s, ShapeBody(f), suffix);
    var d := CountBody(s, f);
    var t := Run(s, ShapeBody(f));
    if !t.hasError {
      CountSuffix(t, d, f.mask, f.port);
      var u := Run(t, suffix);
      assert u == Run(INITIAL, ShapeText(f));
      if !u.hasError && !Transition(u, Whitespace, ' ').hasError {
        VerdictByCounts(u);
      }
    }
  }
}
