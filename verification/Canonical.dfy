/** The printed text of a plain address, with or without a port, is in the canonical form of
    section 4 of RFC 5952. */
module Canonical {
  import opened Options
  import opened Text
  import opened Address
  import opened Forms
  import opened PrinterSpec

  /** No double colon, and no colon at either end. */
  ghost predicate Tidy(t: string)
  {
    && (forall k: nat :: !DoubleColonAt(t, k))
    && (t != "" ==> t[0] != ':' && t[|t| - 1] != ':')
  }

  ghost predicate NoCapitals(t: string)
  {
    forall k | 0 <= k < |t| :: !('A' <= t[k] <= 'Z')
  }

  lemma TidyConcat(s: string, t: string)
    requires Tidy(s) && Tidy(t)
    ensures Tidy(s + t)
  {
    forall k: nat
      ensures !DoubleColonAt(s + t, k)
    {
      if k + 1 < |s| {
        assert !DoubleColonAt(s, k);
      } else if |s| <= k {
        assert !DoubleColonAt(t, k - |s|);
      }
    }
  }

  lemma OnlyDoubleColon(s: string, t: string)
    requires Tidy(s) && Tidy(t)
    ensures forall k: nat :: DoubleColonAt(s + "::" + t, k) <==> k == |s|
    ensures NoCapitals(s) && NoCapitals(t) ==> NoCapitals(s + "::" + t)
  {
    var u := s + "::" + t;
    forall k: nat
      ensures DoubleColonAt(u, k) <==> k == |s|
    {
      if k + 1 < |s| {
        assert !DoubleColonAt(s, k);
      } else if |s| + 2 <= k {
        assert !DoubleColonAt(t, k - |s| - 2);
      }
    }
  }

  /** The groups as RFC 5952 wants them: lower case and no leading zeros. */
  predicate IsCanonicalGroup(g: string, v: U16)
  {
    && 1 <= |g| <= 4
    && (forall k | 0 <= k < |g| :: IsLowerHex(g[k]))
    && (g[0] == '0' ==> g == "0")
    && AllHex(g) && Value(g, 16) == v
  }

  lemma HexIsCanonical(v: U16)
    ensures IsCanonicalGroup(Hex(v), v)
  {
    NumeralDenotes(v, 16);
    PrintedLengths(v);
  }

  lemma ColonFreeIsTidy(g: string)
    requires forall k | 0 <= k < |g| :: g[k] != ':'
    ensures Tidy(g)
  {
  }

  lemma {:induction false} JoinedIsTidy(gs: seq<string>)
    requires forall k | 0 <= k < |gs| :: gs[k] != "" && forall j | 0 <= j < |gs[k]| :: IsLowerHex(gs[k][j])
    ensures Tidy(Joined(gs)) && NoCapitals(Joined(gs))
    ensures gs != [] ==> Joined(gs) != ""
  {
    if gs != [] {
      ColonFreeIsTidy(gs[0]);
      if |gs| > 1 {
        var rest := Joined(gs[1..]);
        JoinedIsTidy(gs[1..]);
        var t := gs[0] + ":" + rest;
        forall k: nat
          ensures !DoubleColonAt(t, k)
        {
          if k + 1 < |gs[0]| {
            assert !DoubleColonAt(gs[0], k);
          } else if |gs[0]| + 1 <= k {
            assert !DoubleColonAt(rest, k - |gs[0]| - 1);
          }
        }
      }
    }
  }

  lemma HexesAreTidy(c: seq<U16>)
    ensures Tidy(Joined(Hexes(c))) && NoCapitals(Joined(Hexes(c)))
  {
    forall k | 0 <= k < |c|
      ensures Hexes(c)[k] != "" && forall j | 0 <= j < |Hexes(c)[k]| :: IsLowerHex(Hexes(c)[k][j])
    {
      HexIsCanonical(c[k]);
    }
    JoinedIsTidy(Hexes(c));
  }

  lemma PortTextIsTidy(port: U16)
    ensures Tidy(PortText(Some(Dec(port)))) && NoCapitals(PortText(Some(Dec(port))))
  {
    NumeralDenotes(port, 10);
  }

  function Opening(a: AddressFull): string { if a.flags.hasPort then "[" else "" }

  function Closing(a: AddressFull): string { PortText(if a.flags.hasPort then Some(Dec(a.port)) else None) }

  /** The text, spelled out: brackets exactly when there is a port; without a run of two zeros all
      eight groups, otherwise the groups before the leftmost longest run, "::", the groups after. */
  lemma PlainText(a: AddressFull)
    requires !a.flags.compat && !a.flags.maskOrEmbed
    ensures var (pos, len) := LongestRun(a.components);
      && IsLongestRun(a.components, pos, len)
      && Printed(a) ==
         if len < 2 then Opening(a) + Joined(Hexes(a.components)) + Closing(a)
         else Opening(a) + Joined(Hexes(a.components[..pos])) + "::"
              + Joined(Hexes(a.components[pos + len..])) + Closing(a)
  {
    var (pos, len) := LongestRun(a.components);
    LongestRunIsLongest(a.components);
    PlainForm(a);
    var f := FormOf(a);
    if len < 2 {
      BodyOfForm(f);
      Assemble(Opening(a), Joined(f.left), "", Closing(a));
    } else {
      BodyOfForm(f);
      Assemble(Opening(a), Joined(f.left), Joined(f.right), Closing(a));
    }
  }

  lemma BodyOfForm(f: Form)
    requires f.quad == [] && f.mask == None
    ensures Body(f) == if f.gap then Joined(f.left) + "::" + Joined(f.right) else Joined(f.left)
    ensures TextOfForm(f) == (if f.port.Some? then "[" else "") + Body(f) + PortText(f.port)
  {
    assert f.left + [] == f.left && f.right + [] == f.right;
    var s := (if f.port.Some? then "[" else "") + Body(f);
    assert s + "" == s;
  }

  lemma Assemble(opening: string, left: string, right: string, closing: string)
    ensures opening + (left + "::" + right) + closing == opening + left + "::" + right + closing
  {
  }

  lemma PlainForm(a: AddressFull)
    requires !a.flags.maskOrEmbed
    ensures var (pos, len) := LongestRun(a.components);
      pos + len <= 8 &&
      FormOf(a) == Form(
        if len >= 2 then Hexes(a.components[..pos]) else Hexes(a.components),
        len >= 2,
        if len >= 2 then Hexes(a.components[pos + len..]) else [],
        [], None, if a.flags.hasPort then Some(Dec(a.port)) else None)
  {
    LongestRunIsLongest(a.components);
    var (pos, len) := LongestRun(a.components);
    assert a.components[..8] == a.components;
    assert a.components[pos + len..8] == a.components[pos + len..];
  }

  /** A tidy address part stays tidy between its brackets. */
  lemma Enclosed(a: AddressFull, s: string)
    requires Tidy(s) && NoCapitals(s)
    ensures Tidy(Opening(a) + s) && NoCapitals(Opening(a) + s)
    ensures Tidy(s + Closing(a)) && NoCapitals(s + Closing(a))
    ensures Tidy(Opening(a) + s + Closing(a)) && NoCapitals(Opening(a) + s + Closing(a))
  {
    PortTextIsTidy(a.port);
    TidyConcat(Opening(a), s);
    TidyConcat(s, Closing(a));
    TidyConcat(Opening(a) + s, Closing(a));
  }

  lemma WithoutGap(a: AddressFull)
    requires !a.flags.compat && !a.flags.maskOrEmbed && LongestRun(a.components).1 < 2
    ensures NoCapitals(Printed(a)) && forall k: nat :: !DoubleColonAt(Printed(a), k)
  {
    PlainText(a);
    HexesAreTidy(a.components);
    Enclosed(a, Joined(Hexes(a.components)));
  }

  lemma GapText(a: AddressFull, left: string, right: string)
    requires Tidy(left) && NoCapitals(left) && Tidy(right) && NoCapitals(right)
    ensures var text := Opening(a) + left + "::" + right + Closing(a);
      && NoCapitals(text)
      && forall k: nat :: DoubleColonAt(text, k) <==> k == |Opening(a) + left|
  {
    Enclosed(a, left);
    Enclosed(a, right);
    OnlyDoubleColon(Opening(a) + left, right + Closing(a));
    Regroup(Opening(a) + left + "::", right, Closing(a));
  }

  lemma Regroup(s: string, t: string, u: string)
    ensures s + t + u == s + (t + u)
  {
  }

  lemma WithGap(a: AddressFull)
    requires !a.flags.compat && !a.flags.maskOrEmbed && LongestRun(a.components).1 >= 2
    ensures NoCapitals(Printed(a))
    ensures forall k: nat :: DoubleColonAt(Printed(a), k) <==>
              k == |Opening(a) + Joined(Hexes(a.components[..LongestRun(a.components).0]))|
  {
    var (pos, len) := LongestRun(a.components);
    PlainText(a);
    HexesAreTidy(a.components[..pos]);
    HexesAreTidy(a.components[pos + len..]);
    GapText(a, Joined(Hexes(a.components[..pos])), Joined(Hexes(a.components[pos + len..])));
  }

  /** Sections 4.1 to 4.3: no capital letter; "::" stands exactly at the leftmost longest run, once,
      and only for a run of two or more zeros; every group is minimal. */
  lemma PrintedIsCanonical(a: AddressFull)
    requires !a.flags.compat && !a.flags.maskOrEmbed
    ensures var (pos, len) := LongestRun(a.components);
      && NoCapitals(Printed(a))
      && (forall k: nat :: DoubleColonAt(Printed(a), k) <==>
            len >= 2 && k == |Opening(a) + Joined(Hexes(a.components[..pos]))|)
      && (forall k | 0 <= k < 8 :: IsCanonicalGroup(Hexes(a.components)[k], a.components[k]))
  {
    forall k | 0 <= k < 8
      ensures IsCanonicalGroup(Hexes(a.components)[k], a.components[k])
    {
      HexIsCanonical(a.components[k]);
    }
    if LongestRun(a.components).1 < 2 {
      WithoutGap(a);
    } else {
      WithGap(a);
    }
  }
}
