/** The printer as the program has it: a write pointer moving through a caller's buffer. */
module Printer {
  import opened Options
  import opened Text
  import opened Address
  import opened ReaderSpec
  import opened Forms
  import opened PrinterSpec

  // ----- the span scan -----

  /** Zero components from i up to j, and none before. */
  ghost predicate OpenSpan(c: Components, start: nat, i: nat)
  {
    && start <= i <= 8
    && (forall k | start <= k < i :: c[k] == 0)
    && (start > 0 ==> c[start - 1] != 0)
  }

  /** The best span closed so far: every run that starts before the open span is no longer, and the
      ones before the best are shorter. */
  ghost predicate BestSpan(c: Components, start: nat, pos: nat, len: nat)
  {
    && start <= 8 && pos < 8
    && (if len == 0 then pos == 0 else pos + len <= start && len == RunLength(c, pos))
    && (forall k | 0 <= k < start :: RunLength(c, k) <= len)
    && (forall k | 0 <= k < pos :: RunLength(c, k) < len)
  }

  lemma {:induction false} RunOfSpan(c: Components, start: nat, i: nat)
    requires start <= i <= 8
    requires forall k | start <= k < i :: c[k] == 0
    ensures forall k | start <= k <= i :: RunLength(c, k) == i - k + RunLength(c, i)
    decreases i - start
  {
    if start < i {
      RunOfSpan(c, start + 1, i);
    }
  }

  lemma CloseSpan(c: Components, start: nat, i: nat, pos: nat, len: nat)
    requires OpenSpan(c, start, i) && BestSpan(c, start, pos, len)
    requires i < 8 ==> c[i] != 0
    ensures start < i && i - start > len ==> BestSpan(c, i, start, i - start)
    ensures i - start <= len ==> BestSpan(c, i, pos, len)
    ensures i < 8 && start < i && i - start > len ==> BestSpan(c, i + 1, start, i - start)
    ensures i < 8 && i - start <= len ==> BestSpan(c, i + 1, pos, len)
  {
    RunOfSpan(c, start, i);
    assert RunLength(c, i) == 0;
  }

  /** For each component the length of the span of zeros it belongs to, keeping the longest. */
  method FindLongestSpan(c: Components) returns (longestPosition: nat, longestSpan: nat)
    ensures (longestPosition, longestSpan) == LongestRun(c)
    ensures IsLongestRun(c, longestPosition, longestSpan)
  {
    var spansPosition := 0;
    longestSpan := 0;
    longestPosition := 0;
    var spans := new U8[8](_ => 0);
    var i := 0;
    while i < NUM_COMPONENTS
      invariant 0 <= i <= 8
      invariant OpenSpan(c, spansPosition, i)
      invariant spansPosition < 8 ==> spans[spansPosition] == i - spansPosition
      invariant forall k | spansPosition < k < 8 :: spans[k] == 0
      invariant BestSpan(c, spansPosition, longestPosition, longestSpan)
    {
      if c[i] != 0 {
        CloseSpan(c, spansPosition, i, longestPosition, longestSpan);
        if spans[spansPosition] > longestSpan {
          longestPosition := spansPosition;
          longestSpan := spans[spansPosition];
        }
        spansPosition := i + 1;
      } else {
        spans[spansPosition] := spans[spansPosition] + 1;
      }
      i := i + 1;
    }
    CloseSpan(c, spansPosition, 8, longestPosition, longestSpan);
    if spansPosition < NUM_COMPONENTS && spans[spansPosition] > longestSpan {
      longestPosition := spansPosition;
      longestSpan := spans[spansPosition];
    }
    LongestRunIsUnique(c, longestPosition, longestSpan);
  }

  // ----- the text written from component i on -----

  /** What the component loop has to write: the eight groups, the dotted quad if there is one, and
      the longest run. */
  datatype Items = Items(groups: seq<string>, quad: Option<string>, pos: nat, len: nat)

  ghost predicate ValidItems(t: Items)
  {
    |t.groups| == 8 && t.pos + t.len <= 8
  }

  function ItemsOf(a: AddressFull): (t: Items)
    ensures ValidItems(t)
  {
    LongestRunIsLongest(a.components);
    var (pos, len) := LongestRun(a.components);
    Items(
      Hexes(a.components),
      if a.flags.maskOrEmbed then Some(QuadText(QuadOf(a.components[6], a.components[7]))) else None,
      pos, len)
  }

  function Emit(t: Items, i: nat): string
    requires ValidItems(t) && i <= 8
    decreases 8 - i
  {
    if i == 8 then ""
    else if i == 6 && t.quad.Some? then t.quad.value
    else if i == t.pos && t.len > 1 then (if i > 0 then ":" else "::") + Emit(t, t.pos + t.len)
    else t.groups[i] + (if i < 7 then ":" else "") + Emit(t, i + 1)
  }

  /** Component k is written as a group. */
  ghost predicate Plain(t: Items, k: nat)
  {
    !(k == 6 && t.quad.Some?) && !(k == t.pos && t.len > 1)
  }

  lemma {:induction false} EmitGroups(t: Items, i: nat, j: nat)
    requires ValidItems(t) && i <= j < 8
    requires forall k | i <= k < j :: Plain(t, k)
    ensures Emit(t, i) == Colons(t.groups[i..j]) + Emit(t, j)
    decreases j - i
  {
    if i < j {
      EmitGroups(t, i + 1, j);
      var gs := t.groups[i..j];
      assert Plain(t, i);
      assert gs[1..] == t.groups[i + 1..j];
      assert Emit(t, i) == t.groups[i] + ":" + Emit(t, i + 1);
      Associate(gs[0] + ":", Colons(gs[1..]), Emit(t, j));
    } else {
      assert Emit(t, i) == Colons([]) + Emit(t, j);
    }
  }

  /** The items from i on when no abbreviation is left to write. */
  lemma EmitTail(t: Items, i: nat, end: nat)
    requires ValidItems(t) && i <= end
    requires forall k | i <= k < end :: Plain(t, k)
    requires end == 8 || (end == 6 && t.quad.Some?)
    ensures Emit(t, i) == Joined(t.groups[i..end] + if end == 6 then [t.quad.value] else [])
  {
    var gs := t.groups[i..end];
    if end == 6 {
      EmitGroups(t, i, 6);
      JoinedSnoc(gs, t.quad.value);
    } else {
      assert gs + [] == gs;
      if i < 8 {
        EmitGroups(t, i, 7);
        var front, last := t.groups[i..7], t.groups[7];
        assert gs == front + [last];
        JoinedSnoc(front, last);
        assert Plain(t, 7);
        assert Emit(t, 7) == last + "" + Emit(t, 8);
      }
    }
  }

  /** Groups, abbreviation, rest. */
  lemma EmitGap(t: Items)
    requires ValidItems(t) && t.len > 1 && !(t.pos == 6 && t.quad.Some?)
    requires forall k | 0 <= k < t.pos :: Plain(t, k)
    ensures Emit(t, 0) == Joined(t.groups[..t.pos]) + "::" + Emit(t, t.pos + t.len)
  {
    var left, rest := t.groups[..t.pos], Emit(t, t.pos + t.len);
    if t.pos > 0 {
      EmitGroups(t, 0, t.pos);
      assert t.groups[0..t.pos] == left;
      assert Emit(t, t.pos) == ":" + rest;
      JoinedThenGap(left, rest);
    } else {
      assert left == [];
      assert Emit(t, 0) == "::" + rest;
      assert Joined(left) + "::" == "::";
    }
  }

  lemma JoinedThenGap(left: seq<string>, rest: string)
    requires left != []
    ensures Colons(left) + (":" + rest) == Joined(left) + "::" + rest
  {
    JoinedColon(left);
  }

  /** How the items of an address relate to the parts of its form. */
  lemma ItemsAndForm(a: AddressFull)
    ensures var t, f := ItemsOf(a), FormOf(a);
      && f.gap == (t.len > 1 && !(t.quad.Some? && t.pos == 6))
      && (f.quad != [] <==> t.quad.Some? && !(f.gap && t.pos + t.len > 6))
      && QuadItem(f.quad) == (if f.quad != [] then [t.quad.value] else [])
      && (f.gap ==> f.left == t.groups[..t.pos])
      && (f.gap ==> t.pos + t.len <= End(f) && f.right == t.groups[t.pos + t.len..End(f)])
      && (!f.gap ==> f.left == t.groups[..End(f)] && f.right == [])
  {
    LongestRunIsLongest(a.components);
    var t, f := ItemsOf(a), FormOf(a);
    var c := a.components;
    HexesSlice(c, 0, if f.gap then t.pos else End(f));
    if f.gap {
      HexesSlice(c, t.pos + t.len, End(f));
    }
  }

  lemma HexesSlice(c: seq<U16>, i: nat, j: nat)
    requires i <= j <= |c|
    ensures Hexes(c[i..j]) == Hexes(c)[i..j]
    ensures Hexes(c[..j]) == Hexes(c)[..j]
  {
  }

  function End(f: Form): nat { if f.quad != [] then 6 else 8 }

  /** The component loop writes the address part of the form. */
  lemma EmitIsBody(a: AddressFull)
    ensures Emit(ItemsOf(a), 0) == Body(FormOf(a))
  {
    ItemsAndForm(a);
    EmitIsBodyOf(ItemsOf(a), FormOf(a));
  }

  lemma EmitIsBodyOf(t: Items, f: Form)
    requires ValidItems(t) && (f.quad == [] || |f.quad| == 4)
    requires f.gap == (t.len > 1 && !(t.quad.Some? && t.pos == 6))
    requires f.quad != [] <==> t.quad.Some? && !(f.gap && t.pos + t.len > 6)
    requires QuadItem(f.quad) == if f.quad != [] then [t.quad.value] else []
    requires f.gap ==> f.left == t.groups[..t.pos]
    requires f.gap ==> t.pos + t.len <= End(f) && f.right == t.groups[t.pos + t.len..End(f)]
    requires !f.gap ==> f.left == t.groups[..End(f)] && f.right == []
    ensures Emit(t, 0) == Body(f)
  {
    if f.gap {
      EmitGap(t);
      EmitTail(t, t.pos + t.len, End(f));
    } else {
      EmitTail(t, 0, End(f));
      assert t.groups[0..End(f)] == f.left;
    }
  }

  // ----- the buffer -----

  method PutChar(out: array<char>, size: nat, wp: nat, c: char) returns (wp': nat)
    requires wp < size - 1 < out.Length
    modifies out
    ensures wp' == wp + 1 && out[..wp'] == old(out[..wp]) + [c]
    ensures out[size..] == old(out[size..])
  {
    out[wp] := c;
    wp' := wp + 1;
  }

  /** Copy a token up to its terminator, or to the end pointer. */
  method CopyToken(out: array<char>, size: nat, wp: nat, token: string) returns (wp': nat)
    requires wp <= size - 1 < out.Length
    modifies out
    ensures wp' == if wp + |token| <= size - 1 then wp + |token| else size - 1
    ensures out[..wp'] == old(out[..wp]) + token[..wp' - wp]
    ensures out[size..] == old(out[size..])
  {
    wp' := wp;
    var cp := 0;
    while wp' < size - 1 && cp < |token|
      invariant 0 <= cp <= |token| && wp' == wp + cp <= size - 1
      invariant out[..wp'] == old(out[..wp]) + token[..cp]
      invariant out[size..] == old(out[size..])
    {
      out[wp'] := token[cp];
      assert token[..cp + 1] == token[..cp] + [token[cp]];
      wp' := wp' + 1;
      cp := cp + 1;
    }
  }

  /** OUTPUT_TRUNCATED, or the terminator after the last character. */
  method Terminate(out: array<char>, size: nat, wp: nat)
    requires wp < size <= out.Length
    modifies out
    ensures out[..wp] == old(out[..wp]) && out[wp] == '\0'
    ensures out[size..] == old(out[size..])
  {
    out[wp] := '\0';
  }

  lemma QuadLength(hi: U16, lo: U16)
    ensures 7 <= |QuadText(QuadOf(hi, lo))| <= 15
  {
    PrintedLengths(hi / 0x100);
    PrintedLengths(hi % 0x100);
    PrintedLengths(lo / 0x100);
    PrintedLengths(lo % 0x100);
  }

  /** Nothing is cut from the tokens of an address that is not compatible. */
  lemma TokensFit(a: AddressFull, i: nat)
    requires i < 8
    ensures Snprintf(Hex(a.components[i])) == Hex(a.components[i])
    ensures Snprintf(QuadText(QuadOf(a.components[6], a.components[7]))) ==
      QuadText(QuadOf(a.components[6], a.components[7]))
    ensures Snprintf("/" + Dec(a.mask)) == "/" + Dec(a.mask)
    ensures Snprintf("]:" + Dec(a.port)) == "]:" + Dec(a.port)
  {
    PrintedLengths(a.components[i]);
    QuadLength(a.components[6], a.components[7]);
    PrintedLengths(a.mask);
    PrintedLengths(a.port);
  }

  // ----- the component loop -----

  ghost predicate NonEmptyItems(t: Items)
  {
    && ValidItems(t)
    && (forall k | 0 <= k < 8 :: t.groups[k] != "")
    && (t.quad.Some? ==> t.quad.value != "")
  }

  lemma EmitNonEmpty(t: Items, i: nat)
    requires NonEmptyItems(t) && i < 8
    ensures Emit(t, i) != ""
  {
  }

  lemma ItemsAreNonEmpty(a: AddressFull)
    ensures NonEmptyItems(ItemsOf(a))
  {
    forall k | 0 <= k < 8
      ensures ItemsOf(a).groups[k] != ""
    {
      PrintedLengths(a.components[k]);
    }
    QuadLength(a.components[6], a.components[7]);
  }

  /** The abbreviation that ends the address is written as one character but needs room for two. */
  function GapSlack(t: Items): nat
  {
    if t.len > 1 && !(t.quad.Some? && t.pos == 6) && t.pos > 0 && t.pos + t.len == 8 then 1 else 0
  }

  function ItemAt(t: Items, i: nat): string
    requires ValidItems(t) && i < 8
  {
    if i == 6 && t.quad.Some? then t.quad.value else t.groups[i]
  }

  predicate AtGap(t: Items, i: nat)
  {
    i == t.pos && t.len > 1 && !(i == 6 && t.quad.Some?)
  }

  /** What one iteration writes, how much room it asks for, and where it continues. */
  function Piece(t: Items, i: nat): string
    requires ValidItems(t) && i < 8
  {
    if AtGap(t, i) then if i == 0 then "::" else ":"
    else ItemAt(t, i) + if Next(t, i) == 8 then "" else ":"
  }

  function Room(t: Items, i: nat): nat
    requires ValidItems(t) && i < 8
  {
    if AtGap(t, i) then 2 else |Piece(t, i)|
  }

  function Next(t: Items, i: nat): (n: nat)
    requires ValidItems(t) && i < 8
    ensures i < n <= 8
  {
    if AtGap(t, i) then t.pos + t.len else if i == 6 && t.quad.Some? then 8 else i + 1
  }

  lemma EmitStep(t: Items, i: nat)
    requires ValidItems(t) && i < 8
    ensures Emit(t, i) == Piece(t, i) + Emit(t, Next(t, i))
  {
  }

  /** The strings that an address is printed with. */
  ghost predicate Formats(t: Items, a: AddressFull)
  {
    && NonEmptyItems(t)
    && t.groups == Hexes(a.components)
    && (t.quad.Some? <==> a.flags.maskOrEmbed)
    && (t.quad.Some? ==> t.quad.value == QuadText(QuadOf(a.components[6], a.components[7])))
  }

  method FormatToken(a: AddressFull, i: nat, ghost t: Items) returns (token: string)
    requires i < 8 && Formats(t, a)
    ensures token == ItemAt(t, i)
  {
    TokensFit(a, i);
    if i == 6 && a.flags.maskOrEmbed {
      token := Snprintf(QuadText(QuadOf(a.components[6], a.components[7])));
    } else {
      token := Snprintf(Hex(a.components[i]));
    }
  }

  /** A token and the colon after it, as far as they fit. */
  method WriteToken(out: array<char>, size: nat, wp: nat, token: string, last: bool) returns (wp': nat)
    requires wp < size - 1 < out.Length
    modifies out
    ensures var piece := token + if last then "" else ":";
      && wp' == (if wp + |piece| <= size - 1 then wp + |piece| else size - 1)
      && out[..wp'] == old(out[..wp]) + piece[..wp' - wp]
    ensures out[size..] == old(out[size..])
  {
    wp' := CopyToken(out, size, wp, token);
    if !last && wp' < size - 1 {
      wp' := PutChar(out, size, wp', ':');
    }
  }

  /** The abbreviation: the group before it has already written the first colon. */
  method WriteGap(out: array<char>, size: nat, wp: nat, first: bool) returns (wp': nat)
    requires wp + 2 < size - 1 < out.Length
    modifies out
    ensures var piece := if first then "::" else ":";
      wp' == wp + |piece| && out[..wp'] == old(out[..wp]) + piece
    ensures out[size..] == old(out[size..])
  {
    wp' := PutChar(out, size, wp, ':');
    if first {
      wp' := PutChar(out, size, wp', ':');
    }
  }

  /** One iteration of the component loop, at component i. */
  method WriteItem(a: AddressFull, out: array<char>, size: nat, wp: nat, i: nat,
                   longestPosition: nat, longestSpan: nat, ghost t: Items)
    returns (ok: bool, wp': nat, next: nat)
    requires wp < size - 1 < out.Length && i < 8
    requires Formats(t, a) && t.pos == longestPosition && t.len == longestSpan
    requires t.pos == 7 ==> t.len <= 1
    modifies out
    ensures ok <==> wp + Room(t, i) < size - 1
    ensures ok ==> next == Next(t, i) && wp' == wp + |Piece(t, i)| && out[..wp'] == old(out[..wp]) + Piece(t, i)
    ensures !ok ==> out[0] == '\0'
    ensures out[size..] == old(out[size..])
  {
    var token := FormatToken(a, i, t);
    next := i;
    if i == 6 && a.flags.maskOrEmbed {
      next := next + 1;
    }
    if next == longestPosition && longestSpan > 1 {
      if wp + 2 >= size - 1 {
        Terminate(out, size, 0);
        return false, wp, next;
      }
      wp' := WriteGap(out, size, wp, next == 0);
      next := next + (longestSpan - 1);
    } else {
      wp' := WriteToken(out, size, wp, token, next == NUM_COMPONENTS - 1);
      if wp' == size - 1 {
        Terminate(out, size, 0);
        return false, wp', next;
      }
    }
    next := next + 1;
    ok := true;
  }

  lemma Associate(s: string, t: string, u: string)
    ensures s + (t + u) == (s + t) + u
  {
  }

  /** The component loop: the items from component 0 on follow what the buffer already holds, and
      the loop gives up as soon as the end pointer is reached. */
  method WriteComponents(a: AddressFull, out: array<char>, size: nat, wp0: nat,
                         longestPosition: nat, longestSpan: nat, ghost t: Items)
    returns (ok: bool, wp: nat)
    requires size >= 4 && size <= out.Length && wp0 <= 1
    requires Formats(t, a) && t.pos == longestPosition && t.len == longestSpan
    requires t.pos == 7 ==> t.len <= 1
    modifies out
    ensures var full := old(out[..wp0]) + Emit(t, 0);
      && (ok <==> |full| + GapSlack(t) < size - 1)
      && (ok ==> wp == |full| && out[..wp] == full)
      && (!ok ==> out[0] == '\0')
    ensures out[size..] == old(out[size..])
  {
    wp := wp0;
    ghost var written := out[..wp];
    ghost var full := written + Emit(t, 0);
    var i := 0;
    while i < NUM_COMPONENTS
      invariant 0 <= i <= 8 && wp < size - 1
      invariant out[..wp] == written
      invariant written + Emit(t, i) == full
      invariant i == 8 && GapSlack(t) == 1 ==> wp + 1 < size - 1
      invariant GapSlack(t) == 1 && t.pos < i ==> i == 8
      invariant out[size..] == old(out[size..])
    {
      EmitStep(t, i);
      Associate(written, Piece(t, i), Emit(t, Next(t, i)));
      if Next(t, i) < 8 { EmitNonEmpty(t, Next(t, i)); }
      written := written + Piece(t, i);
      ok, wp, i := WriteItem(a, out, size, wp, i, longestPosition, longestSpan, t);
      if !ok {
        return;
      }
    }
    ok := true;
  }

  // ----- the whole text -----

  function Min(x: nat, y: nat): nat { if x <= y then x else y }

  /** The terminated text of at most size - 1 characters. */
  ghost predicate Holds(buffer: string, size: nat, text: string)
    requires size >= 1
  {
    var n := Min(|text|, size - 1);
    n < |buffer| && buffer[..n] == text[..n] && buffer[n] == '\0'
  }

  lemma ItemsMatch(a: AddressFull)
    ensures Formats(ItemsOf(a), a)
    ensures ItemsOf(a).pos == 7 ==> ItemsOf(a).len <= 1
    ensures GapSlack(ItemsOf(a)) == Slack(a)
    ensures ItemsOf(a).pos == LongestRun(a.components).0 && ItemsOf(a).len == LongestRun(a.components).1
  {
    ItemsAreNonEmpty(a);
    LongestRunIsLongest(a.components);
  }

  method WriteCompat(a: AddressFull, out: array<char>, size: nat)
    requires 4 <= size <= out.Length && a.flags.compat
    modifies out
    ensures Holds(out[..], size, Printed(a)) && out[size..] == old(out[size..])
  {
    var token := Snprintf(CompatText(a));
    var wp := CopyToken(out, size, 0, token);
    Terminate(out, size, wp);
    assert token[..wp] == out[..wp];
  }

  method Append(out: array<char>, size: nat, wp: nat, token: string, ghost text: string) returns (wp': nat)
    requires 4 <= size <= out.Length
    requires wp == Min(|text|, size - 1) && out[..wp] == text[..wp]
    modifies out
    ensures wp' == Min(|text + token|, size - 1) && out[..wp'] == (text + token)[..wp']
    ensures out[size..] == old(out[size..])
  {
    wp' := CopyToken(out, size, wp, token);
    if wp' > wp {
      assert text[..wp] == text;
    }
  }

  /** The mask and the port are appended as far as they fit. */
  method WriteSuffix(a: AddressFull, out: array<char>, size: nat, wp0: nat, ghost head: string)
    requires 4 <= size <= out.Length && wp0 < size - 1
    requires out[..wp0] == head
    modifies out
    ensures Holds(out[..], size, head + MaskText(FormOf(a).mask) + PortText(FormOf(a).port))
    ensures out[size..] == old(out[size..])
  {
    var wp := wp0;
    TokensFit(a, 0);
    ghost var text := head;
    if a.flags.maskOrEmbed {
      var token := Snprintf("/" + Dec(a.mask));
      wp := Append(out, size, wp, token, text);
      text := text + token;
    }
    assert text == head + MaskText(FormOf(a).mask);
    if a.flags.hasPort {
      var token := Snprintf("]:" + Dec(a.port));
      wp := Append(out, size, wp, token, text);
      text := text + token;
    }
    Terminate(out, size, wp);
  }

  /** ipv6_to_str. A false result stands for NULL. Nothing outside the first size characters of the
      buffer changes; with a size below 4 nothing changes at all. */
  method ToStr(a: AddressFull, out: array<char>, size: nat) returns (ok: bool)
    requires size <= out.Length
    modifies out
    ensures ok <==> Fits(a, size)
    ensures ok ==> Holds(out[..], size, Printed(a))
    ensures !ok && size >= 4 ==> out[0] == '\0'
    ensures size < 4 ==> out[..] == old(out[..])
    ensures out[size..] == old(out[size..])
  {
    if size < 4 {
      return false;
    }
    if a.flags.compat {
      WriteCompat(a, out, size);
      return true;
    }
    var longestPosition, longestSpan := FindLongestSpan(a.components);
    var wp := 0;
    if a.flags.hasPort {
      wp := PutChar(out, size, wp, '[');
    }
    ItemsMatch(a);
    EmitIsBody(a);
    ghost var opening := out[..wp];
    assert opening == if a.flags.hasPort then "[" else "";
    ok, wp := WriteComponents(a, out, size, wp, longestPosition, longestSpan, ItemsOf(a));
    if ok {
      WriteSuffix(a, out, size, wp, Head(a));
    }
  }

  // ----- lengths -----

  lemma {:induction false} EmitLength(t: Items, i: nat)
    requires ValidItems(t) && i <= 8
    requires forall k | 0 <= k < 8 :: |t.groups[k]| <= 4
    requires t.quad.Some? ==> |t.quad.value| <= 15
    ensures |Emit(t, i)| <= if t.quad.Some? && i <= 6 then 5 * (6 - i) + 15 else if i < 8 then 5 * (8 - i) - 1 else 0
    decreases 8 - i
  {
    if i < 8 {
      EmitStep(t, i);
      EmitLength(t, Next(t, i));
    }
  }

  /** At most 46 characters up to the last component and 64 in all, whatever the port and the 32-bit
      mask. */
  lemma PrintedLength(a: AddressFull)
    ensures !a.flags.compat ==> |Head(a)| + Slack(a) <= 47
    ensures 1 <= |Printed(a)| <= 64
  {
    QuadLength(a.components[0], a.components[1]);
    QuadLength(a.components[6], a.components[7]);
    PrintedLengths(a.mask);
    PrintedLengths(a.port);
    if !a.flags.compat {
      var t := ItemsOf(a);
      forall k | 0 <= k < 8
        ensures |t.groups[k]| <= 4
      {
        PrintedLengths(a.components[k]);
      }
      EmitLength(t, 0);
      EmitIsBody(a);
      ItemsAreNonEmpty(a);
      EmitNonEmpty(t, 0);
    }
  }

  /** A buffer of IPV6_STRING_SIZE bytes always gets the whole text. */
  lemma StringSizeSuffices(a: AddressFull, size: nat)
    requires size >= STRING_SIZE
    ensures Fits(a, size) && Min(|Printed(a)|, size - 1) == |Printed(a)|
  {
    PrintedLength(a);
  }

  /** When a buffer is large enough, without looking at how the text is made: three characters more
      than the text always are, four are always needed, and for an IPv4 address they are enough. */
  lemma FitsBounds(a: AddressFull, size: nat)
    ensures size >= |Printed(a)| + 3 ==> Fits(a, size)
    ensures Fits(a, size) ==> size >= 4
    ensures a.flags.compat ==> (Fits(a, size) <==> size >= 4)
    ensures !a.flags.compat && Fits(a, size) ==>
      size > |Printed(a)| - |MaskText(FormOf(a).mask)| - |PortText(FormOf(a).port)| + 1
  {
    PrintedLength(a);
    if !a.flags.compat {
      assert Printed(a) == Head(a) + MaskText(FormOf(a).mask) + PortText(FormOf(a).port);
    }
  }
}
