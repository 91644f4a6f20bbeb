/** The address structure filled in by the parser and read by the printer, its flag word and its
    comparison. */
module Address {
  import opened Text

  const NUM_COMPONENTS := 8

  type Components = c: seq<U16> | |c| == 8 witness [0, 0, 0, 0, 0, 0, 0, 0]

  const ZERO_COMPONENTS: Components := [0, 0, 0, 0, 0, 0, 0, 0]

  /** The 32-bit flag word, bit by bit. HAS_PORT is bit 0; HAS_MASK and IPV4_EMBED are the same
      bit 1; IPV4_COMPAT is bit 2; the other 29 bits have no meaning to the library. */
  datatype Flags = Flags(hasPort: bool, maskOrEmbed: bool, compat: bool, rest: U29)

  type U29 = x: int | 0 <= x < 0x2000_0000

  const NO_FLAGS := Flags(false, false, false, 0)

  function Word(f: Flags): U32
  {
    (if f.hasPort then 1 else 0) + (if f.maskOrEmbed then 2 else 0) + (if f.compat then 4 else 0) + 8 * f.rest
  }

  lemma WordIsInjective(f: Flags, g: Flags)
    requires Word(f) == Word(g)
    ensures f == g
  {
    assert f.rest == g.rest;
  }

  datatype AddressFull = AddressFull(components: Components, port: U16, mask: U32, flags: Flags)

  const ZERO_ADDRESS := AddressFull(ZERO_COMPONENTS, 0, 0, NO_FLAGS)

  // ----- comparison -----

  function ComponentDifferences(a: AddressFull, b: AddressFull): (d: seq<int>)
    ensures |d| == 8
    ensures forall i | 0 <= i < 8 :: d[i] == a.components[i] as int - b.components[i]
  {
    seq(8, i requires 0 <= i < 8 => a.components[i] as int - b.components[i])
  }

  /** The differences the comparison looks at, in the order it looks at them, each as the int32_t
      it is stored in. */
  function Differences(a: AddressFull, b: AddressFull): seq<int>
  {
    ComponentDifferences(a, b) + FeatureDifferences(a, b)
  }

  function FeatureDifferences(a: AddressFull, b: AddressFull): seq<int>
  {
    [Wrap32(Word(a.flags) as int - Word(b.flags))]
    + (if a.flags.hasPort then [a.port as int - b.port] else [])
    + (if a.flags.maskOrEmbed then [Wrap32(a.mask as int - b.mask)] else [])
  }

  function FirstNonZero(s: seq<int>): int
  {
    if s == [] then 0 else if s[0] != 0 then s[0] else FirstNonZero(s[1..])
  }

  function Compare(a: AddressFull, b: AddressFull): int
  {
    FirstNonZero(Differences(a, b))
  }

  method CompareAddresses(a: AddressFull, b: AddressFull) returns (compare: int)
    ensures compare == Compare(a, b)
  {
    ghost var d := Differences(a, b);
    var i := 0;
    while i < NUM_COMPONENTS
      invariant 0 <= i <= 8
      invariant FirstNonZero(d) == FirstNonZero(d[i..])
    {
      compare := a.components[i] as int - b.components[i];
      assert d[i..][0] == compare && d[i..][1..] == d[i + 1..];
      if compare != 0 {
        return compare;
      }
      i := i + 1;
    }
    assert d[8..] == FeatureDifferences(a, b);
    FeatureValue(a, b);
    compare := Wrap32(Word(a.flags) as int - Word(b.flags));
    if compare != 0 {
      return compare;
    }
    if a.flags.hasPort {
      compare := a.port as int - b.port;
      if compare != 0 {
        return compare;
      }
    }
    if a.flags.maskOrEmbed {
      compare := Wrap32(a.mask as int - b.mask);
      if compare != 0 {
        return compare;
      }
    }
    return 0;
  }

  // ----- what the comparison means -----

  /** Equal in every field that the flags say is present. */
  ghost predicate Agree(a: AddressFull, b: AddressFull)
  {
    && a.components == b.components
    && a.flags == b.flags
    && (a.flags.hasPort ==> a.port == b.port)
    && (a.flags.maskOrEmbed ==> a.mask == b.mask)
  }

  lemma {:induction false} FirstNonZeroIsZero(s: seq<int>)
    ensures FirstNonZero(s) == 0 <==> forall k | 0 <= k < |s| :: s[k] == 0
  {
    if s != [] {
      FirstNonZeroIsZero(s[1..]);
      if FirstNonZero(s) == 0 {
        assert forall k | 0 < k < |s| :: s[k] == s[1..][k - 1];
      } else if s[0] == 0 {
        var k :| 0 <= k < |s[1..]| && s[1..][k] != 0;
        assert s[k + 1] != 0;
      }
    }
  }

  /** The comparison returns 0 exactly for addresses that agree, whatever their flag words. */
  lemma CompareZero(a: AddressFull, b: AddressFull)
    ensures Compare(a, b) == 0 <==> Agree(a, b)
  {
    FirstNonZeroConcat(ComponentDifferences(a, b), FeatureDifferences(a, b));
    ComponentValue(a, b);
    FeatureValue(a, b);
  }

  function Sign(x: int): int { if x < 0 then -1 else if x == 0 then 0 else 1 }

  /** The sort key: components, flags, then port and mask where the flags say they are present. */
  ghost function Key(a: AddressFull): (k: seq<int>)
    ensures |k| == 11
  {
    a.components + FeatureKey(a)
  }

  ghost function FeatureKey(a: AddressFull): (k: seq<int>)
    ensures |k| == 3
  {
    [Word(a.flags),
     if a.flags.hasPort then a.port else 0,
     if a.flags.maskOrEmbed then a.mask else 0]
  }

  ghost function Lexicographic(x: seq<int>, y: seq<int>): int
    requires |x| == |y|
  {
    if x == [] then 0
    else if x[0] != y[0] then Sign(x[0] - y[0])
    else Lexicographic(x[1..], y[1..])
  }

  lemma {:induction false} LexicographicLaws(x: seq<int>, y: seq<int>, z: seq<int>)
    requires |x| == |y| == |z|
    ensures Lexicographic(x, y) == -Lexicographic(y, x)
    ensures Lexicographic(x, y) <= 0 && Lexicographic(y, z) <= 0 ==> Lexicographic(x, z) <= 0
  {
    if x != [] {
      LexicographicLaws(x[1..], y[1..], z[1..]);
    }
  }

  lemma {:induction false} FirstNonZeroIsLexicographic(d: seq<int>, x: seq<int>, y: seq<int>)
    requires |d| == |x| == |y|
    requires forall k | 0 <= k < |d| :: d[k] == x[k] - y[k]
    ensures Sign(FirstNonZero(d)) == Lexicographic(x, y)
  {
    if d != [] {
      FirstNonZeroIsLexicographic(d[1..], x[1..], y[1..]);
    }
  }

  lemma {:induction false} FirstNonZeroConcat(s: seq<int>, t: seq<int>)
    ensures FirstNonZero(s + t) == if FirstNonZero(s) != 0 then FirstNonZero(s) else FirstNonZero(t)
  {
    if s == [] {
      assert s + t == t;
    } else {
      assert (s + t)[1..] == s[1..] + t;
      FirstNonZeroConcat(s[1..], t);
    }
  }

  lemma {:induction false} LexicographicConcat(x: seq<int>, x': seq<int>, y: seq<int>, y': seq<int>)
    requires |x| == |y| && |x'| == |y'|
    ensures Lexicographic(x + x', y + y') == if x == y then Lexicographic(x', y') else Lexicographic(x, y)
  {
    if x == [] {
      assert x + x' == x' && y + y' == y';
    } else {
      assert (x + x')[1..] == x[1..] + x' && (y + y')[1..] == y[1..] + y';
      LexicographicConcat(x[1..], x', y[1..], y');
      assert x[0] == y[0] && x[1..] == y[1..] ==> x == y by {
        assert x == [x[0]] + x[1..] && y == [y[0]] + y[1..];
      }
    }
  }

  /** Differences of flags and masks that fit an int32_t without wrapping. */
  ghost predicate Comparable(a: AddressFull)
  {
    Word(a.flags) < 0x8000_0000 && a.mask < 0x8000_0000
  }

  lemma FeatureValue(a: AddressFull, b: AddressFull)
    ensures FirstNonZero(FeatureDifferences(a, b)) ==
            var f := Wrap32(Word(a.flags) as int - Word(b.flags));
            var p := a.port as int - b.port;
            var m := Wrap32(a.mask as int - b.mask);
            if f != 0 then f
            else if a.flags.hasPort && p != 0 then p
            else if a.flags.maskOrEmbed then m
            else 0
    ensures Wrap32(Word(a.flags) as int - Word(b.flags)) == 0 <==> a.flags == b.flags
  {
    if Word(a.flags) == Word(b.flags) { WordIsInjective(a.flags, b.flags); }
    var f := [Wrap32(Word(a.flags) as int - Word(b.flags))];
    var p := if a.flags.hasPort then [a.port as int - b.port] else [];
    var m := if a.flags.maskOrEmbed then [Wrap32(a.mask as int - b.mask)] else [];
    assert FeatureDifferences(a, b) == f + (p + m);
    FirstNonZeroConcat(f, p + m);
    FirstNonZeroConcat(p, m);
  }

  lemma ComponentValue(a: AddressFull, b: AddressFull)
    ensures FirstNonZero(ComponentDifferences(a, b)) == 0 <==> a.components == b.components
  {
    var d := ComponentDifferences(a, b);
    FirstNonZeroIsZero(d);
    if a.components != b.components {
      var k :| 0 <= k < 8 && a.components[k] != b.components[k];
      assert d[k] != 0;
    }
  }

  /** The sign of the comparison is the lexicographic order of the keys. */
  lemma CompareIsLexicographic(a: AddressFull, b: AddressFull)
    requires Comparable(a) && Comparable(b)
    ensures Sign(Compare(a, b)) == Lexicographic(Key(a), Key(b))
  {
    FirstNonZeroConcat(ComponentDifferences(a, b), FeatureDifferences(a, b));
    FirstNonZeroIsLexicographic(ComponentDifferences(a, b), a.components, b.components);
    ComponentValue(a, b);
    FeatureValue(a, b);
    LexicographicConcat(a.components, FeatureKey(a), b.components, FeatureKey(b));
    assert FeatureKey(a)[0] == Word(a.flags) && FeatureKey(b)[0] == Word(b.flags);
    LexicographicConcat([Word(a.flags)], FeatureKey(a)[1..], [Word(b.flags)], FeatureKey(b)[1..]);
    assert FeatureKey(a)[1..] == [FeatureKey(a)[1], FeatureKey(a)[2]];
    assert FeatureKey(b)[1..] == [FeatureKey(b)[1], FeatureKey(b)[2]];
    LexicographicPair(FeatureKey(a)[1], FeatureKey(a)[2], FeatureKey(b)[1], FeatureKey(b)[2]);
  }

  lemma LexicographicPair(p: int, m: int, p': int, m': int)
    ensures Lexicographic([p, m], [p', m']) == if p != p' then Sign(p - p') else Sign(m - m')
  {
    var x, x' := [p, m], [p', m'];
    assert x[1..] == [m] && x'[1..] == [m'];
    var y, y' := [m], [m'];
    assert y[1..] == [] && y'[1..] == [];
    assert Lexicographic(y, y') == Sign(m - m');
    assert Lexicographic(x, x') == if x[0] != x'[0] then Sign(p - p') else Lexicographic(x[1..], x'[1..]);
  }

  /** On addresses whose flags and masks are below 2^31 the comparison is a total preorder:
      sign-antisymmetric and transitive. */
  lemma CompareIsPreorder(a: AddressFull, b: AddressFull, c: AddressFull)
    requires Comparable(a) && Comparable(b) && Comparable(c)
    ensures Sign(Compare(a, b)) == -Sign(Compare(b, a))
    ensures Compare(a, b) <= 0 && Compare(b, c) <= 0 ==> Compare(a, c) <= 0
  {
    CompareIsLexicographic(a, b);
    CompareIsLexicographic(b, a);
    CompareIsLexicographic(b, c);
    CompareIsLexicographic(a, c);
    LexicographicLaws(Key(a), Key(b), Key(c));
  }

  /** Half the range of the flag word apart: the int32_t difference is the same both ways. */
  ghost predicate WrapsAround(a: AddressFull, b: AddressFull)
  {
    && a.components == b.components
    && (|| Word(a.flags) as int - Word(b.flags) == 0x8000_0000
        || Word(b.flags) as int - Word(a.flags) == 0x8000_0000
        || (&& a.flags == b.flags
            && (a.flags.hasPort ==> a.port == b.port)
            && a.flags.maskOrEmbed
            && (a.mask as int - b.mask == 0x8000_0000 || b.mask as int - a.mask == 0x8000_0000)))
  }

  lemma {:induction false} NegatedFirstNonZero(s: seq<int>, t: seq<int>)
    requires |s| == |t|
    requires forall k | 0 <= k < |s| :: s[k] == -t[k]
    ensures FirstNonZero(s) == -FirstNonZero(t)
  {
    if s != [] {
      NegatedFirstNonZero(s[1..], t[1..]);
    }
  }

  /** For arbitrary flag words and masks, swapping the arguments flips the sign exactly when no
      difference wraps around. */
  lemma CompareAntisymmetricExactly(a: AddressFull, b: AddressFull)
    ensures Sign(Compare(a, b)) == -Sign(Compare(b, a)) <==> !WrapsAround(a, b)
  {
    FirstNonZeroConcat(ComponentDifferences(a, b), FeatureDifferences(a, b));
    FirstNonZeroConcat(ComponentDifferences(b, a), FeatureDifferences(b, a));
    NegatedFirstNonZero(ComponentDifferences(a, b), ComponentDifferences(b, a));
    ComponentValue(a, b);
    FeatureValue(a, b);
    FeatureValue(b, a);
  }

  /** A pair each of which compares below the other. */
  lemma CompareCanFailAntisymmetry()
    ensures var a, b := ZERO_ADDRESS, ZERO_ADDRESS.(flags := NO_FLAGS.(rest := 0x1000_0000));
      Compare(a, b) < 0 && Compare(b, a) < 0
  {
    var a, b := ZERO_ADDRESS, ZERO_ADDRESS.(flags := NO_FLAGS.(rest := 0x1000_0000));
    FirstNonZeroConcat(ComponentDifferences(a, b), FeatureDifferences(a, b));
    FirstNonZeroConcat(ComponentDifferences(b, a), FeatureDifferences(b, a));
    ComponentValue(a, b);
    ComponentValue(b, a);
    FeatureValue(a, b);
    FeatureValue(b, a);
  }
}
