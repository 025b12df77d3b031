// The property order of RFC 8785, section 3.2.3: keys compare by their UTF-16
// code units, which is not the order of their code points.
module Utf16Order {
  import opened Utf8

  /** One code unit, or a high and a low surrogate that hold the rest in ten bits each. */
  function CodeUnits(r: Rune): (u: seq<int>)
    ensures r < 0x10000 ==> u == [r]
    ensures r >= 0x10000 ==>
              && |u| == 2 && 0xD800 <= u[0] < 0xDC00 <= u[1] < 0xE000
              && r == 0x10000 + (u[0] - 0xD800) * 0x400 + (u[1] - 0xDC00)
  {
    if r < 0x10000 then [r]
    else [0xD800 + (r - 0x10000) / 0x400, 0xDC00 + (r - 0x10000) % 0x400]
  }

  function Encode16(rs: seq<Rune>): seq<int>
  {
    if rs == [] then [] else CodeUnits(rs[0]) + Encode16(rs[1..])
  }

  function Units(key: string): seq<int> {
    Encode16(Runes(key))
  }

  predicate LexLess(a: seq<int>, b: seq<int>) {
    b != [] && (a == [] || a[0] < b[0] || (a[0] == b[0] && LexLess(a[1..], b[1..])))
  }

  predicate Less(a: string, b: string) {
    LexLess(Units(a), Units(b))
  }

  ghost predicate AtMost(a: string, b: string) {
    !Less(b, a)
  }

  /** Up to `n` the sequences agree, and there the first ends or is smaller. */
  predicate DiffersAt(a: seq<int>, b: seq<int>, n: int) {
    0 <= n <= |a| && n < |b| && a[..n] == b[..n] && (n == |a| || a[n] < b[n])
  }

  lemma DiffersAtTheStart(a: seq<int>, b: seq<int>, n: int)
    requires DiffersAt(a, b, n)
    ensures n == 0 || (a != [] && a[0] == b[0])
  {
    if n > 0 {
      assert a[..n][0] == b[..n][0];
    }
  }

  lemma {:induction false} LexLessMeans(a: seq<int>, b: seq<int>)
    ensures LexLess(a, b) <==> exists n :: DiffersAt(a, b, n)
  {
    if a != [] && b != [] && a[0] == b[0] {
      LexLessMeans(a[1..], b[1..]);
      if n :| DiffersAt(a[1..], b[1..], n) {
        assert a[..n + 1] == [a[0]] + a[1..][..n] && b[..n + 1] == [b[0]] + b[1..][..n];
        assert DiffersAt(a, b, n + 1);
      }
      if n :| DiffersAt(a, b, n) {
        assert n > 0 && a[1..][..n - 1] == a[..n][1..] && b[1..][..n - 1] == b[..n][1..];
        assert DiffersAt(a[1..], b[1..], n - 1);
      }
    } else {
      if n :| DiffersAt(a, b, n) {
        DiffersAtTheStart(a, b, n);
      }
      assert LexLess(a, b) ==> DiffersAt(a, b, 0);
    }
  }

  /** The comparison closure handed to the sort. */
  method KeyLess(x: string, y: string) returns (less: bool)
    ensures less <==> Less(x, y)
    ensures less <==> exists n :: DiffersAt(Units(x), Units(y), n)
  {
    var a, b := Units(x), Units(y);
    LexLessMeans(a, b);
    var k := 0;
    while k < |a| && k < |b|
      invariant 0 <= k <= |a| && k <= |b|
      invariant LexLess(a, b) <==> LexLess(a[k..], b[k..])
    {
      assert a[k..][1..] == a[k + 1..] && b[k..][1..] == b[k + 1..];
      if a[k] != b[k] {
        return a[k] < b[k];
      }
      k := k + 1;
    }
    return |a| < |b|;
  }

  // ------------------------------------------------------------- order laws

  lemma {:induction false} LexTransitive(a: seq<int>, b: seq<int>, c: seq<int>)
    requires LexLess(a, b) && LexLess(b, c)
    ensures LexLess(a, c)
  {
    if a != [] && a[0] == b[0] && b[0] == c[0] {
      LexTransitive(a[1..], b[1..], c[1..]);
    }
  }

  lemma {:induction false} LexTotal(a: seq<int>, b: seq<int>)
    ensures !(LexLess(a, b) && LexLess(b, a))
    ensures !LexLess(a, b) && !LexLess(b, a) <==> a == b
  {
    if a != [] && b != [] && a[0] == b[0] {
      LexTotal(a[1..], b[1..]);
      assert a == [a[0]] + a[1..] && b == [b[0]] + b[1..];
    }
  }

  lemma {:induction false} Encode16Injective(p: seq<Rune>, q: seq<Rune>)
    requires Encode16(p) == Encode16(q)
    ensures p == q
  {
    if p != [] && q != [] {
      var u, v := CodeUnits(p[0]), CodeUnits(q[0]);
      var whole := Encode16(p);
      assert whole[0] == u[0] == v[0];
      assert |u| == |v|;
      assert whole[..|u|] == u && whole[..|v|] == v;
      assert u[|u| - 1] == v[|v| - 1];
      assert p[0] == q[0];
      assert Encode16(p[1..]) == whole[|u|..] == Encode16(q[1..]);
      Encode16Injective(p[1..], q[1..]);
      assert p == [p[0]] + p[1..] && q == [q[0]] + q[1..];
    }
  }

  /** On valid strings the comparator is a strict total order. */
  lemma StrictTotalOrder(a: string, b: string, c: string)
    ensures !Less(a, a)
    ensures Less(a, b) && Less(b, c) ==> Less(a, c)
    ensures !(Less(a, b) && Less(b, a))
    ensures Valid(a) && Valid(b) ==> Less(a, b) || a == b || Less(b, a)
  {
    LexTotal(Units(a), Units(a));
    LexTotal(Units(a), Units(b));
    if Less(a, b) && Less(b, c) {
      LexTransitive(Units(a), Units(b), Units(c));
    }
    if Valid(a) && Valid(b) && Units(a) == Units(b) {
      Encode16Injective(Runes(a), Runes(b));
      ValidStringsWithEqualRunes(a, b);
    }
  }

  /** On all strings, malformed ones included, `AtMost` is a total preorder. */
  lemma AtMostPreorder(a: string, b: string, c: string)
    ensures AtMost(a, b) || AtMost(b, a)
    ensures AtMost(a, b) && AtMost(b, c) ==> AtMost(a, c)
    ensures Less(a, b) ==> AtMost(a, b)
  {
    var x, y, z := Units(a), Units(b), Units(c);
    LexTotal(x, y);
    LexTotal(y, z);
    if LexLess(z, x) {
      if LexLess(x, y) {
        LexTransitive(z, x, y);
      }
    }
  }

  /** U+E000 precedes U+10000 as a code point and follows it in UTF-16. */
  lemma OrderDiffersFromCodePoints()
    ensures 0xE000 < 0x10000
    ensures Less(EncodeRune(0x10000), EncodeRune(0xE000))
  {
    var high, low := EncodeRune(0x10000), EncodeRune(0xE000);
    assert high + "" == high && low + "" == low;
    DecodeEncoded(0x10000, "");
    DecodeEncoded(0xE000, "");
    assert Runes(high) == [0x10000] + Runes("") == [0x10000];
    assert Runes(low) == [0xE000] + Runes("") == [0xE000];
    assert Encode16([0x10000]) == CodeUnits(0x10000) + Encode16([]);
    assert Encode16([0xE000]) == CodeUnits(0xE000) + Encode16([]);
    assert Units(high) == [0xD800, 0xDC00] && Units(low) == [0xE000];
  }

  // ---------------------------------------------------------------- sorting

  ghost predicate Sorted(keys: seq<string>) {
    forall i, j | 0 <= i < j < |keys| :: AtMost(keys[i], keys[j])
  }

  ghost predicate IsOrdering(keys: seq<string>, of: multiset<string>) {
    Sorted(keys) && multiset(keys) == of
  }

  /** The first key of a sorted sequence is a least one. */
  lemma HeadIsLeast(s: seq<string>, k: string)
    requires Sorted(s) && k in s
    ensures AtMost(s[0], k)
  {
    AtMostPreorder(k, k, k);
    var i :| 0 <= i < |s| && s[i] == k;
  }

  lemma SortedHeadsAgree(s: seq<string>, t: seq<string>)
    requires s != [] && Valid(s[0]) && Sorted(s) && Sorted(t) && multiset(s) == multiset(t)
    ensures t != []
    ensures Valid(t[0]) ==> s[0] == t[0]
  {
    assert s[0] in multiset(t);
    assert t[0] in multiset(s);
    HeadIsLeast(s, t[0]);
    HeadIsLeast(t, s[0]);
    StrictTotalOrder(s[0], t[0], t[0]);
  }

  lemma TailsAgree(s: seq<string>, t: seq<string>)
    requires s != [] && t != [] && s[0] == t[0] && multiset(s) == multiset(t)
    ensures multiset(s[1..]) == multiset(t[1..])
  {
    assert s == [s[0]] + s[1..] && t == [t[0]] + t[1..];
    assert multiset(s[1..]) == multiset(s) - multiset{s[0]};
    assert multiset(t[1..]) == multiset(t) - multiset{t[0]};
  }

  /** Two sorted arrangements of the same valid keys are the same sequence. */
  lemma {:induction false} SortedIsUnique(s: seq<string>, t: seq<string>)
    requires forall i | 0 <= i < |s| :: Valid(s[i])
    requires Sorted(s) && Sorted(t) && multiset(s) == multiset(t)
    ensures s == t
  {
    if s == [] {
      assert |multiset(t)| == 0;
    } else {
      SortedHeadsAgree(s, t);
      assert t[0] in multiset(s);
      TailsAgree(s, t);
      SortedIsUnique(s[1..], t[1..]);
      assert s == [s[0]] + s[1..] && t == [t[0]] + t[1..];
    }
  }

  /** A least key of a non-empty set. */
  lemma {:induction false} LeastExists(keys: set<string>) returns (least: string)
    requires keys != {}
    ensures least in keys && forall k <- keys :: AtMost(least, k)
  {
    var k0 :| k0 in keys;
    AtMostPreorder(k0, k0, k0);
    if keys == {k0} {
      least := k0;
    } else {
      var m := LeastExists(keys - {k0});
      AtMostPreorder(m, k0, k0);
      least := if AtMost(m, k0) then m else k0;
      forall k | k in keys
        ensures AtMost(least, k)
      {
        AtMostPreorder(k0, m, k);
      }
    }
  }

  lemma {:induction false} OrderingExists(keys: set<string>) returns (s: seq<string>)
    ensures IsOrdering(s, multiset(keys))
  {
    if keys == {} {
      s := [];
    } else {
      var m := LeastExists(keys);
      var rest := OrderingExists(keys - {m});
      s := [m] + rest;
      forall i, j | 0 <= i < j < |s|
        ensures AtMost(s[i], s[j])
      {
        if i == 0 {
          assert rest[j - 1] in multiset(rest);
        }
      }
    }
  }

  /** The keys of an object in canonical order. */
  ghost function SortedKeys(keys: set<string>): (s: seq<string>)
    ensures IsOrdering(s, multiset(keys))
  {
    assert exists s :: IsOrdering(s, multiset(keys)) by {
      var s := OrderingExists(keys);
    }
    var s :| IsOrdering(s, multiset(keys));
    s
  }

  /** Whatever order a map hands its keys out in, sorting them gives `SortedKeys`. */
  lemma SortForgetsEnumeration(keys: set<string>, enumeration: seq<string>, sorted: seq<string>)
    requires forall k <- keys :: Valid(k)
    requires multiset(enumeration) == multiset(keys)
    requires IsOrdering(sorted, multiset(enumeration))
    ensures sorted == SortedKeys(keys)
  {
    forall i | 0 <= i < |sorted|
      ensures Valid(sorted[i])
    {
      assert sorted[i] in multiset(sorted);
    }
    SortedIsUnique(sorted, SortedKeys(keys));
  }

  lemma SortedKeysHoldTheKeys(keys: set<string>)
    ensures forall k :: k in SortedKeys(keys) <==> k in keys
    ensures forall i, j | 0 <= i < j < |SortedKeys(keys)| :: SortedKeys(keys)[i] != SortedKeys(keys)[j]
  {
    var s := SortedKeys(keys);
    forall k
      ensures k in s <==> k in keys
    {
      assert k in multiset(s) <==> k in s;
    }
    NoKeyTwice(s, keys);
  }

  lemma {:induction false} NoKeyTwice(s: seq<string>, keys: set<string>)
    requires multiset(s) == multiset(keys)
    ensures forall i, j | 0 <= i < j < |s| :: s[i] != s[j]
  {
    if s != [] {
      var k, rest := s[0], s[1..];
      assert s == [k] + rest;
      assert k in multiset(s);
      assert multiset(s) == multiset{k} + multiset(rest);
      assert multiset(rest) == multiset(keys) - multiset{k} == multiset(keys - {k});
      assert k !in multiset(rest);
      NoKeyTwice(rest, keys - {k});
      assert forall j | 0 < j < |s| :: s[j] == rest[j - 1] && rest[j - 1] in rest;
    }
  }

  // ------------------------------------------------------------ in-place sort

  ghost predicate SortedExcept(keys: seq<string>, hole: int) {
    forall i, j | 0 <= i < j < |keys| && j != hole :: AtMost(keys[i], keys[j])
  }

  ghost predicate BelowTheRest(keys: seq<string>, hole: nat)
    requires hole < |keys|
  {
    forall j | hole < j < |keys| :: AtMost(keys[hole], keys[j])
  }

  ghost predicate AboveTheStart(keys: seq<string>, hole: nat)
    requires hole < |keys|
  {
    forall i | 0 <= i < hole :: AtMost(keys[i], keys[hole])
  }

  /** Sorts a key slice in place by UTF-16 code units. */
  method SortUtf16(keys: array<string>)
    modifies keys
    ensures IsOrdering(keys[..], multiset(old(keys[..])))
  {
    var n := 0;
    while n < keys.Length
      invariant 0 <= n <= keys.Length
      invariant Sorted(keys[..n])
      invariant multiset(keys[..]) == multiset(old(keys[..]))
    {
      SiftDown(keys, n);
      n := n + 1;
    }
    assert keys[..n] == keys[..];
  }

  /** Moves the key at `n` down into the sorted prefix before it. */
  method SiftDown(keys: array<string>, n: nat)
    requires n < keys.Length && Sorted(keys[..n])
    modifies keys
    ensures Sorted(keys[..n + 1])
    ensures multiset(keys[..]) == multiset(old(keys[..]))
  {
    var hole := n;
    var moving := true;
    while moving
      invariant 0 <= hole <= n
      invariant SortedExcept(keys[..n + 1], hole) && BelowTheRest(keys[..n + 1], hole)
      invariant !moving ==> AboveTheStart(keys[..n + 1], hole)
      invariant multiset(keys[..]) == multiset(old(keys[..]))
      decreases moving, hole
    {
      if hole == 0 {
        moving := false;
      } else {
        var less := KeyLess(keys[hole], keys[hole - 1]);
        if less {
          SwapKeepsOrder(keys[..n + 1], hole);
          SwapWithPrevious(keys, hole, n + 1);
          hole := hole - 1;
        } else {
          HoleIsPlaced(keys[..n + 1], hole);
          moving := false;
        }
      }
    }
  }

  ghost function Swapped(keys: seq<string>, i: nat): seq<string>
    requires 0 < i < |keys|
  {
    keys[i := keys[i - 1]][i - 1 := keys[i]]
  }

  method SwapWithPrevious(keys: array<string>, i: nat, ghost upto: nat)
    requires 0 < i < upto <= keys.Length
    modifies keys
    ensures keys[..upto] == Swapped(old(keys[..upto]), i)
    ensures multiset(keys[..]) == multiset(old(keys[..]))
  {
    keys[i], keys[i - 1] := keys[i - 1], keys[i];
  }

  lemma SwapKeepsOrder(keys: seq<string>, hole: nat)
    requires 0 < hole < |keys| && SortedExcept(keys, hole)
    requires Less(keys[hole], keys[hole - 1])
    requires BelowTheRest(keys, hole)
    ensures SortedExcept(Swapped(keys, hole), hole - 1)
    ensures BelowTheRest(Swapped(keys, hole), hole - 1)
  {
    AtMostPreorder(keys[hole], keys[hole - 1], keys[hole]);
  }

  lemma HoleIsPlaced(keys: seq<string>, hole: nat)
    requires 0 < hole < |keys| && SortedExcept(keys, hole)
    requires AtMost(keys[hole - 1], keys[hole])
    ensures AboveTheStart(keys, hole)
  {
    forall i | 0 <= i < hole
      ensures AtMost(keys[i], keys[hole])
    {
      AtMostPreorder(keys[i], keys[hole - 1], keys[hole]);
    }
  }
}
