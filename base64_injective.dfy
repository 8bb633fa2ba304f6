/**
 * The portal's Base64 variant loses no information: two byte strings with the same
 * encoding are equal. This is the partner of `get_base64` (utils/base64_utils.py:24-65)
 * that stands in for a decoder, which the source does not have.
 */
module Base64Injective {
  import opened Bits
  import opened ByteStrings
  import opened Base64Utils

  /** Distinct positions of the alphabet hold distinct symbols. */
  lemma AlphaInjective(i: nat, j: nat)
    requires i < 64 && j < 64 && Alpha[i] == Alpha[j]
    ensures i == j
  {
    AlphaDistinct();
  }

  /** The four fields of a 24-bit value put back together give the value. */
  lemma SextetSum(v: nat)
    requires v < 16777216
    ensures 262144 * Sextet(v, 0) + 4096 * Sextet(v, 1) + 64 * Sextet(v, 2) + Sextet(v, 3) == v
  {
    var a, r := v / 4096, v % 4096;
    assert v == 4096 * a + r && r < 4096;
    assert v / 64 == 64 * a + r / 64;
    assert v / 64 % 64 == r / 64;
    assert a == 64 * (v / 262144) + a % 64;
    assert r == 64 * (r / 64) + v % 64;
  }

  /**
   * A value is determined by the symbols of its first m fields (m = 2, 3 or 4) when the
   * remaining fields are 0.
   */
  lemma SymbolsInjective(v: nat, w: nat, m: nat)
    requires v < 16777216 && w < 16777216 && 2 <= m <= 4
    requires Alpha[Sextet(v, 0)] == Alpha[Sextet(w, 0)] && Alpha[Sextet(v, 1)] == Alpha[Sextet(w, 1)]
    requires m >= 3 ==> Alpha[Sextet(v, 2)] == Alpha[Sextet(w, 2)]
    requires m == 4 ==> Alpha[Sextet(v, 3)] == Alpha[Sextet(w, 3)]
    requires m <= 2 ==> Sextet(v, 2) == 0 && Sextet(w, 2) == 0
    requires m <= 3 ==> Sextet(v, 3) == 0 && Sextet(w, 3) == 0
    ensures v == w
  {
    assert Sextet(v, 0) == Sextet(w, 0) by {
      AlphaInjective(Sextet(v, 0), Sextet(w, 0));
    }
    assert Sextet(v, 1) == Sextet(w, 1) by {
      AlphaInjective(Sextet(v, 1), Sextet(w, 1));
    }
    assert Sextet(v, 2) == Sextet(w, 2) by {
      if m >= 3 {
        AlphaInjective(Sextet(v, 2), Sextet(w, 2));
      }
    }
    assert Sextet(v, 3) == Sextet(w, 3) by {
      if m == 4 {
        AlphaInjective(Sextet(v, 3), Sextet(w, 3));
      }
    }
    FieldsInjective(v, w);
  }

  /** A 24-bit value is determined by its four 6-bit fields. */
  lemma FieldsInjective(v: nat, w: nat)
    requires v < 16777216 && w < 16777216
    requires Sextet(v, 0) == Sextet(w, 0) && Sextet(v, 1) == Sextet(w, 1)
    requires Sextet(v, 2) == Sextet(w, 2) && Sextet(v, 3) == Sextet(w, 3)
    ensures v == w
  {
    SextetSum(v);
    SextetSum(w);
  }

  /** A group value determines its three bytes. */
  lemma GroupValueInjective(a0: nat, a1: nat, a2: nat, b0: nat, b1: nat, b2: nat)
    requires a0 < 256 && a1 < 256 && a2 < 256 && b0 < 256 && b1 < 256 && b2 < 256
    requires GroupValue(a0, a1, a2) == GroupValue(b0, b1, b2)
    ensures a0 == b0 && a1 == b1 && a2 == b2
  {
    var v := GroupValue(a0, a1, a2);
    DivModUnique(v, a2, 256 * a0 + a1, 256);
    DivModUnique(v, b2, 256 * b0 + b1, 256);
    DivModUnique(256 * a0 + a1, a1, a0, 256);
    DivModUnique(256 * b0 + b1, b1, b0, 256);
  }

  /** Characters with the same code are the same character. */
  lemma CodeInjective(c: char, d: char)
    requires c as nat == d as nat
    ensures c == d
  {
  }

  /** Block g of the encoding of the first k groups holds the symbols of group g. */
  lemma GroupsBlock(s: string, k: nat, g: nat)
    requires IsByteString(s) && 3 * k <= |s| && g < k
    ensures 3 * g + 3 <= |s|
    ensures Groups(s, k)[4 * g..4 * g + 4] == Symbols(GroupAt(s, g))
  {
    var t := Groups(s, k);
    forall j | 4 * g <= j < 4 * g + 4
      ensures t[j] == Symbols(GroupAt(s, g))[j - 4 * g]
    {
      assert j / 4 == g;
    }
  }

  /** Equal encodings come from strings of equal length. */
  lemma SameLength(a: string, b: string)
    requires IsByteString(a) && IsByteString(b) && Base64Spec(a) == Base64Spec(b)
    ensures |a| == |b|
  {
    var t := Base64Spec(a);
    Base64Length(a);
    Base64Length(b);
    Base64Layout(a);
    Base64Layout(b);
    DivMod3(|a|);
    DivMod3(|b|);
    var pa, pb := [0, 2, 1][|a| % 3], [0, 2, 1][|b| % 3];
    var m := if pa < pb then pb else pa;
    assert |a| % 3 != 0 ==> |a| >= 1;
    assert |b| % 3 != 0 ==> |b| >= 1;
    assert m <= |t|;
    if m > 0 {
      assert t[|t| - m] == PadChar <==> |t| - pa <= |t| - m;
      assert t[|t| - m] == PadChar <==> |t| - pb <= |t| - m;
    }
    assert |a| % 3 == |b| % 3;
    DivMod3(|a| + 2);
    DivMod3(|b| + 2);
  }

  /** Equal encodings of strings of equal length agree on every full group. */
  lemma SameGroups(a: string, b: string, g: nat)
    requires IsByteString(a) && IsByteString(b) && |a| == |b| && 3 * g + 3 <= |a|
    requires Groups(a, |a| / 3) == Groups(b, |b| / 3)
    ensures a[3 * g..3 * g + 3] == b[3 * g..3 * g + 3]
  {
    var v, w := GroupAt(a, g), GroupAt(b, g);
    assert Symbols(v) == Symbols(w) by {
      GroupsBlock(a, |a| / 3, g);
      GroupsBlock(b, |b| / 3, g);
    }
    assert v == w by {
      assert Symbols(v)[0] == Symbols(w)[0] && Symbols(v)[1] == Symbols(w)[1];
      assert Symbols(v)[2] == Symbols(w)[2] && Symbols(v)[3] == Symbols(w)[3];
      SymbolsInjective(v, w, 4);
    }
    GroupValueInjective(a[3 * g] as nat, a[3 * g + 1] as nat, a[3 * g + 2] as nat,
                        b[3 * g] as nat, b[3 * g + 1] as nat, b[3 * g + 2] as nat);
    CodeInjective(a[3 * g], b[3 * g]);
    CodeInjective(a[3 * g + 1], b[3 * g + 1]);
    CodeInjective(a[3 * g + 2], b[3 * g + 2]);
  }

  /** The last two fields of a one-character group are 0. */
  lemma OneByteFields(x: nat)
    requires x < 256
    ensures x * 65536 < 16777216 && Sextet(x * 65536, 2) == 0 && Sextet(x * 65536, 3) == 0
  {
    var v := x * 65536;
    assert v / 64 == x * 1024 && v % 64 == 0;
    assert (x * 1024) % 64 == 0;
  }

  /** The last field of a two-character group is 0. */
  lemma TwoByteFields(x0: nat, x1: nat)
    requires x0 < 256 && x1 < 256
    ensures GroupValue(x0, x1, 0) < 16777216 && Sextet(GroupValue(x0, x1, 0), 3) == 0
  {
    assert GroupValue(x0, x1, 0) == 64 * (1024 * x0 + 4 * x1);
  }

  /** The symbols of a one-character tail are the first two fields of its group. */
  lemma TailOneFields(s: string)
    requires IsByteString(s) && |s| % 3 == 1
    ensures var v := GetByte(s, |s| - 1) * 65536;
      v < 16777216 && Sextet(v, 2) == 0 && Sextet(v, 3) == 0 &&
      Tail(s)[0] == Alpha[Sextet(v, 0)] && Tail(s)[1] == Alpha[Sextet(v, 1)]
  {
    TailOne(s);
    OneByteFields(GetByte(s, |s| - 1));
  }

  /** The symbols of a two-character tail are the first three fields of its group. */
  lemma TailTwoFields(s: string)
    requires IsByteString(s) && |s| % 3 == 2
    ensures var v := GroupValue(GetByte(s, |s| - 2), GetByte(s, |s| - 1), 0);
      v < 16777216 && Sextet(v, 3) == 0 &&
      Tail(s)[0] == Alpha[Sextet(v, 0)] && Tail(s)[1] == Alpha[Sextet(v, 1)] && Tail(s)[2] == Alpha[Sextet(v, 2)]
  {
    TailTwo(s);
    TwoByteFields(GetByte(s, |s| - 2), GetByte(s, |s| - 1));
  }

  /** Equal tails come from equal last characters. */
  lemma SameTail(a: string, b: string)
    requires IsByteString(a) && IsByteString(b) && |a| == |b| && Tail(a) == Tail(b)
    ensures a[|a| - |a| % 3..] == b[|b| - |b| % 3..]
  {
    var rest := |a| % 3;
    if rest == 1 {
      SameTailOne(a, b);
    } else if rest == 2 {
      SameTailTwo(a, b);
    }
  }

  lemma SameTailOne(a: string, b: string)
    requires IsByteString(a) && IsByteString(b) && |a| == |b| && |a| % 3 == 1 && Tail(a) == Tail(b)
    ensures a[|a| - 1..] == b[|b| - 1..]
  {
    var i := |a| - 1;
    var x, y := GetByte(a, i), GetByte(b, i);
    var v, w := x * 65536, y * 65536;
    assert v == w by {
      assert Sextet(v, 0) == Sextet(w, 0) by {
        TailOneFields(a);
        TailOneFields(b);
        AlphaInjective(Sextet(v, 0), Sextet(w, 0));
      }
      assert Sextet(v, 1) == Sextet(w, 1) by {
        TailOneFields(a);
        TailOneFields(b);
        AlphaInjective(Sextet(v, 1), Sextet(w, 1));
      }
      OneByteFields(x);
      OneByteFields(y);
      FieldsInjective(v, w);
    }
    CodeInjective(a[i], b[i]);
    assert a[i..] == [a[i]] && b[i..] == [b[i]];
  }

  /** Equal two-character tails come from equal zero-padded groups. */
  lemma SameTailTwoGroup(a: string, b: string)
    requires IsByteString(a) && IsByteString(b) && |a| == |b| && |a| % 3 == 2 && Tail(a) == Tail(b)
    ensures var i := |a| - 2;
      GroupValue(GetByte(a, i), GetByte(a, i + 1), 0) == GroupValue(GetByte(b, i), GetByte(b, i + 1), 0)
  {
    var i := |a| - 2;
    var x0, x1, y0, y1 := GetByte(a, i), GetByte(a, i + 1), GetByte(b, i), GetByte(b, i + 1);
    var v, w := GroupValue(x0, x1, 0), GroupValue(y0, y1, 0);
    TailTwoSextet(a, b, 0);
    TailTwoSextet(a, b, 1);
    TailTwoSextet(a, b, 2);
    TwoByteFields(x0, x1);
    TwoByteFields(y0, y1);
    FieldsInjective(v, w);
  }

  /** Reading symbol k < 3 of a two-byte tail back through the alphabet gives field k. */
  lemma TailTwoIndex(s: string, k: nat)
    requires IsByteString(s) && |s| % 3 == 2 && k < 3
    ensures AlphaIndex(Tail(s)[k]) == Sextet(GroupValue(GetByte(s, |s| - 2), GetByte(s, |s| - 1), 0), k)
  {
    TailTwoFields(s);
    AlphaIndexInverse();
  }

  /** Equal two-character tails agree on each of the first three 6-bit fields. */
  lemma TailTwoSextet(a: string, b: string, k: nat)
    requires IsByteString(a) && IsByteString(b) && |a| == |b| && |a| % 3 == 2 && Tail(a) == Tail(b)
    requires k < 3
    ensures var i := |a| - 2;
      Sextet(GroupValue(GetByte(a, i), GetByte(a, i + 1), 0), k)
        == Sextet(GroupValue(GetByte(b, i), GetByte(b, i + 1), 0), k)
  {
    TailTwoIndex(a, k);
    TailTwoIndex(b, k);
  }

  lemma SameTailTwo(a: string, b: string)
    requires IsByteString(a) && IsByteString(b) && |a| == |b| && |a| % 3 == 2 && Tail(a) == Tail(b)
    ensures a[|a| - 2..] == b[|b| - 2..]
  {
    var i := |a| - 2;
    SameTailTwoGroup(a, b);
    GroupValueInjective(GetByte(a, i), GetByte(a, i + 1), 0, GetByte(b, i), GetByte(b, i + 1), 0);
    CodeInjective(a[i], b[i]);
    CodeInjective(a[i + 1], b[i + 1]);
    assert a[i..] == [a[i], a[i + 1]] && b[i..] == [b[i], b[i + 1]];
  }

  /** `get_base64` is injective: equal encodings come from equal strings. */
  lemma Base64Injective(a: string, b: string)
    requires IsByteString(a) && IsByteString(b) && Base64Spec(a) == Base64Spec(b)
    ensures a == b
  {
    SameLength(a, b);
    var k := |a| / 3;
    DivMod3(|a|);
    var t := Base64Spec(a);
    assert Groups(a, k) == t[..4 * k] == Groups(b, k);
    assert Tail(a) == t[4 * k..] == Tail(b);
    SameTail(a, b);
    forall i | 0 <= i < |a|
      ensures a[i] == b[i]
    {
      SameAt(a, b, i);
    }
  }

  /** Character i agrees, from its full group or from the tail. */
  lemma SameAt(a: string, b: string, i: nat)
    requires IsByteString(a) && IsByteString(b) && |a| == |b| && i < |a|
    requires Groups(a, |a| / 3) == Groups(b, |b| / 3)
    requires a[|a| - |a| % 3..] == b[|b| - |b| % 3..]
    ensures a[i] == b[i]
  {
    var k := |a| / 3;
    DivMod3(|a|);
    if i < 3 * k {
      var g := i / 3;
      SameGroups(a, b, g);
      assert a[i] == a[3 * g..3 * g + 3][i - 3 * g];
      assert b[i] == b[3 * g..3 * g + 3][i - 3 * g];
    } else {
      assert a[i] == a[3 * k..][i - 3 * k];
      assert b[i] == b[3 * k..][i - 3 * k];
    }
  }
}
