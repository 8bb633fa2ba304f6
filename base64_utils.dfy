/**
 * The portal's Base64 variant (utils/base64_utils.py): the group and padding layout of
 * section 4 of RFC 4648 over a permuted alphabet.
 */
module Base64Utils {
  import opened Bits
  import opened ByteStrings

  /** `_PADCHAR`. */
  const PadChar: char := '='

  /**
   * `_ALPHA`: the 64 symbols, in the source's order. It is written as eight pieces of
   * eight characters so that the verifier can index it cheaply.
   */
  const Alpha: string :=
    "LVoJPiCN" +
    "2R8G90yg" +
    "+hmFHuac" +
    "Z1OWMnrs" +
    "STXkYpUq" +
    "/3dlbfKw" +
    "v6xztjI7" +
    "DeBE45QA"

  /** The position of `c` in `Alpha`, or -1 when `c` is not a symbol. */
  function AlphaIndex(c: char): (r: int)
    ensures -1 <= r < 64
  {
    match c
      case 'L' => 0
      case 'V' => 1
      case 'o' => 2
      case 'J' => 3
      case 'P' => 4
      case 'i' => 5
      case 'C' => 6
      case 'N' => 7
      case '2' => 8
      case 'R' => 9
      case '8' => 10
      case 'G' => 11
      case '9' => 12
      case '0' => 13
      case 'y' => 14
      case 'g' => 15
      case '+' => 16
      case 'h' => 17
      case 'm' => 18
      case 'F' => 19
      case 'H' => 20
      case 'u' => 21
      case 'a' => 22
      case 'c' => 23
      case 'Z' => 24
      case '1' => 25
      case 'O' => 26
      case 'W' => 27
      case 'M' => 28
      case 'n' => 29
      case 'r' => 30
      case 's' => 31
      case 'S' => 32
      case 'T' => 33
      case 'X' => 34
      case 'k' => 35
      case 'Y' => 36
      case 'p' => 37
      case 'U' => 38
      case 'q' => 39
      case '/' => 40
      case '3' => 41
      case 'd' => 42
      case 'l' => 43
      case 'b' => 44
      case 'f' => 45
      case 'K' => 46
      case 'w' => 47
      case 'v' => 48
      case '6' => 49
      case 'x' => 50
      case 'z' => 51
      case 't' => 52
      case 'j' => 53
      case 'I' => 54
      case '7' => 55
      case 'D' => 56
      case 'e' => 57
      case 'B' => 58
      case 'E' => 59
      case '4' => 60
      case '5' => 61
      case 'Q' => 62
      case 'A' => 63
      case _ => -1
  }

  /** Every symbol is found at its own position, and the pad character is not a symbol. */
  lemma AlphaIndexInverse()
    ensures |Alpha| == 64
    ensures forall i | 0 <= i < 64 :: AlphaIndex(Alpha[i]) == i
    ensures AlphaIndex(PadChar) == -1
  {
    AlphaIndexAt0();
    AlphaIndexAt4();
    AlphaIndexAt8();
    AlphaIndexAt12();
    AlphaIndexAt16();
    AlphaIndexAt20();
    AlphaIndexAt24();
    AlphaIndexAt28();
    AlphaIndexAt32();
    AlphaIndexAt36();
    AlphaIndexAt40();
    AlphaIndexAt44();
    AlphaIndexAt48();
    AlphaIndexAt52();
    AlphaIndexAt56();
    AlphaIndexAt60();
  }

  /** `_ALPHA` has 64 distinct characters, none of them the pad character. */
  lemma AlphaDistinct()
    ensures |Alpha| == 64
    ensures forall i, j | 0 <= i < j < 64 :: Alpha[i] != Alpha[j]
    ensures forall i | 0 <= i < 64 :: Alpha[i] != PadChar
  {
    AlphaIndexInverse();
    forall i, j | 0 <= i < j < 64
      ensures Alpha[i] != Alpha[j]
    {
      assert AlphaIndex(Alpha[i]) != AlphaIndex(Alpha[j]);
    }
  }

  // ---------------------------------------------------------------------------
  // Encoding
  // ---------------------------------------------------------------------------

  /** `_getbyte(s, i)`: the code of `s[i]`, or 0 past the end. */
  function GetByte(s: string, i: nat): (r: nat)
    ensures i >= |s| ==> r == 0
    ensures i < |s| ==> r == s[i] as nat
    ensures IsByteString(s) ==> r < 256
  {
    if |s| > i then s[i] as nat else 0
  }

  /** The 24-bit value of a group of three bytes, first byte highest (section 4 of RFC 4648). */
  function GroupValue(b0: nat, b1: nat, b2: nat): nat
  {
    65536 * b0 + 256 * b1 + b2
  }

  /** Field j (0 to 3, highest first) of the four 6-bit fields of a 24-bit value. */
  function Sextet(v: nat, j: nat): (r: nat)
    requires v < 16777216 && j < 4
    ensures r < 64
  {
    if j == 0 then v / 262144
    else if j == 1 then v / 4096 % 64
    else if j == 2 then v / 64 % 64
    else v % 64
  }

  /** The four symbols of a 24-bit value: its 6-bit fields, highest first. */
  function Symbols(v: nat): (r: string)
    requires v < 16777216
    ensures |r| == 4
  {
    seq(4, j requires 0 <= j < 4 => Alpha[Sextet(v, j)])
  }

  /** The value of full group g of a byte string. */
  function GroupAt(s: string, g: nat): (v: nat)
    requires IsByteString(s) && 3 * g + 3 <= |s|
    ensures v < 16777216
  {
    GroupValue(s[3 * g] as nat, s[3 * g + 1] as nat, s[3 * g + 2] as nat)
  }

  /** The symbols of the first k full groups of s: symbol j is field j % 4 of group j / 4. */
  function Groups(s: string, k: nat): (r: string)
    requires IsByteString(s) && 3 * k <= |s|
    ensures |r| == 4 * k
  {
    seq(4 * k, j requires 0 <= j < 4 * k => Alpha[Sextet(GroupAt(s, j / 4), j % 4)])
  }

  /**
   * The last 1 or 2 characters, encoded as a group padded with zero bytes, of which only
   * the first 2 or 3 symbols are kept, then `=` up to four.
   */
  function Tail(s: string): (r: string)
    requires IsByteString(s)
    ensures |r| == if |s| % 3 == 0 then 0 else 4
    ensures |r| == 4 ==> r[3] == PadChar
  {
    var rest := |s| % 3;
    var i := |s| - rest;
    if rest == 0 then ""
    else Symbols(GroupValue(GetByte(s, i), GetByte(s, i + 1), 0))[..rest + 1] + seq(3 - rest, _ => PadChar)
  }

  /**
   * What `get_base64(s)` returns: four characters for every full group of three, and four
   * more for a last group of one or two.
   */
  function Base64Spec(s: string): (r: string)
    requires IsByteString(s)
    ensures |r| == 4 * (|s| / 3) + (if |s| % 3 == 0 then 0 else 4)
  {
    Groups(s, |s| / 3) + Tail(s)
  }

  /** Python's `get_base64`: appends four symbols per full group, then the padded tail. */
  method GetBase64(s: string) returns (r: string)
    requires IsByteString(s)
    ensures r == Base64Spec(s)
  {
    if |s| == 0 {
      return "";
    }
    var x: seq<char> := [];
    var imax := |s| - |s| % 3;
    ghost var groups := |s| / 3;
    assert imax == 3 * groups && |s| - imax == |s| % 3 < 3;
    var i := 0;
    ghost var k := 0;
    while i < imax
      invariant i == 3 * k && k <= groups
      invariant x == Groups(s, k)
    {
      var b10 := Or(Or(GetByte(s, i) * 65536, GetByte(s, i + 1) * 256), GetByte(s, i + 2));
      GroupsNext(s, k);
      x := x + [Alpha[b10 / 262144], Alpha[b10 / 4096 % 64], Alpha[b10 / 64 % 64], Alpha[b10 % 64]];
      i := i + 3;
      k := k + 1;
    }
    assert k == groups;
    x := AppendTail(x, s);
    return x;
  }

  /** One more full group, in the form the source computes it. */
  lemma GroupsNext(s: string, k: nat)
    requires IsByteString(s) && 3 * k + 3 <= |s|
    ensures var b10 := Or(Or(GetByte(s, 3 * k) * 65536, GetByte(s, 3 * k + 1) * 256), GetByte(s, 3 * k + 2));
      b10 < 16777216 &&
      Groups(s, k + 1) == Groups(s, k) + [Alpha[b10 / 262144], Alpha[b10 / 4096 % 64], Alpha[b10 / 64 % 64], Alpha[b10 % 64]]
  {
    GroupOr(GetByte(s, 3 * k), GetByte(s, 3 * k + 1), GetByte(s, 3 * k + 2));
    GroupsSnoc(s, k);
    var v := GroupAt(s, k);
    assert Symbols(v) == [Alpha[v / 262144], Alpha[v / 4096 % 64], Alpha[v / 64 % 64], Alpha[v % 64]] by {
      assert Symbols(v)[0] == Alpha[Sextet(v, 0)];
      assert Symbols(v)[1] == Alpha[Sextet(v, 1)];
      assert Symbols(v)[2] == Alpha[Sextet(v, 2)];
      assert Symbols(v)[3] == Alpha[Sextet(v, 3)];
    }
  }

  /** The groups of s up to k + 1 are those up to k and the symbols of group k. */
  lemma GroupsSnoc(s: string, k: nat)
    requires IsByteString(s) && 3 * k + 3 <= |s|
    ensures Groups(s, k + 1) == Groups(s, k) + Symbols(GroupAt(s, k))
  {
    var l, r := Groups(s, k + 1), Groups(s, k) + Symbols(GroupAt(s, k));
    forall j | 0 <= j < 4 * k + 4
      ensures l[j] == r[j]
    {
      if j >= 4 * k {
        DivModUnique(j, j - 4 * k, k, 4);
      }
    }
  }

  /** The tail branches of `get_base64` (base64_utils.py:50-63), appending to `x`. */
  method AppendTail(x: seq<char>, s: string) returns (y: seq<char>)
    requires IsByteString(s)
    ensures y == x + Tail(s)
  {
    var imax := |s| - |s| % 3;
    var i := imax;
    y := x;
    if |s| - imax == 1 {
      var b10 := GetByte(s, i) * 65536;
      TailOne(s);
      y := y + [Alpha[b10 / 262144], Alpha[b10 / 4096 % 64], PadChar, PadChar];
    } else if |s| - imax == 2 {
      var b10 := Or(GetByte(s, i) * 65536, GetByte(s, i + 1) * 256);
      GroupOr(GetByte(s, i), GetByte(s, i + 1), 0);
      OrZero(Or(GetByte(s, i) * 65536, GetByte(s, i + 1) * 256));
      TailTwo(s);
      y := y + [Alpha[b10 / 262144], Alpha[b10 / 4096 % 64], Alpha[b10 / 64 % 64], PadChar];
    }
  }

  /** A one-character tail, in the form the source computes it. */
  lemma TailOne(s: string)
    requires IsByteString(s) && |s| % 3 == 1
    ensures var b10 := GetByte(s, |s| - 1) * 65536;
      b10 < 16777216 && Tail(s) == [Alpha[b10 / 262144], Alpha[b10 / 4096 % 64], PadChar, PadChar]
  {
    var i := |s| - 1;
    assert |s| - |s| % 3 == i;
    var v := GroupValue(GetByte(s, i), GetByte(s, i + 1), 0);
    assert v == GetByte(s, i) * 65536;
    assert seq(2, _ => PadChar) == [PadChar, PadChar];
  }

  /** A two-character tail, in the form the source computes it. */
  lemma TailTwo(s: string)
    requires IsByteString(s) && |s| % 3 == 2
    ensures var b10 := GroupValue(GetByte(s, |s| - 2), GetByte(s, |s| - 1), 0);
      b10 < 16777216 && Tail(s) == [Alpha[b10 / 262144], Alpha[b10 / 4096 % 64], Alpha[b10 / 64 % 64], PadChar]
  {
    var i := |s| - 2;
    assert |s| - |s| % 3 == i;
    assert seq(1, _ => PadChar) == [PadChar];
  }

  /** For bytes, `(b0 << 16) | (b1 << 8) | b2` is the group value, below 2^24. */
  lemma GroupOr(b0: nat, b1: nat, b2: nat)
    requires b0 < 256 && b1 < 256 && b2 < 256
    ensures Or(Or(b0 * 65536, b1 * 256), b2) == GroupValue(b0, b1, b2)
    ensures GroupValue(b0, b1, b2) < 16777216
  {
    assert Pow2(8) == 256 && Pow2(16) == 65536;
    OrCommutes(b0 * 65536, b1 * 256);
    OrDisjoint(b1 * 256, b0, 16);
    OrCommutes(b1 * 256 + b0 * 65536, b2);
    assert b1 * 256 + b0 * 65536 == (b1 + 256 * b0) * 256;
    OrDisjoint(b2, b1 + 256 * b0, 8);
  }

  // ---------------------------------------------------------------------------
  // Properties of the encoding
  // ---------------------------------------------------------------------------

  lemma DivMod3(n: nat)
    ensures n == 3 * (n / 3) + n % 3 && n % 3 < 3
  {
  }

  /** The output has 4 symbols per started group of three characters. */
  lemma Base64Length(s: string)
    requires IsByteString(s)
    ensures |Base64Spec(s)| == 4 * ((|s| + 2) / 3)
    ensures s == "" ==> Base64Spec(s) == ""
  {
    DivMod3(|s|);
    DivMod3(|s| + 2);
  }

  /**
   * The output ends in 0, 2 or 1 pad characters when |s| mod 3 is 0, 1 or 2; there is no
   * pad character anywhere else, and every other character is a symbol of the alphabet.
   */
  lemma Base64Layout(s: string)
    requires IsByteString(s)
    ensures var t, pads := Base64Spec(s), [0, 2, 1][|s| % 3];
      forall i | 0 <= i < |t| :: (t[i] == PadChar <==> |t| - pads <= i) && (t[i] != PadChar ==> t[i] in Alpha)
  {
    AlphaDistinct();
    var t, pads := Base64Spec(s), [0, 2, 1][|s| % 3];
    var g := Groups(s, |s| / 3);
    forall i | 0 <= i < |t|
      ensures (t[i] == PadChar <==> |t| - pads <= i) && (t[i] != PadChar ==> t[i] in Alpha)
    {
      if i < |g| {
        assert t[i] == g[i];
      } else {
        var rest := |s| % 3;
        assert t[i] == Tail(s)[i - |g|];
        assert |t| == |g| + 4;
      }
    }
  }

  /** Encoding distributes over concatenation when the first part is whole groups. */
  lemma Base64Concat(a: string, b: string)
    requires IsByteString(a) && IsByteString(b) && |a| % 3 == 0
    ensures IsByteString(a + b)
    ensures Base64Spec(a + b) == Base64Spec(a) + Base64Spec(b)
  {
    var s := a + b;
    DivMod3(|a|);
    DivMod3(|b|);
    DivMod3(|s|);
    assert |s| / 3 == |a| / 3 + |b| / 3;
    GroupsConcat(a, b);
    TailConcat(a, b);
  }

  lemma GroupsConcat(a: string, b: string)
    requires IsByteString(a) && IsByteString(b) && |a| % 3 == 0
    ensures IsByteString(a + b) && 3 * (|a| / 3 + |b| / 3) <= |a + b|
    ensures Groups(a + b, |a| / 3 + |b| / 3) == Groups(a, |a| / 3) + Groups(b, |b| / 3)
  {
    var ga, gb := |a| / 3, |b| / 3;
    DivMod3(|a|);
    DivMod3(|b|);
    var gs, ra := Groups(a + b, ga + gb), Groups(a, ga) + Groups(b, gb);
    forall j | 0 <= j < |gs|
      ensures gs[j] == ra[j]
    {
      GroupsConcatAt(a, b, j);
    }
  }

  /** Symbol j of the groups of a + b. */
  lemma GroupsConcatAt(a: string, b: string, j: nat)
    requires IsByteString(a) && IsByteString(b) && |a| % 3 == 0 && j < 4 * (|a| / 3 + |b| / 3)
    ensures IsByteString(a + b) && 3 * (|a| / 3 + |b| / 3) <= |a + b|
    ensures Groups(a + b, |a| / 3 + |b| / 3)[j] == (Groups(a, |a| / 3) + Groups(b, |b| / 3))[j]
  {
    var ga := |a| / 3;
    DivMod3(|a|);
    DivMod3(|b|);
    GroupAtConcat(a, b, j / 4);
    if j >= 4 * ga {
      var j' := j - 4 * ga;
      DivModUnique(j, j' % 4, j' / 4 + ga, 4);
    }
  }

  /** A full group of a + b is a group of a, or of b shifted by a's groups. */
  lemma GroupAtConcat(a: string, b: string, g: nat)
    requires IsByteString(a) && IsByteString(b) && |a| % 3 == 0 && 3 * g + 3 <= |a| + |b|
    ensures IsByteString(a + b)
    ensures 3 * g < |a| ==> 3 * g + 3 <= |a| && GroupAt(a + b, g) == GroupAt(a, g)
    ensures 3 * g >= |a| ==> GroupAt(a + b, g) == GroupAt(b, g - |a| / 3)
  {
    var s, ga := a + b, |a| / 3;
    DivMod3(|a|);
    if 3 * g >= |a| {
      assert s[3 * g] == b[3 * (g - ga)];
      assert s[3 * g + 1] == b[3 * (g - ga) + 1];
      assert s[3 * g + 2] == b[3 * (g - ga) + 2];
    }
  }

  lemma TailConcat(a: string, b: string)
    requires IsByteString(a) && IsByteString(b) && |a| % 3 == 0
    ensures IsByteString(a + b)
    ensures Tail(a + b) == Tail(b) && Tail(a) == ""
  {
    var s := a + b;
    var rest := |b| % 3;
    DivModUnique(|s|, rest, |a| / 3 + |b| / 3, 3);
    if rest != 0 {
      assert GetByte(s, |s| - rest) == GetByte(b, |b| - rest);
      assert GetByte(s, |s| - rest + 1) == GetByte(b, |b| - rest + 1);
      TailBytes(s, b);
    }
  }

  /** The tail depends only on the length modulo 3 and the last one or two bytes. */
  lemma TailBytes(s: string, t: string)
    requires IsByteString(s) && IsByteString(t) && |s| % 3 == |t| % 3
    requires GetByte(s, |s| - |s| % 3) == GetByte(t, |t| - |t| % 3)
    requires GetByte(s, |s| - |s| % 3 + 1) == GetByte(t, |t| - |t| % 3 + 1)
    ensures Tail(s) == Tail(t)
  {
  }

  /**
   * A 1- or 2-character tail is encoded as the first 2 or 3 symbols of the group
   * obtained by padding it with NUL characters, followed by pad characters.
   */
  lemma TailZeroPadded(s: string)
    requires IsByteString(s) && |s| % 3 != 0
    ensures var rest := |s| % 3;
      var group := s[|s| - rest..] + seq(3 - rest, _ => '\0');
      IsByteString(group) &&
      Tail(s) == Base64Spec(group)[..rest + 1] + seq(3 - rest, _ => PadChar)
  {
    var rest := |s| % 3;
    DivMod3(|s|);
    var i := |s| - rest;
    var group := s[i..] + seq(3 - rest, _ => '\0');
    assert |group| == 3 && |group| / 3 == 1 && |group| % 3 == 0;
    var v := GroupValue(GetByte(s, i), GetByte(s, i + 1), 0);
    assert GroupAt(group, 0) == v by {
      assert group[0] as nat == GetByte(s, i);
      assert group[1] as nat == GetByte(s, i + 1);
      assert group[2] == '\0';
    }
    assert Base64Spec(group) == Symbols(v) by {
      GroupsSnoc(group, 0);
      assert Tail(group) == "";
    }
  }


  lemma AlphaIndexAt0()
    ensures forall i | 0 <= i < 4 :: AlphaIndex(Alpha[i]) == i
  {
  }

  lemma AlphaIndexAt4()
    ensures forall i | 4 <= i < 8 :: AlphaIndex(Alpha[i]) == i
  {
  }

  lemma AlphaIndexAt8()
    ensures forall i | 8 <= i < 12 :: AlphaIndex(Alpha[i]) == i
  {
  }

  lemma AlphaIndexAt12()
    ensures forall i | 12 <= i < 16 :: AlphaIndex(Alpha[i]) == i
  {
  }

  lemma AlphaIndexAt16()
    ensures forall i | 16 <= i < 20 :: AlphaIndex(Alpha[i]) == i
  {
  }

  lemma AlphaIndexAt20()
    ensures forall i | 20 <= i < 24 :: AlphaIndex(Alpha[i]) == i
  {
  }

  lemma AlphaIndexAt24()
    ensures forall i | 24 <= i < 28 :: AlphaIndex(Alpha[i]) == i
  {
  }

  lemma AlphaIndexAt28()
    ensures forall i | 28 <= i < 32 :: AlphaIndex(Alpha[i]) == i
  {
  }

  lemma AlphaIndexAt32()
    ensures forall i | 32 <= i < 36 :: AlphaIndex(Alpha[i]) == i
  {
  }

  lemma AlphaIndexAt36()
    ensures forall i | 36 <= i < 40 :: AlphaIndex(Alpha[i]) == i
  {
  }

  lemma AlphaIndexAt40()
    ensures forall i | 40 <= i < 44 :: AlphaIndex(Alpha[i]) == i
  {
  }

  lemma AlphaIndexAt44()
    ensures forall i | 44 <= i < 48 :: AlphaIndex(Alpha[i]) == i
  {
  }

  lemma AlphaIndexAt48()
    ensures forall i | 48 <= i < 52 :: AlphaIndex(Alpha[i]) == i
  {
  }

  lemma AlphaIndexAt52()
    ensures forall i | 52 <= i < 56 :: AlphaIndex(Alpha[i]) == i
  {
  }

  lemma AlphaIndexAt56()
    ensures forall i | 56 <= i < 60 :: AlphaIndex(Alpha[i]) == i
  {
  }

  lemma AlphaIndexAt60()
    ensures forall i | 60 <= i < 64 :: AlphaIndex(Alpha[i]) == i
  {
  }

}
