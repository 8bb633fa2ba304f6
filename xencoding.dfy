/**
 * The packing codec and the XXTEA-style block transform of the portal client
 * (utils/xencoding.py).
 *
 * Words are Python integers: `sencode` packs four characters into one
 * little-endian word, `lencode` unpacks them, and `get_xencode` mixes the
 * packed message in place, keyed by the packed challenge token. All arithmetic
 * is on unbounded naturals, masked to 32 bits exactly where the source masks.
 */
module XEncoding {
  import opened Wrappers
  import opened Bits
  import opened ByteStrings

  /** 2^32. The source's `& 0xFFFFFFFF` on a non-negative int is `% Word32`. */
  const Word32: nat := 0x1_0000_0000

  /** The TEA delta (Wheeler and Needham); the source builds it as `0x86014019 | 0x183639A0`. */
  const Delta: nat := 0x9E37_79B9

  /** The OR-built constants of the source: the delta, and three masks that are all 2^32 - 1. */
  lemma MagicConstants()
    ensures (0x86014019 as bv32 | 0x183639A0 as bv32) as int == Delta
    ensures (0x8CE0D9BF as bv32 | 0x731F2640 as bv32) as int == Word32 - 1
    ensures (0xEFB8D130 as bv32 | 0x10472ECF as bv32) as int == Word32 - 1
    ensures (0xBB390742 as bv32 | 0x44C6F8BD as bv32) as int == Word32 - 1
  {
  }

  predicate AllWords(v: seq<nat>)
  {
    forall i | 0 <= i < |v| :: v[i] < Word32
  }

  /** The code of `msg[idx]`, or 0 past the end. */
  function Ordat(msg: string, idx: nat): (r: nat)
    ensures idx >= |msg| ==> r == 0
    ensures IsByteString(msg) ==> r < 256
  {
    if |msg| > idx then msg[idx] as nat else 0
  }

  // ---------------------------------------------------------------------------
  // Packing (sencode)
  // ---------------------------------------------------------------------------

  /** Word k of the packing of `msg`: characters 4k..4k+3, lowest byte first. */
  function PackWord(msg: string, k: nat): nat
  {
    Or(Or(Or(Ordat(msg, 4 * k), Ordat(msg, 4 * k + 1) * 256),
          Ordat(msg, 4 * k + 2) * 65536),
       Ordat(msg, 4 * k + 3) * 16777216)
  }

  /** The packed words of `msg`, without a length word. */
  function Packed(msg: string): (r: seq<nat>)
    ensures |r| == (|msg| + 3) / 4
  {
    seq((|msg| + 3) / 4, (k: int) requires 0 <= k => PackWord(msg, k))
  }

  /** What `sencode(msg, key)` returns: the packed words, then `len(msg)` when `key` is set. */
  function SencodeSpec(msg: string, key: bool): (r: seq<nat>)
    ensures |r| == (|msg| + 3) / 4 + (if key then 1 else 0)
    ensures key ==> r[|r| - 1] == |msg|
  {
    if key then Packed(msg) + [|msg|] else Packed(msg)
  }

  /** Python's `sencode`: appends one packed word per four characters, then the length. */
  method Sencode(msg: string, key: bool) returns (pwd: seq<nat>)
    ensures pwd == SencodeSpec(msg, key)
  {
    var l := |msg|;
    pwd := [];
    var i := 0;
    while i < l
      invariant i == 4 * |pwd| && |pwd| <= (l + 3) / 4
      invariant pwd == Packed(msg)[..|pwd|]
    {
      pwd := pwd + [Or(Or(Or(Ordat(msg, i), Ordat(msg, i + 1) * 256),
                          Ordat(msg, i + 2) * 65536),
                       Ordat(msg, i + 3) * 16777216)];
      i := i + 4;
    }
    if key {
      pwd := pwd + [l];
    }
  }

  /** For byte strings the ORs of the packing do not overlap: a word is a base-256 number. */
  lemma PackWordBytes(msg: string, k: nat)
    requires IsByteString(msg)
    ensures PackWord(msg, k) == Ordat(msg, 4 * k) + 256 * Ordat(msg, 4 * k + 1)
      + 65536 * Ordat(msg, 4 * k + 2) + 16777216 * Ordat(msg, 4 * k + 3)
    ensures PackWord(msg, k) < Word32
  {
    var c0, c1, c2, c3 := Ordat(msg, 4 * k), Ordat(msg, 4 * k + 1), Ordat(msg, 4 * k + 2), Ordat(msg, 4 * k + 3);
    assert Pow2(8) == 256 && Pow2(16) == 65536 && Pow2(24) == 16777216;
    OrDisjoint(c0, c1, 8);
    OrDisjoint(c0 + 256 * c1, c2, 16);
    OrDisjoint(c0 + 256 * c1 + 65536 * c2, c3, 24);
  }

  // ---------------------------------------------------------------------------
  // Unpacking (lencode)
  // ---------------------------------------------------------------------------

  /** Byte j of word w: `w >> 8j & 0xff`. */
  function ByteAt(w: nat, j: nat): (b: nat)
    requires j < 4
    ensures b < 256
  {
    if j == 0 then w % 256
    else if j == 1 then w / 256 % 256
    else if j == 2 then w / 65536 % 256
    else w / 16777216 % 256
  }

  /** The four characters a word unpacks to, lowest byte first. */
  function Chunk(w: nat): (s: string)
    ensures |s| == 4
  {
    [ByteAt(w, 0) as char, ByteAt(w, 1) as char, ByteAt(w, 2) as char, ByteAt(w, 3) as char]
  }

  /** The concatenated chunks of all words: character 4i+j is byte j of word i. */
  function Unpacked(words: seq<nat>): (r: string)
    ensures |r| == 4 * |words|
    ensures IsByteString(r)
  {
    seq(4 * |words|, i requires 0 <= i < 4 * |words| => ByteAt(words[i / 4], i % 4) as char)
  }

  /**
   * What `lencode(words, key)` returns: all four characters of every word, or, with `key`,
   * the first m of them, where m is the last word; `None` when m is out of range.
   */
  function LencodeSpec(words: seq<nat>, key: bool): (r: Option<string>)
    requires key ==> |words| > 0
    ensures !key ==> r.Some? && |r.value| == 4 * |words|
    ensures key ==> var m := words[|words| - 1];
      (r.Some? <==> 4 * (|words| - 1) - 3 <= m <= 4 * (|words| - 1))
      && (r.Some? ==> |r.value| == m && r.value == Unpacked(words)[..m])
  {
    if key then
      var ll := 4 * (|words| - 1);
      var m := words[|words| - 1];
      if m < ll - 3 || m > ll then None else Some(Unpacked(words)[..m])
    else
      Some(Unpacked(words))
  }

  /** Python's `lencode`: turns every word into four characters and joins them. */
  method Lencode(words: seq<nat>, key: bool) returns (r: Option<string>)
    requires key ==> |words| > 0
    ensures r == LencodeSpec(words, key)
  {
    var l := |words|;
    var ll := 4 * (l - 1);
    if key {
      var m := words[l - 1];
      if m < ll - 3 || m > ll {
        return None;
      }
      ll := m;
    }
    var joined := "";
    for i := 0 to l
      invariant joined == Unpacked(words[..i])
    {
      UnpackedSnoc(words[..i], words[i]);
      assert words[..i + 1] == words[..i] + [words[i]];
      joined := joined + Chunk(words[i]);
    }
    assert words[..l] == words;
    if key {
      return Some(joined[..ll]);
    }
    return Some(joined);
  }

  lemma UnpackedSnoc(words: seq<nat>, w: nat)
    ensures Unpacked(words + [w]) == Unpacked(words) + Chunk(w)
  {
    var a, b := Unpacked(words + [w]), Unpacked(words) + Chunk(w);
    forall i | 0 <= i < |a|
      ensures a[i] == b[i]
    {
      if i >= 4 * |words| {
        assert i / 4 == |words|;
      }
    }
  }

  // ---------------------------------------------------------------------------
  // The codec round trips
  // ---------------------------------------------------------------------------

  /** A word below 2^32 is the base-256 number of its four bytes. */
  lemma WordBytes(w: nat)
    requires w < Word32
    ensures w == ByteAt(w, 0) + 256 * ByteAt(w, 1) + 65536 * ByteAt(w, 2) + 16777216 * ByteAt(w, 3)
  {
    var a := w / 256;
    var b := a / 256;
    var c := b / 256;
    assert b == w / 65536;
    assert c == w / 16777216;
    assert w == w % 256 + 256 * a;
    assert a == a % 256 + 256 * b;
    assert b == b % 256 + 256 * c;
    assert c < 256;
  }

  /** Bytes put into a word come back out at the same places. */
  lemma BytesWord(c0: nat, c1: nat, c2: nat, c3: nat)
    requires c0 < 256 && c1 < 256 && c2 < 256 && c3 < 256
    ensures var w := c0 + 256 * c1 + 65536 * c2 + 16777216 * c3;
      ByteAt(w, 0) == c0 && ByteAt(w, 1) == c1 && ByteAt(w, 2) == c2 && ByteAt(w, 3) == c3
  {
    var w := c0 + 256 * c1 + 65536 * c2 + 16777216 * c3;
    DivModUnique(w, c0, c1 + 256 * c2 + 65536 * c3, 256);
    DivModUnique(c1 + 256 * c2 + 65536 * c3, c1, c2 + 256 * c3, 256);
    DivModUnique(w, c0 + 256 * c1, c2 + 256 * c3, 65536);
    DivModUnique(c2 + 256 * c3, c2, c3, 256);
    DivModUnique(w, c0 + 256 * c1 + 65536 * c2, c3, 16777216);
    DivModUnique(c3, c3, 0, 256);
  }

  /** Packing the unpacked characters gives back every word below 2^32. */
  lemma PackedUnpacked(words: seq<nat>)
    requires AllWords(words)
    ensures Packed(Unpacked(words)) == words
  {
    forall k | 0 <= k < |words|
      ensures PackWord(Unpacked(words), k) == words[k]
    {
      PackWordUnpacked(words, k);
    }
  }

  lemma PackWordUnpacked(words: seq<nat>, k: nat)
    requires AllWords(words) && k < |words|
    ensures PackWord(Unpacked(words), k) == words[k]
  {
    var s := Unpacked(words);
    forall j | 0 <= j < 4
      ensures Ordat(s, 4 * k + j) == ByteAt(words[k], j)
    {
      assert (4 * k + j) / 4 == k && (4 * k + j) % 4 == j;
    }
    PackWordBytes(s, k);
    WordBytes(words[k]);
  }

  /** Unpacking the packed words of a byte string gives it back, followed by NULs up to a multiple of 4. */
  lemma UnpackedPacked(msg: string)
    requires IsByteString(msg)
    ensures var u := Unpacked(Packed(msg));
      u[..|msg|] == msg && forall i | |msg| <= i < |u| :: u[i] == '\0'
  {
    var w := Packed(msg);
    var u := Unpacked(w);
    forall i | 0 <= i < |u|
      ensures u[i] == if i < |msg| then msg[i] else '\0'
    {
      var k, j := i / 4, i % 4;
      assert i == 4 * k + j;
      PackWordBytes(msg, k);
      BytesWord(Ordat(msg, 4 * k), Ordat(msg, 4 * k + 1), Ordat(msg, 4 * k + 2), Ordat(msg, 4 * k + 3));
      assert ByteAt(w[k], j) == Ordat(msg, i);
    }
  }

  /** `lencode(sencode(msg, True), True)` returns `msg` for every byte string. */
  lemma SencodeLencode(msg: string)
    requires IsByteString(msg)
    ensures LencodeSpec(SencodeSpec(msg, true), true) == Some(msg)
  {
    var w := Packed(msg);
    UnpackedPacked(msg);
    UnpackedSnoc(w, |msg|);
    assert SencodeSpec(msg, true) == w + [|msg|];
    assert (Unpacked(w) + Chunk(|msg|))[..|msg|] == Unpacked(w)[..|msg|];
  }

  /** Without the length word, `lencode` returns `msg` padded with NULs to a multiple of 4. */
  lemma SencodeLencodeUnkeyed(msg: string)
    requires IsByteString(msg)
    ensures LencodeSpec(SencodeSpec(msg, false), false) == Some(msg + seq(4 * ((|msg| + 3) / 4) - |msg|, _ => '\0'))
  {
    UnpackedPacked(msg);
    var u := Unpacked(Packed(msg));
    var pad := seq(4 * ((|msg| + 3) / 4) - |msg|, _ => '\0');
    assert u == msg + pad by {
      assert u == u[..|msg|] + u[|msg|..];
    }
  }

  // ---------------------------------------------------------------------------
  // The block transform (get_xencode)
  // ---------------------------------------------------------------------------

  /**
   * The term added to a word: `(z >> 5 ^ y << 2) + ((y >> 3 ^ z << 4) ^ (d ^ y)) + (k ^ z)`,
   * where z is the left neighbour (already updated), y the right neighbour and k a key word.
   * The sum is not masked; only the updated word is.
   */
  function Mx(z: nat, y: nat, d: nat, k: nat): nat
  {
    Xor(z / 32, y * 4) + Xor(Xor(y / 8, z * 16), Xor(d, y)) + Xor(k, z)
  }

  /** The key word used at position p: `(p & 3) ^ e`. */
  function KeyIndex(p: nat, e: nat): (i: nat)
    requires e < 4
    ensures i < 4
  {
    XorBound(p % 4, e, 2);
    Xor(p % 4, e)
  }

  /** `e = d >> 2 & 3`: the round's key selector. */
  function Selector(d: nat): (e: nat)
    ensures e < 4
  {
    d / 4 % 4
  }

  /**
   * Updates position p of v, given the round's sum d: only that word changes, and it
   * becomes a 32-bit word.
   */
  function Step(v: seq<nat>, key: seq<nat>, d: nat, p: nat): (r: seq<nat>)
    requires 2 <= |v| && p < |v| && 4 <= |key|
    ensures |r| == |v| && r[p] < Word32
    ensures forall i | 0 <= i < |v| && i != p :: r[i] == v[i]
  {
    v[p := (v[p] + Term(v, key, d, p)) % Word32]
  }

  /** The term added at position p: Mx of its left neighbour z, right neighbour y and key word. */
  function Term(v: seq<nat>, key: seq<nat>, d: nat, p: nat): nat
    requires 2 <= |v| && p < |v| && 4 <= |key|
  {
    var n := |v| - 1;
    var z := if p == 0 then v[n] else v[p - 1];
    var y := if p == n then v[0] else v[p + 1];
    Mx(z, y, d, key[KeyIndex(p, Selector(d))])
  }

  /** On a ring of `len` positions, the left neighbour of 0 is the last one, and the right neighbour of the last one is 0. */
  lemma RingNeighbours(p: nat, len: nat)
    requires p < len
    ensures (p + len - 1) % len == if p == 0 then len - 1 else p - 1
    ensures (p + 1) % len == if p == len - 1 then 0 else p + 1
  {
    if p == 0 {
      DivModUnique(p + len - 1, len - 1, 0, len);
    } else {
      DivModUnique(p + len - 1, p - 1, 1, len);
    }
    if p == len - 1 {
      DivModUnique(p + 1, 0, 1, len);
    } else {
      DivModUnique(p + 1, p + 1, 0, len);
    }
  }

  /** The block is a ring: the neighbours of position p are the words at p - 1 and p + 1 modulo its length. */
  lemma TermRing(v: seq<nat>, key: seq<nat>, d: nat, p: nat)
    requires 2 <= |v| && p < |v| && 4 <= |key|
    ensures Term(v, key, d, p)
         == Mx(v[(p + |v| - 1) % |v|], v[(p + 1) % |v|], d, key[KeyIndex(p, Selector(d))])
  {
    RingNeighbours(p, |v|);
  }

  /** The first p updates of one round, in order. */
  function Steps(v: seq<nat>, key: seq<nat>, d: nat, p: nat): (r: seq<nat>)
    requires 2 <= |v| && p <= |v| && 4 <= |key|
    ensures |r| == |v|
  {
    if p == 0 then v else Step(Steps(v, key, d, p - 1), key, d, p - 1)
  }

  /** One full round: every position updated once, from 0 to n. */
  function Round(v: seq<nat>, key: seq<nat>, d: nat): (r: seq<nat>)
    requires 2 <= |v| && 4 <= |key|
    ensures |r| == |v|
  {
    Steps(v, key, d, |v|)
  }

  /** The running sum after r rounds: r times Delta, modulo 2^32. */
  function RoundSum(r: nat): (d: nat)
    ensures d < Word32
  {
    if r == 0 then 0 else (RoundSum(r - 1) + Delta) % Word32
  }

  lemma RoundSumNext(r: nat)
    ensures RoundSum(r + 1) == (RoundSum(r) + Delta) % Word32
  {
  }

  lemma RoundsNext(v: seq<nat>, key: seq<nat>, r: nat)
    requires 2 <= |v| && 4 <= |key|
    ensures Rounds(v, key, r + 1) == Round(Rounds(v, key, r), key, RoundSum(r + 1))
  {
  }

  /**
   * The first r rounds; round i uses the sum RoundSum(i). After at least one round, or
   * from words below 2^32, every word is below 2^32.
   */
  function Rounds(v: seq<nat>, key: seq<nat>, r: nat): (w: seq<nat>)
    requires 2 <= |v| && 4 <= |key|
    ensures |w| == |v|
    ensures r > 0 || AllWords(v) ==> AllWords(w)
  {
    if r == 0 then v
    else
      var u := Rounds(v, key, r - 1);
      RoundWords(u, key, RoundSum(r));
      Round(u, key, RoundSum(r))
  }

  /** `q = 6 + 52 // (n + 1)` for a block of `len` words (exact integer division). */
  function RoundCount(len: nat): (q: nat)
    requires len >= 1
    ensures 6 <= q <= 58
  {
    6 + 52 / len
  }

  /** The packed key extended with zero words to at least four words. */
  function PadKey(k: seq<nat>): (r: seq<nat>)
    ensures |r| == if |k| < 4 then 4 else |k|
    ensures r[..|k|] == k && forall i | |k| <= i < |r| :: r[i] == 0
  {
    if |k| < 4 then k + seq(4 - |k|, _ => 0) else k
  }

  /** What `get_xencode(msg, key)` returns. */
  function XEncodeSpec(msg: string, key: string): (r: string)
    ensures |r| == if msg == "" then 0 else 4 * ((|msg| + 3) / 4 + 1)
    ensures IsByteString(r)
  {
    if msg == "" then ""
    else
      var v := SencodeSpec(msg, true);
      Unpacked(Rounds(v, PadKey(Packed(key)), RoundCount(|v|)))
  }

  /** Python's `get_xencode`: mixes the packed message in place, then unpacks it. */
  method XEncode(msg: string, key: string) returns (r: string)
    ensures r == XEncodeSpec(msg, key)
  {
    if msg == "" {
      return "";
    }
    var packed := Sencode(msg, true);
    var pwdk := Sencode(key, false);
    if |pwdk| < 4 {
      pwdk := pwdk + seq(4 - |pwdk|, _ => 0);
    }
    assert pwdk == PadKey(Packed(key));
    var pwd := new nat[|packed|](i requires 0 <= i < |packed| => packed[i]);
    assert pwd[..] == packed;
    MixRounds(pwd, pwdk);
    ghost var mixed := Rounds(packed, pwdk, RoundCount(|packed|));
    assert pwd[..] == mixed;
    var out := Lencode(pwd[..], false);
    r := out.value;
    assert r == Unpacked(mixed);
  }

  /**
   * The two nested loops of `get_xencode` (xencoding.py:105-134): `q` rounds over the
   * words of `pwd`, in place.
   */
  method MixRounds(pwd: array<nat>, pwdk: seq<nat>)
    requires pwd.Length >= 2 && |pwdk| >= 4
    modifies pwd
    ensures pwd[..] == Rounds(old(pwd[..]), pwdk, RoundCount(pwd.Length))
  {
    var n := pwd.Length - 1;
    var z := pwd[n];
    var c := Delta;
    var q := 6 + 52 / (n + 1);
    var d := 0;
    ghost var packed := pwd[..];
    ghost var total := RoundCount(pwd.Length);
    ghost var done := 0;
    while 0 < q
      invariant 0 <= q && done + q == total
      invariant pwd[..] == Rounds(packed, pwdk, done)
      invariant d == RoundSum(done)
      invariant z == pwd[n]
    {
      d := (d + c) % Word32;
      assert d == RoundSum(done + 1) by {
        RoundSumNext(done);
      }
      assert Rounds(packed, pwdk, done + 1) == Round(pwd[..], pwdk, d) by {
        RoundsNext(packed, pwdk, done);
      }
      z := MixRound(pwd, pwdk, d, z);
      done := done + 1;
      q := q - 1;
    }
    assert pwd[..] == Rounds(packed, pwdk, total);
  }

  /**
   * One pass of the outer loop of `get_xencode` (xencoding.py:114-134): updates
   * positions 0..n-1 in order, then position n, and returns the new `z`, which is `pwd[n]`.
   */
  method MixRound(pwd: array<nat>, pwdk: seq<nat>, d: nat, z0: nat) returns (z: nat)
    requires pwd.Length >= 2 && |pwdk| >= 4 && z0 == pwd[pwd.Length - 1]
    modifies pwd
    ensures pwd[..] == Round(old(pwd[..]), pwdk, d)
    ensures z == pwd[pwd.Length - 1]
  {
    var n := pwd.Length - 1;
    var e := d / 4 % 4;
    var p := 0;
    z := z0;
    ghost var start := pwd[..];
    while p < n
      invariant 0 <= p <= n
      invariant pwd[..] == Steps(start, pwdk, d, p)
      invariant z == if p == 0 then pwd[n] else pwd[p - 1]
    {
      z := MixAt(pwd, pwdk, d, e, p, z);
      p := p + 1;
    }
    z := MixAt(pwd, pwdk, d, e, n, z);
  }

  /**
   * The update of one position (xencoding.py:120-125 inside the loop, :128-133 for
   * position n, whose right neighbour wraps round to `pwd[0]`).
   */
  method MixAt(pwd: array<nat>, pwdk: seq<nat>, d: nat, e: nat, p: nat, z: nat) returns (zNew: nat)
    requires 2 <= pwd.Length && p < pwd.Length && 4 <= |pwdk| && e == Selector(d)
    requires z == if p == 0 then pwd[pwd.Length - 1] else pwd[p - 1]
    modifies pwd
    ensures pwd[..] == Step(old(pwd[..]), pwdk, d, p)
    ensures zNew == pwd[p]
  {
    var n := pwd.Length - 1;
    var y := if p == n then pwd[0] else pwd[p + 1];
    var m := Xor(z / 32, y * 4);
    m := m + Xor(Xor(y / 8, z * 16), Xor(d, y));
    m := m + Xor(pwdk[KeyIndex(p, e)], z);
    pwd[p] := (pwd[p] + m) % Word32;
    zNew := pwd[p];
  }

  // ---------------------------------------------------------------------------
  // Properties of the block transform
  // ---------------------------------------------------------------------------

  /** After the first p steps, positions below p hold words below 2^32 and the rest are untouched. */
  lemma {:induction false} StepsFrame(v: seq<nat>, key: seq<nat>, d: nat, p: nat)
    requires 2 <= |v| && p <= |v| && 4 <= |key|
    ensures forall i | 0 <= i < p :: Steps(v, key, d, p)[i] < Word32
    ensures forall i | p <= i < |v| :: Steps(v, key, d, p)[i] == v[i]
  {
    if p > 0 {
      StepsFrame(v, key, d, p - 1);
    }
  }

  /** Every word is below 2^32 after a round, whatever the input. */
  lemma RoundWords(v: seq<nat>, key: seq<nat>, d: nat)
    requires 2 <= |v| && 4 <= |key|
    ensures AllWords(Round(v, key, d))
  {
    StepsFrame(v, key, d, |v|);
  }

  /** Undoes Step: subtracts the same term, modulo 2^32; the neighbours are the ones Step read. */
  function Unstep(v: seq<nat>, key: seq<nat>, d: nat, p: nat): (r: seq<nat>)
    requires 2 <= |v| && p < |v| && 4 <= |key|
    ensures |r| == |v|
  {
    v[p := (v[p] - Term(v, key, d, p)) % Word32]
  }

  lemma AddSubMod(a: nat, m: nat)
    requires a < Word32
    ensures ((a + m) % Word32 - m) % Word32 == a
  {
    var t := (a + m) / Word32;
    assert (a + m) % Word32 - m == a - Word32 * t;
    assert (a - Word32 * t) % Word32 == a;
  }

  lemma UnstepStep(v: seq<nat>, key: seq<nat>, d: nat, p: nat)
    requires 2 <= |v| && p < |v| && 4 <= |key| && v[p] < Word32
    ensures Unstep(Step(v, key, d, p), key, d, p) == v
  {
    var w := Step(v, key, d, p);
    TermFrame(v, w, key, d, p);
    AddSubMod(v[p], Term(v, key, d, p));
  }

  /** The term at p reads only the neighbours of p. */
  lemma TermFrame(v: seq<nat>, w: seq<nat>, key: seq<nat>, d: nat, p: nat)
    requires 2 <= |v| == |w| && p < |v| && 4 <= |key|
    requires forall i | 0 <= i < |v| && i != p :: w[i] == v[i]
    ensures Term(w, key, d, p) == Term(v, key, d, p)
  {
    var n := |v| - 1;
    assert (if p == 0 then w[n] else w[p - 1]) == (if p == 0 then v[n] else v[p - 1]);
    assert (if p == n then w[0] else w[p + 1]) == (if p == n then v[0] else v[p + 1]);
  }

  /** Undoes the first p steps, last step first. */
  function Unsteps(v: seq<nat>, key: seq<nat>, d: nat, p: nat): (r: seq<nat>)
    requires 2 <= |v| && p <= |v| && 4 <= |key|
    ensures |r| == |v|
    decreases p
  {
    if p == 0 then v else Unsteps(Unstep(v, key, d, p - 1), key, d, p - 1)
  }

  lemma {:induction false} UnstepsSteps(v: seq<nat>, key: seq<nat>, d: nat, p: nat)
    requires 2 <= |v| && p <= |v| && 4 <= |key| && AllWords(v)
    ensures Unsteps(Steps(v, key, d, p), key, d, p) == v
  {
    if p > 0 {
      var w := Steps(v, key, d, p - 1);
      StepsFrame(v, key, d, p - 1);
      UnstepStep(w, key, d, p - 1);
      UnstepsSteps(v, key, d, p - 1);
    }
  }

  /** Undoes the first r rounds, last round first. */
  function Unrounds(v: seq<nat>, key: seq<nat>, r: nat): (w: seq<nat>)
    requires 2 <= |v| && 4 <= |key|
    ensures |w| == |v|
    decreases r
  {
    if r == 0 then v else Unrounds(Unsteps(v, key, RoundSum(r), |v|), key, r - 1)
  }

  /** Rounds over words below 2^32 are invertible. */
  lemma {:induction false} UnroundsRounds(v: seq<nat>, key: seq<nat>, r: nat)
    requires 2 <= |v| && 4 <= |key| && AllWords(v)
    ensures Unrounds(Rounds(v, key, r), key, r) == v
  {
    if r > 0 {
      var w := Rounds(v, key, r - 1);
      UnstepsSteps(w, key, RoundSum(r), |w|);
      UnroundsRounds(v, key, r - 1);
    }
  }

  /**
   * An inverse of `get_xencode`; `None` for
   * a text whose length is not that of an encoding.
   */
  function XDecodeSpec(cipher: string, key: string): Option<string>
  {
    if cipher == "" then Some("")
    else if |cipher| % 4 != 0 || |cipher| < 8 then None
    else
      var v := Packed(cipher);
      LencodeSpec(Unrounds(v, PadKey(Packed(key)), RoundCount(|v|)), true)
  }

  /** Decoding the encoding of a byte string recovers it, for every key. */
  lemma XEncodeRoundTrip(msg: string, key: string)
    requires IsByteString(msg) && |msg| < Word32
    ensures XDecodeSpec(XEncodeSpec(msg, key), key) == Some(msg)
  {
    if msg != "" {
      var v := SencodeSpec(msg, true);
      SencodeWords(msg);
      var k := PadKey(Packed(key));
      var q := RoundCount(|v|);
      var w := Rounds(v, k, q);
      XDecodeUnpacked(w, key);
      UnroundsRounds(v, k, q);
      SencodeLencode(msg);
    }
  }

  /** Decoding unpacked words below 2^32 undoes the rounds on those very words. */
  lemma XDecodeUnpacked(w: seq<nat>, key: string)
    requires 2 <= |w| && AllWords(w)
    ensures XDecodeSpec(Unpacked(w), key)
      == LencodeSpec(Unrounds(w, PadKey(Packed(key)), RoundCount(|w|)), true)
  {
    var c := Unpacked(w);
    PackedUnpacked(w);
    assert |c| == 4 * |w| && c != [];
    TimesFour(|w|);
  }

  lemma TimesFour(x: nat)
    ensures (4 * x) % 4 == 0 && (4 * x + 3) / 4 == x
  {
  }

  /** The packed message and its length word are all below 2^32. */
  lemma SencodeWords(msg: string)
    requires IsByteString(msg) && |msg| < Word32
    ensures AllWords(SencodeSpec(msg, true))
  {
    var v := SencodeSpec(msg, true);
    forall i | 0 <= i < |v|
      ensures v[i] < Word32
    {
      if i < |v| - 1 {
        PackWordBytes(msg, i);
      }
    }
  }

  /** One update reads a key word below index 4 only. */
  lemma StepKeyPrefix(v: seq<nat>, k1: seq<nat>, k2: seq<nat>, d: nat, p: nat)
    requires 2 <= |v| && p < |v| && 4 <= |k1| && 4 <= |k2| && k1[..4] == k2[..4]
    ensures Step(v, k1, d, p) == Step(v, k2, d, p)
  {
    var i := KeyIndex(p, Selector(d));
    assert k1[i] == k1[..4][i] == k2[..4][i] == k2[i];
    assert Term(v, k1, d, p) == Term(v, k2, d, p);
  }

  /** Only the first four key words are read: the key index is `(p & 3) ^ e` < 4. */
  lemma {:induction false} StepsKeyPrefix(v: seq<nat>, k1: seq<nat>, k2: seq<nat>, d: nat, p: nat)
    requires 2 <= |v| && p <= |v| && 4 <= |k1| && 4 <= |k2| && k1[..4] == k2[..4]
    ensures Steps(v, k1, d, p) == Steps(v, k2, d, p)
  {
    if p > 0 {
      StepsKeyPrefix(v, k1, k2, d, p - 1);
      StepKeyPrefix(Steps(v, k1, d, p - 1), k1, k2, d, p - 1);
    }
  }

  lemma {:induction false} RoundsKeyPrefix(v: seq<nat>, k1: seq<nat>, k2: seq<nat>, r: nat)
    requires 2 <= |v| && 4 <= |k1| && 4 <= |k2| && k1[..4] == k2[..4]
    ensures Rounds(v, k1, r) == Rounds(v, k2, r)
  {
    if r > 0 {
      RoundsKeyPrefix(v, k1, k2, r - 1);
      StepsKeyPrefix(Rounds(v, k1, r - 1), k1, k2, RoundSum(r), |v|);
    }
  }

  /** The encoding depends on the first 16 characters of the key only. */
  lemma XEncodeKeyPrefix(msg: string, key: string)
    requires |key| >= 16
    ensures XEncodeSpec(msg, key) == XEncodeSpec(msg, key[..16])
  {
    if msg != "" {
      var k1, k2 := PadKey(Packed(key)), PadKey(Packed(key[..16]));
      forall i | 0 <= i < 4
        ensures k1[i] == k2[i]
      {
        PackWordAgree(key, key[..16], i);
      }
      assert k1[..4] == k2[..4];
      var v := SencodeSpec(msg, true);
      RoundsKeyPrefix(v, k1, k2, RoundCount(|v|));
    }
  }

  /** Words that read the same characters are equal. */
  lemma PackWordAgree(a: string, b: string, k: nat)
    requires forall j | 4 * k <= j < 4 * k + 4 :: Ordat(a, j) == Ordat(b, j)
    ensures PackWord(a, k) == PackWord(b, k)
  {
    assert Ordat(a, 4 * k + 1) == Ordat(b, 4 * k + 1);
    assert Ordat(a, 4 * k + 2) == Ordat(b, 4 * k + 2);
    assert Ordat(a, 4 * k + 3) == Ordat(b, 4 * k + 3);
  }

  /** A key shorter than 16 characters acts as if padded with NUL characters to 16. */
  lemma XEncodeShortKey(msg: string, key: string)
    requires |key| <= 16
    ensures XEncodeSpec(msg, key) == XEncodeSpec(msg, key + seq(16 - |key|, _ => '\0'))
  {
    var padded := key + seq(16 - |key|, _ => '\0');
    var k1, k2 := PadKey(Packed(key)), PadKey(Packed(padded));
    forall i | 0 <= i < 4
      ensures k1[i] == k2[i]
    {
      PackWordAgree(key, padded, i);
      if i >= |Packed(key)| {
        OrZero(0);
      }
    }
    assert k1 == k2;
  }
}
