/**
  The CLI's identifier encoder (`libs/cli/orra_cli/local.py`): a base-32
  style encoding over the alphabet `ENCODE_STR`, used by `gen_id` to turn
  three random bytes into a short identifier.

  The encoder pads the input with zero bytes to a multiple of five, emits
  eight characters per five-byte block and drops one trailing character
  per padding byte. Each character is `encode_str[(h[0] >> 5k) & 31]`: only
  `h[0]`, the block's first byte, is read, so the other four bytes of a
  block never reach the output. `CustomBase32Encode` models that code as
  written; `CustomBase32EncodeIntended` reads the whole block as the
  little-endian number the list `h` spells out.
 */
module Base32 {
  type byte = x: int | 0 <= x < 256

  const EncodeStr: string := "23456789abcdefghikmnopqrstuvwxyz"

  /** `padding = (5 - len(data) % 5) % 5`. */
  function Padding(n: nat): (p: nat)
    ensures p <= 4 && (n + p) % 5 == 0
    ensures n % 5 == 0 <==> p == 0
  {
    (5 - n % 5) % 5
  }

  function Zeros(n: nat): (r: seq<byte>)
    ensures |r| == n && forall i :: 0 <= i < n ==> r[i] == 0
  {
    seq(n, _ => 0)
  }

  /** `v >> (5 * k)` on a non-negative integer. */
  function Shift(v: nat, k: nat): nat {
    if k == 0 then v else Shift(v / 32, k - 1)
  }

  /** The characters of one block whose value is `v`: character `k` is `encode_str[(v >> 5k) & 31]`. */
  function BlockChars(v: nat, encodeStr: string): (r: string)
    requires |encodeStr| >= 32
    ensures |r| == 8
    ensures forall k :: 0 <= k < 8 ==> r[k] == encodeStr[Shift(v, k) % 32]
  {
    seq(8, k requires 0 <= k < 8 => encodeStr[Shift(v, k) % 32])
  }

  /** The little-endian number `sum(data[i + j] << 8j)` of a five-byte block. */
  function LittleEndian(block: seq<byte>): nat
    requires |block| == 5
  {
    block[0] as int + 256 * (block[1] as int + 256 * (block[2] as int + 256 * (block[3] as int + 256 * block[4] as int)))
  }

  /** The value a block is encoded from: `h[0]` as written, the whole block as intended. */
  function BlockValue(block: seq<byte>, wholeBlock: bool): nat
    requires |block| == 5
  {
    if wholeBlock then LittleEndian(block) else block[0]
  }

  /** The loop over the padded data: eight characters per five bytes. */
  function EncodeBlocks(data: seq<byte>, encodeStr: string, wholeBlock: bool): (r: string)
    requires |data| % 5 == 0 && |encodeStr| >= 32
    ensures |r| == 8 * (|data| / 5)
    decreases |data|
  {
    if |data| == 0 then ""
    else BlockChars(BlockValue(data[..5], wholeBlock), encodeStr) + EncodeBlocks(data[5..], encodeStr, wholeBlock)
  }

  /** Character `i` of the encoding is digit `i % 8` of block `i / 8`. */
  lemma {:induction false} EncodeBlocksAt(data: seq<byte>, encodeStr: string, wholeBlock: bool, i: nat)
    requires |data| % 5 == 0 && |encodeStr| >= 32
    requires i < 8 * (|data| / 5)
    ensures 5 * (i / 8) + 5 <= |data|
    ensures EncodeBlocks(data, encodeStr, wholeBlock)[i] ==
      encodeStr[Shift(BlockValue(data[5 * (i / 8)..5 * (i / 8) + 5], wholeBlock), i % 8) % 32]
    decreases |data|
  {
    if i >= 8 {
      EncodeBlocksAt(data[5..], encodeStr, wholeBlock, i - 8);
      assert (i - 8) / 8 == i / 8 - 1 && (i - 8) % 8 == i % 8;
      var j := 5 * (i / 8);
      assert data[5..][j - 5..j] == data[j..j + 5];
    }
  }

  /** The padded length is a multiple of five, so the kept length is well defined. */
  lemma EncodedLength(n: nat)
    ensures 8 * ((n + Padding(n)) / 5) == 8 * (n + Padding(n)) / 5
    ensures 8 * (n + Padding(n)) / 5 >= Padding(n)
  {
  }

  function EncodeWith(data: seq<byte>, encodeStr: string, wholeBlock: bool): (r: string)
    requires |encodeStr| >= 32
    ensures |r| == 8 * (|data| + Padding(|data|)) / 5 - Padding(|data|)
  {
    var p := Padding(|data|);
    EncodedLength(|data|);
    var enc := EncodeBlocks(data + Zeros(p), encodeStr, wholeBlock);
    enc[..|enc| - p]
  }

  /**
    `custom_base32_encode` as written: pad, encode every block from its
    first byte, drop one character per padding byte.
   */
  function CustomBase32Encode(data: seq<byte>, encodeStr: string): (r: string)
    requires |encodeStr| >= 32
    ensures |r| == 8 * (|data| + Padding(|data|)) / 5 - Padding(|data|)
    ensures |data| == 0 <==> r == ""
    ensures forall i :: 0 <= i < |r| ==> r[i] in encodeStr
  {
    var r := EncodeWith(data, encodeStr, false);
    forall i | 0 <= i < |r| ensures r[i] in encodeStr {
      EncodeBlocksAt(data + Zeros(Padding(|data|)), encodeStr, false, i);
    }
    r
  }

  /** The encoder with the whole block read, as the list `h` evidently intends. */
  function CustomBase32EncodeIntended(data: seq<byte>, encodeStr: string): (r: string)
    requires |encodeStr| >= 32
    ensures |r| == 8 * (|data| + Padding(|data|)) / 5 - Padding(|data|)
    ensures |data| == 0 <==> r == ""
    ensures forall i :: 0 <= i < |r| ==> r[i] in encodeStr
  {
    var r := EncodeWith(data, encodeStr, true);
    forall i | 0 <= i < |r| ensures r[i] in encodeStr {
      EncodeBlocksAt(data + Zeros(Padding(|data|)), encodeStr, true, i);
    }
    r
  }

  /**
    The shape of a block as written: its first byte `b` gives `b & 31` and
    `b >> 5`, and the other six characters are always `encode_str[0]`.
   */
  lemma ByteDigits(b: byte)
    ensures Shift(b, 0) % 32 == b % 32
    ensures Shift(b, 1) % 32 == b / 32
    ensures forall k :: 2 <= k ==> Shift(b, k) == 0
  {
    assert b / 32 < 8 && b / 32 / 32 == 0;
    assert Shift(b, 2) == Shift(b / 32 / 32, 0);
    forall k | 2 <= k ensures Shift(b, k) == 0 {
      ShiftOfSmall(b / 32 / 32, k - 2);
    }
  }

  lemma {:induction false} ShiftOfSmall(v: nat, k: nat)
    requires v == 0
    ensures Shift(v, k) == 0
  {
    if k > 0 {
      ShiftOfSmall(v / 32, k - 1);
    }
  }

  /** Each character of the as-written encoding comes from the first byte of its block. */
  lemma {:induction false} AsWrittenReadsFirstByte(data: seq<byte>, encodeStr: string, i: nat)
    requires |encodeStr| >= 32
    requires i < |CustomBase32Encode(data, encodeStr)|
    ensures var padded := data + Zeros(Padding(|data|));
      var b := padded[5 * (i / 8)];
      CustomBase32Encode(data, encodeStr)[i] ==
        if i % 8 == 0 then encodeStr[b % 32] else if i % 8 == 1 then encodeStr[b / 32] else encodeStr[0]
  {
    var padded := data + Zeros(Padding(|data|));
    EncodeBlocksAt(padded, encodeStr, false, i);
    ByteDigits(padded[5 * (i / 8)]);
  }

  // ---------------------------------------------------------------------
  // gen_id
  // ---------------------------------------------------------------------

  /** `gen_id`: the encoding of three random bytes (the randomness is the parameter). */
  function GenId(random: seq<byte>): (r: string)
    requires |random| == 3
    ensures |r| == 6
  {
    CustomBase32Encode(random, EncodeStr)
  }

  /** `gen_id` with the intended encoder. */
  function GenIdIntended(random: seq<byte>): (r: string)
    requires |random| == 3
    ensures |r| == 6
  {
    CustomBase32EncodeIntended(random, EncodeStr)
  }

  /** The alphabet's characters are strictly increasing, hence distinct. */
  lemma EncodeStrDistinct(i: nat, j: nat)
    requires i < 32 && j < 32 && EncodeStr[i] == EncodeStr[j]
    ensures i == j
  {
    EncodeStrIncreasing();
    if i < j {
      IncreasingBetween(i, j);
    } else if j < i {
      IncreasingBetween(j, i);
    }
  }

  /** The alphabet is listed in increasing character order. */
  lemma EncodeStrIncreasing()
    ensures forall k :: 0 <= k < 31 ==> EncodeStr[k] < EncodeStr[k + 1]
  {
    IncreasingFirstHalf();
    IncreasingSecondHalf();
  }

  lemma IncreasingFirstHalf()
    ensures forall k :: 0 <= k < 16 ==> EncodeStr[k] < EncodeStr[k + 1]
  {
    var e := EncodeStr[..17];
    assert e == "23456789abcdefghi";
    assert forall k :: 0 <= k < 16 ==> e[k] < e[k + 1];
  }

  lemma IncreasingSecondHalf()
    ensures forall k :: 16 <= k < 31 ==> EncodeStr[k] < EncodeStr[k + 1]
  {
    var e := EncodeStr[16..];
    assert e == "ikmnopqrstuvwxyz";
    assert forall k :: 0 <= k < 15 ==> e[k] < e[k + 1];
  }

  lemma {:induction false} IncreasingBetween(i: nat, j: nat)
    requires i < j < 32
    requires forall k :: 0 <= k < 31 ==> EncodeStr[k] < EncodeStr[k + 1]
    ensures EncodeStr[i] < EncodeStr[j]
    decreases j - i
  {
    if i + 1 < j {
      IncreasingBetween(i + 1, j);
    }
  }

  /** Character `k` of a three-byte identifier, as digit `k` of the first block. */
  lemma {:induction false} GenIdAt(random: seq<byte>, wholeBlock: bool, k: nat)
    requires |random| == 3 && k < 6
    ensures EncodeWith(random, EncodeStr, wholeBlock)[k] ==
      EncodeStr[Shift(BlockValue(random + [0, 0], wholeBlock), k) % 32]
  {
    var padded := random + Zeros(2);
    assert padded[0..5] == random + [0, 0];
    EncodeBlocksAt(padded, EncodeStr, wholeBlock, k);
  }

  /** As written, an identifier is determined by the first random byte alone, so there are only 256 of them. */
  lemma GenIdDependsOnlyOnFirstByte(a: seq<byte>, b: seq<byte>)
    requires |a| == 3 && |b| == 3
    ensures GenId(a) == GenId(b) <==> a[0] == b[0]
  {
    var ra, rb := GenId(a), GenId(b);
    assert BlockValue(a + [0, 0], false) == a[0];
    assert BlockValue(b + [0, 0], false) == b[0];
    if a[0] == b[0] {
      forall k | 0 <= k < 6 ensures ra[k] == rb[k] {
        GenIdAt(a, false, k);
        GenIdAt(b, false, k);
      }
    }
    if ra == rb {
      GenIdAt(a, false, 0);
      GenIdAt(b, false, 0);
      GenIdAt(a, false, 1);
      GenIdAt(b, false, 1);
      ByteDigits(a[0]);
      ByteDigits(b[0]);
      EncodeStrDistinct(a[0] % 32, b[0] % 32);
      EncodeStrDistinct(a[0] / 32, b[0] / 32);
    }
  }

  /** A concrete pair: two different random inputs that give the same identifier. */
  lemma GenIdCollision()
    ensures GenId([0, 0, 0]) == GenId([0, 1, 0])
  {
    GenIdDependsOnlyOnFirstByte([0, 0, 0], [0, 1, 0]);
  }

  function Pow32(n: nat): (r: nat)
    ensures r >= 1
  {
    if n == 0 then 1 else 32 * Pow32(n - 1)
  }

  /** Numbers below `32^n` are told apart by their first `n` five-bit digits. */
  lemma {:induction false} DigitsDetermine(v: nat, w: nat, n: nat)
    requires v < Pow32(n) && w < Pow32(n)
    requires forall k :: 0 <= k < n ==> Shift(v, k) % 32 == Shift(w, k) % 32
    ensures v == w
  {
    if n > 0 {
      assert Shift(v, 0) % 32 == Shift(w, 0) % 32;
      forall k | 0 <= k < n - 1 ensures Shift(v / 32, k) % 32 == Shift(w / 32, k) % 32 {
        assert Shift(v, k + 1) == Shift(v / 32, k);
        assert Shift(w, k + 1) == Shift(w / 32, k);
      }
      DigitsDetermine(v / 32, w / 32, n - 1);
    }
  }

  /** Three bytes are determined by their little-endian number. */
  lemma LittleEndianInjective(a: seq<byte>, b: seq<byte>)
    requires |a| == 3 && |b| == 3
    requires LittleEndian(a + [0, 0]) == LittleEndian(b + [0, 0])
    ensures a == b
  {
    var va: int := a[0] as int + 256 * (a[1] as int + 256 * a[2] as int);
    var vb: int := b[0] as int + 256 * (b[1] as int + 256 * b[2] as int);
    assert LittleEndian(a + [0, 0]) == va;
    assert LittleEndian(b + [0, 0]) == vb;
    DivModUnique(va, a[0], a[1] as int + 256 * a[2] as int);
    DivModUnique(vb, b[0], b[1] as int + 256 * b[2] as int);
    DivModUnique(a[1] as int + 256 * a[2] as int, a[1], a[2]);
    DivModUnique(b[1] as int + 256 * b[2] as int, b[1], b[2]);
  }

  lemma DivModUnique(v: nat, r: nat, q: nat)
    requires r < 256 && v == r + 256 * q
    ensures v % 256 == r && v / 256 == q
  {
  }

  /** With the whole block read, distinct random inputs give distinct identifiers. */
  lemma GenIdIntendedInjective(a: seq<byte>, b: seq<byte>)
    requires |a| == 3 && |b| == 3
    requires GenIdIntended(a) == GenIdIntended(b)
    ensures a == b
  {
    var va := LittleEndian(a + [0, 0]);
    var vb := LittleEndian(b + [0, 0]);
    forall k | 0 <= k < 6 ensures Shift(va, k) % 32 == Shift(vb, k) % 32 {
      GenIdAt(a, true, k);
      GenIdAt(b, true, k);
      EncodeStrDistinct(Shift(va, k) % 32, Shift(vb, k) % 32);
    }
    assert Pow32(6) == 1073741824;
    DigitsDetermine(va, vb, 6);
    LittleEndianInjective(a, b);
  }
}
