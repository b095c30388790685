// The frame checksum of AsioNet/AsioNet/proto_mask.hpp: a 16-bit
// one's-complement sum in the style of RFC 1071, over bytes read as
// big-endian 16-bit words whatever the host order, with a trailing odd byte
// taken as the high half of a word.

module ProtoMask {
  import opened NetUtils

  const TWO32: nat := 0x1_0000_0000

  /** The sum of the 16-bit words of data, first byte of each pair high. */
  function WordSum(data: seq<byte>): (r: nat)
    ensures r <= 0xFFFF * |data|
  {
    if |data| == 0 then 0
    else if |data| == 1 then (data[0] as int) * 0x100
    else (data[0] as int) * 0x100 + data[1] + WordSum(data[2..])
  }

  /**
   * The two "add deferred carry bits" steps of mask_off_32. The result is a
   * 16-bit value congruent to the input modulo 0xFFFF, and zero only for zero.
   */
  function Fold(a: u32): (r: u32)
    ensures r <= 0xFFFF
    ensures r % 0xFFFF == a % 0xFFFF
    ensures (r == 0) <==> (a == 0)
  {
    var a1 := a / 0x1_0000 + a % 0x1_0000;
    FoldStep(a);
    if a1 >= 0x1_0000 then
      FoldStep(a1);
      a1 / 0x1_0000 + a1 % 0x1_0000
    else a1
  }

  /** One carry step keeps the value modulo 0xFFFF. */
  lemma FoldStep(a: nat)
    ensures (a / 0x1_0000 + a % 0x1_0000) % 0xFFFF == a % 0xFFFF
  {
    var q := a / 0x1_0000;
    assert a == 0xFFFF * q + (q + a % 0x1_0000);
  }

  /** What mask_off_32 returns: the folded 32-bit sum of acc and the words of data. */
  function MaskOff(data: seq<byte>, acc: u32): (r: u32)
    ensures r <= 0xFFFF
  {
    Fold((acc + WordSum(data)) % TWO32)
  }

  /** mask_off_32: accumulates the words of data into acc with 32-bit wrap-around, then folds. */
  method MaskOff32(data: seq<byte>, acc: u32) returns (r: u32)
    ensures r == MaskOff(data, acc)
  {
    var sum: u32 := acc;
    var i := 0;
    while |data| - i > 1
      invariant 0 <= i <= |data|
      invariant (sum + WordSum(data[i..])) % TWO32 == (acc + WordSum(data)) % TWO32
    {
      var src: u16 := (data[i] as int) * 0x100 + data[i + 1];
      assert WordSum(data[i..]) == src + WordSum(data[i + 2..]);
      ModAddStep(sum, src, WordSum(data[i + 2..]));
      sum := (sum + src) % TWO32;
      i := i + 2;
    }
    if |data| - i > 0 {
      assert WordSum(data[i..]) == (data[i] as int) * 0x100;
      ModAddStep(sum, (data[i] as int) * 0x100, 0);
      sum := (sum + (data[i] as int) * 0x100) % TWO32;
    } else {
      assert data[i..] == [];
    }
    ThirtyTwoBits(sum);
    assert sum == (acc + WordSum(data)) % TWO32;
    // add deferred carry bits
    r := Fold(sum);
  }

  lemma ThirtyTwoBits(x: u32)
    ensures x % TWO32 == x
  {
  }

  lemma ModAddStep(x: nat, y: nat, z: nat)
    ensures ((x + y) % TWO32 + z) % TWO32 == (x + y + z) % TWO32
  {
    var q := (x + y) / TWO32;
    assert x + y == TWO32 * q + (x + y) % TWO32;
    assert x + y + z == TWO32 * q + ((x + y) % TWO32 + z);
  }

  /**
   * get_mask: the complement of the folded sum over head then data. Zero means
   * the folded sum is all ones, which is how a receiver accepts a frame.
   */
  function GetMask(head: seq<byte>, data: seq<byte>, acc: u32): (r: u16)
    ensures r == 0 <==> MaskOff(data, MaskOff(head, acc)) == 0xFFFF
  {
    0xFFFF - MaskOff(data, MaskOff(head, acc)) % 0x1_0000
  }

  /** Words are summed independently of where the sequence is split, at an even position. */
  lemma {:induction false} WordSumAppend(a: seq<byte>, b: seq<byte>)
    requires |a| % 2 == 0
    ensures WordSum(a + b) == WordSum(a) + WordSum(b)
  {
    if |a| > 0 {
      assert (a + b)[2..] == a[2..] + b;
      WordSumAppend(a[2..], b);
    } else {
      assert a + b == b;
    }
  }

  /** A trailing odd byte counts as the high half of a word. */
  lemma WordSumOddTail(a: seq<byte>, x: byte)
    requires |a| % 2 == 0
    ensures WordSum(a + [x]) == WordSum(a) + (x as int) * 0x100
  {
    WordSumAppend(a, [x]);
  }

  /**
   * The checksum protocol: if the words of head1 exceed those of head0 by
   * exactly the mask computed over head0 and data, then the mask computed over
   * head1 and data is zero. Data of up to 0xFFFF bytes cannot overflow the
   * 32-bit accumulator.
   */
  lemma MaskCancels(head0: seq<byte>, head1: seq<byte>, data: seq<byte>)
    requires |data| <= 0xFFFF
    requires WordSum(head0) + 0xFFFF < TWO32
    requires WordSum(head1) == WordSum(head0) + GetMask(head0, data, 0)
    ensures GetMask(head1, data, 0) == 0
  {
    var w0, w1, wd := WordSum(head0), WordSum(head1), WordSum(data);
    GetMaskNoWrap(head0, data);
    assert w1 == w0 + (0xFFFF - Fold(Fold(w0) + wd));
    FoldComplement(w0, w1, wd);
    GetMaskNoWrap(head1, data);
  }

  /** Without 32-bit overflow, get_mask is the complement of two plain folds. */
  lemma GetMaskNoWrap(head: seq<byte>, data: seq<byte>)
    requires |data| <= 0xFFFF
    requires WordSum(head) < TWO32
    ensures WordSum(data) <= 0xFFFF * 0xFFFF
    ensures GetMask(head, data, 0) == 0xFFFF - Fold(Fold(WordSum(head)) + WordSum(data))
  {
    WordSumLe(data);
    var x := MaskOff(head, 0);
    MaskOffNoWrap(head, 0);
    var y := MaskOff(data, x);
    MaskOffNoWrap(data, x);
    GetMaskOf(head, data, x, y);
  }

  /** get_mask from the two mask_off_32 results it is made of. */
  lemma GetMaskOf(head: seq<byte>, data: seq<byte>, x: u32, y: u32)
    requires x == MaskOff(head, 0) && y == MaskOff(data, x)
    ensures GetMask(head, data, 0) == 0xFFFF - y
  {
    SixteenBits(y);
  }

  lemma WordSumLe(data: seq<byte>)
    requires |data| <= 0xFFFF
    ensures WordSum(data) <= 0xFFFF * 0xFFFF
  {
  }

  /** Without 32-bit overflow, mask_off_32 is the fold of the plain sum. */
  lemma MaskOffNoWrap(data: seq<byte>, acc: u32)
    requires acc + WordSum(data) < TWO32
    ensures MaskOff(data, acc) == Fold(acc + WordSum(data))
  {
  }

  /** The arithmetic core of MaskCancels, on the word sums alone. */
  lemma FoldComplement(w0: nat, w1: nat, wd: nat)
    requires wd <= 0xFFFF * 0xFFFF
    requires w0 + 0xFFFF < TWO32
    requires w1 == w0 + (0xFFFF - Fold(Fold(w0) + wd))
    ensures Fold(Fold(w1) + wd) == 0xFFFF
  {
    var a := Fold(w0);
    var b := Fold(a + wd);
    var a' := Fold(w1);
    ResidueCancels(w0, w1, wd, a, b, a', Fold(a' + wd));
  }

  /**
   * The same on residues: a and a' stand for the folds of w0 and w1, b and b'
   * for the folds of a + wd and a' + wd, known only by the properties of Fold.
   */
  lemma ResidueCancels(w0: nat, w1: nat, wd: nat, a: nat, b: nat, a': nat, b': nat)
    requires a % 0xFFFF == w0 % 0xFFFF && (a == 0 <==> w0 == 0)
    requires b <= 0xFFFF && b % 0xFFFF == (a + wd) % 0xFFFF && (b == 0 <==> a + wd == 0)
    requires w1 == w0 + (0xFFFF - b)
    requires a' % 0xFFFF == w1 % 0xFFFF && (a' == 0 <==> w1 == 0)
    requires b' <= 0xFFFF && b' % 0xFFFF == (a' + wd) % 0xFFFF && (b' == 0 <==> a' + wd == 0)
    ensures b' == 0xFFFF
  {
    CongrAdd(a, w0, wd);
    ModCancel(w0 + wd, b);
    CongrAdd(a', w1, wd);
    assert w1 + wd == w0 + wd + (0xFFFF - b);
    FoldNonZero(w0, 0xFFFF - b, a', wd, b, b');
  }

  lemma FoldNonZero(w0: nat, m: nat, a': nat, wd: nat, b: nat, b': nat)
    requires b' <= 0xFFFF && b' % 0xFFFF == 0
    requires m == 0xFFFF - b
    requires (b' == 0) <==> (a' + wd == 0)
    requires (a' == 0) <==> (w0 + m == 0)
    requires w0 == 0 && wd == 0 ==> b == 0
    ensures b' == 0xFFFF
  {
  }

  /** Adding the complement of a value's residue cancels it modulo 0xFFFF. */
  lemma ModCancel(x: nat, b: nat)
    requires b <= 0xFFFF && x % 0xFFFF == b % 0xFFFF
    ensures (x + (0xFFFF - b)) % 0xFFFF == 0
  {
    var q := x / 0xFFFF;
    assert x == 0xFFFF * q + x % 0xFFFF;
    if b == 0xFFFF {
      assert x + (0xFFFF - b) == 0xFFFF * q;
    } else {
      assert x + (0xFFFF - b) == 0xFFFF * (q + 1);
    }
  }

  lemma CongrAdd(x: nat, y: nat, k: nat)
    requires x % 0xFFFF == y % 0xFFFF
    ensures (x + k) % 0xFFFF == (y + k) % 0xFFFF
  {
    assert x == 0xFFFF * (x / 0xFFFF) + x % 0xFFFF;
    assert y == 0xFFFF * (y / 0xFFFF) + y % 0xFFFF;
  }
}
