// Shared integer widths, constants and the big-endian ("network order")
// byte helpers of AsioNet/AsioNet/NetUtils.hpp.

module NetUtils {

  type byte = x: int | 0 <= x < 0x100
  type u16 = x: int | 0 <= x < 0x1_0000
  type u32 = x: int | 0 <= x < 0x1_0000_0000
  type u64 = x: int | 0 <= x < 0x1_0000_0000_0000_0000
  type i64 = x: int | -0x8000_0000_0000_0000 <= x < 0x8000_0000_0000_0000

  /** `server_id` and `session_uid`. */
  type ServerId = u64
  type SessionUid = u32

  const NET_PREDICTION_DELAY_MS_MAX: nat := 2000
  const ONCE_BUFFER_SIZE: nat := 1024 * 64
  const TINY_ONCE_BUFFER_SIZE: nat := 16
  const TOTAL_CACHE_SIZE: nat := 1024 * 1024 * 10
  const PROXY_CLEAN_PERIOD_MS: nat := 3000
  const RC4_KEY_LEN: nat := 10
  const KEEP_ALIVE_PRECISION: nat := 1000

  /** 256 to the power n. */
  function Pow256(n: nat): (r: nat)
    ensures r >= 1
  {
    if n == 0 then 1 else 0x100 * Pow256(n - 1)
  }

  /** The n low-order bytes of v, most significant first. */
  function BeBytes(v: nat, n: nat): (r: seq<byte>)
    ensures |r| == n
  {
    if n == 0 then [] else BeBytes(v / 0x100, n - 1) + [v % 0x100]
  }

  /** The number whose big-endian bytes are s. */
  function ReadBe(s: seq<byte>): (r: nat)
    ensures r < Pow256(|s|)
  {
    if s == [] then 0 else ReadBe(s[..|s| - 1]) * 0x100 + s[|s| - 1]
  }

  /** Reading the written bytes back gives the value, for values that fit. */
  lemma {:induction false} ReadBeOfBeBytes(v: nat, n: nat)
    requires v < Pow256(n)
    ensures ReadBe(BeBytes(v, n)) == v
  {
    if n > 0 {
      var s := BeBytes(v, n);
      assert s[..n - 1] == BeBytes(v / 0x100, n - 1);
      assert v / 0x100 < Pow256(n - 1);
      ReadBeOfBeBytes(v / 0x100, n - 1);
    }
  }

  /** Writing the value read gives the bytes back. */
  lemma {:induction false} BeBytesOfReadBe(s: seq<byte>)
    ensures BeBytes(ReadBe(s), |s|) == s
  {
    if s != [] {
      var init := s[..|s| - 1];
      var v := ReadBe(s);
      assert v / 0x100 == ReadBe(init) && v % 0x100 == s[|s| - 1];
      BeBytesOfReadBe(init);
      assert s == init + [s[|s| - 1]];
    }
  }

  /** write_uint16: the two bytes of val, high byte first. */
  method WriteUint16(block: array<byte>, at: nat, val: u16)
    requires at + 2 <= block.Length
    modifies block
    ensures block[..] == old(block[..at]) + BeBytes(val, 2) + old(block[at + 2..])
  {
    block[at + 1] := val % 0x100;
    block[at] := val / 0x100;
    assert block[..] == old(block[..at]) + BeBytes(val, 2) + old(block[at + 2..]);
  }

  /** write_uint32: the four bytes of val, high byte first. */
  method WriteUint32(block: array<byte>, at: nat, val: u32)
    requires at + 4 <= block.Length
    modifies block
    ensures block[..] == old(block[..at]) + BeBytes(val, 4) + old(block[at + 4..])
  {
    block[at + 3] := val % 0x100;
    block[at + 2] := val / 0x100 % 0x100;
    block[at + 1] := val / 0x1_0000 % 0x100;
    block[at] := val / 0x100_0000 % 0x100;
    BeBytes4(val);
    assert block[..] == old(block[..at]) + BeBytes(val, 4) + old(block[at + 4..]);
  }

  /** v with its m low-order base-256 digits removed. */
  function DropDigits(v: nat, m: nat): nat
  {
    if m == 0 then v else DropDigits(v / 0x100, m - 1)
  }

  lemma {:induction false} BeBytesSplit(v: nat, n: nat, m: nat)
    ensures BeBytes(v, n + m) == BeBytes(DropDigits(v, m), n) + BeBytes(v, m)
  {
    if m > 0 {
      BeBytesSplit(v / 0x100, n, m - 1);
    }
  }

  lemma BeBytes4(v: nat)
    ensures BeBytes(v, 4) == [v / 0x100_0000 % 0x100, v / 0x1_0000 % 0x100, v / 0x100 % 0x100, v % 0x100]
  {
    var a, b, c := v / 0x100, v / 0x100 / 0x100, v / 0x100 / 0x100 / 0x100;
    assert BeBytes(v, 4) == BeBytes(a, 3) + [v % 0x100];
    assert BeBytes(a, 3) == BeBytes(b, 2) + [a % 0x100];
    assert BeBytes(b, 2) == BeBytes(c, 1) + [b % 0x100];
    assert BeBytes(c, 1) == [c % 0x100];
    assert b == v / 0x1_0000 && c == v / 0x100_0000;
  }

  lemma BeBytes8(v: u64)
    ensures BeBytes(v, 8) == [v / 0x100_0000_0000_0000 % 0x100, v / 0x1_0000_0000_0000 % 0x100,
                              v / 0x100_0000_0000 % 0x100, v / 0x1_0000_0000 % 0x100,
                              v / 0x100_0000 % 0x100, v / 0x1_0000 % 0x100, v / 0x100 % 0x100, v % 0x100]
  {
    var h := v / 0x1_0000_0000;
    BeBytesSplit(v, 4, 4);
    assert DropDigits(v, 4) == h by {
      assert DropDigits(v, 4) == DropDigits(v / 0x100, 3);
      assert DropDigits(v / 0x100, 3) == DropDigits(v / 0x100 / 0x100, 2);
      assert DropDigits(v / 0x100 / 0x100, 2) == DropDigits(v / 0x100 / 0x100 / 0x100, 1);
    }
    BeBytes4(h);
    BeBytes4(v);
    assert h / 0x100_0000 == v / 0x100_0000_0000_0000;
    assert h / 0x1_0000 == v / 0x1_0000_0000_0000;
    assert h / 0x100 == v / 0x100_0000_0000;
    assert h % 0x100 == v / 0x1_0000_0000 % 0x100;
  }

  /** write_uint64: the eight bytes of val, high byte first. */
  method WriteUint64(block: array<byte>, at: nat, val: u64)
    requires at + 8 <= block.Length
    modifies block
    ensures block[..] == old(block[..at]) + BeBytes(val, 8) + old(block[at + 8..])
  {
    block[at + 7] := val % 0x100;
    block[at + 6] := val / 0x100 % 0x100;
    block[at + 5] := val / 0x1_0000 % 0x100;
    block[at + 4] := val / 0x100_0000 % 0x100;
    block[at + 3] := val / 0x1_0000_0000 % 0x100;
    block[at + 2] := val / 0x100_0000_0000 % 0x100;
    block[at + 1] := val / 0x1_0000_0000_0000 % 0x100;
    block[at] := val / 0x100_0000_0000_0000 % 0x100;
    BeBytes8(val);
    assert block[..] == old(block[..at]) + BeBytes(val, 8) + old(block[at + 8..]);
  }

  /** read_uint16: the value of the two bytes at `at`, high byte first. */
  function ReadUint16(block: seq<byte>, at: nat): (r: u16)
    requires at + 2 <= |block|
    ensures BeBytes(r, 2) == block[at..at + 2]
  {
    BeBytesOfReadBe(block[at..at + 2]);
    ReadBe(block[at..at + 2])
  }

  /** read_uint32: the value of the four bytes at `at`, high byte first. */
  function ReadUint32(block: seq<byte>, at: nat): (r: u32)
    requires at + 4 <= |block|
    ensures BeBytes(r, 4) == block[at..at + 4]
  {
    BeBytesOfReadBe(block[at..at + 4]);
    ReadBe(block[at..at + 4])
  }

  /** The 64-bit two's complement reading of an unsigned value. */
  function AsSigned64(v: u64): (r: i64)
    ensures r % 0x1_0000_0000_0000_0000 == v
    ensures (r < 0) == (v >= 0x8000_0000_0000_0000)
  {
    if v < 0x8000_0000_0000_0000 then v else v - 0x1_0000_0000_0000_0000
  }

  /** read_uint64: the eight bytes at `at`, high byte first, returned as int64_t. */
  function ReadUint64(block: seq<byte>, at: nat): (r: i64)
    requires at + 8 <= |block|
    ensures BeBytes(r % 0x1_0000_0000_0000_0000, 8) == block[at..at + 8]
  {
    BeBytesOfReadBe(block[at..at + 8]);
    AsSigned64(ReadBe(block[at..at + 8]))
  }

  /** Every 16- and 32-bit value survives write then read. */
  lemma RoundTrip16And32(v16: u16, v32: u32, block: seq<byte>, at: nat)
    requires at + 4 <= |block|
    requires block[at..at + 2] == BeBytes(v16, 2) || block[at..at + 4] == BeBytes(v32, 4)
    ensures block[at..at + 2] == BeBytes(v16, 2) ==> ReadUint16(block, at) == v16
    ensures block[at..at + 4] == BeBytes(v32, 4) ==> ReadUint32(block, at) == v32
  {
    if block[at..at + 2] == BeBytes(v16, 2) {
      ReadBeOfBeBytes(v16, 2);
    }
    if block[at..at + 4] == BeBytes(v32, 4) {
      ReadBeOfBeBytes(v32, 4);
    }
  }

  /** A 64-bit value read back comes out negative exactly when its top bit is set. */
  lemma RoundTrip64(v: u64, block: seq<byte>, at: nat)
    requires at + 8 <= |block| && block[at..at + 8] == BeBytes(v, 8)
    ensures ReadUint64(block, at) == if v < 0x8000_0000_0000_0000 then v else v - 0x1_0000_0000_0000_0000
  {
    ReadBeOfBeBytes(v, 8);
  }

  /** The n low-order bytes of v, least significant first: the in-memory layout on a little-endian host. */
  function LeBytes(v: nat, n: nat): (r: seq<byte>)
    ensures |r| == n
  {
    if n == 0 then [] else [v % 0x100] + LeBytes(v / 0x100, n - 1)
  }

  /** The number whose little-endian bytes are s. */
  function ReadLe(s: seq<byte>): (r: nat)
    ensures r < Pow256(|s|)
  {
    if s == [] then 0 else s[0] + 0x100 * ReadLe(s[1..])
  }

  lemma {:induction false} ReadLeOfLeBytes(v: nat, n: nat)
    requires v < Pow256(n)
    ensures ReadLe(LeBytes(v, n)) == v
  {
    if n > 0 {
      assert LeBytes(v, n)[1..] == LeBytes(v / 0x100, n - 1);
      ReadLeOfLeBytes(v / 0x100, n - 1);
    }
  }

  lemma {:induction false} LeBytesOfReadLe(s: seq<byte>)
    ensures LeBytes(ReadLe(s), |s|) == s
  {
    if s != [] {
      var v := ReadLe(s);
      assert v / 0x100 == ReadLe(s[1..]) && v % 0x100 == s[0];
      LeBytesOfReadLe(s[1..]);
      assert s == [s[0]] + s[1..];
    }
  }

  /** A value below 2^16 is its own 16-bit truncation. */
  lemma SixteenBits(y: nat)
    ensures y < 0x1_0000 ==> y % 0x1_0000 == y
  {
  }

  /** After w is written at `at`, the |w| + n bytes from `at` are w and the n bytes that followed it. */
  lemma WrittenBefore(before: seq<byte>, after: seq<byte>, at: nat, w: seq<byte>, n: nat)
    requires at + |w| + n <= |before| == |after|
    requires after == before[..at] + w + before[at + |w|..]
    ensures after[at..at + |w| + n] == w + before[at + |w|..at + |w| + n]
  {
    assert after[at..at + |w|] == w;
    assert after[at + |w|..at + |w| + n] == before[at + |w|..at + |w| + n];
    assert after[at..at + |w| + n] == after[at..at + |w|] + after[at + |w|..at + |w| + n];
  }

  /** memcpy of src into dst at `at`. */
  method CopyInto(dst: array<byte>, at: nat, src: seq<byte>)
    requires at + |src| <= dst.Length
    modifies dst
    ensures dst[..] == old(dst[..at]) + src + old(dst[at + |src|..])
  {
    var i := 0;
    while i < |src|
      invariant 0 <= i <= |src|
      invariant dst[..at] == old(dst[..at])
      invariant dst[at..at + i] == src[..i]
      invariant dst[at + i..] == old(dst[at + i..])
    {
      dst[at + i] := src[i];
      i := i + 1;
      assert dst[at..at + i] == dst[at..at + i - 1] + [src[i - 1]];
    }
    assert dst[..] == dst[..at] + dst[at..at + |src|] + dst[at + |src|..];
  }
}
