/** src/core/chunk/chunker.cpp and the initialisation vectors of src/core/crypto/hybrid.cpp. */
module Chunking {
  import opened Basics
  import opened Kademlia

  /** Splitting **/

  function Split(content: string, size: nat): (r: seq<string>)
    requires size > 0
  {
    if content == "" then []
    else if |content| <= size then [content]
    else [content[..size]] + Split(content[size..], size)
  }

  function Concat(blocks: seq<string>): string {
    if blocks == [] then "" else blocks[0] + Concat(blocks[1..])
  }

  // chunkFile: reads of at most chunkSize bytes until one returns nothing. None is the invalid_argument exception.
  method ChunkFile(content: string, chunkSize: nat) returns (chunks: Option<seq<string>>)
    ensures chunks == if chunkSize == 0 then None else Some(Split(content, chunkSize))
  {
    if chunkSize == 0 {
      return None;
    }
    var out, rest := [], content;
    assert [] + Split(content, chunkSize) == Split(content, chunkSize);
    while true
      invariant out + Split(rest, chunkSize) == Split(content, chunkSize)
      decreases |rest|
    {
      var got := if |rest| < chunkSize then |rest| else chunkSize;
      if got <= 0 {
        break;
      }
      assert got == |rest| ==> rest[..got] == rest && rest[got..] == "";
      out, rest := out + [rest[..got]], rest[got..];
    }
    assert out + [] == out;
    chunks := Some(out);
  }

  /** The chunks concatenate to the file, number ceil(size / chunkSize), and are all full but the last. **/
  lemma {:induction false} SplitIs(content: string, size: nat)
    requires size > 0
    ensures Concat(Split(content, size)) == content
    ensures |Split(content, size)| == Ceiling(|content|, size)
    ensures forall i | 0 <= i < |Split(content, size)| ::
              && 0 < |Split(content, size)[i]| <= size
              && (i < |Split(content, size)| - 1 ==> |Split(content, size)[i]| == size)
  {
    CeilingIs(|content|, size);
    if content == "" {
    } else if |content| <= size {
      assert [content][1..] == [];
    } else {
      var rest := Split(content[size..], size);
      SplitIs(content[size..], size);
      assert ([content[..size]] + rest)[1..] == rest;
      assert content == content[..size] + content[size..];
    }
  }

  function Ceiling(n: nat, size: nat): nat
    requires size > 0
  {
    (n + size - 1) / size
  }

  lemma CeilingIs(n: nat, size: nat)
    requires size > 0
    ensures n == 0 ==> Ceiling(n, size) == 0
    ensures 0 < n <= size ==> Ceiling(n, size) == 1
    ensures n > size ==> Ceiling(n, size) == 1 + Ceiling(n - size, size)
  {
    if n > size {
      var q, r := (n - 1) / size, (n - 1) % size;
      assert n - 1 == size * q + r;
      assert n + size - 1 == size * (q + 1) + r by {
        assert size * (q + 1) == size * q + size;
      }
      Quotient(n + size - 1, size, q + 1, r);
      assert n - size + size - 1 == n - 1;
    } else if n > 0 {
      Quotient(n + size - 1, size, 1, n - 1);
    } else {
      Quotient(size - 1, size, 0, size - 1);
    }
  }

  lemma Quotient(x: nat, d: nat, q: nat, r: nat)
    requires d > 0 && x == d * q + r && r < d
    ensures x / d == q
  {
    var s: int, k: int := x % d, x / d - q;
    assert d * k == d * (x / d) - d * q == r - s;
    assert k >= 1 ==> d * k >= d;
    assert k <= -1 ==> d * k + d <= 0;
  }

  /** Initialisation vectors **/

  const COUNTER_LIMIT: nat := 0x1_0000_0000

  // (ctr >> n) & 0xff, where shift is 2^n
  function CounterByte(ctr: nat, shift: nat): Byte
    requires shift > 0
  {
    (ctr / shift) % 256
  }

  type Byte = n: nat | n < 256

  function FourBytes(w: Byte, x: Byte, y: Byte, z: Byte): (r: Bytes)
    ensures |r| == 4
  {
    [w as bv8, x as bv8, y as bv8, z as bv8]
  }

  // A 32-bit counter as four bytes, big-endian.
  function CounterBytes(ctr: nat): (r: Bytes)
    ensures |r| == 4
  {
    FourBytes(CounterByte(ctr, 0x100_0000), CounterByte(ctr, 0x1_0000), CounterByte(ctr, 0x100), CounterByte(ctr, 1))
  }

  // derive_chunk_iv: the last four bytes become the chunk index, modulo 2^32. None is an exception.
  function DeriveIv(baseIv: Bytes, idx: nat): (iv: Option<Bytes>)
    ensures iv.Some? <==> |baseIv| == 12
    ensures iv.Some? ==> |iv.value| == 12 && iv.value[..8] == baseIv[..8]
  {
    if |baseIv| != 12 then None else Some(baseIv[..8] + CounterBytes(idx % COUNTER_LIMIT))
  }

  // Overwrites four bytes of a copy.
  method DeriveChunkIv(baseIv: Bytes, idx: nat) returns (iv: Option<Bytes>)
    ensures iv == DeriveIv(baseIv, idx)
  {
    if |baseIv| != 12 {
      return None;
    }
    var b := baseIv;
    var ctr := idx % COUNTER_LIMIT;
    b := b[8 := CounterByte(ctr, 0x100_0000) as bv8];
    b := b[9 := CounterByte(ctr, 0x1_0000) as bv8];
    b := b[10 := CounterByte(ctr, 0x100) as bv8];
    b := b[11 := CounterByte(ctr, 1) as bv8];
    assert b[..8] == baseIv[..8];
    assert b == b[..8] + [b[8], b[9], b[10], b[11]];
    iv := Some(b);
  }

  lemma ByteRoundTrip(x: Byte)
    ensures (x as bv8) as nat == x
  {
    assert x % 256 == x;
  }

  // One byte of the counter on top of the ones above it.
  lemma NextByte(ctr: nat, shift: nat, next: nat)
    requires shift > 0 && next == 256 * shift
    ensures ctr / shift == 256 * (ctr / next) + CounterByte(ctr, shift)
  {
    var q, r := ctr / shift, ctr % shift;
    var high, low := q / 256, q % 256;
    assert ctr == shift * q + r && q == 256 * high + low;
    Regroup(ctr, shift, q, r, high, low);
    Quotient(ctr, next, high, shift * low + r);
  }

  lemma Regroup(n: nat, d: nat, q: nat, r: nat, high: nat, low: nat)
    requires n == d * q + r && r < d && q == 256 * high + low && low < 256
    ensures n == 256 * d * high + (d * low + r) && d * low + r < 256 * d
  {
    assert d * q == d * (256 * high) + d * low;
    assert d * low <= d * 255;
  }

  lemma CounterOfBytes(ctr: nat)
    requires ctr < COUNTER_LIMIT
    ensures ctr == 0x100_0000 * CounterByte(ctr, 0x100_0000) + 0x1_0000 * CounterByte(ctr, 0x1_0000)
                 + 0x100 * CounterByte(ctr, 0x100) + CounterByte(ctr, 1)
  {
    NextByte(ctr, 1, 0x100);
    NextByte(ctr, 0x100, 0x1_0000);
    NextByte(ctr, 0x1_0000, 0x100_0000);
    NextByte(ctr, 0x100_0000, COUNTER_LIMIT);
  }

  lemma {:induction false} NumberOfFour(b: Bytes)
    requires |b| == 4
    ensures Number(b) == 0x100_0000 * b[0] as nat + 0x1_0000 * b[1] as nat + 0x100 * b[2] as nat + b[3] as nat
  {
    assert b[..3][..2] == b[..2] && b[..2][..1] == b[..1] && b[..1][..0] == [];
    var one, two, three := Number(b[..1]), Number(b[..2]), Number(b[..3]);
    assert Number(b[..1][..0]) == 0;
    assert one == Number(b[..1][..0]) * 256 + b[0] as nat;
    assert two == one * 256 + b[1] as nat;
    assert three == two * 256 + b[2] as nat;
  }

  lemma NumberOfCounterBytes(ctr: nat)
    requires ctr < COUNTER_LIMIT
    ensures Number(CounterBytes(ctr)) == ctr
  {
    var b := CounterBytes(ctr);
    NumberOfFour(b);
    ByteRoundTrip(CounterByte(ctr, 0x100_0000));
    ByteRoundTrip(CounterByte(ctr, 0x1_0000));
    ByteRoundTrip(CounterByte(ctr, 0x100));
    ByteRoundTrip(CounterByte(ctr, 1));
    CounterOfBytes(ctr);
  }

  /** The first eight bytes are the base vector's; the last four, big-endian, are the index modulo 2^32. **/
  lemma IvCarriesIndex(baseIv: Bytes, idx: nat)
    requires |baseIv| == 12
    ensures var iv := DeriveIv(baseIv, idx).value; iv[..8] == baseIv[..8] && Number(iv[8..]) == idx % COUNTER_LIMIT
  {
    var tail := CounterBytes(idx % COUNTER_LIMIT);
    NumberOfCounterBytes(idx % COUNTER_LIMIT);
    assert (baseIv[..8] + tail)[8..] == tail;
  }

  /**
   * Two chunks of a file get the same vector if and only if their indices agree modulo 2^32: never within a file of at
   * most 2^32 chunks, as section 8 of NIST SP 800-38D asks.
   */
  lemma SameIvIff(baseIv: Bytes, i: nat, j: nat)
    requires |baseIv| == 12
    ensures DeriveIv(baseIv, i) == DeriveIv(baseIv, j) <==> i % COUNTER_LIMIT == j % COUNTER_LIMIT
    ensures i < COUNTER_LIMIT && j < COUNTER_LIMIT && i != j ==> DeriveIv(baseIv, i) != DeriveIv(baseIv, j)
  {
    IvCarriesIndex(baseIv, i);
    IvCarriesIndex(baseIv, j);
  }
}
