/** src/core/dht/kademlia_id.cpp: 160-bit ids, their XOR metric, and the hexadecimal text of digests. */
module Kademlia {
  import opened Basics
  import opened Text

  type Bytes = seq<bv8>
  type Id = b: Bytes | |b| == 20 witness seq(20, _ => 0)

  /** The metric **/

  function XorBytes(a: Bytes, b: Bytes): (d: Bytes)
    requires |a| == |b|
    ensures |d| == |a| && forall i | 0 <= i < |a| :: d[i] == a[i] ^ b[i]
  {
    seq(|a|, i requires 0 <= i < |a| => a[i] ^ b[i])
  }

  // xorDistance: a loop over the 20 positions.
  method XorDistance(a: Id, b: Id) returns (out: Id)
    ensures out == XorBytes(a, b)
  {
    out := seq(20, _ => 0);
    for i := 0 to 20
      invariant forall k | 0 <= k < i :: out[k] == a[k] ^ b[k]
    {
      out := out[i := a[i] ^ b[i]];
    }
  }

  // operator< of std::array: lexicographic.
  predicate Less(a: Bytes, b: Bytes)
    requires |a| == |b|
  {
    a != [] && (a[0] < b[0] || (a[0] == b[0] && Less(a[1..], b[1..])))
  }

  predicate CloserTo(a: Id, b: Id, target: Id) {
    Less(XorBytes(a, target), XorBytes(b, target))
  }

  // A big-endian number.
  function Number(a: Bytes): nat {
    if a == [] then 0 else Number(a[..|a| - 1]) * 256 + a[|a| - 1] as nat
  }

  function Distance(a: Id, b: Id): nat {
    Number(XorBytes(a, b))
  }

  lemma {:induction false} LessSnoc(a: Bytes, b: Bytes, x: bv8, y: bv8)
    requires |a| == |b|
    ensures Less(a + [x], b + [y]) <==> Less(a, b) || (a == b && x < y)
  {
    if a == [] {
      assert a + [x] == [x] && b + [y] == [y];
      assert [x][1..] == [] && [y][1..] == [];
    } else {
      assert (a + [x])[1..] == a[1..] + [x] && (b + [y])[1..] == b[1..] + [y];
      LessSnoc(a[1..], b[1..], x, y);
      assert a == [a[0]] + a[1..] && b == [b[0]] + b[1..];
    }
  }

  lemma {:induction false} NumberInjective(a: Bytes, b: Bytes)
    requires |a| == |b| && Number(a) == Number(b)
    ensures a == b
  {
    if a != [] {
      var n := |a| - 1;
      ByteOrder(a[n], b[n]);
      LastDigit(Number(a[..n]), a[n] as nat, Number(b[..n]), b[n] as nat);
      NumberInjective(a[..n], b[..n]);
      assert a == a[..n] + [a[n]] && b == b[..n] + [b[n]];
    }
  }

  lemma LastDigit(u: nat, x: nat, v: nat, y: nat)
    requires x < 256 && y < 256 && u * 256 + x == v * 256 + y
    ensures u == v && x == y
  {
  }

  lemma ByteOrder(x: bv8, y: bv8)
    ensures x as nat < 256 && y as nat < 256
    ensures x < y <==> x as nat < y as nat
    ensures x == y <==> x as nat == y as nat
  {
  }

  /** The order used for placement is the order of the numbers. **/
  lemma {:induction false} LessIsNumericOrder(a: Bytes, b: Bytes)
    requires |a| == |b|
    ensures Less(a, b) <==> Number(a) < Number(b)
  {
    if a != [] {
      var n := |a| - 1;
      assert a == a[..n] + [a[n]] && b == b[..n] + [b[n]];
      LessSnoc(a[..n], b[..n], a[n], b[n]);
      LessIsNumericOrder(a[..n], b[..n]);
      ByteOrder(a[n], b[n]);
      if Number(a[..n]) == Number(b[..n]) {
        NumberInjective(a[..n], b[..n]);
      }
    }
  }

  lemma CloserIsSmallerDistance(a: Id, b: Id, target: Id)
    ensures CloserTo(a, b, target) <==> Distance(a, target) < Distance(b, target)
  {
    LessIsNumericOrder(XorBytes(a, target), XorBytes(b, target));
  }

  lemma XorOfXor(a: Id, b: Id)
    ensures XorBytes(XorBytes(a, b), b) == a
  {
    forall i | 0 <= i < 20 ensures XorBytes(XorBytes(a, b), b)[i] == a[i] {
      BitXorCancels(a[i], b[i]);
    }
  }

  lemma BitXorCancels(x: bv8, y: bv8)
    ensures (x ^ y) ^ y == x
  {
  }

  lemma {:induction false} NumberOfZeros(a: Bytes)
    ensures Number(a) == 0 <==> forall i | 0 <= i < |a| :: a[i] == 0
  {
    if a != [] {
      var n := |a| - 1;
      NumberOfZeros(a[..n]);
      ByteOrder(a[n], 0);
      assert forall i | 0 <= i < n :: a[..n][i] == a[i];
    }
  }

  lemma BitXorIsAtMostSum(x: bv8, y: bv8, d: bv8)
    requires d == x ^ y
    ensures d as int <= x as int + y as int
  {
    assert (x ^ y) as bv9 <= (x as bv9) + (y as bv9);
  }

  lemma BitXorChain(x: bv8, y: bv8, z: bv8)
    ensures x ^ z == (x ^ y) ^ (y ^ z)
  {
  }

  lemma DigitSum(u: nat, x: int, v: nat, y: int, w: nat, z: int)
    requires u <= v + w && x <= y + z
    ensures u * 256 + x <= (v * 256 + y) + (w * 256 + z)
  {
  }

  lemma {:induction false} TriangleBytes(a: Bytes, b: Bytes, c: Bytes)
    requires |a| == |b| == |c|
    ensures Number(XorBytes(a, c)) <= Number(XorBytes(a, b)) + Number(XorBytes(b, c))
  {
    if a != [] {
      var n := |a| - 1;
      var ac, ab, bc := XorBytes(a, c), XorBytes(a, b), XorBytes(b, c);
      TriangleBytes(a[..n], b[..n], c[..n]);
      BitXorChain(a[n], b[n], c[n]);
      BitXorIsAtMostSum(ab[n], bc[n], ac[n]);
      assert ac[..n] == XorBytes(a[..n], c[..n]);
      assert ab[..n] == XorBytes(a[..n], b[..n]);
      assert bc[..n] == XorBytes(b[..n], c[..n]);
      DigitSum(Number(ac[..n]), ac[n] as int, Number(ab[..n]), ab[n] as int, Number(bc[..n]), bc[n] as int);
    }
  }

  /** A metric: zero only between equals, symmetric, with the triangle inequality, all as 160-bit numbers. **/
  lemma DistanceIsAMetric(a: Id, b: Id, c: Id)
    ensures Distance(a, b) == 0 <==> a == b
    ensures Distance(a, b) == Distance(b, a)
    ensures Distance(a, c) <= Distance(a, b) + Distance(b, c)
  {
    NumberOfZeros(XorBytes(a, b));
    forall i | 0 <= i < 20 ensures XorBytes(a, b)[i] == 0 <==> a[i] == b[i] {
      BitXorZero(a[i], b[i]);
    }
    assert XorBytes(a, b) == XorBytes(b, a) by {
      forall i | 0 <= i < 20 ensures a[i] ^ b[i] == b[i] ^ a[i] {
        BitXorZero(a[i], b[i]);
      }
    }
    TriangleBytes(a, b, c);
  }

  lemma BitXorZero(x: bv8, y: bv8)
    ensures x ^ y == 0 <==> x == y
    ensures x ^ y == y ^ x
  {
  }

  /** Unidirectional: at any distance from a target lies exactly one id. **/
  lemma Unidirectional(target: Id, d: Id)
    ensures XorBytes(XorBytes(d, target), target) == d
    ensures forall a: Id :: Distance(a, target) == Number(d) <==> a == XorBytes(d, target)
  {
    XorOfXor(d, target);
    forall a: Id ensures Distance(a, target) == Number(d) <==> a == XorBytes(d, target) {
      if Distance(a, target) == Number(d) {
        NumberInjective(XorBytes(a, target), d);
        XorOfXor(a, target);
      }
    }
  }

  lemma DistanceInjective(a: Id, b: Id, target: Id)
    requires Distance(a, target) == Distance(b, target)
    ensures a == b
  {
    NumberInjective(XorBytes(a, target), XorBytes(b, target));
    XorOfXor(a, target);
    XorOfXor(b, target);
  }

  /** Hexadecimal text **/

  function HexDigit(d: bv8): (c: char)
    requires d < 16
    ensures IsHexDigit(c)
  {
    if d < 10 then '0' + d as char else 'a' + (d - 10) as char
  }

  // The value of a hexadecimal digit.
  function HexValue(c: char): Option<bv8> {
    if '0' <= c <= '9' then Some((c - '0') as bv8)
    else if 'a' <= c <= 'f' then Some((c - 'a') as bv8 + 10)
    else if 'A' <= c <= 'F' then Some((c - 'A') as bv8 + 10)
    else None
  }

  function HexPair(b: bv8): (s: string)
    ensures |s| == 2 && IsHexDigit(s[0]) && IsHexDigit(s[1])
  {
    HighNibble(b);
    [HexDigit((b >> 4) & 0xF), HexDigit(b & 0xF)]
  }

  lemma HighNibble(b: bv8)
    ensures (b >> 4) & 0xF < 16 && b & 0xF < 16
    ensures ((b >> 4) & 0xF) * 16 + (b & 0xF) == b
  {
  }

  /**
   * The byte std::stoi(s, nullptr, 16) gives for two characters, cut down to eight bits. Two digits are a byte; but a
   * digit followed by anything else is taken for that digit, and a digit may follow a blank or a sign. Only where there
   * is no number at all does it throw (None).
   */
  function PairValue(s: string): Option<bv8> {
    if |s| != 2 then None
    else
      match (HexValue(s[0]), HexValue(s[1]))
      case (Some(h), Some(l)) => Some(h * 16 + l)
      case (Some(h), None) => Some(h)
      case (None, Some(l)) =>
        if IsSpace(s[0]) || s[0] == '+' then Some(l) else if s[0] == '-' then Some(0 - l) else None
      case (None, None) => None
  }

  // Two characters per item, whatever stands for what.
  function Encode<T>(data: seq<T>, pair: T -> string): string {
    if data == [] then "" else Encode(data[..|data| - 1], pair) + pair(data[|data| - 1])
  }

  // The first n items, if all of them can be read.
  function Decode<T>(s: string, n: nat, item: string -> Option<T>): Option<seq<T>>
    requires 2 * n <= |s|
  {
    if n == 0 then Some([])
    else
      var before, last := Decode(s, n - 1, item), item(s[2 * n - 2..2 * n]);
      if before.Some? && last.Some? then Some(before.value + [last.value]) else None
  }

  lemma {:induction false} EncodeIsHex<T(!new)>(data: seq<T>, pair: T -> string)
    requires forall x :: |pair(x)| == 2 && IsHexDigit(pair(x)[0]) && IsHexDigit(pair(x)[1])
    ensures var s := Encode(data, pair); |s| == 2 * |data| && forall i | 0 <= i < |s| :: IsHexDigit(s[i])
  {
    if data != [] {
      EncodeIsHex(data[..|data| - 1], pair);
    }
  }

  lemma {:induction false} DecodeAppend<T>(s: string, more: string, n: nat, item: string -> Option<T>)
    requires 2 * n <= |s|
    ensures Decode(s + more, n, item) == Decode(s, n, item)
  {
    if n > 0 {
      DecodeAppend(s, more, n - 1, item);
      assert (s + more)[2 * n - 2..2 * n] == s[2 * n - 2..2 * n];
    }
  }

  lemma {:induction false} DecodeFails<T>(s: string, k: nat, n: nat, item: string -> Option<T>)
    requires k <= n && 2 * n <= |s| && Decode(s, k, item) == None
    ensures Decode(s, n, item) == None
  {
    if k < n {
      DecodeFails(s, k, n - 1, item);
    }
  }

  lemma {:induction false} DecodeEncode<T(!new)>(data: seq<T>, pair: T -> string, item: string -> Option<T>)
    requires forall x :: |pair(x)| == 2 && item(pair(x)) == Some(x)
    ensures |Encode(data, pair)| == 2 * |data| && Decode(Encode(data, pair), |data|, item) == Some(data)
  {
    if data != [] {
      var n := |data| - 1;
      var before, last := Encode(data[..n], pair), pair(data[n]);
      DecodeEncode(data[..n], pair, item);
      DecodeAppend(before, last, n, item);
      assert (before + last)[2 * n..2 * n + 2] == last;
      assert data == data[..n] + [data[n]];
    }
  }

  // to_hex and bytesToHex
  function ToHex(data: Bytes): (s: string)
    ensures |s| == 2 * |data| && forall i | 0 <= i < |s| :: IsHexDigit(s[i])
  {
    EncodeIsHex(data, HexPair);
    Encode(data, HexPair)
  }

  // from_hex and hexToBytes: nothing for an odd length, an exception (None) where a pair is no number.
  function FromHex(s: string): Option<Bytes> {
    if |s| % 2 != 0 then Some([]) else Decode(s, |s| / 2, PairValue)
  }

  method ToHexLoop(data: Bytes) returns (out: string)
    ensures out == ToHex(data)
  {
    out := "";
    for i := 0 to |data|
      invariant out == Encode(data[..i], HexPair)
    {
      assert data[..i + 1][..i] == data[..i];
      out := out + HexPair(data[i]);
    }
    assert data[..|data|] == data;
  }

  // The loop over pairs of characters; a pair that cannot be read ends it with an exception.
  method DecodeLoop<T>(s: string, item: string -> Option<T>) returns (out: Option<seq<T>>)
    ensures out == Decode(s, |s| / 2, item)
  {
    var items: seq<T> := [];
    var i := 0;
    ghost var n: nat := 0;
    while i + 1 < |s|
      invariant i == 2 * n <= |s| && Decode(s, n, item) == Some(items)
    {
      var value := item(s[i..i + 2]);
      n := n + 1;
      if value.None? {
        DecodeFails(s, n, |s| / 2, item);
        return None;
      }
      items := items + [value.value];
      i := i + 2;
    }
    out := Some(items);
  }

  method FromHexLoop(s: string) returns (out: Option<Bytes>)
    ensures out == FromHex(s)
  {
    if |s| % 2 != 0 {
      return Some([]);
    }
    out := DecodeLoop(s, PairValue);
  }

  lemma HexPairValue(b: bv8)
    ensures PairValue(HexPair(b)) == Some(b)
  {
    var h, l := (b >> 4) & 0xF, b & 0xF;
    HighNibble(b);
    HexDigitValue(h);
    HexDigitValue(l);
  }

  lemma HexDigitValue(d: bv8)
    requires d < 16
    ensures HexValue(HexDigit(d)) == Some(d)
  {
  }

  lemma HexRoundTrip(data: Bytes)
    ensures FromHex(ToHex(data)) == Some(data)
  {
    DecodeHex(data);
    var n := |data|;
    assert (2 * n) % 2 == 0 && (2 * n) / 2 == n;
  }

  lemma DecodeHex(data: Bytes)
    ensures |Encode(data, HexPair)| == 2 * |data|
    ensures Decode(Encode(data, HexPair), |data|, PairValue) == Some(data)
  {
    forall b ensures |HexPair(b)| == 2 && PairValue(HexPair(b)) == Some(b) {
      HexPairValue(b);
    }
    DecodeEncode(data, HexPair, PairValue);
  }

  lemma DigitOfValue(c: char)
    requires IsHexDigit(c)
    ensures HexValue(c).Some? && HexValue(c).value < 16 && HexDigit(HexValue(c).value) == c
  {
  }

  lemma Nibbles(h: bv8, l: bv8)
    requires h < 16 && l < 16
    ensures ((h * 16 + l) >> 4) & 0xF == h && (h * 16 + l) & 0xF == l
  {
  }

  lemma PairOfDigits(s: string)
    requires |s| == 2 && IsHexDigit(s[0]) && IsHexDigit(s[1])
    ensures PairValue(s).Some? && HexPair(PairValue(s).value) == s
  {
    DigitOfValue(s[0]);
    DigitOfValue(s[1]);
    Nibbles(HexValue(s[0]).value, HexValue(s[1]).value);
  }

  lemma {:induction false} EncodeDecode<T(!new)>(s: string, n: nat, pair: T -> string, item: string -> Option<T>)
    requires 2 * n <= |s| && forall i | 0 <= i < n ::
               var two := s[2 * i..2 * i + 2]; item(two).Some? && pair(item(two).value) == two
    ensures Decode(s, n, item).Some? && Encode(Decode(s, n, item).value, pair) == s[..2 * n]
  {
    if n > 0 {
      EncodeDecode(s, n - 1, pair, item);
      var two := s[2 * (n - 1)..2 * (n - 1) + 2];
      var before, data := Decode(s, n - 1, item).value, Decode(s, n, item).value;
      assert item(two).Some? && data == before + [item(two).value];
      assert data[..|data| - 1] == before;
      assert s[..2 * n] == s[..2 * (n - 1)] + two;
    }
  }

  /**
   * from_hex accepts more than to_hex writes, such as a digit and a letter: a text is what to_hex makes of the bytes
   * read from it if and only if it is an even number of lower-case digits.
   */
  lemma HexTextIff(s: string)
    ensures FromHex(s).Some? && ToHex(FromHex(s).value) == s
       <==> |s| % 2 == 0 && forall i | 0 <= i < |s| :: IsHexDigit(s[i])
  {
    if |s| % 2 == 0 && forall i | 0 <= i < |s| :: IsHexDigit(s[i]) {
      var n := |s| / 2;
      forall i | 0 <= i < n
        ensures var two := s[2 * i..2 * i + 2]; PairValue(two).Some? && HexPair(PairValue(two).value) == two
      {
        PairOfDigits(s[2 * i..2 * i + 2]);
      }
      EncodeDecode(s, n, HexPair, PairValue);
      assert s[..2 * n] == s;
    }
  }

  lemma DigitText(v: nat)
    requires v < 16
    ensures "0123456789abcdef"[v] == if v < 10 then '0' + v as char else 'a' + (v - 10) as char
    ensures "0123456789ABCDEF"[v] == if v < 10 then '0' + v as char else 'A' + (v - 10) as char
  {
  }

  lemma ValueIs(c: char, v: nat)
    requires v < 16
    ensures HexValue(c) == Some(v as bv8)
       <==> if v < 10 then c == '0' + v as char else c == 'a' + (v - 10) as char || c == 'A' + (v - 10) as char
  {
    if v < 10 {
      ValueOfDigit(c, v);
    } else {
      ValueOfLetter(c, v);
    }
  }

  lemma ValueOfDigit(c: char, v: nat)
    requires v < 10
    ensures HexValue(c) == Some(v as bv8) <==> c == '0' + v as char
  {
  }

  lemma ValueOfLetter(c: char, v: nat)
    requires 10 <= v < 16
    ensures HexValue(c) == Some(v as bv8) <==> c == 'a' + (v - 10) as char || c == 'A' + (v - 10) as char
  {
  }

  /** The digits, in either case, and no other characters. **/
  lemma DigitsAre(c: char, v: nat)
    requires v < 16
    ensures HexValue(c) == Some(v as bv8) <==> c == "0123456789abcdef"[v] || c == "0123456789ABCDEF"[v]
  {
    DigitText(v);
    ValueIs(c, v);
  }

  lemma OnePair(c: char, d: char)
    ensures FromHex([c, d]) == match PairValue([c, d]) case Some(v) => Some([v]) case None => None
  {
    var s := [c, d];
    assert s[2 * 1 - 2..2 * 1] == s;
    assert Decode(s, 0, PairValue) == Some([]);
    assert forall v: bv8 :: [] + [v] == [v];
    assert |s| / 2 == 1;
  }

  /**
   * Where std::stoi stops: a digit and something that is none are that digit, a blank or a sign may stand before one
   * digit, and a pair without a digit where one is needed is an exception.
   */
  lemma LenientPairs(digit: char, v: bv8, other: char)
    requires HexValue(digit) == Some(v) && HexValue(other) == None
    ensures FromHex([digit, other]) == Some([v])
    ensures FromHex([other, digit]) == if IsSpace(other) || other == '+' then Some([v])
                                       else if other == '-' then Some([0 - v])
                                       else None
    ensures FromHex([other, other]) == None
  {
    OnePair(digit, other);
    OnePair(other, digit);
    OnePair(other, other);
  }

  // The number a hexadecimal text stands for.
  function HexNumber(s: string): nat
    requires forall i | 0 <= i < |s| :: IsHexDigit(s[i])
  {
    if s == "" then 0
    else
      var c := s[|s| - 1];
      assert IsHexDigit(c);
      HexNumber(s[..|s| - 1]) * 16 + (if c <= '9' then (c - '0') as nat else (c - 'a') as nat + 10)
  }

  lemma NibbleValues(b: bv8)
    ensures ((b >> 4) & 0xF) as nat * 16 + (b & 0xF) as nat == b as nat
  {
  }

  lemma DigitNumber(d: bv8)
    requires d < 16
    ensures HexNumber([HexDigit(d)]) == d as nat
  {
    assert [HexDigit(d)][..0] == "";
  }

  lemma HexNumberSnoc(s: string, c: char)
    requires IsHexDigit(c) && forall i | 0 <= i < |s| :: IsHexDigit(s[i])
    ensures HexNumber(s + [c]) == HexNumber(s) * 16 + HexNumber([c])
  {
    assert (s + [c])[..|s|] == s && [c][..0] == "";
  }

  lemma HexNumberPair(s: string, b: bv8)
    requires forall i | 0 <= i < |s| :: IsHexDigit(s[i])
    ensures HexNumber(s + HexPair(b)) == HexNumber(s) * 256 + b as nat
  {
    HighNibble(b);
    NibbleValues(b);
    var h, l := HexDigit((b >> 4) & 0xF), HexDigit(b & 0xF);
    DigitNumber((b >> 4) & 0xF);
    DigitNumber(b & 0xF);
    HexNumberSnoc(s, h);
    HexNumberSnoc(s + [h], l);
    assert s + HexPair(b) == s + [h] + [l];
  }

  /** The text of some bytes is their big-endian number in base 16: two digits each, high digit first. **/
  lemma {:induction false} HexIsBaseSixteen(data: Bytes)
    ensures HexNumber(ToHex(data)) == Number(data)
  {
    if data != [] {
      var n := |data| - 1;
      HexIsBaseSixteen(data[..n]);
      HexNumberPair(ToHex(data[..n]), data[n]);
    }
  }

  /** Ids from bytes and text **/

  // idFromBytes: truncated to 20 bytes, padded with zeros.
  function IdFromBytes(bytes: Bytes): Id {
    if |bytes| >= 20 then bytes[..20] else bytes + seq(20 - |bytes|, _ => 0)
  }

  // sha256_hex of a SHA-256 digest function.
  function Sha256Hex(digest: string -> Bytes, data: string): string {
    ToHex(digest(data))
  }

  // SHA-256, as far as lengths go.
  ghost predicate Is256Bit(digest: string -> Bytes) {
    forall s :: |digest(s)| == 32
  }

  // makeKeyId
  function KeyId(digest: string -> Bytes, key: string): Id {
    var bytes := FromHex(Sha256Hex(digest, key));
    IdFromBytes(if bytes.Some? then bytes.value else [])
  }

  // toHex and fromHex
  lemma IdTextRoundTrip(id: Id)
    ensures FromHex(ToHex(id)).Some? && IdFromBytes(FromHex(ToHex(id)).value) == id
  {
    HexRoundTrip(id);
  }

  // A key's id is the front of its digest.
  lemma KeyIdIsDigestPrefix(digest: string -> Bytes, key: string)
    requires |digest(key)| == 32
    ensures KeyId(digest, key) == digest(key)[..20]
  {
    HexRoundTrip(digest(key));
  }
}
