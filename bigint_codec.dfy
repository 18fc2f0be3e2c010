/**
 * The BigInt byte codecs the RSA operation calls: decoding a big-endian byte
 * string (the BigInt(buf, len) constructor, OS2IP of RFC 8017 section 4.2), the
 * minimal encoding BigInt::encode, and the fixed-width encoding
 * BigInt::encode_1363 (I2OSP of RFC 8017 section 4.1).
 */
module BigIntCodec {
  import opened Arith
  import opened Results

  type Byte = b: int | 0 <= b < 256

  /** The unsigned integer a big-endian byte string denotes. */
  function Decode(s: seq<Byte>): (r: nat)
    ensures r < Pow(256, |s|)
  {
    if s == [] then 0
    else
      var prefix := s[..|s| - 1];
      256 * Decode(prefix) + s[|s| - 1]
  }

  /** The len low-order bytes of x, most significant first: x mod 256^len, written out. */
  function LowBytes(x: nat, len: nat): (r: seq<Byte>)
    ensures |r| == len
  {
    if len == 0 then [] else LowBytes(x / 256, len - 1) + [x % 256]
  }

  function Zeros(k: nat): (r: seq<Byte>)
    ensures |r| == k && forall i :: 0 <= i < k ==> r[i] == 0
  {
    seq(k, _ => 0)
  }

  /** Number of bytes of x (BigInt::bytes): its bit count rounded up to whole bytes. */
  function Bytes(x: nat): (r: nat)
    ensures x < Pow(256, r)
    ensures x > 0 ==> r > 0 && Pow(256, r - 1) <= x
  {
    var r := (Bits(x) + 7) / 8;
    WholeBytes(x, r);
    r
  }

  /** Rounding a bit count up to whole bytes keeps 256^(r - 1) <= x < 256^r. */
  lemma WholeBytes(x: nat, r: nat)
    requires r == (Bits(x) + 7) / 8
    ensures x < Pow(256, r)
    ensures x > 0 ==> r > 0 && Pow(256, r - 1) <= x
  {
    var b := Bits(x);
    assert b <= 8 * r;
    Pow256(r);
    PowMonotone(2, b, 8 * r);
    if x > 0 {
      assert 0 < r && 8 * (r - 1) <= b - 1;
      Pow256(r - 1);
      PowMonotone(2, 8 * (r - 1), b - 1);
    }
  }

  /** x fits in len bytes exactly when it is below 256^len. */
  lemma BytesBound(x: nat, len: nat)
    ensures Bytes(x) <= len <==> x < Pow(256, len)
  {
    Pow256(len);
    BitsBound(x, 8 * len);
  }

  /** A larger value never needs fewer bytes. */
  lemma BytesMonotone(x: nat, y: nat)
    requires x <= y
    ensures Bytes(x) <= Bytes(y)
  {
    BitsMonotone(x, y);
  }

  /** Encoding a value that fits and decoding it gives the value back. */
  lemma {:induction false} DecodeLowBytes(x: nat, len: nat)
    requires x < Pow(256, len)
    ensures Decode(LowBytes(x, len)) == x
  {
    if len > 0 {
      DecodeLowBytes(x / 256, len - 1);
      var s := LowBytes(x, len);
      assert s[..len - 1] == LowBytes(x / 256, len - 1);
    }
  }

  /** Decoding a byte string and re-encoding it at the same width gives the string back. */
  lemma {:induction false} LowBytesDecode(s: seq<Byte>)
    ensures LowBytes(Decode(s), |s|) == s
  {
    if s != [] {
      var prefix := s[..|s| - 1];
      LowBytesDecode(prefix);
      assert Decode(s) / 256 == Decode(prefix);
      assert s == prefix + [s[|s| - 1]];
    }
  }

  /** Two byte strings of one length that denote the same integer are equal. */
  lemma DecodeInjective(s: seq<Byte>, t: seq<Byte>)
    requires |s| == |t| && Decode(s) == Decode(t)
    ensures s == t
  {
    LowBytesDecode(s);
    LowBytesDecode(t);
  }

  lemma {:induction false} DecodeZeros(k: nat)
    ensures Decode(Zeros(k)) == 0
  {
    if k > 0 {
      DecodeZeros(k - 1);
      assert Zeros(k)[..k - 1] == Zeros(k - 1);
    }
  }

  /** Leading zero bytes do not change the integer a byte string denotes. */
  lemma {:induction false} DecodeLeadingZeros(k: nat, s: seq<Byte>)
    ensures Decode(Zeros(k) + s) == Decode(s)
    decreases |s|
  {
    if s == [] {
      assert Zeros(k) + s == Zeros(k);
      DecodeZeros(k);
    } else {
      var prefix := s[..|s| - 1];
      DecodeLeadingZeros(k, prefix);
      assert (Zeros(k) + s)[..k + |s| - 1] == Zeros(k) + prefix;
    }
  }

  /** A byte string whose first byte is zero denotes a value below 256^(|s| - 1). */
  lemma LeadingZeroBound(s: seq<Byte>)
    requires |s| > 0 && s[0] == 0
    ensures Decode(s) < Pow(256, |s| - 1)
  {
    assert s == Zeros(1) + s[1..];
    DecodeLeadingZeros(1, s[1..]);
  }

  /**
   * BigInt::encode: the minimal big-endian encoding, Bytes(x) octets long, so
   * zero encodes as the empty string and any other value has a non-zero first byte.
   */
  function Encode(x: nat): (r: seq<Byte>)
    ensures |r| == Bytes(x) && Decode(r) == x
    ensures |r| > 0 ==> r[0] != 0
  {
    BytesBound(x, Bytes(x));
    DecodeLowBytes(x, Bytes(x));
    LowBytesMinimal(x);
    LowBytes(x, Bytes(x))
  }

  /** Written in Bytes(x) octets, a value never starts with a zero byte. */
  lemma LowBytesMinimal(x: nat)
    ensures var r := LowBytes(x, Bytes(x)); |r| > 0 ==> r[0] != 0
  {
    var r := LowBytes(x, Bytes(x));
    if |r| > 0 && r[0] == 0 {
      DecodeLowBytes(x, Bytes(x));
      LeadingZeroBound(r);
    }
  }

  /** The minimal encoding is the only one without a leading zero byte. */
  lemma EncodeUnique(s: seq<Byte>)
    requires |s| == 0 || s[0] != 0
    ensures s == Encode(Decode(s))
  {
    var x := Decode(s);
    MinimalLength(s);
    var e := Encode(x);
    DecodeInjective(s, e);
  }

  /** A byte string without a leading zero byte is exactly as long as its value needs. */
  lemma MinimalLength(s: seq<Byte>)
    requires |s| == 0 || s[0] != 0
    ensures Bytes(Decode(s)) == |s|
  {
    BytesBound(Decode(s), |s|);
    if |s| > 0 {
      FirstByteWeight(s);
      BytesBound(Decode(s), |s| - 1);
    }
  }

  /** A byte string whose first byte is non-zero denotes at least 256^(|s| - 1). */
  lemma {:induction false} FirstByteWeight(s: seq<Byte>)
    requires |s| > 0 && s[0] != 0
    ensures Decode(s) >= Pow(256, |s| - 1)
    decreases |s|
  {
    if |s| > 1 {
      var prefix := s[..|s| - 1];
      assert prefix[0] == s[0];
      FirstByteWeight(prefix);
      assert Pow(256, |s| - 1) == 256 * Pow(256, |s| - 2);
    }
  }

  /**
   * BigInt::encode_1363: x written in exactly len bytes, left-padded with zero
   * bytes; raises Encoding_Error when x needs more than len bytes.
   */
  function Encode1363(x: nat, len: nat): (r: Result<seq<Byte>>)
    ensures r.Failure? <==> x >= Pow(256, len)
    ensures r.Failure? ==> r.error == EncodingError
    ensures r.Success? ==> |r.value| == len && Decode(r.value) == x
    ensures r.Success? ==> r.value == LowBytes(x, len)
  {
    BytesBound(x, len);
    if Bytes(x) > len then Failure(EncodingError)
    else
      var out := Zeros(len - Bytes(x)) + Encode(x);
      DecodeLeadingZeros(len - Bytes(x), Encode(x));
      LowBytesDecode(out);
      Success(out)
  }
}
