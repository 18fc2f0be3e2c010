/**
 * RSA_Public_Operation: the RSA public-key primitive (RSAEP / RSAVP1, sections
 * 5.1.1 and 5.2.2 of RFC 8017) and the byte-string wrappers around it, and the
 * input bound RSA_Private_Operation shares with it.
 *
 * The operation objects are immutable values and every operation is a function,
 * so calling one twice on the same object and message gives the same answer and
 * leaves the object as it was.
 */
module Rsa {
  import opened Arith
  import opened Results
  import opened PowerMod
  import opened BigIntCodec

  /** The message public_op throws with when its input is not below n. */
  const InputTooLarge := "RSA public op - input is too large"

  /** What an RSA public key hands to the operation: get_n() and get_e(). */
  datatype PublicKey = PublicKey(n: nat, e: nat)

  /** The modulus and the power-mod context for (e, n), both taken from one key. */
  datatype PublicOperation = PublicOperation(n: nat, powermodEN: FixedExponentPowerMod) {

    /** The context reduces modulo the same n the bound check compares against. */
    predicate Valid() {
      powermodEN.modulus == n
    }

    /** The public exponent the context was built with. */
    function E(): (e: nat) {
      powermodEN.exponent
    }

    /** bits(n) - 1, computed in u32bit, so a zero modulus wraps round to 2^32 - 1. */
    function MaxInputBits(): (r: nat)
      ensures r < 0x1_0000_0000
      ensures 0 < n && Bits(n) <= 0x1_0000_0000 ==> r == Bits(n) - 1
      ensures n == 0 ==> r == 0xFFFF_FFFF
    {
      U32Sub(Bits(n), 1)
    }

    /** A public operation always supports message recovery. */
    function WithRecovery(): (r: bool)
      ensures r
    {
      true
    }

    /** m^e mod n for m below n; any larger input is refused before exponentiating. */
    function PublicOp(m: nat): (r: Result<nat>)
      requires Valid()
      ensures r.Failure? <==> m >= n
      ensures r.Failure? ==> r.error == InvalidArgument(InputTooLarge)
      ensures r.Success? ==> r.value == Pow(m, E()) % n && r.value < n
    {
      if m >= n then Failure(InvalidArgument(InputTooLarge))
      else Success(powermodEN.Apply(m))
    }

    /**
     * encrypt: the message read as a big-endian integer, put through PublicOp,
     * and written back in exactly Bytes(n) octets. The random generator the
     * source passes in is unused and left out.
     */
    function Encrypt(msg: seq<Byte>): (r: Result<seq<Byte>>)
      requires Valid()
      ensures r.Failure? <==> Decode(msg) >= n
      ensures r.Failure? ==> r.error == InvalidArgument(InputTooLarge)
      ensures r.Success? ==> |r.value| == Bytes(n)
      ensures r.Success? ==> Decode(r.value) == Pow(Decode(msg), E()) % n
      ensures r.Success? ==> r.value == LowBytes(Pow(Decode(msg), E()) % n, Bytes(n))
    {
      var c :- PublicOp(Decode(msg));
      BytesBound(n, Bytes(n));
      Encode1363(c, Bytes(n))
    }

    /** verify_mr: as Encrypt, but the result is the minimal encoding, with no padding. */
    function VerifyMr(msg: seq<Byte>): (r: Result<seq<Byte>>)
      requires Valid()
      ensures r.Failure? <==> Decode(msg) >= n
      ensures r.Failure? ==> r.error == InvalidArgument(InputTooLarge)
      ensures r.Success? ==> Decode(r.value) == Pow(Decode(msg), E()) % n
      ensures r.Success? ==> |r.value| <= Bytes(n) && (|r.value| == 0 || r.value[0] != 0)
    {
      var c :- PublicOp(Decode(msg));
      BytesMonotone(c, n);
      Success(Encode(c))
    }
  }

  /** RSA_Public_Operation's constructor: n and a context for (e, n) from one key. */
  function NewPublicOperation(key: PublicKey): (op: PublicOperation)
    ensures op.Valid() && op.n == key.n && op.E() == key.e
    ensures forall m: nat :: m < key.n ==> op.PublicOp(m) == Success(Pow(m, key.e) % key.n)
  {
    PublicOperation(key.n, FixedExponentPowerMod(key.e, key.n))
  }

  /**
   * RSA_Private_Operation, as far as its input bound goes: it keeps the modulus
   * of the private key (its CRT state is not part of this model).
   */
  datatype PrivateOperation = PrivateOperation(n: nat) {

    /** bits(n) - 1, computed in u32bit, exactly as for the public operation. */
    function MaxInputBits(): (r: nat)
      ensures r < 0x1_0000_0000
      ensures 0 < n && Bits(n) <= 0x1_0000_0000 ==> r == Bits(n) - 1
      ensures n == 0 ==> r == 0xFFFF_FFFF
    {
      U32Sub(Bits(n), 1)
    }
  }

  /** The private and the public operation over one modulus admit the same inputs. */
  lemma MaxInputBitsAgree(pub: PublicOperation, priv: PrivateOperation)
    requires pub.n == priv.n
    ensures pub.MaxInputBits() == priv.MaxInputBits()
  {
  }

  /**
   * An input of at most MaxInputBits() bits is below the modulus, so the bound
   * check lets it through: the advertised bound is sound for a non-zero modulus.
   */
  lemma MaxInputBitsAdmits(op: PublicOperation, m: nat)
    requires op.Valid() && 0 < op.n
    requires Bits(m) <= op.MaxInputBits()
    ensures m < op.n && op.PublicOp(m).Success?
  {
    TopBit(op.n);
    BitsBound(m, Bits(op.n) - 1);
  }

  /** The same bound read on byte strings: a message of at most MaxInputBits() bits encrypts. */
  lemma MessageLengthAdmits(op: PublicOperation, msg: seq<Byte>)
    requires op.Valid() && 0 < op.n
    requires 8 * |msg| <= op.MaxInputBits()
    ensures op.Encrypt(msg).Success? && op.VerifyMr(msg).Success?
  {
    Pow256(|msg|);
    BitsBound(Decode(msg), 8 * |msg|);
    MaxInputBitsAdmits(op, Decode(msg));
  }

  /** Leading zero bytes of the message change neither result. */
  lemma LeadingZerosIgnored(op: PublicOperation, k: nat, msg: seq<Byte>)
    requires op.Valid()
    ensures op.Encrypt(Zeros(k) + msg) == op.Encrypt(msg)
    ensures op.VerifyMr(Zeros(k) + msg) == op.VerifyMr(msg)
  {
    DecodeLeadingZeros(k, msg);
  }

  /** Encrypt's output is VerifyMr's, left-padded with zero bytes to Bytes(n) octets. */
  lemma EncryptPadsVerifyMr(op: PublicOperation, msg: seq<Byte>)
    requires op.Valid()
    ensures op.Encrypt(msg).Success? <==> op.VerifyMr(msg).Success?
    ensures op.Encrypt(msg).Success? ==>
      var v := op.VerifyMr(msg).value;
      |v| <= Bytes(op.n) && op.Encrypt(msg).value == Zeros(Bytes(op.n) - |v|) + v
  {
    if op.Encrypt(msg).Success? {
      var v := op.VerifyMr(msg).value;
      var padded := Zeros(Bytes(op.n) - |v|) + v;
      DecodeLeadingZeros(Bytes(op.n) - |v|, v);
      DecodeInjective(op.Encrypt(msg).value, padded);
    }
  }

  /** VerifyMr returns the one encoding of its result that has no leading zero byte. */
  lemma VerifyMrIsMinimal(op: PublicOperation, msg: seq<Byte>, s: seq<Byte>)
    requires op.Valid() && op.VerifyMr(msg).Success?
    requires Decode(s) == op.PublicOp(Decode(msg)).value && (|s| == 0 || s[0] != 0)
    ensures op.VerifyMr(msg).value == s
  {
    EncodeUnique(s);
  }

  lemma ToyPower()
    ensures Pow(65, 17) % 3233 == 2790
  {
    // Square-and-multiply on 17 = 0b10001: 65, 65^2, 65^4, 65^8, 65^16, 65^17 (mod 3233).
    assert ModPow(65, 1, 3233) == 65;
    assert ModPow(65, 2, 3233) == 992;
    assert ModPow(65, 4, 3233) == 1232;
    assert ModPow(65, 8, 3233) == 1547;
    assert ModPow(65, 16, 3233) == 789;
    assert ModPow(65, 17, 3233) == 2790;
    ModPowCorrect(65, 17, 3233);
  }

  lemma ToyModulusBytes()
    ensures Bytes(3233) == 2
  {
    // 3233 halves to 1616, 808, 404, 202, 101, 50, 25, 12, 6, 3, 1 and then 0.
    assert Bits(1) == 1;
    assert Bits(3) == 2;
    assert Bits(6) == 3;
    assert Bits(12) == 4;
    assert Bits(25) == 5;
    assert Bits(50) == 6;
    assert Bits(101) == 7;
    assert Bits(202) == 8;
    assert Bits(404) == 9;
    assert Bits(808) == 10;
    assert Bits(1616) == 11;
    assert Bits(3233) == 12;
  }

  /** The toy key n = 61 * 53 = 3233, e = 17 sends 65 to 2790 (0x0AE6). */
  lemma ToyKeyVector()
    ensures NewPublicOperation(PublicKey(3233, 17)).PublicOp(65) == Success(2790)
    ensures NewPublicOperation(PublicKey(3233, 17)).Encrypt([65]) == Success([0x0A, 0xE6])
    ensures NewPublicOperation(PublicKey(3233, 17)).VerifyMr([0, 65]) == Success([0x0A, 0xE6])
    ensures NewPublicOperation(PublicKey(3233, 17)).PublicOp(3233).Failure?
    ensures NewPublicOperation(PublicKey(3233, 17)).PublicOp(3232).Success?
  {
    var op := NewPublicOperation(PublicKey(3233, 17));
    ToyPower();
    ToyModulusBytes();
    assert Decode([65]) == 65 && Decode([0, 65]) == 65;
    assert Decode([0x0A, 0xE6]) == 2790;
    assert op.Encrypt([65]) == Success([0x0A, 0xE6]) by {
      DecodeInjective(op.Encrypt([65]).value, [0x0A, 0xE6]);
    }
    assert op.VerifyMr([0, 65]) == Success([0x0A, 0xE6]) by {
      EncodeUnique([0x0A, 0xE6]);
    }
  }
}
