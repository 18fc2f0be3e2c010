# RSA public operation (Botan `rsa.h`), modelled in Dafny

This project models Botan's RSA public-key primitive, `RSA_Public_Operation`, from
`src/pubkey/rsa/rsa.h`. The object captures the modulus `n` and a fixed-exponent
power-mod context for `(e, n)` when it is constructed. It offers:

- `public_op(m)`: it throws `Invalid_Argument` when `m >= n`. Otherwise it returns
  `m^e mod n`. This is RSAEP / RSAVP1, sections 5.1.1 and 5.2.2 of RFC 8017.
- `encrypt(msg)`: it reads `msg` as a big-endian integer (OS2IP, section 4.2 of RFC 8017)
  and applies `public_op`. It writes the result in exactly `n.bytes()` octets with
  `BigInt::encode_1363`, zero-padded on the left (I2OSP, section 4.1 of RFC 8017).
- `verify_mr(msg)`: the same, but it returns the minimal encoding (`BigInt::encode`).
- `max_input_bits()`: `n.bits() - 1`, computed in `u32bit`. `RSA_Private_Operation`
  computes the same value from its own `n`.
- `with_recovery()`: always true.

The model has five modules:

- `Results`: the thrown exceptions as an `Error` value inside a `Result`.
- `Arith`: the reference power `Pow`, the bit length `Bits` (`BigInt::bits`), `u32bit`
  subtraction, and modular-product facts.
- `PowerMod`: `Fixed_Exponent_Power_Mod`, modelled as square-and-multiply and proved
  equal to `Pow(b, e) % n`.
- `BigIntCodec`: the byte codecs. `Decode` is the `BigInt(buf, len)` constructor.
  `LowBytes` is the fixed-width reference encoding. `Bytes` is `BigInt::bytes`.
  `Encode` is `BigInt::encode`, and `Encode1363` is `BigInt::encode_1363`, including its
  `Encoding_Error` path.
- `Rsa`: the key, the two operation objects, and the properties that relate them.

The operation objects are immutable datatype values and every operation is a
function. So the source's `const` and determinism promises hold by construction:
the same message on the same object always gives the same result, and no field
changes.

Two consequences of the code are worth stating:

- Only `encrypt` pads its result, to `n.bytes()` octets, as RFC 8017's I2OSP does.
  `verify_mr` returns the minimal encoding. `EncryptPadsVerifyMr` states how the two
  results relate.
- The input buffer may have any length. Only the value it denotes is checked, so
  leading zero bytes change nothing (`LeadingZerosIgnored`).

## Model

| member | source | states |
|---|---|---|
| `Rsa.NewPublicOperation` | src/pubkey/rsa/rsa.h:127-129 | the object holds the key's `n` and a context built from the key's `e` and `n`; for every `m < n` its public operation returns `m^e mod n` with that key's `e` and `n` |
| `Rsa.PublicOperation.PublicOp` | src/pubkey/rsa/rsa.h:148-153 | fails with `Invalid_Argument("RSA public op - input is too large")` exactly when `m >= n`; otherwise returns `m^e mod n`, which is below `n` |
| `Rsa.PublicOperation.Encrypt` | src/pubkey/rsa/rsa.h:134-139 | fails exactly when the message's big-endian value is `>= n`, and only with `Invalid_Argument` (the `encode_1363` error cannot occur); on success the output is exactly `Bytes(n)` octets, decodes to `public_op(OS2IP(msg))`, and equals the fixed-width I2OSP encoding of that value |
| `Rsa.PublicOperation.VerifyMr` | src/pubkey/rsa/rsa.h:141-145 | fails exactly when the message's value is `>= n`, only with `Invalid_Argument`; on success the output decodes to `public_op(OS2IP(msg))`, has at most `Bytes(n)` octets and no leading zero byte |
| `Rsa.PublicOperation.MaxInputBits` | src/pubkey/rsa/rsa.h:131 | `bits(n) - 1` in `u32bit`: below `2^32`, equal to `bits(n) - 1` for `n > 0`, and wrapping round to `2^32 - 1` for `n == 0` |
| `Rsa.PublicOperation.WithRecovery` | src/pubkey/rsa/rsa.h:132 | always true |
| `Rsa.PrivateOperation.MaxInputBits` | src/pubkey/rsa/rsa.h:105 | the same `u32bit` value `bits(n) - 1` for the private operation's modulus |
| `Rsa.MaxInputBitsAgree` | src/pubkey/rsa/rsa.h:105 | the private and the public operation over one modulus report the same maximum input size |
| `Rsa.MaxInputBitsAdmits` | src/pubkey/rsa/rsa.h:131-151 | for every `n > 0` (whether or not the `u32bit` count wraps), every `m` with `bits(m) <= max_input_bits()` is below `n`, so it passes the bound check of `public_op` |
| `Rsa.MessageLengthAdmits` | src/pubkey/rsa/rsa.h:131-145 | for `n > 0`, a message of at most `max_input_bits()` bits (8 per byte) is accepted by both `encrypt` and `verify_mr` |
| `Rsa.LeadingZerosIgnored` | src/pubkey/rsa/rsa.h:137-144 | prefixing the message with zero bytes changes neither `encrypt`'s nor `verify_mr`'s result |
| `Rsa.EncryptPadsVerifyMr` | src/pubkey/rsa/rsa.h:134-145 | `encrypt` succeeds exactly when `verify_mr` does, and its output is `verify_mr`'s output left-padded with zero bytes to `Bytes(n)` octets |
| `Rsa.VerifyMrIsMinimal` | src/pubkey/rsa/rsa.h:144 | `verify_mr`'s output is the only encoding of `public_op(m)` without a leading zero byte |
| `Rsa.ToyKeyVector` | src/pubkey/rsa/rsa.h:148-153 | with `n = 3233`, `e = 17`: `public_op(65) == 2790`; `encrypt([65])` and `verify_mr([0, 65])` both give `[0x0A, 0xE6]`; `3233` is refused and `3232` accepted |
| `PowerMod.FixedExponentPowerMod.Apply` | src/pubkey/rsa/rsa.h:152 | applying the `(e, n)` context to a base gives `base^e mod n` |
| `PowerMod.ModPow` | src/pubkey/rsa/rsa.h:152 | the result of the context's computation is below `n`; `ModPowCorrect` fixes its value as `base^e mod n` |
| `PowerMod.ModPowCorrect` | src/pubkey/rsa/rsa.h:156 | square-and-multiply with reduction after every product equals the mathematical power reduced modulo `n` |
| `BigIntCodec.Decode` | src/pubkey/rsa/rsa.h:137 | the big-endian value of a byte string is below `256^len` |
| `BigIntCodec.Encode1363` | src/pubkey/rsa/rsa.h:138 | fails with `Encoding_Error` exactly when `x >= 256^len`; otherwise returns exactly `len` octets that decode to `x` and equal the fixed-width I2OSP encoding |
| `BigIntCodec.Encode` | src/pubkey/rsa/rsa.h:144 | returns `Bytes(x)` octets that decode to `x` and do not start with a zero byte |
| `BigIntCodec.EncodeUnique` | src/pubkey/rsa/rsa.h:144 | any byte string without a leading zero byte is the minimal encoding of its own value |
| `BigIntCodec.Bytes` | src/pubkey/rsa/rsa.h:138 | `n.bytes()`: `x < 256^r`, and `256^(r - 1) <= x` for `x > 0`, so it is the fewest whole bytes that hold `x`; `BytesBound` states the same as an if-and-only-if |
| `BigIntCodec.BytesBound` | src/pubkey/rsa/rsa.h:138 | `x` fits in `len` bytes (`bytes(x) <= len`) exactly when `x < 256^len` |
| `BigIntCodec.DecodeLowBytes` | src/pubkey/rsa/rsa.h:137-138 | round trip: encoding a value at a width it fits in, then decoding, gives the value back |
| `BigIntCodec.LowBytesDecode` | src/pubkey/rsa/rsa.h:137-138 | round trip: decoding a byte string, then re-encoding at its own width, gives the string back |
| `BigIntCodec.DecodeInjective` | src/pubkey/rsa/rsa.h:137 | two byte strings of one length that denote the same integer are equal |
| `BigIntCodec.DecodeLeadingZeros` | src/pubkey/rsa/rsa.h:137 | leading zero bytes do not change the value a byte string denotes |
| `Arith.Bits` | src/pubkey/rsa/rsa.h:131 | `n.bits()`: `x < 2^r`, and `2^(r - 1) <= x` for `x > 0`, so zero has no bits and any other value has its top bit at `r - 1`; `BitsBound` states the same as an if-and-only-if |
| `Arith.BitsBound` | src/pubkey/rsa/rsa.h:131 | `bits(x) <= k` exactly when `x < 2^k` |
| `Arith.U32Sub` | src/pubkey/rsa/rsa.h:131 | `u32bit` subtraction: the result is below `2^32`, equals `a - b` when that is in range, and wraps by `2^32` when `a < b` |

## Left out

- `RSA_Private_Operation`'s constructor, `private_op`, `sign` and `decrypt` (CRT with `q`, `c`, the two power-mod contexts and `mod_p`) are not part of this model: their bodies are not in `rsa.h`. Only the modulus is kept, for `max_input_bits`.
- `RSA_PublicKey` and `RSA_PrivateKey` (their constructors, `encrypt`, `decrypt`, `public_op`, `private_op`, `check_key`, key generation) are not part of this model, for the same reason. A public key appears only as the pair `(n, e)` that `get_n()` and `get_e()` return.
- Decoding keys from an `AlgorithmIdentifier` and key bits is ASN.1/X.509 parsing in the inherited `IF_Scheme_*` classes, which are not part of this model.
- The `RandomNumberGenerator` argument of `encrypt` is unused by the source and is dropped.
- `Fixed_Exponent_Power_Mod` internals (windowing tables, Montgomery reduction) are replaced by square-and-multiply, proved equal to `m^e mod n`. The behaviour of such a context with a zero modulus is not modelled: `public_op` never calls it then, because no input is below zero.
- The power-mod context's own argument checks are not modelled: Botan's `Power_Mod` refuses a zero base and a zero modulus, but its source is not part of this model. With an empty or all-zero message the model returns `0^e mod n` rather than an exception.
- `BigInt` storage and `SecureVector` memory wiping are not modelled. Integers are `nat` and byte buffers are sequences of bytes.
- The inheritance plumbing (`PK_Ops::*`, the virtual `IF_Scheme_*` bases), `algo_name`, and the lifetime of the `const BigInt& n` reference are not modelled. The operation holds `n` by value.
- Timing side-channel resistance cannot be expressed in this model.
- `Bits` is an unbounded natural, whereas `BigInt::bits()` returns a `u32bit`. `MaxInputBits` reduces `bits(n) - 1` modulo `2^32`, which gives the same value as wrapping the bit count first. The `msg_len` argument's `u32bit` width is not modelled.
- Rsa.PublicOperation.MaxInputBits: the contract states the value only for `n == 0` and for moduli of at most `2^32` bits; the body, `U32Sub(Bits(n), 1)`, covers the rest.
- Rsa.PrivateOperation.MaxInputBits: same as for the public operation.
