/** unbreakable_encryption.py: a one-time pad. The message's bytes, read as
    one big-endian integer, are xored with a random key of the same length;
    xoring the two halves again and writing the result back as bytes
    recovers the message. */
module Encryption {
  import opened Bits

  type Byte = b: nat | b < 256

  /** `int.from_bytes(b, "big")` */
  function FromBytes(b: seq<Byte>): nat {
    if |b| == 0 then 0 else 256 * FromBytes(b[..|b| - 1]) + b[|b| - 1]
  }

  /** `n.to_bytes(length, "big")`: the low `length` bytes of `n`, most
      significant first. Python raises `OverflowError` when `n` does not fit;
      `decrypt` always asks for enough bytes, so that case does not arise. */
  function ToBytes(n: nat, length: nat): (r: seq<Byte>)
    ensures |r| == length
  {
    if length == 0 then [] else ToBytes(n / 256, length - 1) + [n % 256]
  }

  /** `(n.bit_length() + 7) // 8`: the number of bytes `decrypt` asks for. */
  function ByteLength(n: nat): nat {
    (BitLength(n) + 7) / 8
  }

  /** A big-endian integer of `k` bytes is below `256^k`. */
  lemma {:induction false} FromBytesBound(b: seq<Byte>)
    ensures FromBytes(b) < Pow(256, |b|)
  {
    if |b| > 0 {
      FromBytesBound(b[..|b| - 1]);
    }
  }

  /** With a non-zero first byte it is at least `256^(k-1)`. */
  lemma {:induction false} FromBytesLeading(b: seq<Byte>)
    requires |b| > 0 && b[0] != 0
    ensures Pow(256, |b| - 1) <= FromBytes(b)
  {
    if |b| > 1 {
      var t := b[..|b| - 1];
      assert t[0] == b[0];
      FromBytesLeading(t);
    }
  }

  /** Writing `k` bytes of a number below `256^k` and reading them back
      gives the number. */
  lemma {:induction false} ToBytesRoundTrip(n: nat, length: nat)
    requires n < Pow(256, length)
    ensures FromBytes(ToBytes(n, length)) == n
  {
    if length > 0 {
      ToBytesRoundTrip(n / 256, length - 1);
      var r := ToBytes(n, length);
      assert r[..|r| - 1] == ToBytes(n / 256, length - 1);
    }
  }

  /** Reading bytes as a number and writing the same number of bytes back
      gives the bytes. */
  lemma {:induction false} FromBytesRoundTrip(b: seq<Byte>)
    ensures ToBytes(FromBytes(b), |b|) == b
  {
    if |b| > 0 {
      var t := b[..|b| - 1];
      FromBytesRoundTrip(t);
      var n := FromBytes(b);
      assert n / 256 == FromBytes(t) && n % 256 == b[|b| - 1];
      assert b == t + [b[|b| - 1]];
    }
  }

  /** `256^k` as a power of two. */
  lemma {:induction false} BytePow(k: nat)
    ensures Pow(256, k) == Pow(2, 8 * k)
  {
    assert Pow(2, 8) == 256;
    PowOfPow(2, 8, k);
  }

  /** `(n.bit_length() + 7) // 8` bytes hold `n`, so `to_bytes` in `decrypt`
      never overflows. */
  lemma {:induction false} ByteLengthFits(n: nat)
    ensures n < Pow(256, ByteLength(n))
  {
    var k := ByteLength(n);
    BitLengthBounds(n);
    PowMonotone(2, BitLength(n), 8 * k);
    BytePow(k);
  }

  /** Bytes without a leading zero byte are written back in exactly as many
      bytes. */
  lemma {:induction false} ByteLengthOfBytes(b: seq<Byte>)
    requires |b| == 0 || b[0] != 0
    ensures ByteLength(FromBytes(b)) == |b|
  {
    var n := FromBytes(b);
    if |b| == 0 {
      assert n == 0;
    } else {
      var k := |b|;
      FromBytesBound(b);
      FromBytesLeading(b);
      BytePow(k);
      BytePow(k - 1);
      BitLengthBounds(n);
      var bl := BitLength(n);
      if bl <= 8 * (k - 1) {
        PowMonotone(2, bl, 8 * (k - 1));
        assert false;
      }
      if bl > 8 * k {
        PowMonotone(2, 8 * k, bl - 1);
        assert false;
      }
    }
  }

  /** `random_key`: the key read from `length` random bytes, which the
      model takes as a parameter. It is below `256^length`. */
  function RandomKey(tokenBytes: seq<Byte>): (r: nat)
    ensures r < Pow(256, |tokenBytes|)
  {
    FromBytesBound(tokenBytes);
    FromBytes(tokenBytes)
  }

  /** `encrypt` on the message's encoded bytes, with the random bytes of
      `random_key(len(original_bytes))` as a parameter. It returns the pad
      and the ciphertext; xoring the two gives the message's integer back,
      and both fit in as many bytes as the message. */
  function Encrypt(original: seq<Byte>, tokenBytes: seq<Byte>): (r: (nat, nat))
    requires |tokenBytes| == |original|
    ensures r.0 == RandomKey(tokenBytes)
    ensures Xor(r.0, r.1) == FromBytes(original)
    ensures r.0 < Pow(256, |original|) && r.1 < Pow(256, |original|)
  {
    var dummy := RandomKey(tokenBytes);
    var originalKey := FromBytes(original);
    var encrypted := Xor(originalKey, dummy);
    XorCommutes(originalKey, dummy);
    XorCancel(originalKey, dummy);
    XorCommutes(encrypted, dummy);
    FromBytesBound(original);
    BytePow(|original|);
    XorBound(originalKey, dummy, 8 * |original|);
    (dummy, encrypted)
  }

  /** `decrypt`, up to the final UTF-8 decoding: the xor of the two keys
      written in just enough bytes, with no leading zero byte. */
  function Decrypt(key1: nat, key2: nat): (r: seq<Byte>)
    ensures FromBytes(r) == Xor(key1, key2)
    ensures |r| == 0 || r[0] != 0
  {
    var decrypted := Xor(key1, key2);
    var length := ByteLength(decrypted);
    ByteLengthFits(decrypted);
    ToBytesRoundTrip(decrypted, length);
    var r := ToBytes(decrypted, length);
    LeadingByte(r, decrypted);
    r
  }

  /** Bytes written with `ByteLength` start with a non-zero byte. */
  lemma {:induction false} LeadingByte(r: seq<Byte>, n: nat)
    requires |r| == ByteLength(n) && FromBytes(r) == n
    ensures |r| == 0 || r[0] != 0
  {
    if |r| > 0 && r[0] == 0 {
      var k := |r|;
      assert r == [0] + r[1..];
      FromBytesDropZero(r);
      FromBytesBound(r[1..]);
      BytePow(k - 1);
      BitLengthBounds(n);
      if n > 0 {
        PowMonotone(2, 8 * (k - 1), BitLength(n) - 1);
      }
    }
  }

  /** A leading zero byte adds nothing to the number. */
  lemma {:induction false} FromBytesDropZero(b: seq<Byte>)
    requires |b| > 0 && b[0] == 0
    ensures FromBytes(b) == FromBytes(b[1..])
  {
    if |b| > 1 {
      var t := b[..|b| - 1];
      assert t[0] == 0;
      FromBytesDropZero(t);
      assert t[1..] == b[1..][..|b[1..]| - 1];
    } else {
      assert b[1..] == [];
    }
  }

  /** `decrypt` does not care which key comes first. */
  lemma {:induction false} DecryptSymmetric(key1: nat, key2: nat)
    ensures Decrypt(key1, key2) == Decrypt(key2, key1)
  {
    XorCommutes(key1, key2);
  }

  /** Decrypting what `encrypt` returns gives the message's bytes back,
      provided they do not start with a zero byte. */
  lemma {:induction false} EncryptDecrypt(original: seq<Byte>, tokenBytes: seq<Byte>)
    requires |tokenBytes| == |original|
    requires |original| == 0 || original[0] != 0
    ensures var keys := Encrypt(original, tokenBytes); Decrypt(keys.0, keys.1) == original
  {
    ByteLengthOfBytes(original);
    FromBytesRoundTrip(original);
  }

  /** A leading zero byte is lost: a NUL character followed by `A` comes
      back as `A` alone. */
  lemma {:induction false} LeadingZeroLost(tokenBytes: seq<Byte>)
    requires |tokenBytes| == 2
    ensures var keys := Encrypt([0, 65], tokenBytes); Decrypt(keys.0, keys.1) == [65]
  {
    var keys := Encrypt([0, 65], tokenBytes);
    assert FromBytes([0, 65]) == 65 by {
      assert [0, 65][..1] == [0];
    }
    assert Pow(2, 6) == 64 && Pow(2, 7) == 128;
    BitLengthOf(65, 7);
    var r := Decrypt(keys.0, keys.1);
    assert |r| == 1;
    assert r == [65] by {
      assert FromBytes(r) == 256 * FromBytes([]) + r[0];
    }
  }
}
