/**
 Key derivation and authenticated encryption: the TPM 2.0 KDFa function (section
 11.4.10.2 of part 1 of the TPM 2.0 Library), credential-protected data, and the
 protection of saved tables.  The hash functions and the block cipher stay abstract.
 */
module Derivation {
  import opened Wrappers
  import opened Tpm2Encoding

  /** Keyed hashes by algorithm, and the key stream of AES in counter mode for a key, a start value and a length. */
  datatype Primitives = Primitives(
    sha1: (seq<Byte>, seq<Byte>) -> seq<Byte>,
    sha256: (seq<Byte>, seq<Byte>) -> seq<Byte>,
    stream: (seq<Byte>, seq<Byte>, nat) -> seq<Byte>)

  ghost predicate Sized(c: Primitives) {
    && (forall k, m :: |c.sha1(k, m)| == 20)
    && (forall k, m :: |c.sha256(k, m)| == 32)
    && (forall k, v, n :: |c.stream(k, v, n)| == n)
  }

  const ALG_SHA1: UInt16 := 0x0004
  const ALG_SHA256: UInt16 := 0x000B

  datatype CryptoError = UnsupportedAlgorithm | LabelTooLong | IntegrityFailure | BadKeySize | InputTooShort

  // ----- KDFa

  function DigestSize(alg: UInt16): nat {
    if alg == ALG_SHA1 then 20 else if alg == ALG_SHA256 then 32 else 0
  }

  function Hmac(c: Primitives, alg: UInt16, key: seq<Byte>, m: seq<Byte>): seq<Byte> {
    if alg == ALG_SHA1 then c.sha1(key, m) else if alg == ALG_SHA256 then c.sha256(key, m) else []
  }

  /** The fields every block is computed from. */
  datatype Fields = Fields(name: seq<Byte>, contextU: seq<Byte>, contextV: seq<Byte>, bits: int)

  /** Counter, label with its terminating zero, both contexts, and the number of bits. */
  function BlockInput(counter: nat, f: Fields): seq<Byte> {
    BigEndian(counter % 0x1_0000_0000, 4)
    + (f.name + [0] + (f.contextU + f.contextV + BigEndian(f.bits % 0x1_0000_0000, 4)))
  }

  function Block(c: Primitives, alg: UInt16, key: seq<Byte>, f: Fields, counter: nat): seq<Byte> {
    Hmac(c, alg, key, BlockInput(counter, f))
  }

  /** The blocks with counters 1 to n, end to end. */
  function Blocks(c: Primitives, alg: UInt16, key: seq<Byte>, f: Fields, n: nat): seq<Byte> {
    if n == 0 then [] else Blocks(c, alg, key, f, n - 1) + Block(c, alg, key, f, n)
  }

  /** Whole bytes needed for the given bits; none for a count that is not positive. */
  function BytesFor(bits: int): nat {
    if bits <= 0 then 0 else (bits + 7) / 8
  }

  /** The least number of blocks of size `d` that cover `bytes`. */
  function BlocksFor(bytes: nat, d: nat): nat
    requires d > 0
  {
    (bytes + d - 1) / d
  }

  method Kdfa(c: Primitives, alg: UInt16, key: seq<Byte>, name: seq<Byte>, contextU: seq<Byte>,
              contextV: seq<Byte>, bits: int)
    returns (r: Result<seq<Byte>, CryptoError>)
    ensures bits <= 0 ==> r == Ok([])
    ensures bits > 0 && DigestSize(alg) == 0 ==> r == Err(UnsupportedAlgorithm)
    ensures bits > 0 && DigestSize(alg) > 0 && |name| >= 32 ==> r == Err(LabelTooLong)
    ensures bits > 0 && DigestSize(alg) > 0 && |name| < 32 ==>
              r == Ok(Blocks(c, alg, key, Fields(name, contextU, contextV, bits),
                             BlocksFor(BytesFor(bits), DigestSize(alg))))
  {
    var counter: nat := 0;
    var bytesLeft: int := BytesFor(bits);
    var out: seq<Byte> := [];
    var d := DigestSize(alg);
    ghost var f := Fields(name, contextU, contextV, bits);
    while bytesLeft > 0
      invariant out == Blocks(c, alg, key, f, counter)
      invariant bytesLeft == BytesFor(bits) - counter * d
      invariant d == 0 ==> counter == 0
      invariant counter > 0 ==> d > 0 && |name| < 32 && bytesLeft + d > 0
      decreases bytesLeft
    {
      counter := counter + 1;
      if alg != ALG_SHA1 && alg != ALG_SHA256 {
        return Err(UnsupportedAlgorithm);
      }
      if |name| >= 32 {
        return Err(LabelTooLong);
      }
      var input := BigEndian(counter % 0x1_0000_0000, 4)
                   + (name + [0] + (contextU + contextV + BigEndian(bits % 0x1_0000_0000, 4)));
      out := out + Hmac(c, alg, key, input);
      bytesLeft := bytesLeft - d;
    }
    if bits > 0 {
      CountedBlocks(BytesFor(bits), d, counter);
    }
    r := Ok(out);
  }

  lemma CountedBlocks(bytes: nat, d: nat, n: nat)
    requires d > 0 && n > 0 && bytes - n * d <= 0 < bytes - n * d + d
    ensures BlocksFor(bytes, d) == n
  {
    var m := bytes + d - 1;
    assert n * d <= m < n * d + d;
    QuotientUnique(m, d, n);
  }

  lemma QuotientUnique(m: nat, d: nat, n: nat)
    requires d > 0 && n * d <= m < n * d + d
    ensures m / d == n
  {
    var q := m / d;
    assert m == q * d + m % d;
    assert q < n ==> (q + 1) * d <= n * d;
    assert q > n ==> (n + 1) * d <= q * d;
  }

  /**
   What a block is computed from, byte by byte: a big-endian counter, the label and
   its terminating zero, the two contexts, and the number of bits, big-endian again.
   */
  lemma BlockInputLayout(counter: nat, f: Fields)
    ensures BlockInput(counter, f) ==
              FourBytes(counter % 0x1_0000_0000)
              + (f.name + [0] + (f.contextU + f.contextV + FourBytes(f.bits % 0x1_0000_0000)))
  {
    FourBytesOf(counter % 0x1_0000_0000);
    FourBytesOf(f.bits % 0x1_0000_0000);
  }

  /** Each block stands at its place and depends on nothing but its own counter and the fixed fields. */
  lemma {:induction false} BlocksAreIndependent(c: Primitives, alg: UInt16, key: seq<Byte>, f: Fields, n: nat, i: nat)
    requires Sized(c) && DigestSize(alg) > 0 && i < n
    ensures var d := DigestSize(alg);
            && |Blocks(c, alg, key, f, n)| == n * d
            && i * d + d <= n * d
            && Blocks(c, alg, key, f, n)[i * d..i * d + d] == Block(c, alg, key, f, i + 1)
  {
    var d := DigestSize(alg);
    BlocksLength(c, alg, key, f, n);
    BlocksLength(c, alg, key, f, n - 1);
    if i < n - 1 {
      BlocksAreIndependent(c, alg, key, f, n - 1, i);
      assert (n - 1) * d + d == n * d;
    }
  }

  lemma {:induction false} BlocksLength(c: Primitives, alg: UInt16, key: seq<Byte>, f: Fields, n: nat)
    requires Sized(c)
    ensures |Blocks(c, alg, key, f, n)| == n * DigestSize(alg)
  {
    if n > 0 {
      BlocksLength(c, alg, key, f, n - 1);
      assert (n - 1) * DigestSize(alg) + DigestSize(alg) == n * DigestSize(alg);
    }
  }

  /** The output is the least multiple of the digest size that covers the requested bits. */
  lemma DerivedLengthIsLeast(bits: int, d: nat)
    requires bits > 0 && d > 0
    ensures var n := BlocksFor(BytesFor(bits), d); n > 0 && 8 * (n * d) >= bits > 8 * ((n - 1) * d)
  {
    var bytes := BytesFor(bits);
    var n := BlocksFor(bytes, d);
    var m := bytes + d - 1;
    assert m == n * d + m % d;
    assert (n - 1) * d == n * d - d;
    assert n == 0 ==> n * d == 0;
  }

  // ----- exclusive or

  /** Bitwise exclusive or of the low `k` bits. */
  function XorBits(a: nat, b: nat, k: nat): nat {
    if k == 0 then 0 else 2 * XorBits(a / 2, b / 2, k - 1) + (a + b) % 2
  }

  function Pow2(k: nat): nat {
    if k == 0 then 1 else 2 * Pow2(k - 1)
  }

  lemma {:induction false} XorBitsTwice(a: nat, b: nat, k: nat)
    requires a < Pow2(k)
    ensures XorBits(a, b, k) < Pow2(k)
    ensures XorBits(XorBits(a, b, k), b, k) == a
  {
    if k > 0 {
      XorBitsTwice(a / 2, b / 2, k - 1);
      var h := XorBits(a / 2, b / 2, k - 1);
      var x := 2 * h + (a + b) % 2;
      LowBit(a, b, h, x);
      assert XorBits(x, b, k) == 2 * XorBits(h, b / 2, k - 1) + (x + b) % 2;
    }
  }

  lemma LowBit(a: nat, b: nat, h: nat, x: nat)
    requires x == 2 * h + (a + b) % 2
    ensures x / 2 == h && (x + b) % 2 == a % 2
  {
  }

  lemma {:induction false} XorBitsBound(a: nat, b: nat, k: nat)
    ensures XorBits(a, b, k) < Pow2(k)
  {
    if k > 0 {
      XorBitsBound(a / 2, b / 2, k - 1);
    }
  }

  lemma ByteBits()
    ensures Pow2(8) == 256
  {
    assert Pow2(4) == 16;
  }

  function XorByte(a: Byte, b: Byte): Byte {
    XorBitsBound(a, b, 8);
    ByteBits();
    XorBits(a, b, 8)
  }

  lemma XorTwice(a: Byte, b: Byte)
    ensures XorByte(XorByte(a, b), b) == a
  {
    ByteBits();
    XorBitsTwice(a, b, 8);
  }

  /** Bit `i` of a number, counted from the low end. */
  function Bit(n: nat, i: nat): nat {
    if i == 0 then n % 2 else Bit(n / 2, i - 1)
  }

  lemma {:induction false} XorBitsBitwise(a: nat, b: nat, k: nat, i: nat)
    ensures Bit(XorBits(a, b, k), i) == if i < k && Bit(a, i) != Bit(b, i) then 1 else 0
  {
    if k == 0 {
      ZeroHasNoBits(i);
    } else {
      var h := XorBits(a / 2, b / 2, k - 1);
      LowBit(a, b, h, XorBits(a, b, k));
      if i > 0 {
        XorBitsBitwise(a / 2, b / 2, k - 1, i - 1);
      }
    }
  }

  lemma {:induction false} ZeroHasNoBits(i: nat)
    ensures Bit(0, i) == 0
  {
    if i > 0 {
      ZeroHasNoBits(i - 1);
    }
  }

  /** Each bit of `x` tells whether the bits of the operands differ. */
  ghost predicate TellsDifferences(x: Byte, a: Byte, b: Byte) {
    forall i :: 0 <= i < 8 ==> Bit(x, i) == if Bit(a, i) != Bit(b, i) then 1 else 0
  }

  lemma XorTellsDifferences(a: Byte, b: Byte)
    ensures TellsDifferences(XorByte(a, b), a, b)
  {
    forall i: nat | i < 8 ensures Bit(XorByte(a, b), i) == if Bit(a, i) != Bit(b, i) then 1 else 0 {
      XorBitsBitwise(a, b, 8, i);
    }
  }

  lemma {:induction false} SameBitsSameNumber(m: nat, n: nat, k: nat)
    requires m < Pow2(k) && n < Pow2(k) && forall i :: 0 <= i < k ==> Bit(m, i) == Bit(n, i)
    ensures m == n
  {
    if k > 0 {
      assert Bit(m, 0) == Bit(n, 0);
      forall i | 0 <= i < k - 1 ensures Bit(m / 2, i) == Bit(n / 2, i) {
        assert Bit(m, i + 1) == Bit(n, i + 1);
      }
      SameBitsSameNumber(m / 2, n / 2, k - 1);
    }
  }

  /** The exclusive or is the only byte with those bits; it commutes, and a byte cancels itself. */
  lemma XorIsDetermined(a: Byte, b: Byte, x: Byte)
    ensures x == XorByte(a, b) <==> TellsDifferences(x, a, b)
    ensures XorByte(a, b) == XorByte(b, a) && XorByte(a, a) == 0
  {
    ByteBits();
    XorTellsDifferences(a, b);
    XorTellsDifferences(b, a);
    XorTellsDifferences(a, a);
    forall i: nat | i < 8 ensures Bit(0, i) == 0 {
      ZeroHasNoBits(i);
    }
    SameBitsSameNumber(XorByte(b, a), XorByte(a, b), 8);
    SameBitsSameNumber(XorByte(a, a), 0, 8);
    if TellsDifferences(x, a, b) {
      SameBitsSameNumber(x, XorByte(a, b), 8);
    }
  }

  function Xor(s: seq<Byte>, pad: seq<Byte>): (r: seq<Byte>)
    requires |pad| == |s|
    ensures |r| == |s|
  {
    seq(|s|, i requires 0 <= i < |s| => XorByte(s[i], pad[i]))
  }

  lemma XorInverts(s: seq<Byte>, pad: seq<Byte>)
    requires |pad| == |s|
    ensures Xor(Xor(s, pad), pad) == s
  {
    forall i | 0 <= i < |s| ensures Xor(Xor(s, pad), pad)[i] == s[i] {
      XorTwice(s[i], pad[i]);
    }
  }

  // ----- data protected by a credential

  const PROTECT_LABEL: seq<Byte> := [80, 82, 79, 84, 69, 67, 84]

  /** The 512 bits derived from a credential. */
  function DerivedKeys(c: Primitives, alg: UInt16, credential: seq<Byte>): seq<Byte> {
    if DigestSize(alg) == 0 then []
    else Blocks(c, alg, credential, Fields(PROTECT_LABEL, [], [], 512), BlocksFor(64, DigestSize(alg)))
  }

  lemma DerivedKeysLength(c: Primitives, alg: UInt16, credential: seq<Byte>)
    requires Sized(c)
    ensures |DerivedKeys(c, alg, credential)| == if alg == ALG_SHA1 then 80 else if alg == ALG_SHA256 then 64 else 0
  {
    if DigestSize(alg) > 0 {
      BlocksLength(c, alg, credential, Fields(PROTECT_LABEL, [], [], 512), BlocksFor(64, DigestSize(alg)));
    }
  }

  /** The three keys a credential gives: cipher key, start value and hash key. */
  ghost function CredentialKeys(c: Primitives, alg: UInt16, credential: seq<Byte>)
    : (r: (seq<Byte>, seq<Byte>, seq<Byte>))
    requires Sized(c) && DigestSize(alg) > 0
  {
    DerivedKeysLength(c, alg, credential);
    var keys := DerivedKeys(c, alg, credential);
    (keys[0..16], keys[16..32], if alg == ALG_SHA1 then keys[48..64] else keys[32..64])
  }

  /** What encryption or decryption produces: the hash of the plain data, and the data under the key stream. */
  ghost function Credentialed(c: Primitives, encrypt: bool, alg: UInt16, credential: seq<Byte>, data: seq<Byte>,
                              mac: seq<Byte>)
    : Result<(seq<Byte>, seq<Byte>), CryptoError>
    requires Sized(c)
  {
    if DigestSize(alg) == 0 then Err(UnsupportedAlgorithm)
    else
      var (key, iv, macKey) := CredentialKeys(c, alg, credential);
      var out := Xor(data, c.stream(key, iv, |data|));
      var calculated := Hmac(c, alg, macKey, if encrypt then data else out);
      if !encrypt && calculated != mac then Err(IntegrityFailure) else Ok((calculated, out))
  }

  /** The input of the `i`-th block derived from a credential: "PROTECT", no contexts, 512 bits. */
  function ProtectInput(i: Byte): seq<Byte> {
    [0, 0, 0, i] + [80, 82, 79, 84, 69, 67, 84, 0] + [0, 0, 2, 0]
  }

  lemma SmallNumbers(i: Byte)
    ensures BigEndian(i % 0x1_0000_0000, 4) == [0, 0, 0, i] && BigEndian(512 % 0x1_0000_0000, 4) == [0, 0, 2, 0]
  {
    FourBytesOf(i);
    FourBytesOf(512);
  }

  lemma Regroup(a: seq<Byte>, b: seq<Byte>, c: seq<Byte>)
    ensures a + (b + c) == a + b + c
  {
  }

  lemma ProtectBlock(c: Primitives, alg: UInt16, credential: seq<Byte>, i: Byte)
    ensures Block(c, alg, credential, Fields(PROTECT_LABEL, [], [], 512), i) ==
              Hmac(c, alg, credential, ProtectInput(i))
  {
    SmallNumbers(i);
    var none: seq<Byte> := [];
    assert none + none + [0, 0, 2, 0] == [0, 0, 2, 0];
    assert PROTECT_LABEL + [0] == [80, 82, 79, 84, 69, 67, 84, 0];
    Regroup([0, 0, 0, i], [80, 82, 79, 84, 69, 67, 84, 0], [0, 0, 2, 0]);
  }

  lemma KeysFromSha256(c: Primitives, credential: seq<Byte>)
    requires Sized(c)
    ensures DerivedKeys(c, 0x000B, credential) ==
              c.sha256(credential, ProtectInput(1)) + c.sha256(credential, ProtectInput(2))
  {
    var f := Fields(PROTECT_LABEL, [], [], 512);
    ProtectBlock(c, ALG_SHA256, credential, 1);
    ProtectBlock(c, ALG_SHA256, credential, 2);
    assert BlocksFor(64, 32) == 2;
    assert Blocks(c, ALG_SHA256, credential, f, 1) == Block(c, ALG_SHA256, credential, f, 1);
  }

  lemma KeysFromSha1(c: Primitives, credential: seq<Byte>)
    requires Sized(c)
    ensures DerivedKeys(c, 0x0004, credential) ==
              c.sha1(credential, ProtectInput(1)) + c.sha1(credential, ProtectInput(2))
              + c.sha1(credential, ProtectInput(3)) + c.sha1(credential, ProtectInput(4))
  {
    var f := Fields(PROTECT_LABEL, [], [], 512);
    ProtectBlock(c, ALG_SHA1, credential, 1);
    ProtectBlock(c, ALG_SHA1, credential, 2);
    ProtectBlock(c, ALG_SHA1, credential, 3);
    ProtectBlock(c, ALG_SHA1, credential, 4);
    assert BlocksFor(64, 20) == 4;
    assert Blocks(c, ALG_SHA1, credential, f, 1) == Block(c, ALG_SHA1, credential, f, 1);
    assert Blocks(c, ALG_SHA1, credential, f, 3) ==
           Blocks(c, ALG_SHA1, credential, f, 1) + Block(c, ALG_SHA1, credential, f, 2)
           + Block(c, ALG_SHA1, credential, f, 3);
  }

  method DeriveKeys(c: Primitives, alg: UInt16, credential: seq<Byte>) returns (r: Result<seq<Byte>, CryptoError>)
    ensures r == if DigestSize(alg) == 0 then Err(UnsupportedAlgorithm) else Ok(DerivedKeys(c, alg, credential))
  {
    assert BytesFor(512) == 64;
    r := Kdfa(c, alg, credential, PROTECT_LABEL, [], [], 512);
  }

  method EncryptDataWithCredential(c: Primitives, encrypt: bool, alg: UInt16, credential: seq<Byte>,
                                   data: seq<Byte>, mac: seq<Byte>)
    returns (r: Result<(seq<Byte>, seq<Byte>), CryptoError>)
    requires Sized(c)
    ensures r == Credentialed(c, encrypt, alg, credential, data, mac)
  {
    var derived := DeriveKeys(c, alg, credential);
    if derived.Err? {
      return Err(derived.error);
    }
    var keys := derived.value;
    DerivedKeysLength(c, alg, credential);
    var iv := keys[16..32];
    var key := keys[0..16];
    var out := Xor(data, c.stream(key, iv, |data|));
    var toHash := if encrypt then data else out;
    var calculated;
    if alg == ALG_SHA1 {
      calculated := c.sha1(keys[48..64], toHash);
    } else {
      calculated := c.sha256(keys[32..64], toHash);
    }
    if !encrypt && calculated != mac {
      return Err(IntegrityFailure);
    }
    r := Ok((calculated, out));
  }

  /**
   Decrypting with the same algorithm and credential restores any encrypted data,
   and is refused for every other integrity value.
   */
  lemma CredentialRoundTrip(c: Primitives, alg: UInt16, credential: seq<Byte>, data: seq<Byte>, ignored: seq<Byte>,
                            mac: seq<Byte>)
    requires Sized(c) && DigestSize(alg) > 0
    ensures var encrypted := Credentialed(c, true, alg, credential, data, ignored);
            && encrypted.Ok?
            && Credentialed(c, false, alg, credential, encrypted.value.1, mac)
                 == if mac == encrypted.value.0 then Ok((mac, data)) else Err(IntegrityFailure)
  {
    var (key, iv, _) := CredentialKeys(c, alg, credential);
    XorInverts(data, c.stream(key, iv, |data|));
  }

  /**
   The SHA-256 form spelled out: the first derived block is cipher key and start value,
   the second the key under which the plain data is hashed.
   */
  lemma Sha256Credential(c: Primitives, credential: seq<Byte>, data: seq<Byte>, ignored: seq<Byte>)
    requires Sized(c)
    ensures var keys := c.sha256(credential, ProtectInput(1));
            Credentialed(c, true, 0x000B, credential, data, ignored) ==
              Ok((c.sha256(c.sha256(credential, ProtectInput(2)), data),
                  Xor(data, c.stream(keys[..16], keys[16..], |data|))))
  {
    KeysFromSha256(c, credential);
    var k1, k2 := c.sha256(credential, ProtectInput(1)), c.sha256(credential, ProtectInput(2));
    assert (k1 + k2)[0..16] == k1[..16] && (k1 + k2)[16..32] == k1[16..] && (k1 + k2)[32..64] == k2;
  }

  lemma FourBlocks(k1: seq<Byte>, k2: seq<Byte>, k3: seq<Byte>, k4: seq<Byte>)
    requires |k1| == |k2| == |k3| == |k4| == 20
    ensures var keys := k1 + k2 + k3 + k4;
            keys[0..16] == k1[..16] && keys[16..32] == k1[16..] + k2[..12] && keys[48..64] == k3[8..] + k4[..4]
  {
  }

  /**
   The SHA-1 form: of the eighty derived bytes the first sixteen are the cipher key, the
   next sixteen the start value, and those from 48 to 64 the hash key.
   */
  lemma Sha1Credential(c: Primitives, credential: seq<Byte>, data: seq<Byte>, ignored: seq<Byte>)
    requires Sized(c)
    ensures var k1, k2 := c.sha1(credential, ProtectInput(1)), c.sha1(credential, ProtectInput(2));
            var k3, k4 := c.sha1(credential, ProtectInput(3)), c.sha1(credential, ProtectInput(4));
            Credentialed(c, true, 0x0004, credential, data, ignored) ==
              Ok((c.sha1(k3[8..] + k4[..4], data),
                  Xor(data, c.stream(k1[..16], k1[16..] + k2[..12], |data|))))
  {
    KeysFromSha1(c, credential);
    var k1, k2 := c.sha1(credential, ProtectInput(1)), c.sha1(credential, ProtectInput(2));
    var k3, k4 := c.sha1(credential, ProtectInput(3)), c.sha1(credential, ProtectInput(4));
    FourBlocks(k1, k2, k3, k4);
  }

  // ----- protection of saved tables

  /** Sizes fixed by a cipher suite; the hash key and the hash have the suite's remaining key bytes and its tag size. */
  datatype Suite = Aes128CtrHmacSha256 | Aes256CtrHmacSha384 | Aes256CtrHmacSha512

  const BLOCK_SIZE: nat := 16

  function EncKeySize(s: Suite): nat {
    if s.Aes128CtrHmacSha256? then 16 else 32
  }

  function TotalKeySize(s: Suite): nat {
    match s
    case Aes128CtrHmacSha256 => 48
    case Aes256CtrHmacSha384 => 64
    case Aes256CtrHmacSha512 => 96
  }

  function TagSize(s: Suite): nat {
    match s
    case Aes128CtrHmacSha256 => 32
    case Aes256CtrHmacSha384 => 48
    case Aes256CtrHmacSha512 => 64
  }

  /** The suite's keyed hash and cipher. */
  datatype Cipher = Cipher(tag: (seq<Byte>, seq<Byte>) -> seq<Byte>, stream: (seq<Byte>, seq<Byte>, nat) -> seq<Byte>)

  ghost predicate CipherSized(s: Suite, c: Cipher) {
    && (forall k, m :: |c.tag(k, m)| == TagSize(s))
    && (forall k, v, n :: |c.stream(k, v, n)| == n)
  }

  function EncKey(s: Suite, keys: seq<Byte>): seq<Byte>
    requires |keys| >= TotalKeySize(s)
  {
    keys[..EncKeySize(s)]
  }

  function MacKey(s: Suite, keys: seq<Byte>): seq<Byte>
    requires |keys| >= TotalKeySize(s)
  {
    keys[EncKeySize(s)..TotalKeySize(s)]
  }

  function Sealed(s: Suite, c: Cipher, keys: seq<Byte>, data: seq<Byte>, iv: seq<Byte>): seq<Byte>
    requires |keys| >= TotalKeySize(s) && |c.stream(EncKey(s, keys), iv, |data|)| == |data|
  {
    iv + Xor(data, c.stream(EncKey(s, keys), iv, |data|))
  }

  /** Where each suite cuts the key material, and the size of its tag. */
  function Cuts(s: Suite): (nat, nat, nat) {
    match s
    case Aes128CtrHmacSha256 => (16, 48, 32)
    case Aes256CtrHmacSha384 => (32, 64, 48)
    case Aes256CtrHmacSha512 => (32, 96, 64)
  }

  /** What protecting data gives. */
  ghost function Protected(s: Suite, c: Cipher, keys: seq<Byte>, data: seq<Byte>, iv: seq<Byte>)
    : Result<seq<Byte>, CryptoError>
    requires CipherSized(s, c) && |iv| == BLOCK_SIZE
  {
    if |keys| < TotalKeySize(s) then Err(BadKeySize)
    else
      var sealed := Sealed(s, c, keys, data, iv);
      Ok(c.tag(MacKey(s, keys), sealed) + sealed)
  }

  /**
   Data is protected iff there are enough keys.  The cipher key comes before the hash
   key; a start value of sixteen bytes precedes the encrypted data and is hashed with it.
   */
  lemma ProtectedLayout(s: Suite, c: Cipher, keys: seq<Byte>, data: seq<Byte>, iv: seq<Byte>)
    requires CipherSized(s, c) && |iv| == 16
    ensures var (enc, total, tag), r := Cuts(s), Protected(s, c, keys, data, iv);
            && (r == Err(BadKeySize) <==> |keys| < total)
            && (r.Ok? <==> |keys| >= total)
            && (r.Ok? ==>
                  && |r.value| == tag + 16 + |data|
                  && r.value[..tag] == c.tag(keys[enc..total], r.value[tag..])
                  && r.value[tag..tag + 16] == iv
                  && r.value[tag + 16..] == Xor(data, c.stream(keys[..enc], iv, |data|)))
  {
    if |keys| >= TotalKeySize(s) {
      var sealed := Sealed(s, c, keys, data, iv);
      assert Protected(s, c, keys, data, iv).value[Cuts(s).2..] == sealed;
    }
  }

  /** Tag, start value and encrypted data, in this order; absent data stays absent. */
  method Protect(s: Suite, c: Cipher, keys: seq<Byte>, data: Option<seq<Byte>>, iv: seq<Byte>)
    returns (r: Result<Option<seq<Byte>>, CryptoError>)
    requires CipherSized(s, c) && |iv| == BLOCK_SIZE
    ensures match data
            case None => r == if |keys| < TotalKeySize(s) then Err(BadKeySize) else Ok(None)
            case Some(x) =>
              match Protected(s, c, keys, x, iv)
              case Err(e) => r == Err(e)
              case Ok(p) => r == Ok(Some(p))
  {
    if TotalKeySize(s) > |keys| {
      return Err(BadKeySize);
    }
    if data.None? {
      return Ok(None);
    }
    var encrypted := Xor(data.value, c.stream(EncKey(s, keys), iv, |data.value|));
    var ivAndEncrypted := iv + encrypted;
    r := Ok(Some(c.tag(MacKey(s, keys), ivAndEncrypted) + ivAndEncrypted));
  }

  /** What opening protected data gives; input shorter than a tag and a start value cannot be sliced. */
  ghost function Unprotected(s: Suite, c: Cipher, keys: seq<Byte>, x: seq<Byte>): Result<seq<Byte>, CryptoError>
    requires CipherSized(s, c)
  {
    if |keys| < TotalKeySize(s) then Err(BadKeySize)
    else if |x| < TagSize(s) + BLOCK_SIZE then Err(InputTooShort)
    else
      var tag, sealed := x[..TagSize(s)], x[TagSize(s)..];
      var encrypted := sealed[BLOCK_SIZE..];
      if c.tag(MacKey(s, keys), sealed) != tag then Err(IntegrityFailure)
      else Ok(Xor(encrypted, c.stream(EncKey(s, keys), sealed[..BLOCK_SIZE], |encrypted|)))
  }

  method Unprotect(s: Suite, c: Cipher, keys: seq<Byte>, input: Option<seq<Byte>>)
    returns (r: Result<Option<seq<Byte>>, CryptoError>)
    requires CipherSized(s, c)
    ensures match input
            case None => r == if |keys| < TotalKeySize(s) then Err(BadKeySize) else Ok(None)
            case Some(x) =>
              match Unprotected(s, c, keys, x)
              case Err(e) => r == Err(e)
              case Ok(data) => r == Ok(Some(data))
  {
    if TotalKeySize(s) > |keys| {
      return Err(BadKeySize);
    }
    if input.None? {
      return Ok(None);
    }
    var x := input.value;
    if |x| < TagSize(s) + BLOCK_SIZE {
      return Err(InputTooShort);
    }
    var iv := x[TagSize(s)..TagSize(s) + BLOCK_SIZE];
    assert iv == x[TagSize(s)..][..BLOCK_SIZE];
    assert x[TagSize(s) + BLOCK_SIZE..] == x[TagSize(s)..][BLOCK_SIZE..];
    var encrypted := x[TagSize(s) + BLOCK_SIZE..];
    var out := Xor(encrypted, c.stream(EncKey(s, keys), iv, |encrypted|));
    var calculated := c.tag(MacKey(s, keys), x[TagSize(s)..]);
    if calculated != x[..TagSize(s)] {
      return Err(IntegrityFailure);
    }
    r := Ok(Some(out));
  }

  /** Opening asks for as many keys, and for a tag and a start value. */
  lemma UnprotectRefusals(s: Suite, c: Cipher, keys: seq<Byte>, x: seq<Byte>)
    requires CipherSized(s, c)
    ensures var (_, total, tag), r := Cuts(s), Unprotected(s, c, keys, x);
            && (r == Err(BadKeySize) <==> |keys| < total)
            && (r == Err(InputTooShort) <==> |keys| >= total && |x| < tag + 16)
  {
  }

  /**
   Protected data opens under exactly the keys whose tag for it agrees, and gives
   back what was protected under the keys it was protected with.
   */
  lemma ProtectedOpensUnderItsKeys(s: Suite, c: Cipher, keys: seq<Byte>, keys': seq<Byte>, data: seq<Byte>,
                                   iv: seq<Byte>)
    requires CipherSized(s, c) && |iv| == BLOCK_SIZE
    requires |keys| >= TotalKeySize(s) && |keys'| >= TotalKeySize(s)
    ensures var x := Protected(s, c, keys, data, iv);
            && x.Ok? && |x.value| >= TagSize(s)
            && var result, sealed := Unprotected(s, c, keys', x.value), x.value[TagSize(s)..];
               && (result.Ok? <==> c.tag(MacKey(s, keys'), sealed) == c.tag(MacKey(s, keys), sealed))
               && (keys[..TotalKeySize(s)] == keys'[..TotalKeySize(s)] ==> result == Ok(data))
  {
    var pad := c.stream(EncKey(s, keys), iv, |data|);
    var sealed := Sealed(s, c, keys, data, iv);
    var x := Protected(s, c, keys, data, iv).value;
    assert x[..TagSize(s)] == c.tag(MacKey(s, keys), sealed) && x[TagSize(s)..] == sealed;
    assert sealed[..BLOCK_SIZE] == iv && sealed[BLOCK_SIZE..] == Xor(data, pad);
    if keys[..TotalKeySize(s)] == keys'[..TotalKeySize(s)] {
      assert MacKey(s, keys) == keys[..TotalKeySize(s)][EncKeySize(s)..];
      assert MacKey(s, keys') == keys'[..TotalKeySize(s)][EncKeySize(s)..];
      assert EncKey(s, keys) == keys[..TotalKeySize(s)][..EncKeySize(s)];
      assert EncKey(s, keys') == keys'[..TotalKeySize(s)][..EncKeySize(s)];
      XorInverts(data, pad);
    }
  }
}
