/** The AES modes on whole messages. The block cipher, the GCM key stream and the GCM tag stay abstract:
    nothing is known about them but what `Cipher.Valid` says. */
module Modes {
  import opened Prelude

  const KEY_SIZE := 32
  const BLOCK_SIZE := 16
  const GCM_TAG_SIZE := 16

  // --- exclusive or ---

  function XorBits(n: nat, a: nat, b: nat): nat {
    if n == 0 then 0 else 2 * XorBits(n - 1, a / 2, b / 2) + (a + b) % 2
  }

  function Power2(n: nat): nat {
    if n == 0 then 1 else 2 * Power2(n - 1)
  }

  lemma LowestBitTwice(q: nat, a: nat, b: nat)
    ensures (2 * q + (a + b) % 2) / 2 == q
    ensures (2 * q + (a + b) % 2 + b) % 2 == a % 2
  {
  }

  lemma {:induction false} XorBitsFacts(n: nat, a: nat, b: nat)
    requires a < Power2(n)
    ensures XorBits(n, a, b) < Power2(n)
    ensures XorBits(n, XorBits(n, a, b), b) == a
  {
    if n > 0 {
      XorBitsFacts(n - 1, a / 2, b / 2);
      LowestBitTwice(XorBits(n - 1, a / 2, b / 2), a, b);
    }
  }

  function XorByte(a: byte, b: byte): (r: byte)
    ensures XorBits(8, r, b) == a
  {
    assert Power2(8) == 256;
    XorBitsFacts(8, a, b);
    XorBits(8, a, b)
  }

  /** Bit `j` of a number, the lowest being bit 0. */
  function Bit(x: nat, j: nat): nat {
    if j == 0 then x % 2 else Bit(x / 2, j - 1)
  }

  lemma {:induction false} XorBitsAt(n: nat, a: nat, b: nat, j: nat)
    requires j < n
    ensures Bit(XorBits(n, a, b), j) == (Bit(a, j) + Bit(b, j)) % 2
  {
    if j == 0 {
      LowestBitOfSum(XorBits(n - 1, a / 2, b / 2), a, b);
    } else {
      LowestBitTwice(XorBits(n - 1, a / 2, b / 2), a, b);
      XorBitsAt(n - 1, a / 2, b / 2, j - 1);
    }
  }

  lemma LowestBitOfSum(q: nat, a: nat, b: nat)
    ensures (2 * q + (a + b) % 2) % 2 == (a % 2 + b % 2) % 2
  {
  }

  /** Bit by bit the sum without carry; a zero byte changes nothing. */
  lemma XorByteBits(a: byte, b: byte, j: nat)
    requires j < 8
    ensures Bit(XorByte(a, b), j) == (Bit(a, j) + Bit(b, j)) % 2
    ensures XorByte(a, 0) == a
  {
    XorBitsAt(8, a, b, j);
    assert Power2(8) == 256;
    XorBitsWithZero(8, a);
  }

  lemma {:induction false} XorBitsWithZero(n: nat, a: nat)
    requires a < Power2(n)
    ensures XorBits(n, a, 0) == a
  {
    if n > 0 {
      XorBitsWithZero(n - 1, a / 2);
    }
  }

  function Xor(a: Bytes, b: Bytes): (r: Bytes)
    requires |a| == |b|
    ensures |r| == |a|
  {
    seq(|a|, k requires 0 <= k < |a| => XorByte(a[k], b[k]))
  }

  lemma XorTwice(a: Bytes, b: Bytes)
    requires |a| == |b|
    ensures Xor(Xor(a, b), b) == a
  {
  }

  // --- the abstract primitives ---

  /** `encrypt` and `decrypt` take a key and a block, `keyStream` a key, an IV and a position, `tag` a key, an IV,
      the additional data and the ciphertext. */
  datatype Cipher = Cipher(
    encrypt: (Bytes, Bytes) -> Bytes,
    decrypt: (Bytes, Bytes) -> Bytes,
    keyStream: (Bytes, Bytes, nat) -> byte,
    tag: (Bytes, Bytes, Bytes, Bytes) -> Bytes)
  {
    /** Under every key the block cipher is a permutation of the blocks; tags have 16 bytes. */
    ghost predicate Valid() {
      && (forall key, b :: |b| == BLOCK_SIZE ==> |encrypt(key, b)| == BLOCK_SIZE && decrypt(key, encrypt(key, b)) == b)
      && (forall key, b :: |b| == BLOCK_SIZE ==> |decrypt(key, b)| == BLOCK_SIZE && encrypt(key, decrypt(key, b)) == b)
      && (forall key, iv, aad, text :: |tag(key, iv, aad, text)| == GCM_TAG_SIZE)
    }

    function Encrypt(key: Bytes, b: Bytes): (r: Bytes)
      requires Valid() && |b| == BLOCK_SIZE
      ensures |r| == BLOCK_SIZE
      ensures decrypt(key, r) == b
    {
      encrypt(key, b)
    }

    function Decrypt(key: Bytes, b: Bytes): (r: Bytes)
      requires Valid() && |b| == BLOCK_SIZE
      ensures |r| == BLOCK_SIZE
      ensures encrypt(key, r) == b
    {
      decrypt(key, b)
    }
  }

  // --- CBC, section 6.2 of NIST SP 800-38A ---

  predicate WholeBlocks(s: Bytes) {
    |s| % BLOCK_SIZE == 0
  }

  function CbcEncrypt(c: Cipher, key: Bytes, iv: Bytes, p: Bytes): (r: Bytes)
    requires c.Valid() && |iv| == BLOCK_SIZE && WholeBlocks(p)
    ensures |r| == |p|
    decreases |p|
  {
    if p == [] then []
    else
      var b := c.Encrypt(key, Xor(p[..BLOCK_SIZE], iv));
      b + CbcEncrypt(c, key, b, p[BLOCK_SIZE..])
  }

  function CbcDecrypt(c: Cipher, key: Bytes, iv: Bytes, s: Bytes): (r: Bytes)
    requires c.Valid() && |iv| == BLOCK_SIZE && WholeBlocks(s)
    ensures |r| == |s|
    decreases |s|
  {
    if s == [] then []
    else Xor(c.Decrypt(key, s[..BLOCK_SIZE]), iv) + CbcDecrypt(c, key, s[..BLOCK_SIZE], s[BLOCK_SIZE..])
  }

  /** The block that the next one is chained to. */
  function LastBlock(iv: Bytes, s: Bytes): (r: Bytes)
    requires |iv| == BLOCK_SIZE && WholeBlocks(s)
    ensures |r| == BLOCK_SIZE
  {
    if s == [] then iv else s[|s| - BLOCK_SIZE..]
  }

  lemma CbcEncryptStep(c: Cipher, key: Bytes, iv: Bytes, first: Bytes, rest: Bytes)
    requires c.Valid() && |iv| == |first| == BLOCK_SIZE && WholeBlocks(rest)
    ensures WholeBlocks(first + rest)
    ensures var b := c.Encrypt(key, Xor(first, iv));
            CbcEncrypt(c, key, iv, first + rest) == b + CbcEncrypt(c, key, b, rest)
  {
    hide Cipher.Valid, Xor;
    assert (first + rest)[..BLOCK_SIZE] == first && (first + rest)[BLOCK_SIZE..] == rest;
  }

  lemma CbcDecryptStep(c: Cipher, key: Bytes, iv: Bytes, first: Bytes, rest: Bytes)
    requires c.Valid() && |iv| == |first| == BLOCK_SIZE && WholeBlocks(rest)
    ensures WholeBlocks(first + rest)
    ensures CbcDecrypt(c, key, iv, first + rest) == Xor(c.Decrypt(key, first), iv) + CbcDecrypt(c, key, first, rest)
  {
    hide Cipher.Valid, Xor;
    assert (first + rest)[..BLOCK_SIZE] == first && (first + rest)[BLOCK_SIZE..] == rest;
  }

  lemma {:induction false} CbcEncryptAppend(c: Cipher, key: Bytes, iv: Bytes, a: Bytes, b: Bytes)
    requires c.Valid() && |iv| == BLOCK_SIZE && WholeBlocks(a) && WholeBlocks(b)
    ensures WholeBlocks(a + b)
    ensures CbcEncrypt(c, key, iv, a + b) ==
            CbcEncrypt(c, key, iv, a) + CbcEncrypt(c, key, LastBlock(iv, CbcEncrypt(c, key, iv, a)), b)
    decreases |a|
  {
    if a == [] {
      assert a + b == b;
    } else {
      hide Cipher.Valid, Xor, CbcEncrypt, LastBlock;
      var first, rest := a[..BLOCK_SIZE], a[BLOCK_SIZE..];
      var block := c.Encrypt(key, Xor(first, iv));
      assert a == first + rest && a + b == first + (rest + b);
      CbcEncryptAppend(c, key, block, rest, b);
      CbcEncryptStep(c, key, iv, first, rest);
      CbcEncryptStep(c, key, iv, first, rest + b);
      LastBlockCons(iv, block, CbcEncrypt(c, key, block, rest));
    }
  }

  lemma LastBlockCons(iv: Bytes, first: Bytes, rest: Bytes)
    requires |iv| == |first| == BLOCK_SIZE && WholeBlocks(rest)
    ensures WholeBlocks(first + rest) && LastBlock(iv, first + rest) == LastBlock(first, rest)
  {
  }

  lemma {:induction false} CbcDecryptAppend(c: Cipher, key: Bytes, iv: Bytes, a: Bytes, b: Bytes)
    requires c.Valid() && |iv| == BLOCK_SIZE && WholeBlocks(a) && WholeBlocks(b)
    ensures WholeBlocks(a + b)
    ensures CbcDecrypt(c, key, iv, a + b) == CbcDecrypt(c, key, iv, a) + CbcDecrypt(c, key, LastBlock(iv, a), b)
    decreases |a|
  {
    if a == [] {
      assert a + b == b;
    } else {
      hide Cipher.Valid, Xor, CbcDecrypt, LastBlock;
      var first, rest := a[..BLOCK_SIZE], a[BLOCK_SIZE..];
      assert a == first + rest && a + b == first + (rest + b);
      CbcDecryptAppend(c, key, first, rest, b);
      CbcDecryptStep(c, key, iv, first, rest);
      CbcDecryptStep(c, key, iv, first, rest + b);
      LastBlockCons(iv, first, rest);
    }
  }

  /** Block by block: what is enciphered at position `k` (a multiple of the block size) is the plaintext block there,
      combined with the block in front, the IV being in front of the first. */
  lemma {:induction false} CbcEncryptAt(c: Cipher, key: Bytes, iv: Bytes, p: Bytes, k: nat)
    requires c.Valid() && |iv| == BLOCK_SIZE && WholeBlocks(p) && k % BLOCK_SIZE == 0 && k + BLOCK_SIZE <= |p|
    ensures var s := iv + CbcEncrypt(c, key, iv, p);
            s[k + BLOCK_SIZE..k + 2 * BLOCK_SIZE] == c.Encrypt(key, Xor(p[k..k + BLOCK_SIZE], s[k..k + BLOCK_SIZE]))
    decreases |p|
  {
    hide Cipher.Valid, Xor, CbcEncrypt;
    var first, rest := p[..BLOCK_SIZE], p[BLOCK_SIZE..];
    var b := c.Encrypt(key, Xor(first, iv));
    var s, t := iv + CbcEncrypt(c, key, iv, p), b + CbcEncrypt(c, key, b, rest);
    assert p == first + rest;
    CbcEncryptStep(c, key, iv, first, rest);
    assert s == iv + t;
    if k == 0 {
      assert s[BLOCK_SIZE..2 * BLOCK_SIZE] == b && s[..BLOCK_SIZE] == iv;
    } else {
      var n := k - BLOCK_SIZE;
      CbcEncryptAt(c, key, b, rest, n);
      SliceBehind(iv, t, n, n + BLOCK_SIZE);
      SliceBehind(iv, t, n + BLOCK_SIZE, n + 2 * BLOCK_SIZE);
      SliceBehind(first, rest, n, n + BLOCK_SIZE);
    }
  }

  lemma {:induction false} CbcDecryptOfEncrypt(c: Cipher, key: Bytes, iv: Bytes, p: Bytes)
    requires c.Valid() && |iv| == BLOCK_SIZE && WholeBlocks(p)
    ensures CbcDecrypt(c, key, iv, CbcEncrypt(c, key, iv, p)) == p
    decreases |p|
  {
    hide Cipher.Valid, Xor;
    if p != [] {
      var head := p[..BLOCK_SIZE];
      var b := c.Encrypt(key, Xor(head, iv));
      var s := CbcEncrypt(c, key, iv, p);
      assert s[..BLOCK_SIZE] == b && s[BLOCK_SIZE..] == CbcEncrypt(c, key, b, p[BLOCK_SIZE..]);
      XorTwice(head, iv);
      CbcDecryptOfEncrypt(c, key, b, p[BLOCK_SIZE..]);
      assert p == head + p[BLOCK_SIZE..];
    }
  }

  lemma {:induction false} CbcEncryptOfDecrypt(c: Cipher, key: Bytes, iv: Bytes, s: Bytes)
    requires c.Valid() && |iv| == BLOCK_SIZE && WholeBlocks(s)
    ensures CbcEncrypt(c, key, iv, CbcDecrypt(c, key, iv, s)) == s
    decreases |s|
  {
    hide Cipher.Valid, Xor;
    if s != [] {
      var head := s[..BLOCK_SIZE];
      var b := Xor(c.Decrypt(key, head), iv);
      var p := CbcDecrypt(c, key, iv, s);
      assert p[..BLOCK_SIZE] == b && p[BLOCK_SIZE..] == CbcDecrypt(c, key, head, s[BLOCK_SIZE..]);
      XorTwice(c.Decrypt(key, head), iv);
      CbcEncryptOfDecrypt(c, key, head, s[BLOCK_SIZE..]);
      assert s == head + s[BLOCK_SIZE..];
    }
  }

  // --- padding, section 6.3 of RFC 5652 ---

  function Padding(n: nat): (r: Bytes)
    ensures 1 <= |r| <= BLOCK_SIZE && (n + |r|) % BLOCK_SIZE == 0
    ensures forall k | 0 <= k < |r| :: r[k] == |r|
  {
    var missing := BLOCK_SIZE - n % BLOCK_SIZE;
    seq(missing, _ => missing)
  }

  function Pad(p: Bytes): (r: Bytes)
    ensures WholeBlocks(r) && r != []
  {
    p + Padding(|p|)
  }

  function Unpad(p: Bytes): (r: Option<Bytes>)
    requires WholeBlocks(p) && p != []
    ensures r.Some? ==> r.value < p && |r.value| >= |p| - BLOCK_SIZE
  {
    var n := p[|p| - 1];
    if n == 0 || n > BLOCK_SIZE || (exists k | |p| - n <= k < |p| :: p[k] != n) then None
    else Some(p[..|p| - n])
  }

  /** Unpadding accepts exactly the padded texts and gives back what was padded. */
  lemma UnpadExactly(p: Bytes, x: Bytes)
    requires WholeBlocks(p) && p != []
    ensures Unpad(p) == Some(x) <==> p == Pad(x)
  {
  }

  /** Only the last block matters. */
  lemma UnpadLastBlock(a: Bytes, b: Bytes)
    requires WholeBlocks(a) && |b| == BLOCK_SIZE
    ensures WholeBlocks(a + b)
    ensures Unpad(a + b) == match Unpad(b) case None => None case Some(x) => Some(a + x)
  {
    var n := b[BLOCK_SIZE - 1];
    var p := a + b;
    if 0 < n <= BLOCK_SIZE {
      assert forall k | |p| - n <= k < |p| :: p[k] == b[k - |a|];
      assert forall k | BLOCK_SIZE - n <= k < BLOCK_SIZE :: b[k] == p[k + |a|];
      assert p[..|p| - n] == a + b[..BLOCK_SIZE - n];
    }
  }

  // --- GCM, sections 7.1 and 7.2 of NIST SP 800-38D ---

  /** Encryption and decryption of the bytes from position `start` on. */
  function GcmStream(c: Cipher, key: Bytes, iv: Bytes, start: nat, s: Bytes): (r: Bytes)
    ensures |r| == |s|
  {
    seq(|s|, k requires 0 <= k < |s| => XorByte(s[k], c.keyStream(key, iv, start + k)))
  }

  lemma GcmStreamAppend(c: Cipher, key: Bytes, iv: Bytes, a: Bytes, b: Bytes)
    ensures GcmStream(c, key, iv, 0, a + b) == GcmStream(c, key, iv, 0, a) + GcmStream(c, key, iv, |a|, b)
  {
  }

  lemma GcmStreamTwice(c: Cipher, key: Bytes, iv: Bytes, s: Bytes)
    ensures GcmStream(c, key, iv, 0, GcmStream(c, key, iv, 0, s)) == s
  {
  }
}
