/** src/crypto.cpp: the chunked driver around the cipher context, and the messages made of IV, ciphertext and tag. */
module Crypto {
  import opened Prelude
  import opened Modes
  import opened CipherCtx

  const GCM_IV_SIZE := 12
  const IV_SIZE := 16
  const CHUNK_SIZE := 16384

  /** Sizes that the source passes to C functions as `int`. */
  predicate IsIntSize(s: Bytes) {
    |s| <= INT32_MAX
  }

  /** What `aes_256_crypt` returns, without pieces and buffers. `initialIv` is the IV that a fresh context holds,
      used by CBC when the caller gives none. */
  function Crypt(c: Cipher, initialIv: Bytes, data: Bytes, key: Bytes, iv: Bytes, aad: Bytes, tag: Bytes,
                 mode: AesMode, encrypt: bool): Result<(Bytes, Bytes)>
    requires c.Valid() && |initialIv| == BLOCK_SIZE
  {
    if mode == GCM && iv == [] then RuntimeError
    else if mode == CBC && |iv| != IV_SIZE && iv != [] then RuntimeError
    else if mode == GCM && !encrypt && |tag| > GCM_TAG_SIZE then RuntimeError
    else if |key| != KEY_SIZE then RuntimeError
    else OneShot(c, Config(mode, encrypt, key, if iv == [] then initialIv else iv, aad, tag), data)
  }

  function BlockSize(mode: AesMode): nat {
    if mode == CBC then BLOCK_SIZE else 1
  }

  /** The size of the buffer that `aes_256_crypt` allocates. */
  function BufferSize(mode: AesMode, encrypt: bool, n: nat): nat {
    if encrypt then n + BlockSize(mode) - n % BlockSize(mode) else n
  }

  /** How much of the buffer is used: CBC encryption fills it, GCM encryption leaves one byte, and CBC decryption
      drops between 1 and 16 bytes of padding. */
  lemma OutputSize(c: Cipher, f: Config, data: Bytes)
    requires c.Valid() && f.Valid()
    ensures var r := OneShot(c, f, data);
            r.Ok? ==>
              var used, size := |r.value.0|, BufferSize(f.mode, f.encrypt, |data|);
              && (f.mode == CBC && f.encrypt ==> used == size == BLOCK_SIZE * (|data| / BLOCK_SIZE + 1))
              && (f.mode == GCM && f.encrypt ==> used == |data| == size - 1)
              && (f.mode == CBC && !f.encrypt ==> size - BLOCK_SIZE <= used <= size - 1)
              && (f.mode == GCM && !f.encrypt ==> used == |data| == size)
  {
  }

  /** The loop of `aes_256_crypt`: all the data through `Update`, a piece at a time, into a buffer that is at least as
      long as the data; it stops when an update fails. */
  method FeedAll(ctx: Ctx, result: array<byte>, data: Bytes, chunkSize: nat) returns (ok: bool, total: nat)
    requires ctx.Valid() && ctx.fed == [] && chunkSize > 0 && |data| <= result.Length
    modifies ctx, result
    ensures ok == Accepts(ctx.config, |data|)
    ensures ok ==> ctx.Valid() && ctx.fed == data
    ensures ok ==> total <= result.Length && result[..total] == Emitted(ctx.cipher, ctx.config, data)
  {
    hide Cipher.Valid, Emitted, Touched, EmittedCount;
    NothingEmitted(ctx.cipher, ctx.config);
    total := 0;
    var rest := data;
    while rest != []
      invariant ctx.Valid() && ctx.fed + rest == data
      invariant total <= result.Length && result[..total] == Emitted(ctx.cipher, ctx.config, ctx.fed)
      decreases |rest|
    {
      var todo := if |rest| < chunkSize then |rest| else chunkSize;
      assert ctx.fed + rest[..todo] + rest[todo..] == data;
      ok, total := FeedPiece(ctx, result, total, rest[..todo]);
      if !ok {
        return false, 0;
      }
      rest := rest[todo..];
    }
    assert ctx.fed == data;
    ok := true;
  }

  /** One round of that loop. */
  method FeedPiece(ctx: Ctx, result: array<byte>, total: nat, piece: Bytes) returns (ok: bool, newTotal: nat)
    requires ctx.Valid() && piece != [] && |ctx.fed| + |piece| <= result.Length
    requires total <= result.Length && result[..total] == Emitted(ctx.cipher, ctx.config, ctx.fed)
    modifies ctx, result
    ensures ok == Accepts(ctx.config, |old(ctx.fed)| + |piece|)
    ensures ok ==>
              && ctx.Valid() && ctx.fed == old(ctx.fed) + piece
              && newTotal <= result.Length && result[..newTotal] == Emitted(ctx.cipher, ctx.config, ctx.fed)
  {
    ctx.ValidParts();
    hide Cipher.Valid, Ctx.Valid, Config.Valid, Emitted, EmittedCount, Touched, Accepts;
    EmittedSize(ctx.cipher, ctx.config, ctx.fed);
    var length;
    ok, length := ctx.Update(result, total, piece);
    newTotal := total + length;
    if ok {
      Continued(result, total, newTotal);
    }
  }

  lemma Continued(result: array<byte>, total: nat, newTotal: nat)
    requires total <= newTotal <= result.Length
    ensures result[..newTotal] == result[..total] + result[total..newTotal]
  {
  }

  /** `aes_256_crypt`. The source takes at most 16384 bytes at a time; the result does not depend on that number. */
  method Aes256Crypt(c: Cipher, initialIv: Bytes, data: Bytes, key: Bytes, iv: Bytes, aad: Bytes, tag: Bytes,
                     mode: AesMode, encrypt: bool, chunkSize: nat) returns (r: Result<(Bytes, Bytes)>)
    requires c.Valid() && |initialIv| == BLOCK_SIZE && chunkSize > 0
    requires IsIntSize(key) && IsIntSize(iv) && IsIntSize(aad) && IsIntSize(tag)
    requires mode == GCM && !encrypt ==> tag != []
    ensures r == Crypt(c, initialIv, data, key, iv, aad, tag, mode, encrypt)
  {
    hide Cipher.Valid, OneShot, Emitted, Accepts;
    var isAead := mode == GCM;
    if isAead {
      if iv == [] {
        return RuntimeError;
      }
    } else if |iv| != IV_SIZE && iv != [] {
      return RuntimeError;
    }
    if isAead && !encrypt && |tag| > GCM_TAG_SIZE {
      return RuntimeError;
    }
    if |key| != KEY_SIZE {
      return RuntimeError;
    }
    var f := Config(mode, encrypt, key, if iv == [] then initialIv else iv, aad, tag);
    var ctx := new Ctx(c, f);

    var maxLen := |data|;
    if encrypt {
      maxLen := maxLen + (BlockSize(mode) - maxLen % BlockSize(mode));
    }
    var result := new byte[maxLen];
    OutputSize(c, f, data);

    var fed, total := FeedAll(ctx, result, data, chunkSize);
    if !fed {
      TooLong(c, f, data);
      return RuntimeError;
    }

    var ok, length := ctx.Final(result, total);
    if !ok {
      return RuntimeError;
    }
    Continued(result, total, total + length);
    total := total + length;

    var newTag := [];
    if encrypt && isAead {
      newTag := ctx.GetTag();
      GcmEmitsAll(c, f, data);
    } else {
      NoTag(c, f, data);
    }
    return Ok((result[..total], newTag));
  }

  lemma NothingEmitted(c: Cipher, f: Config)
    requires c.Valid() && f.Valid()
    ensures Emitted(c, f, []) == []
  {
  }

  lemma GcmEmitsAll(c: Cipher, f: Config, data: Bytes)
    requires c.Valid() && f.Valid() && f.mode == GCM && f.encrypt && Accepts(f, |data|)
    ensures OneShot(c, f, data).Ok? && OneShot(c, f, data).value.0 == Emitted(c, f, data)
  {
  }

  lemma TooLong(c: Cipher, f: Config, data: Bytes)
    requires c.Valid() && f.Valid() && !Accepts(f, |data|)
    ensures OneShot(c, f, data) == RuntimeError
  {
  }

  lemma NoTag(c: Cipher, f: Config, data: Bytes)
    requires c.Valid() && f.Valid() && !(f.mode == GCM && f.encrypt)
    ensures OneShot(c, f, data).Ok? ==> OneShot(c, f, data).value.1 == []
  {
  }

  /** Exactly when encryption succeeds, and GCM decryption: any leading part of the right tag will do for the latter. */
  lemma CryptSucceeds(c: Cipher, initialIv: Bytes, data: Bytes, key: Bytes, iv: Bytes, aad: Bytes, tag: Bytes,
                      mode: AesMode, encrypt: bool)
    requires c.Valid() && |initialIv| == 16
    requires encrypt || mode == GCM
    ensures Crypt(c, initialIv, data, key, iv, aad, tag, mode, encrypt).Ok? <==>
            && |key| == 32
            && (mode == CBC ==> |iv| == 0 || |iv| == 16)
            && (mode == GCM ==> |iv| > 0 && |data| <= 68719476704)
            && (!encrypt ==> tag <= c.tag(key, iv, aad, data))
  {
  }

  // --- messages ---

  /** The size of the IV in front of a message. */
  function IvSize(mode: AesMode): nat {
    if mode == GCM then GCM_IV_SIZE else IV_SIZE
  }

  function TagSize(mode: AesMode): nat {
    if mode == GCM then GCM_TAG_SIZE else 0
  }

  /** What `aes_256_encrypt` returns when its random IV is `iv`. */
  function Encrypted(c: Cipher, data: Bytes, key: Bytes, mode: AesMode, aad: Bytes, iv: Bytes): (r: Result<Bytes>)
    requires c.Valid() && |iv| == IvSize(mode)
  {
    match Crypt(c, seq(BLOCK_SIZE, _ => 0), data, key, iv, if mode == GCM then aad else [], [], mode, true)
    case RuntimeError => RuntimeError
    case Ok((text, tag)) => Ok(iv + text + tag)
  }

  /** `std::size_t` arithmetic is modulo 2^64. */
  const SIZE_MODULUS := 0x1_0000_0000_0000_0000

  /** `data_size` of `aes_256_decrypt` for a message of `n` bytes. */
  function DataSize(mode: AesMode, n: nat): nat {
    if mode == GCM then ((n - GCM_IV_SIZE) % SIZE_MODULUS - GCM_TAG_SIZE) % SIZE_MODULUS
    else (n - IV_SIZE) % SIZE_MODULUS
  }

  /** The three spans that `aes_256_decrypt` cuts out of a message of `n` bytes: IV, ciphertext, tag. */
  predicate SpansInside(mode: AesMode, n: nat) {
    && IvSize(mode) <= n
    && IvSize(mode) + DataSize(mode, n) <= n
    && IvSize(mode) + DataSize(mode, n) + TagSize(mode) <= n
  }

  /** The ciphertext lies inside the message, and so do all three spans, exactly when the message is as long as IV and
      tag together. */
  lemma SpansInsideExactly(mode: AesMode, n: nat)
    requires n < 0x1_0000_0000_0000_0000
    ensures IvSize(mode) + DataSize(mode, n) <= n <==> n >= if mode == GCM then 12 + 16 else 16
    ensures SpansInside(mode, n) <==> n >= if mode == GCM then 12 + 16 else 16
    ensures SpansInside(mode, n) ==> IvSize(mode) + DataSize(mode, n) + TagSize(mode) == n
  {
    var k := IvSize(mode) + TagSize(mode);
    assert DataSize(mode, n) == if n >= k then n - k else n - k + SIZE_MODULUS;
  }

  /** For the empty message the ciphertext would be nearly 2^64 bytes long. */
  lemma EmptyMessage(mode: AesMode)
    ensures DataSize(mode, 0) == 0x1_0000_0000_0000_0000 - if mode == GCM then 12 + 16 else 16
    ensures !SpansInside(mode, 0)
  {
  }

  /** What `aes_256_decrypt` returns, on messages whose parts it finds inside the message. */
  function Decrypted(c: Cipher, message: Bytes, key: Bytes, mode: AesMode, aad: Bytes): (r: Result<Bytes>)
    requires c.Valid() && |message| >= IvSize(mode) + TagSize(mode)
  {
    var end := |message| - TagSize(mode);
    match Crypt(c, seq(BLOCK_SIZE, _ => 0), message[IvSize(mode)..end], key, message[..IvSize(mode)],
                if mode == GCM then aad else [], message[end..], mode, false)
    case RuntimeError => RuntimeError
    case Ok((data, _)) => Ok(data)
  }

  /** What `aes_256_cbc_decrypt_no_iv` returns. */
  function DecryptedNoIv(c: Cipher, initialIv: Bytes, data: Bytes, key: Bytes): (r: Result<Bytes>)
    requires c.Valid() && |initialIv| == BLOCK_SIZE
  {
    match Crypt(c, initialIv, data, key, [], [], [], CBC, false)
    case RuntimeError => RuntimeError
    case Ok((p, _)) => Ok(p)
  }

  method Aes256Encrypt(c: Cipher, data: Bytes, key: Bytes, mode: AesMode, aad: Bytes, randomBytes: Bytes)
      returns (r: Result<Bytes>)
    requires c.Valid() && |randomBytes| == IvSize(mode) && IsIntSize(key) && IsIntSize(aad)
    ensures r == Encrypted(c, data, key, mode, aad, randomBytes)
  {
    hide Crypt;
    var zero: Bytes := seq(BLOCK_SIZE, _ => 0);
    var iv := randomBytes;
    var result := Aes256Crypt(c, zero, data, key, iv, if mode == GCM then aad else [], [], mode, true, CHUNK_SIZE);
    match result {
      case RuntimeError => r := RuntimeError;
      case Ok((text, tag)) => r := Ok(iv + text + tag);
    }
  }

  method Aes256Decrypt(c: Cipher, data: Bytes, key: Bytes, mode: AesMode, aad: Bytes) returns (r: Result<Bytes>)
    requires c.Valid() && IsIntSize(key) && IsIntSize(aad)
    requires |data| < SIZE_MODULUS && SpansInside(mode, |data|)
    ensures |data| >= IvSize(mode) + TagSize(mode) && r == Decrypted(c, data, key, mode, aad)
  {
    hide Crypt, DataSize;
    SpansInsideExactly(mode, |data|);
    var zero: Bytes := seq(BLOCK_SIZE, _ => 0);
    var result;
    var dataSize := DataSize(mode, |data|);
    if mode == GCM {
      var tagStart := GCM_IV_SIZE + dataSize;
      assert data[tagStart..|data|] == data[|data| - GCM_TAG_SIZE..];
      result := Aes256Crypt(c, zero, data[GCM_IV_SIZE..tagStart], key, data[..GCM_IV_SIZE], aad,
                            data[tagStart..tagStart + GCM_TAG_SIZE], GCM, false, CHUNK_SIZE);
    } else {
      assert data[|data|..] == [];
      result := Aes256Crypt(c, zero, data[IV_SIZE..IV_SIZE + dataSize], key, data[..IV_SIZE], [], [],
                            CBC, false, CHUNK_SIZE);
    }
    match result {
      case RuntimeError => r := RuntimeError;
      case Ok((p, _)) => r := Ok(p);
    }
  }

  method Aes256CbcDecryptNoIv(c: Cipher, initialIv: Bytes, data: Bytes, key: Bytes) returns (r: Result<Bytes>)
    requires c.Valid() && |initialIv| == BLOCK_SIZE && IsIntSize(key)
    ensures r == DecryptedNoIv(c, initialIv, data, key)
  {
    hide Crypt;
    var result := Aes256Crypt(c, initialIv, data, key, [], [], [], CBC, false, CHUNK_SIZE);
    match result {
      case RuntimeError => r := RuntimeError;
      case Ok((p, _)) => r := Ok(p);
    }
  }

  // --- what the messages mean ---

  /** Encryption succeeds exactly with a 32-byte key and no more data than the mode takes, and decryption gives the data
      back. */
  lemma RoundTrip(c: Cipher, data: Bytes, key: Bytes, mode: AesMode, aad: Bytes, iv: Bytes)
    requires c.Valid() && |iv| == IvSize(mode)
    ensures var m := Encrypted(c, data, key, mode, aad, iv);
            && (m.Ok? <==> |key| == 32 && (mode == GCM ==> |data| <= 68719476704))
            && (m.Ok? ==>
                  && |m.value| == (if mode == GCM then 12 + |data| + 16 else 16 + 16 * (|data| / 16 + 1))
                  && Decrypted(c, m.value, key, mode, aad) == Ok(data))
  {
    hide Cipher.Valid, Decrypted;
    if |key| == KEY_SIZE {
      if mode == CBC {
        CbcMessage(c, data, key, aad, iv);
      } else {
        GcmMessage(c, data, key, aad, iv);
      }
    }
    if Encrypted(c, data, key, mode, aad, iv).Ok? {
      var m := Encrypted(c, data, key, mode, aad, iv).value;
      assert m[..IvSize(mode)] == iv;
      DecryptionExactly(c, m, key, mode, aad, data);
    }
  }

  /** Decryption succeeds exactly on the messages that encryption makes, with the IV they begin with: nothing else is
      ever accepted, for CBC because of the padding and for GCM because of the tag. */
  lemma DecryptionExactly(c: Cipher, message: Bytes, key: Bytes, mode: AesMode, aad: Bytes, data: Bytes)
    requires c.Valid() && |message| >= IvSize(mode) + TagSize(mode)
    ensures Decrypted(c, message, key, mode, aad) == Ok(data) <==>
            Encrypted(c, data, key, mode, aad, message[..IvSize(mode)]) == Ok(message)
  {
    hide Cipher.Valid;
    if |key| == KEY_SIZE {
      var iv := message[..IvSize(mode)];
      if mode == CBC {
        CbcMessage(c, data, key, aad, iv);
        DecryptedCbc(c, message, key, aad, data);
      } else {
        GcmMessage(c, data, key, aad, iv);
        DecryptedGcm(c, message, key, aad, data);
      }
    }
  }

  lemma CbcMessage(c: Cipher, data: Bytes, key: Bytes, aad: Bytes, iv: Bytes)
    requires c.Valid() && |iv| == IV_SIZE && |key| == KEY_SIZE
    ensures Encrypted(c, data, key, CBC, aad, iv) == Ok(iv + CbcEncrypt(c, key, iv, Pad(data)))
  {
    hide Cipher.Valid, CbcEncrypt, Pad;
    var text := CbcEncrypt(c, key, iv, Pad(data));
    assert iv + text + [] == iv + text;
  }

  lemma GcmMessage(c: Cipher, data: Bytes, key: Bytes, aad: Bytes, iv: Bytes)
    requires c.Valid() && |iv| == GCM_IV_SIZE && |key| == KEY_SIZE
    ensures var text := GcmStream(c, key, iv, 0, data);
            && |c.tag(key, iv, aad, text)| == GCM_TAG_SIZE
            && Encrypted(c, data, key, GCM, aad, iv) ==
               if |data| <= GCM_MAX_SIZE then Ok(iv + text + c.tag(key, iv, aad, text)) else RuntimeError
  {
  }

  /** A GCM message byte by byte: the IV; every byte of the data combined with the byte of the key stream at the same
      position, the sum of their bits without carry; the tag over the additional data and the ciphertext. */
  lemma GcmBytes(c: Cipher, data: Bytes, key: Bytes, aad: Bytes, iv: Bytes)
    requires c.Valid() && |iv| == 12 && |key| == 32 && |data| <= 68719476704
    ensures Encrypted(c, data, key, GCM, aad, iv).Ok?
    ensures var m := Encrypted(c, data, key, GCM, aad, iv).value;
            && |m| == 12 + |data| + 16
            && m[..12] == iv
            && m[12 + |data|..] == c.tag(key, iv, aad, m[12..12 + |data|])
            && forall k, j | 0 <= k < |data| && 0 <= j < 8 ::
                 Bit(m[12 + k], j) == (Bit(data[k], j) + Bit(c.keyStream(key, iv, k), j)) % 2
  {
    hide Cipher.Valid, Bit, XorByte;
    GcmMessage(c, data, key, aad, iv);
    var m, text := Encrypted(c, data, key, GCM, aad, iv).value, GcmStream(c, key, iv, 0, data);
    assert m[12..12 + |data|] == text && m[12 + |data|..] == c.tag(key, iv, aad, text);
    forall k, j | 0 <= k < |data| && 0 <= j < 8
      ensures Bit(m[12 + k], j) == (Bit(data[k], j) + Bit(c.keyStream(key, iv, k), j)) % 2
    {
      XorByteBits(data[k], c.keyStream(key, iv, k), j);
    }
  }

  /** A CBC message byte by byte: the IV, then one block after the other. The block cipher was given, at every position,
      the byte of the data (behind their end the number of bytes missing to a whole block) combined with the message
      byte sixteen places before. */
  lemma CbcBytes(c: Cipher, data: Bytes, key: Bytes, aad: Bytes, iv: Bytes, k: nat)
    requires c.Valid() && |iv| == 16 && |key| == 32
    requires k % 16 == 0 && k <= |data|
    ensures Encrypted(c, data, key, CBC, aad, iv).Ok?
    ensures var m := Encrypted(c, data, key, CBC, aad, iv).value;
            && |m| == 16 + 16 * (|data| / 16 + 1)
            && k + 32 <= |m|
            && m[..16] == iv
            && var mixed := c.decrypt(key, m[k + 16..k + 32]);
            && |mixed| == 16
            && m[k + 16..k + 32] == c.encrypt(key, mixed)
            && forall i, j | 0 <= i < 16 && 0 <= j < 8 ::
                 var plain := if k + i < |data| then data[k + i] else 16 - |data| % 16;
                 Bit(mixed[i], j) == (Bit(plain, j) + Bit(m[k + i], j)) % 2
  {
    hide Cipher.Valid, CbcEncrypt, Bit, XorByte, Encrypted;
    CbcMessage(c, data, key, aad, iv);
    var p, m := Pad(data), Encrypted(c, data, key, CBC, aad, iv).value;
    CbcEncryptAt(c, key, iv, p, k);
    var a, b := p[k..k + 16], m[k..k + 16];
    assert c.decrypt(key, m[k + 16..k + 32]) == Xor(a, b);
    forall i, j | 0 <= i < 16 && 0 <= j < 8
      ensures Bit(Xor(a, b)[i], j) ==
              (Bit(if k + i < |data| then data[k + i] else 16 - |data| % 16, j) + Bit(m[k + i], j)) % 2
    {
      assert a[i] == if k + i < |data| then data[k + i] else 16 - |data| % 16;
      XorByteBits(a[i], b[i], j);
    }
  }

  lemma DecryptedCbc(c: Cipher, message: Bytes, key: Bytes, aad: Bytes, data: Bytes)
    requires c.Valid() && |message| >= IV_SIZE && |key| == KEY_SIZE
    ensures var iv := message[..IV_SIZE];
            Decrypted(c, message, key, CBC, aad) == Ok(data) <==>
            message == iv + CbcEncrypt(c, key, iv, Pad(data))
  {
    hide Cipher.Valid, CbcEncrypt, CbcDecrypt, Pad, Unpad;
    var iv, text := message[..IV_SIZE], message[IV_SIZE..];
    assert message[IV_SIZE..|message| - TagSize(CBC)] == text && message == iv + text;
    if text != [] && WholeBlocks(text) {
      UnpadExactly(CbcDecrypt(c, key, iv, text), data);
      CbcEncryptOfDecrypt(c, key, iv, text);
    }
    CbcDecryptOfEncrypt(c, key, iv, Pad(data));
    assert message == iv + CbcEncrypt(c, key, iv, Pad(data)) ==> text == CbcEncrypt(c, key, iv, Pad(data));
  }

  lemma DecryptedGcm(c: Cipher, message: Bytes, key: Bytes, aad: Bytes, data: Bytes)
    requires c.Valid() && |message| >= GCM_IV_SIZE + GCM_TAG_SIZE && |key| == KEY_SIZE
    ensures var iv, text := message[..GCM_IV_SIZE], GcmStream(c, key, message[..GCM_IV_SIZE], 0, data);
            Decrypted(c, message, key, GCM, aad) == Ok(data) <==>
            |data| <= GCM_MAX_SIZE && message == iv + text + c.tag(key, iv, aad, text)
  {
    hide GcmStream;
    var end := |message| - GCM_TAG_SIZE;
    var iv, text, tag := message[..GCM_IV_SIZE], message[GCM_IV_SIZE..end], message[end..];
    assert message == iv + text + tag;
    var wanted := GcmStream(c, key, iv, 0, data);
    GcmStreamTwice(c, key, iv, text);
    GcmStreamTwice(c, key, iv, data);
    var other := iv + wanted + c.tag(key, iv, aad, wanted);
    assert other[GCM_IV_SIZE..|other| - GCM_TAG_SIZE] == wanted;
    assert other[|other| - GCM_TAG_SIZE..] == c.tag(key, iv, aad, wanted);
  }

  /** Decrypting without an IV is decrypting the message that has the IV of the fresh context in front. */
  lemma NoIvIsDecryption(c: Cipher, initialIv: Bytes, data: Bytes, key: Bytes, aad: Bytes)
    requires c.Valid() && |initialIv| == 16
    ensures DecryptedNoIv(c, initialIv, data, key) == Decrypted(c, initialIv + data, key, CBC, aad)
  {
    hide Cipher.Valid, OneShot;
    var message := initialIv + data;
    assert message[..16] == initialIv && message[16..|message|] == data && message[|message|..] == [];
  }

  /** Decrypting a whole CBC message, IV included, without saying what the IV is: one garbled block, then exactly
      the plaintext. */
  lemma NoIvResynchronises(c: Cipher, initialIv: Bytes, data: Bytes, key: Bytes, aad: Bytes, iv: Bytes)
    requires c.Valid() && |initialIv| == |iv| == IV_SIZE && |key| == KEY_SIZE
    ensures var m := Encrypted(c, data, key, CBC, aad, iv);
            m.Ok? && DecryptedNoIv(c, initialIv, m.value, key) == Ok(Xor(c.Decrypt(key, iv), initialIv) + data)
  {
    hide Cipher.Valid, CbcEncrypt, Pad, Unpad, Xor;
    CbcMessage(c, data, key, aad, iv);
    var text := CbcEncrypt(c, key, iv, Pad(data));
    var message, garbled := iv + text, Xor(c.Decrypt(key, iv), initialIv);
    assert message[..BLOCK_SIZE] == iv && message[BLOCK_SIZE..] == text;
    CbcDecryptOfEncrypt(c, key, iv, Pad(data));
    assert CbcDecrypt(c, key, initialIv, message) == garbled + Pad(data);
    assert garbled + Pad(data) == Pad(garbled + data) by {
      PadBehindBlock(garbled, data);
    }
    UnpadExactly(garbled + Pad(data), garbled + data);
  }

  lemma PadBehindBlock(a: Bytes, p: Bytes)
    requires |a| == BLOCK_SIZE
    ensures a + Pad(p) == Pad(a + p)
  {
    assert Padding(|p|) == Padding(|a + p|);
  }
}
