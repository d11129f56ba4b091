/** The EVP cipher context of BoringSSL as src/crypto.cpp uses it: input arrives in pieces of any size and output is
    written as soon as it is final. */
module CipherCtx {
  import opened Prelude
  import opened Modes

  datatype AesMode = GCM | CBC

  /** The longest text that GCM takes under one IV, 2^39 - 256 bits (section 5.2.1.1 of NIST SP 800-38D). */
  const GCM_MAX_SIZE := 0x10_0000_0000 - 32

  /** Everything set on a context before the first `EVP_CipherUpdate` that is not additional data. */
  datatype Config = Config(mode: AesMode, encrypt: bool, key: Bytes, iv: Bytes, aad: Bytes, tag: Bytes) {

    predicate Valid() {
      |key| == KEY_SIZE && (mode == CBC ==> |iv| == BLOCK_SIZE)
    }
  }

  // --- what the context has written, as a function of what it was fed ---

  function WholePart(fed: Bytes): (n: nat)
    ensures n <= |fed| < n + BLOCK_SIZE
    ensures n % BLOCK_SIZE == 0
    ensures |fed| % BLOCK_SIZE == 0 ==> n == |fed|
  {
    |fed| / BLOCK_SIZE * BLOCK_SIZE
  }

  /** CBC encryption writes every completed block. CBC decryption keeps the last block back as long as nothing
      follows it, because it may hold the padding. GCM writes every byte. */
  function Emitted(c: Cipher, f: Config, fed: Bytes): (r: Bytes)
    requires c.Valid() && f.Valid()
    ensures |r| <= |fed|
  {
    match (f.mode, f.encrypt)
    case (CBC, true) => CbcEncrypt(c, f.key, f.iv, fed[..WholePart(fed)])
    case (CBC, false) => CbcDecrypt(c, f.key, f.iv, fed[..Released(fed)])
    case (GCM, _) => GcmStream(c, f.key, f.iv, 0, fed)
  }

  /** How many of the bytes fed to CBC decryption have been written. */
  function Released(fed: Bytes): (n: nat)
    ensures n <= |fed| && n % BLOCK_SIZE == 0
  {
    if |fed| % BLOCK_SIZE == 0 && fed != [] then |fed| - BLOCK_SIZE else WholePart(fed)
  }

  // --- the whole operation at once ---

  /** Whether the mode takes an input of this length. */
  predicate Accepts(f: Config, n: nat) {
    f.mode == GCM ==> n <= GCM_MAX_SIZE
  }

  /** Output and tag of one operation on the whole input; an error where a step fails. */
  function OneShot(c: Cipher, f: Config, data: Bytes): (r: Result<(Bytes, Bytes)>)
    requires c.Valid() && f.Valid()
  {
    if !Accepts(f, |data|) then RuntimeError
    else
    match (f.mode, f.encrypt)
    case (CBC, true) => Ok((CbcEncrypt(c, f.key, f.iv, Pad(data)), []))
    case (CBC, false) =>
      if data == [] || !WholeBlocks(data) then RuntimeError
      else
        (match Unpad(CbcDecrypt(c, f.key, f.iv, data))
         case None => RuntimeError
         case Some(p) => Ok((p, [])))
    case (GCM, true) =>
      var text := GcmStream(c, f.key, f.iv, 0, data);
      Ok((text, c.tag(f.key, f.iv, f.aad, text)))
    case (GCM, false) =>
      if f.tag <= c.tag(f.key, f.iv, f.aad, data) then Ok((GcmStream(c, f.key, f.iv, 0, data), []))
      else RuntimeError
  }

  // --- small facts about cutting the input into blocks ---

  /** The bytes carried over and the new ones, cut into blocks, continue the blocks already consumed. */
  lemma CarryOver(fed: Bytes, data: Bytes)
    ensures var input, all := fed[WholePart(fed)..] + data, fed + data;
            var n := WholePart(input);
            && WholePart(all) == WholePart(fed) + n
            && all[..WholePart(all)] == fed[..WholePart(fed)] + input[..n]
            && all[WholePart(all)..] == input[n..]
  {
  }

  /** Writing the blocks one by one: `k` of them are a prefix of the message they belong to. */
  lemma CbcDecryptSplit(c: Cipher, key: Bytes, iv: Bytes, s: Bytes, n: nat)
    requires c.Valid() && |iv| == BLOCK_SIZE && WholeBlocks(s) && n <= |s| && n % BLOCK_SIZE == 0
    ensures CbcDecrypt(c, key, iv, s[..n]) == CbcDecrypt(c, key, iv, s)[..n]
  {
    CbcDecryptAppend(c, key, iv, s[..n], s[n..]);
    assert s == s[..n] + s[n..];
  }

  /** One decryption step: the block held back and the newly decrypted ones, less the block held back now. */
  lemma CbcDecryptContinues(c: Cipher, f: Config, fed: Bytes, data: Bytes)
    requires c.Valid() && f.Valid() && f.mode == CBC && !f.encrypt && data != []
    ensures var input, all := fed[WholePart(fed)..] + data, fed + data;
            var n := WholePart(input);
            var before := fed[..WholePart(fed)];
            var ready := CbcDecrypt(c, f.key, f.iv, before)[Released(fed)..]
                         + CbcDecrypt(c, f.key, LastBlock(f.iv, before), input[..n]);
            var keep := if input[n..] == [] then BLOCK_SIZE else 0;
            && keep <= |ready| == WholePart(all) - |Emitted(c, f, fed)|
            && Emitted(c, f, all) == Emitted(c, f, fed) + ready[..|ready| - keep]
            && ready[|ready| - keep..] == CbcDecrypt(c, f.key, f.iv, all[..WholePart(all)])[Released(all)..]
  {
    hide Cipher.Valid, CbcDecrypt, LastBlock;
    CarryOver(fed, data);
    var input, all := fed[WholePart(fed)..] + data, fed + data;
    var n := WholePart(input);
    var before, after := fed[..WholePart(fed)], all[..WholePart(all)];
    var whole := CbcDecrypt(c, f.key, f.iv, before);
    CbcDecryptAppend(c, f.key, f.iv, before, input[..n]);
    EmittedWhenDecrypting(c, f, fed);
    EmittedWhenDecrypting(c, f, all);
    assert whole == whole[..Released(fed)] + whole[Released(fed)..];
  }

  lemma EmittedWhenDecrypting(c: Cipher, f: Config, fed: Bytes)
    requires c.Valid() && f.Valid() && f.mode == CBC && !f.encrypt
    ensures Released(fed) <= WholePart(fed)
    ensures Emitted(c, f, fed) == CbcDecrypt(c, f.key, f.iv, fed[..WholePart(fed)])[..Released(fed)]
  {
    CbcDecryptSplit(c, f.key, f.iv, fed[..WholePart(fed)], Released(fed));
    assert fed[..WholePart(fed)][..Released(fed)] == fed[..Released(fed)];
  }

  /** How much of the output has been counted as written. */
  function EmittedCount(f: Config, fed: Bytes): nat {
    match (f.mode, f.encrypt)
    case (CBC, true) => WholePart(fed)
    case (CBC, false) => Released(fed)
    case (GCM, _) => |fed|
  }

  lemma EmittedSize(c: Cipher, f: Config, fed: Bytes)
    requires c.Valid() && f.Valid()
    ensures |Emitted(c, f, fed)| == EmittedCount(f, fed)
  {
  }

  /** How many bytes of the caller's buffer an update writes. */
  function Touched(f: Config, fed: Bytes, data: Bytes): (n: nat)
    ensures EmittedCount(f, fed) + n <= |fed| + |data|
  {
    (if f.mode == CBC then WholePart(fed + data) else |fed + data|) - EmittedCount(f, fed)
  }

  lemma NothingFed(c: Cipher, f: Config)
    requires c.Valid() && f.Valid()
    ensures WholePart([]) == Released([]) == 0
    ensures GcmStream(c, f.key, f.iv, 0, []) == []
    ensures f.mode == CBC ==>
              && CbcEncrypt(c, f.key, f.iv, []) == []
              && CbcDecrypt(c, f.key, f.iv, []) == []
              && LastBlock(f.iv, []) == f.iv
  {
    hide Cipher.Valid;
  }

  class Ctx {
    const cipher: Cipher
    const config: Config

    /** The input bytes that do not fill a block yet. */
    var pending: Bytes
    /** CBC: the ciphertext block that the next block is chained to. */
    var chain: Bytes
    /** CBC decryption: the plaintext block kept back. */
    var held: Bytes
    /** GCM: the ciphertext that the tag covers. */
    var text: Bytes

    /** Everything fed to `Update` so far. */
    ghost var fed: Bytes

    ghost predicate Valid()
      reads this
    {
      && cipher.Valid()
      && config.Valid()
      && Accepts(config, |fed|)
      && match (config.mode, config.encrypt)
         case (CBC, true) =>
           && pending == fed[WholePart(fed)..]
           && chain == LastBlock(config.iv, CbcEncrypt(cipher, config.key, config.iv, fed[..WholePart(fed)]))
         case (CBC, false) =>
           && pending == fed[WholePart(fed)..]
           && chain == LastBlock(config.iv, fed[..WholePart(fed)])
           && held == CbcDecrypt(cipher, config.key, config.iv, fed[..WholePart(fed)])[Released(fed)..]
         case (GCM, encrypt) =>
           text == if encrypt then GcmStream(cipher, config.key, config.iv, 0, fed) else fed
    }

    lemma ValidParts()
      requires Valid()
      ensures cipher.Valid() && config.Valid() && Accepts(config, |fed|)
    {
    }

    constructor (cipher: Cipher, config: Config)
      requires cipher.Valid() && config.Valid()
      ensures Valid()
      ensures this.cipher == cipher && this.config == config && fed == []
    {
      hide Cipher.Valid, CbcEncrypt, CbcDecrypt, GcmStream, LastBlock, WholePart, Released;
      NothingFed(cipher, config);
      this.cipher := cipher;
      this.config := config;
      pending, chain, held, text := [], config.iv, [], [];
      fed := [];
    }

    method UpdateCbcEncrypt(data: Bytes) returns (out: Bytes)
      requires Valid() && config.mode == CBC && config.encrypt
      modifies this
      ensures Valid() && fed == old(fed) + data
      ensures Emitted(cipher, config, fed) == old(Emitted(cipher, config, fed)) + out
    {
      hide Cipher.Valid, CbcEncrypt, LastBlock, WholePart;
      CarryOver(fed, data);
      var input := pending + data;
      var n := WholePart(input);
      ghost var before := fed[..WholePart(fed)];
      CbcEncryptAppend(cipher, config.key, config.iv, before, input[..n]);
      LastBlockAppend(config.iv, CbcEncrypt(cipher, config.key, config.iv, before),
                      CbcEncrypt(cipher, config.key, chain, input[..n]));
      out := CbcEncrypt(cipher, config.key, chain, input[..n]);
      chain := LastBlock(chain, out);
      pending := input[n..];
      fed := fed + data;
    }

    /** Every block that is ready is put out, also the one that is then kept back; only the first `length` bytes
        count. */
    method UpdateCbcDecrypt(data: Bytes) returns (out: Bytes, length: nat)
      requires Valid() && config.mode == CBC && !config.encrypt && data != []
      modifies this
      ensures Valid() && fed == old(fed) + data
      ensures length <= |out| && |out| == WholePart(fed) - |old(Emitted(cipher, config, fed))|
      ensures Emitted(cipher, config, fed) == old(Emitted(cipher, config, fed)) + out[..length]
    {
      hide Cipher.Valid, CbcDecrypt, LastBlock, WholePart, Released;
      CarryOver(fed, data);
      var input := pending + data;
      var n := WholePart(input);
      CbcDecryptContinues(cipher, config, fed, data);
      LastBlockAppend(config.iv, fed[..WholePart(fed)], input[..n]);
      out := held + CbcDecrypt(cipher, config.key, chain, input[..n]);
      chain := LastBlock(chain, input[..n]);
      pending := input[n..];
      length := |out| - if pending == [] then BLOCK_SIZE else 0;
      held := out[length..];
      fed := fed + data;
    }

    method UpdateGcm(data: Bytes) returns (out: Bytes)
      requires Valid() && config.mode == GCM && Accepts(config, |fed| + |data|)
      modifies this
      ensures Valid() && fed == old(fed) + data
      ensures Emitted(cipher, config, fed) == old(Emitted(cipher, config, fed)) + out
    {
      hide Cipher.Valid, GcmStream;
      GcmStreamAppend(cipher, config.key, config.iv, fed, data);
      out := GcmStream(cipher, config.key, config.iv, |text|, data);
      text := text + if config.encrypt then out else data;
      fed := fed + data;
    }

    /** What an update puts out, and how much of it counts; `ok` is false when GCM would exceed its limit. */
    method Process(data: Bytes) returns (ok: bool, written: Bytes, length: nat)
      requires Valid() && data != []
      modifies this
      ensures ok == Accepts(config, |old(fed)| + |data|)
      ensures ok ==>
                && Valid() && fed == old(fed) + data
                && length <= |written| == Touched(config, old(fed), data)
                && Emitted(cipher, config, fed) == old(Emitted(cipher, config, fed)) + written[..length]
    {
      EmittedSize(cipher, config, fed);
      EmittedSize(cipher, config, fed + data);
      hide Emitted, Cipher.Valid, WholePart, Released;
      ok, written, length := true, [], 0;
      match (config.mode, config.encrypt) {
        case (CBC, true) =>
          written := UpdateCbcEncrypt(data);
          length := |written|;
        case (CBC, false) =>
          written, length := UpdateCbcDecrypt(data);
        case (GCM, _) =>
          if |text| + |data| > GCM_MAX_SIZE {
            ok := false;
          } else {
            written := UpdateGcm(data);
            length := |written|;
          }
      }
    }

    /** `EVP_CipherUpdate`: writes what has become final to `out` from position `at` on, or fails when GCM would exceed
        its limit. The caller must have left room for what is written, which for CBC decryption includes the block that
        is then kept back. */
    method Update(out: array<byte>, at: nat, data: Bytes) returns (ok: bool, length: nat)
      requires Valid() && data != []
      requires at + Touched(config, fed, data) <= out.Length
      modifies this, out
      ensures ok == Accepts(config, |old(fed)| + |data|)
      ensures !ok ==> out[..] == old(out[..])
      ensures ok ==>
                && Valid() && fed == old(fed) + data
                && length <= Touched(config, old(fed), data)
                && out[..at] == old(out[..at])
                && out[at + Touched(config, old(fed), data)..] == old(out[at + Touched(config, fed, data)..])
                && Emitted(cipher, config, fed) == old(Emitted(cipher, config, fed)) + out[at..at + length]
    {
      hide Emitted, Touched, Cipher.Valid;
      var written;
      ok, written, length := Process(data);
      if ok {
        Store(out, at, written);
        SlicePrefix(out, at, written, length);
      }
    }

    /** `EVP_CipherFinal_ex`: the last bytes of the output, or a failure (`ok` is false) when the input to CBC
        decryption is not a padded message or the GCM tag differs. */
    method Final(out: array<byte>, at: nat) returns (ok: bool, length: nat)
      requires Valid()
      requires var r := OneShot(cipher, config, fed);
               r.Ok? ==> at + |r.value.0| - |Emitted(cipher, config, fed)| <= out.Length
      modifies out
      ensures var r := OneShot(cipher, config, fed);
              && ok == r.Ok?
              && (ok ==> at + length <= out.Length
                         && out[..at] == old(out[..at])
                         && r.value.0 == Emitted(cipher, config, fed) + out[at..at + length])
    {
      hide CbcEncrypt, CbcDecrypt, Unpad, LastBlock;
      ok, length := true, 0;
      match (config.mode, config.encrypt) {
        case (CBC, true) =>
          FinalCbcEncrypt(cipher, config, fed);
          var written := CbcEncrypt(cipher, config.key, chain, pending + Padding(|pending|));
          Store(out, at, written);
          length := |written|;
        case (CBC, false) =>
          FinalCbcDecrypt(cipher, config, fed);
          if pending != [] || held == [] {
            ok := false;
          } else {
            match Unpad(held) {
              case None => ok := false;
              case Some(written) =>
                Store(out, at, written);
                length := |written|;
            }
          }
        case (GCM, true) =>
        case (GCM, false) =>
          ok := config.tag <= cipher.tag(config.key, config.iv, config.aad, text);
      }
    }

    /** `EVP_CTRL_AEAD_GET_TAG` after GCM encryption. */
    method GetTag() returns (tag: Bytes)
      requires Valid() && config.mode == GCM && config.encrypt
      ensures Ok((Emitted(cipher, config, fed), tag)) == OneShot(cipher, config, fed)
    {
      tag := cipher.tag(config.key, config.iv, config.aad, text);
    }
  }

  lemma SlicePrefix(out: array<byte>, at: nat, bytes: Bytes, n: nat)
    requires n <= |bytes| && at + |bytes| <= out.Length && out[at..at + |bytes|] == bytes
    ensures out[at..at + n] == bytes[..n]
  {
    assert out[at..at + n] == out[at..at + |bytes|][..n];
  }

  method Store(out: array<byte>, at: nat, bytes: Bytes)
    requires at + |bytes| <= out.Length
    modifies out
    ensures out[..at] == old(out[..at])
    ensures out[at..at + |bytes|] == bytes
    ensures out[at + |bytes|..] == old(out[at + |bytes|..])
  {
    var k := 0;
    while k < |bytes|
      invariant k <= |bytes|
      invariant out[..at] == old(out[..at])
      invariant out[at..at + k] == bytes[..k]
      invariant out[at + |bytes|..] == old(out[at + |bytes|..])
    {
      out[at + k] := bytes[k];
      k := k + 1;
    }
  }

  lemma FinalCbcEncrypt(c: Cipher, f: Config, fed: Bytes)
    requires c.Valid() && f.Valid() && f.mode == CBC && f.encrypt
    ensures var pending := fed[WholePart(fed)..];
            var chain := LastBlock(f.iv, CbcEncrypt(c, f.key, f.iv, fed[..WholePart(fed)]));
            && WholeBlocks(pending + Padding(|pending|))
            && OneShot(c, f, fed) ==
               Ok((Emitted(c, f, fed) + CbcEncrypt(c, f.key, chain, pending + Padding(|pending|)), []))
  {
    hide Cipher.Valid, CbcEncrypt, LastBlock;
    var before, pending := fed[..WholePart(fed)], fed[WholePart(fed)..];
    assert |fed| % BLOCK_SIZE == |pending| % BLOCK_SIZE;
    assert Padding(|fed|) == Padding(|pending|);
    assert Pad(fed) == before + (pending + Padding(|pending|));
    CbcEncryptAppend(c, f.key, f.iv, before, pending + Padding(|pending|));
  }

  lemma FinalCbcDecrypt(c: Cipher, f: Config, fed: Bytes)
    requires c.Valid() && f.Valid() && f.mode == CBC && !f.encrypt
    ensures var pending := fed[WholePart(fed)..];
            var held := CbcDecrypt(c, f.key, f.iv, fed[..WholePart(fed)])[Released(fed)..];
            if pending != [] || held == [] then OneShot(c, f, fed) == RuntimeError
            else
              && |held| == BLOCK_SIZE
              && OneShot(c, f, fed) == match Unpad(held)
                                       case None => RuntimeError
                                       case Some(p) => Ok((Emitted(c, f, fed) + p, []))
  {
    hide Cipher.Valid, CbcDecrypt, Unpad;
    EmittedWhenDecrypting(c, f, fed);
    var whole := CbcDecrypt(c, f.key, f.iv, fed[..WholePart(fed)]);
    var held := whole[Released(fed)..];
    if fed[WholePart(fed)..] == [] && held != [] {
      assert fed[..WholePart(fed)] == fed;
      assert whole == whole[..Released(fed)] + held;
      UnpadLastBlock(whole[..Released(fed)], held);
    }
  }

  lemma LastBlockAppend(iv: Bytes, a: Bytes, b: Bytes)
    requires |iv| == BLOCK_SIZE && WholeBlocks(a) && WholeBlocks(b)
    ensures WholeBlocks(a + b) && LastBlock(iv, a + b) == LastBlock(LastBlock(iv, a), b)
  {
    if b == [] {
      assert a + b == a;
    }
  }
}
