/** Hybrid encryption: the data under Camellia with a fresh key, the key under DM-RSA. */
module Hybrid {
  import opened Wrappers
  import opened NumberTheory
  import opened Words
  import opened Convert
  import opened DmRsa
  import C = Camellia

  datatype Envelope = Envelope(dataPadding: nat, keyPadding: nat, cipherData: seq<byte>, cipherKey: seq<byte>)

  /** The result of encryption under the given fresh key; the paddings are cast to one byte. */
  function Seal(f: C.RoundFunction, key: PublicKey, symmetricKey: seq<byte>, data: seq<byte>): Result<Envelope, string>
    requires |symmetricKey| == C.KEY_BYTE
  {
    match EncryptAll(key, Blocks(symmetricKey))
    case Err(e) => Err(e)
    case Ok(words) =>
      Ok(Envelope(C.Fill(|data|) % 256, Filler(|symmetricKey|) % 256,
                  C.EncryptBytes(f, C.Schedule(f, symmetricKey), data), WordsToBytes(words, CIPHER_SIZE)))
  }

  function Open(f: C.RoundFunction, key: PrivateKey, envelope: Envelope): Result<seq<byte>, string>
    requires key.n1 > 0 && key.n2 > 0
    requires |envelope.cipherData| % C.KEY_BYTE == 0 ==> envelope.dataPadding <= |envelope.cipherData|
  {
    if |envelope.cipherKey| % CIPHER_SIZE != 0 then Err("cipher text should be multiple of 8")
    else
      var blocks := DecryptAll(key, CipherWords(envelope.cipherKey));
      if |blocks| * BLOCK_SIZE - envelope.keyPadding != C.KEY_BYTE then Err("decrypted key is malformed")
      else
        C.DecryptBytes(f, C.Schedule(f, ByteSpan(blocks, envelope.keyPadding)), envelope.cipherData,
            envelope.dataPadding)
  }

  method Encrypt(f: C.RoundFunction, key: PublicKey, symmetricKey: seq<byte>, data: seq<byte>)
    returns (r: Result<Envelope, string>)
    requires |symmetricKey| == C.KEY_BYTE
    ensures r == Seal(f, key, symmetricKey, data)
  {
    hide C.Schedule, C.EncryptBytes;
    var symmetric := new C.Cipher128(f, symmetricKey);
    var dataPadding, encData := symmetric.Encrypts(data);
    var encKey := Encrypts(key, symmetricKey);
    if encKey.Err? {
      return Err(encKey.error);
    }
    var (keyPadding, words) := encKey.value;
    r := Ok(Envelope(dataPadding % 256, keyPadding % 256, encData, WordsToBytes(words, CIPHER_SIZE)));
  }

  method Decrypt(f: C.RoundFunction, key: PrivateKey, envelope: Envelope) returns (r: Result<seq<byte>, string>)
    requires key.d1 > 0 && key.d2 > 0 && key.n1 > 0 && key.n2 > 0
    requires |envelope.cipherData| % C.KEY_BYTE == 0 ==> envelope.dataPadding <= |envelope.cipherData|
    ensures r == Open(f, key, envelope)
  {
    hide C.Schedule, C.DecryptBytes;
    var blocks := Decrypts(key, envelope.cipherKey);
    if blocks.Err? {
      return Err(blocks.error);
    }
    if |blocks.value| * BLOCK_SIZE - envelope.keyPadding != C.KEY_BYTE {
      return Err("decrypted key is malformed");
    }
    var symmetric := new C.Cipher128(f, ByteSpan(blocks.value, envelope.keyPadding));
    r := symmetric.Decrypts(envelope.cipherData, envelope.dataPadding);
  }

  /** Whatever is sealed for a key pair opens to the same bytes, for data of every length
      and every fresh key. */
  lemma SealThenOpen(f: C.RoundFunction, key: KeyPair, symmetricKey: seq<byte>, data: seq<byte>)
    requires key.Valid() && |symmetricKey| == C.KEY_BYTE
    ensures key.n1 > 0 && key.n2 > 0
    ensures var sealed := Seal(f, key.Public(), symmetricKey, data);
            sealed.Ok? ==>
              && 1 <= sealed.value.dataPadding <= C.KEY_BYTE && sealed.value.keyPadding == 0
              && sealed.value.dataPadding <= |sealed.value.cipherData|
              && Open(f, key.Private(), sealed.value) == Ok(data)
  {
    hide C.Schedule, C.EncryptBytes, C.DecryptBytes, Blocks, EncryptAll, DecryptAll, ByteSpan, CipherWords, IsPrime;
    BytesRoundTrip(key, symmetricKey);
    C.BytesRoundTrip(f, C.Schedule(f, symmetricKey), data);
  }

  /** What a sealed envelope holds: the data under the fresh key, and the fresh key as eight
      bytes of cipher for each of its four blocks. */
  lemma SealedIs(f: C.RoundFunction, key: KeyPair, symmetricKey: seq<byte>, data: seq<byte>)
    requires key.Valid() && |symmetricKey| == 16
    ensures var sealed := Seal(f, key.Public(), symmetricKey, data);
            sealed.Ok? ==>
              && |sealed.value.cipherKey| == 32
              && AreCiphers(key, symmetricKey, CipherWords(sealed.value.cipherKey))
              && sealed.value.dataPadding <= |sealed.value.cipherData|
              && C.DecryptBytes(f, C.Schedule(f, symmetricKey), sealed.value.cipherData, sealed.value.dataPadding)
                 == Ok(data)
  {
    hide C.Schedule, C.EncryptBytes, C.DecryptBytes, Blocks, EncryptAll, AreCiphers, IsPrime;
    C.BytesRoundTrip(f, C.Schedule(f, symmetricKey), data);
    var words := EncryptAll(key.Public(), Blocks(symmetricKey));
    if words.Ok? {
      CipherWordsAre(key, symmetricKey);
      PowOf256();
      BytesToWordsOfWordsToBytes(words.value, CIPHER_SIZE);
    }
  }

  /** Which envelopes open, and under which key their data is then decrypted: the words of the
      cipher key, deciphered and written out as bytes, without the padding. */
  lemma OpenIs(f: C.RoundFunction, key: PrivateKey, envelope: Envelope) returns (k: seq<byte>, blocks: seq<u32>)
    requires key.n1 > 0 && key.n2 > 0
    requires |envelope.cipherData| % 16 == 0 ==> envelope.dataPadding <= |envelope.cipherData|
    ensures var words := |envelope.cipherKey| / 8;
            Open(f, key, envelope).Ok? <==>
              |envelope.cipherKey| % 8 == 0 && 4 * words - envelope.keyPadding == 16 && |envelope.cipherData| % 16 == 0
    ensures Open(f, key, envelope).Ok? ==>
              && AreDeciphered(key, envelope.cipherKey, blocks)
              && |k| == 16 && k <= WordsToBytes(blocks, 4)
              && Open(f, key, envelope)
                 == C.DecryptBytes(f, C.Schedule(f, k), envelope.cipherData, envelope.dataPadding)
  {
    hide C.Schedule, DecryptAll, CipherWords, AreDeciphered, C.Ecb, DecryptWord;
    DeciphersAre(key, envelope.cipherKey);
    blocks := DecryptAll(key, CipherWords(envelope.cipherKey));
    k := if envelope.keyPadding <= |blocks| * BLOCK_SIZE then ByteSpan(blocks, envelope.keyPadding) else [];
  }

  /** The fresh key whose first block is b. */
  function KeyStarting(b: u32): (k: seq<byte>)
    ensures |k| == C.KEY_BYTE
  {
    LeBytes(b, BLOCK_SIZE) + C.Zeros(12)
  }

  lemma FirstBlockIs(b: u32)
    ensures |Blocks(KeyStarting(b))| > 0 && Blocks(KeyStarting(b))[0] == b
  {
    var k := KeyStarting(b);
    PowOf256();
    FullBlock(k, 0);
    assert k[0..4] == LeBytes(b, BLOCK_SIZE);
    LeNatOfLeBytes(b, BLOCK_SIZE);
  }

  lemma {:induction false} AllBlocksEncrypt(key: PublicKey, blocks: seq<u32>)
    requires forall b: u32 :: EncryptWord(key, b).Ok?
    ensures EncryptAll(key, blocks).Ok?
    decreases |blocks|
  {
    if blocks != [] {
      AllBlocksEncrypt(key, blocks[..|blocks| - 1]);
    }
  }

  /** Under any public key, sealing works for every fresh key exactly when every block encrypts. */
  lemma AlwaysSealsIffBlocks(f: C.RoundFunction, key: PublicKey, data: seq<byte>)
    ensures (forall k: seq<byte> :: |k| == C.KEY_BYTE ==> Seal(f, key, k, data).Ok?)
       <==> forall b: u32 :: EncryptWord(key, b).Ok?
  {
    hide EncryptWord, C.Schedule, C.EncryptBytes, Blocks, KeyStarting;
    if b: u32 :| EncryptWord(key, b).Err? {
      FirstBlockIs(b);
      EncryptAllFails(key, Blocks(KeyStarting(b)), 0);
      assert Seal(f, key, KeyStarting(b), data).Err?;
    } else {
      forall k: seq<byte> | |k| == C.KEY_BYTE
        ensures Seal(f, key, k, data).Ok?
      {
        AllBlocksEncrypt(key, Blocks(k));
      }
    }
  }

  /** When sealing works for every fresh key, both moduli are at least 2^32; under n1 <= n2, as in
      every generated pair, that is also enough. */
  lemma AlwaysSealsIff(f: C.RoundFunction, key: KeyPair, data: seq<byte>)
    requires key.Valid()
    ensures var always := forall k: seq<byte> :: |k| == C.KEY_BYTE ==> Seal(f, key.Public(), k, data).Ok?;
            && (always ==> TWO_32 <= key.n1 && TWO_32 <= key.n2)
            && (key.n1 <= key.n2 ==> (always <==> TWO_32 <= key.n1))
  {
    hide EncryptWord, Seal;
    AlwaysSealsIffBlocks(f, key.Public(), data);
    AlwaysEncryptsNeeds(key);
  }
}
