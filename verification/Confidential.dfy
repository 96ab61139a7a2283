/**
 * The wire format of confidential payloads (packages/confidential/src/index.ts):
 * PUBLIC_KEY || CIPHER_LENGTH || AAD_LENGTH || CIPHER || AAD || NONCE, with both lengths as
 * little endian 64-bit numbers.
 */
module Confidential {
  import opened Wrappers
  import opened Positional
  import Bytes

  const KEY_SIZE: nat := 32
  const NONCE_SIZE: nat := 15
  const CIPHER_LEN_SIZE: nat := 8
  const AAD_LEN_SIZE: nat := 8

  datatype Error =
    | TooShort
    | InvalidLength
    | Number(inner: Bytes.Error)
    | NotANumber
    | TooLarge
    | OpenFailed

  datatype Parts = Parts(publicKey: seq<byte>, ciphertext: seq<byte>, aad: seq<byte>, nonce: seq<byte>)

  function CiphertextSize(cipherLen: nat, aadLen: nat): nat {
    KEY_SIZE + CIPHER_LEN_SIZE + AAD_LEN_SIZE + cipherLen + aadLen + NONCE_SIZE
  }

  // ---------------------------------------------------------------------------
  // What the format is, independently of how it is read and written
  // ---------------------------------------------------------------------------

  predicate ValidParts(p: Parts) {
    && |p.publicKey| == KEY_SIZE
    && |p.nonce| == NONCE_SIZE
    && |p.ciphertext| < Bytes.MAX_SAFE_INTEGER
    && |p.aad| < Bytes.MAX_SAFE_INTEGER
  }

  function Layout(p: Parts): seq<byte> {
    Sections(p, LittleEndian(|p.ciphertext|, CIPHER_LEN_SIZE), LittleEndian(|p.aad|, AAD_LEN_SIZE))
  }

  function Sections(p: Parts, cipherField: seq<byte>, aadField: seq<byte>): seq<byte> {
    p.publicKey + cipherField + aadField + p.ciphertext + p.aad + p.nonce
  }

  // ---------------------------------------------------------------------------
  // Splitting
  // ---------------------------------------------------------------------------

  function ReadLength(field: seq<byte>): Result<nat, Error> {
    match Bytes.ToNumber(field, true)
    case Err(e) => Err(Number(e))
    case Ok(NaN) => Err(NotANumber)
    case Ok(Number(n)) => Ok(n)
  }

  function Carve(e: seq<byte>, cipherLength: nat, aadLength: nat): Parts
    requires |e| == CiphertextSize(cipherLength, aadLength)
  {
    Parts(e[..32], e[48..48 + cipherLength], e[48 + cipherLength..48 + cipherLength + aadLength],
          e[48 + cipherLength + aadLength..])
  }

  function Split(encryption: seq<byte>): Result<Parts, Error> {
    if |encryption| < CiphertextSize(0, 0) then Err(TooShort)
    else
      var cipherLength :- ReadLength(encryption[32..40]);
      var aadLength :- ReadLength(encryption[40..48]);
      if |encryption| != CiphertextSize(cipherLength, aadLength) then Err(InvalidLength)
      else
        Ok(Carve(encryption, cipherLength, aadLength))
  }

  lemma {:induction false} ReadLengthIsValue(field: seq<byte>)
    requires |field| == 8
    ensures ReadLength(field) ==
      if ValueLE(field) < Bytes.MAX_SAFE_INTEGER then Ok(ValueLE(field)) else Err(Number(Bytes.Overflow))
  {
    Bytes.ToNumberIsValue(field, true);
  }

  lemma {:induction false} LengthField(field: seq<byte>, n: nat)
    requires |field| == 8 && n < Bytes.MAX_SAFE_INTEGER
    ensures ReadLength(field) == Ok(n) <==> field == LittleEndian(n, CIPHER_LEN_SIZE)
  {
    ReadLengthIsValue(field);
    Pow256Of8();
    ValueOfLittleEndian(n, CIPHER_LEN_SIZE);
    if ValueLE(field) == n {
      ValueLEInjective(field, LittleEndian(n, CIPHER_LEN_SIZE));
    }
  }

  lemma SectionsAt(p: Parts, cipherField: seq<byte>, aadField: seq<byte>)
    requires |p.publicKey| == 32 && |cipherField| == 8 && |aadField| == 8 && |p.nonce| == 15
    ensures var e, c, a := Sections(p, cipherField, aadField), |p.ciphertext|, |p.aad|;
      && |e| == 63 + c + a
      && e[..32] == p.publicKey && e[32..40] == cipherField && e[40..48] == aadField
      && e[48..48 + c] == p.ciphertext && e[48 + c..48 + c + a] == p.aad && e[48 + c + a..] == p.nonce
  {
  }

  /** Where the six sections of a laid out payload are. */
  lemma LayoutSections(p: Parts)
    requires ValidParts(p)
    ensures var e, c, a := Layout(p), |p.ciphertext|, |p.aad|;
      && |e| == 63 + c + a
      && e[..32] == p.publicKey
      && e[32..40] == LittleEndian(c, CIPHER_LEN_SIZE) && ValueLE(e[32..40]) == c
      && e[40..48] == LittleEndian(a, AAD_LEN_SIZE) && ValueLE(e[40..48]) == a
      && e[48..48 + c] == p.ciphertext
      && e[48 + c..48 + c + a] == p.aad
      && e[48 + c + a..] == p.nonce
  {
    Pow256Of8();
    ValueOfLittleEndian(|p.ciphertext|, CIPHER_LEN_SIZE);
    ValueOfLittleEndian(|p.aad|, AAD_LEN_SIZE);
    SectionsAt(p, LittleEndian(|p.ciphertext|, CIPHER_LEN_SIZE), LittleEndian(|p.aad|, AAD_LEN_SIZE));
  }

  lemma SplitAccepts(p: Parts)
    requires ValidParts(p)
    ensures Split(Layout(p)) == Ok(p)
  {
    LayoutSections(p);
    LengthField(Layout(p)[32..40], |p.ciphertext|);
    LengthField(Layout(p)[40..48], |p.aad|);
  }

  lemma CutAt<T>(s: seq<T>, i: nat, j: nat)
    requires i <= j <= |s|
    ensures s[i..] == s[i..j] + s[j..]
  {
  }

  lemma Nested<T>(a: seq<T>, b: seq<T>, c: seq<T>, d: seq<T>, e: seq<T>, f: seq<T>)
    ensures a + b + c + d + e + f == a + (b + (c + (d + (e + f))))
  {
  }

  lemma CarvedSections(e: seq<byte>, c: nat, a: nat)
    requires |e| == CiphertextSize(c, a)
    ensures Sections(Carve(e, c, a), e[32..40], e[40..48]) == e
  {
    var p := Carve(e, c, a);
    assert e[48 + c..] == p.aad + p.nonce by { CutAt(e, 48 + c, 48 + c + a); }
    assert e[48..] == p.ciphertext + e[48 + c..] by { CutAt(e, 48, 48 + c); }
    assert e[40..] == e[40..48] + e[48..] by { CutAt(e, 40, 48); }
    assert e[32..] == e[32..40] + e[40..] by { CutAt(e, 32, 40); }
    assert e == p.publicKey + e[32..];
    Nested(p.publicKey, e[32..40], e[40..48], p.ciphertext, p.aad, p.nonce);
  }

  lemma {:induction false} CarvedRebuild(e: seq<byte>, c: nat, a: nat)
    requires |e| == CiphertextSize(c, a) && c < Bytes.MAX_SAFE_INTEGER && a < Bytes.MAX_SAFE_INTEGER
    requires e[32..40] == LittleEndian(c, CIPHER_LEN_SIZE) && e[40..48] == LittleEndian(a, AAD_LEN_SIZE)
    ensures ValidParts(Carve(e, c, a)) && e == Layout(Carve(e, c, a))
  {
    CarvedSections(e, c, a);
    LayoutIsSections(Carve(e, c, a), e[32..40], e[40..48]);
  }

  lemma LayoutIsSections(p: Parts, cipherField: seq<byte>, aadField: seq<byte>)
    requires cipherField == LittleEndian(|p.ciphertext|, CIPHER_LEN_SIZE)
    requires aadField == LittleEndian(|p.aad|, AAD_LEN_SIZE)
    ensures Layout(p) == Sections(p, cipherField, aadField)
  {
  }

  lemma SplitRebuilds(encryption: seq<byte>)
    requires Split(encryption).Ok?
    ensures ValidParts(Split(encryption).value) && encryption == Layout(Split(encryption).value)
  {
    var cipherField, aadField := encryption[32..40], encryption[40..48];
    ReadLengthIsValue(cipherField);
    ReadLengthIsValue(aadField);
    var c, a := ReadLength(cipherField).value, ReadLength(aadField).value;
    LengthField(cipherField, c);
    LengthField(aadField, a);
    CarvedRebuild(encryption, c, a);
  }

  /**
   * Splitting is the exact inverse of laying out: it returns parts p exactly when p is valid and
   * the input is the layout of p, so no byte is dropped, shared or reordered.
   */
  lemma SplitInvertsLayout(encryption: seq<byte>, p: Parts)
    ensures Split(encryption) == Ok(p) <==> ValidParts(p) && encryption == Layout(p)
  {
    if ValidParts(p) {
      SplitAccepts(p);
    }
    if Split(encryption).Ok? {
      SplitRebuilds(encryption);
    }
  }

  lemma LayoutInjective(p: Parts, q: Parts)
    requires ValidParts(p) && ValidParts(q) && Layout(p) == Layout(q)
    ensures p == q
  {
    SplitAccepts(p);
    SplitAccepts(q);
  }

  /** The accepted inputs, by their length fields alone. */
  lemma SplitDomain(encryption: seq<byte>)
    ensures Split(encryption).Ok? <==>
      && |encryption| >= 63
      && ValueLE(encryption[32..40]) < 9007199254740991
      && ValueLE(encryption[40..48]) < 9007199254740991
      && |encryption| == 63 + ValueLE(encryption[32..40]) + ValueLE(encryption[40..48])
  {
    if |encryption| >= 63 {
      ReadLengthIsValue(encryption[32..40]);
      ReadLengthIsValue(encryption[40..48]);
    }
  }

  /** How a payload is refused: too short, a length that is too large, or lengths that do not add up. */
  lemma SplitErrors(encryption: seq<byte>)
    ensures |encryption| < 63 ==> Split(encryption) == Err(TooShort)
    ensures |encryption| >= 63 ==>
      var c, a := ValueLE(encryption[32..40]), ValueLE(encryption[40..48]);
      if c >= 9007199254740991 || a >= 9007199254740991 then Split(encryption) == Err(Number(Bytes.Overflow))
      else |encryption| != 63 + c + a ==> Split(encryption) == Err(InvalidLength)
  {
    if |encryption| >= 63 {
      ReadLengthIsValue(encryption[32..40]);
      ReadLengthIsValue(encryption[40..48]);
    }
  }

  method SplitEncryptedPayload(encryption: array<byte>) returns (r: Result<Parts, Error>)
    ensures r == Split(encryption[..])
  {
    ghost var whole := encryption[..];
    if encryption.Length < CiphertextSize(0, 0) {
      return Err(TooShort);
    }
    var nonce := new byte[NONCE_SIZE];
    var publicKey := new byte[KEY_SIZE];
    var cipherLengthOffset := KEY_SIZE;
    var aadLengthOffset := cipherLengthOffset + CIPHER_LEN_SIZE;

    Bytes.FillBytes(publicKey, encryption[0..publicKey.Length]);
    assert encryption[cipherLengthOffset..cipherLengthOffset + CIPHER_LEN_SIZE] == whole[32..40];
    var cipherField := ReadLength(encryption[cipherLengthOffset..cipherLengthOffset + CIPHER_LEN_SIZE]);
    if cipherField.Err? {
      return Err(cipherField.error);
    }
    assert encryption[aadLengthOffset..aadLengthOffset + AAD_LEN_SIZE] == whole[40..48];
    var aadField := ReadLength(encryption[aadLengthOffset..aadLengthOffset + AAD_LEN_SIZE]);
    if aadField.Err? {
      return Err(aadField.error);
    }
    var cipherLength, aadLength := cipherField.value, aadField.value;
    if encryption.Length != CiphertextSize(cipherLength, aadLength) {
      return Err(InvalidLength);
    }

    var parts := CopyParts(encryption, publicKey, nonce, cipherLength, aadLength);
    r := Ok(parts);
  }

  /** The sections of a payload whose lengths are known; the key has been copied already. */
  method CopyParts(encryption: array<byte>, publicKey: array<byte>, nonce: array<byte>,
                   cipherLength: nat, aadLength: nat)
    returns (parts: Parts)
    requires encryption.Length == CiphertextSize(cipherLength, aadLength)
    requires publicKey[..] == encryption[..32] && nonce.Length == NONCE_SIZE
    requires nonce != encryption && nonce != publicKey
    modifies nonce
    ensures parts == Carve(encryption[..], cipherLength, aadLength)
  {
    var cipherOffset := KEY_SIZE + CIPHER_LEN_SIZE + AAD_LEN_SIZE;
    var ciphertext := new byte[cipherLength];
    Bytes.FillBytes(ciphertext, encryption[cipherOffset..cipherOffset + cipherLength]);
    var aad := encryption[cipherOffset + cipherLength..cipherOffset + cipherLength + aadLength];
    Bytes.FillBytes(nonce, encryption[cipherOffset + cipherLength + aadLength..]);
    parts := Parts(publicKey[..], ciphertext[..], aad, nonce[..]);
  }

  // ---------------------------------------------------------------------------
  // Encryption over an abstract AEAD
  // ---------------------------------------------------------------------------

  /** seal(nonce, plaintext, aad, peerPublicKey, privateKey). */
  type Seal = (seq<byte>, seq<byte>, seq<byte>, seq<byte>, seq<byte>) -> seq<byte>

  /** open(nonce, ciphertext, aad, peerPublicKey, privateKey); None when authentication fails. */
  type Open = (seq<byte>, seq<byte>, seq<byte>, seq<byte>, seq<byte>) -> Option<seq<byte>>

  datatype Decryption = Decryption(nonce: seq<byte>, plaintext: seq<byte>, peerPublicKey: seq<byte>, aad: seq<byte>)

  /** The bytes that encrypt concatenates; lengths go through parseNumber. */
  function Encode(p: Parts): Result<seq<seq<byte>>, Error> {
    match Bytes.ParseNumber(|p.ciphertext|, CIPHER_LEN_SIZE, true)
    case Err(e) => Err(Number(e))
    case Ok(cipherField) =>
      match Bytes.ParseNumber(|p.aad|, AAD_LEN_SIZE, true)
      case Err(e) => Err(Number(e))
      case Ok(aadField) => Ok([p.publicKey, cipherField, aadField, p.ciphertext, p.aad, p.nonce])
  }

  /** The bytes encrypt returns. */
  function Encrypted(seal: Seal, nonce: seq<byte>, plaintext: seq<byte>, peerPublicKey: seq<byte>,
                     publicKey: seq<byte>, privateKey: seq<byte>, aad: seq<byte>): Result<seq<byte>, Error>
  {
    var p := Parts(publicKey, seal(nonce, plaintext, aad, peerPublicKey, privateKey), aad, nonce);
    if |p.ciphertext| > Bytes.MAX_SAFE_INTEGER || |p.aad| > Bytes.MAX_SAFE_INTEGER then Err(TooLarge)
    else
      var sections :- Encode(p);
      Ok(Bytes.Flatten(sections))
  }

  method Encrypt(seal: Seal, nonce: seq<byte>, plaintext: seq<byte>, peerPublicKey: seq<byte>,
                 publicKey: seq<byte>, privateKey: seq<byte>, aad: seq<byte>)
    returns (r: Result<seq<byte>, Error>)
    ensures r == Encrypted(seal, nonce, plaintext, peerPublicKey, publicKey, privateKey, aad)
  {
    var ciphertext := seal(nonce, plaintext, aad, peerPublicKey, privateKey);
    if |ciphertext| > Bytes.MAX_SAFE_INTEGER || |aad| > Bytes.MAX_SAFE_INTEGER {
      return Err(TooLarge);
    }
    var sections := Encode(Parts(publicKey, ciphertext, aad, nonce));
    if sections.Err? {
      return Err(sections.error);
    }
    var wire := Bytes.Concat(sections.value);
    r := Ok(wire[..]);
  }

  /** A length field written by parseNumber is the little endian number; it exists below 2^32. */
  lemma {:induction false} WrittenLength(n: nat)
    ensures Bytes.ParseNumber(n, 8, true) ==
      if n < 0x1_0000_0000 then Ok(LittleEndian(n, CIPHER_LEN_SIZE)) else Err(Bytes.DoesNotFit)
  {
    Bytes.ParseNumberIsValue(n, 8, true);
    Pow256Of8();
    if n < 0x1_0000_0000 {
      ValueOfLittleEndian(n, CIPHER_LEN_SIZE);
      ValueLEInjective(Bytes.ParseNumber(n, 8, true).value, LittleEndian(n, CIPHER_LEN_SIZE));
    }
  }

  lemma FlattenSix(a: seq<byte>, b: seq<byte>, c: seq<byte>, d: seq<byte>, e: seq<byte>, f: seq<byte>)
    ensures Bytes.Flatten([a, b, c, d, e, f]) == a + b + c + d + e + f
  {
    Bytes.FlattenSnoc([], a);
    assert [] + [a] == [a];
    Bytes.FlattenSnoc([a], b);
    Bytes.FlattenSnoc([a] + [b], c);
    Bytes.FlattenSnoc([a] + [b] + [c], d);
    Bytes.FlattenSnoc([a] + [b] + [c] + [d], e);
    Bytes.FlattenSnoc([a] + [b] + [c] + [d] + [e], f);
    assert [a] + [b] + [c] + [d] + [e] + [f] == [a, b, c, d, e, f];
  }

  lemma EncodeIsLayout(p: Parts)
    ensures Encode(p).Ok? <==> |p.ciphertext| < 0x1_0000_0000 && |p.aad| < 0x1_0000_0000
    ensures Encode(p).Ok? ==> Bytes.Flatten(Encode(p).value) == Layout(p)
  {
    WrittenLength(|p.ciphertext|);
    WrittenLength(|p.aad|);
    var cipherField := LittleEndian(|p.ciphertext|, CIPHER_LEN_SIZE);
    var aadField := LittleEndian(|p.aad|, AAD_LEN_SIZE);
    FlattenSix(p.publicKey, cipherField, aadField, p.ciphertext, p.aad, p.nonce);
  }

  function Decrypt(open: Open, encryption: seq<byte>, secretKey: seq<byte>): Result<Decryption, Error> {
    var p :- Split(encryption);
    match open(p.nonce, p.ciphertext, p.aad, p.publicKey, secretKey)
    case None => Err(OpenFailed)
    case Some(plaintext) => Ok(Decryption(p.nonce, plaintext, p.publicKey, p.aad))
  }

  /** Encrypting lays out the key, the sealed text, the aad and the nonce, if the lengths allow it. */
  lemma EncryptedIsLayout(seal: Seal, nonce: seq<byte>, plaintext: seq<byte>, peerPublicKey: seq<byte>,
                          publicKey: seq<byte>, privateKey: seq<byte>, aad: seq<byte>)
    ensures var sealed := seal(nonce, plaintext, aad, peerPublicKey, privateKey);
      var sent := Encrypted(seal, nonce, plaintext, peerPublicKey, publicKey, privateKey, aad);
      && (sent.Ok? <==> |sealed| < 0x1_0000_0000 && |aad| < 0x1_0000_0000)
      && (sent.Ok? ==> sent.value == Layout(Parts(publicKey, sealed, aad, nonce)))
      && (|sealed| > 9007199254740991 || |aad| > 9007199254740991 ==> sent == Err(TooLarge))
  {
    EncodeIsLayout(Parts(publicKey, seal(nonce, plaintext, aad, peerPublicKey, privateKey), aad, nonce));
  }

  /** Decrypting opens the parts of the layout, whatever opening makes of them. */
  lemma DecryptOpensParts(open: Open, p: Parts, secretKey: seq<byte>)
    requires ValidParts(p)
    ensures Decrypt(open, Layout(p), secretKey) ==
      match open(p.nonce, p.ciphertext, p.aad, p.publicKey, secretKey)
      case None => Err(OpenFailed)
      case Some(plaintext) => Ok(Decryption(p.nonce, plaintext, p.publicKey, p.aad))
  {
    SplitAccepts(p);
  }

  /** And it refuses what is not a layout as splitting does. */
  lemma DecryptRefuses(open: Open, encryption: seq<byte>, secretKey: seq<byte>)
    requires Split(encryption).Err?
    ensures Decrypt(open, encryption, secretKey) == Err(Split(encryption).error)
  {
  }

  /**
   * If opening inverts sealing for this message and these keys, decrypting an encryption returns
   * the plaintext, aad, nonce and sender key. Encryption succeeds exactly when the ciphertext and
   * the aad are shorter than 2^32 bytes.
   */
  lemma DecryptAfterEncrypt(seal: Seal, open: Open, nonce: seq<byte>, plaintext: seq<byte>, aad: seq<byte>,
                            senderPublic: seq<byte>, senderPrivate: seq<byte>,
                            receiverPublic: seq<byte>, receiverPrivate: seq<byte>)
    requires |senderPublic| == KEY_SIZE && |nonce| == NONCE_SIZE
    requires
      open(nonce, seal(nonce, plaintext, aad, receiverPublic, senderPrivate), aad, senderPublic, receiverPrivate)
      == Some(plaintext)
    ensures var sent := Encrypted(seal, nonce, plaintext, receiverPublic, senderPublic, senderPrivate, aad);
      && (sent.Ok? <==> |seal(nonce, plaintext, aad, receiverPublic, senderPrivate)| < 0x1_0000_0000
                        && |aad| < 0x1_0000_0000)
      && (sent.Ok? ==>
            Decrypt(open, sent.value, receiverPrivate) == Ok(Decryption(nonce, plaintext, senderPublic, aad)))
  {
    var ciphertext := seal(nonce, plaintext, aad, receiverPublic, senderPrivate);
    var p := Parts(senderPublic, ciphertext, aad, nonce);
    EncodeIsLayout(p);
    if Encode(p).Ok? {
      SplitAccepts(p);
    }
  }
}
