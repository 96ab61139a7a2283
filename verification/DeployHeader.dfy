/**
 * The deploy header (packages/service/src/deploy/header.ts):
 * "\0sis" || version (u16 big endian) || body length (u16 big endian) || JSON body || initcode.
 */
module DeployHeaders {
  import opened Wrappers
  import opened Positional
  import opened Json
  import Bytes

  datatype Error =
    | MalformedDeploycode
    | MalformedHeader
    | InvalidBody
    | SyntaxError
    | RangeError
    | NoHeader

  datatype Header = Header(version: nat, body: Document)

  const PREFIX: seq<byte> := [0, 0x73, 0x69, 0x73]
  const CURRENT_VERSION: nat := 1
  const BODY_START: nat := 8

  const EXPIRY := "expiry"
  const CONFIDENTIAL := "confidential"

  predicate ValidKey(key: string) {
    key == EXPIRY || key == CONFIDENTIAL
  }

  predicate ValidBody(b: seq<Entry>) {
    forall i :: 0 <= i < |b| ==> ValidKey(b[i].key)
  }

  /** isValidBody: no key but the two valid ones. A value without keys passes, whatever it is. */
  predicate ValidDocument(d: Document) {
    d.Members? ==> ValidBody(d.members)
  }

  // ---------------------------------------------------------------------------
  // Writing
  // ---------------------------------------------------------------------------

  /** setUint16, big endian: the number modulo 2^16. */
  function ShortToBytes(num: nat): (b: seq<byte>)
    ensures |b| == 2
  {
    [num / 256 % 256, num % 256]
  }

  function ShortFromBytes(b: seq<byte>): nat
    requires |b| == 2
  {
    (b[0] as int) * 256 + b[1]
  }

  lemma {:induction false} PrintIsAscii(b: seq<Entry>)
    requires ValidBody(b)
    ensures IsAscii(Print(b))
  {
    if b != [] {
      MembersAreAscii(b);
    }
  }

  lemma {:induction false} MembersAreAscii(b: seq<Entry>)
    requires b != [] && ValidBody(b)
    ensures IsAscii(PrintMembers(b))
  {
    assert ValidKey(b[0].key);
    assert IsAscii(PrintEntry(b[0]));
    if |b| > 1 {
      assert forall i :: 0 <= i < |b[1..]| ==> b[1..][i] == b[i + 1];
      MembersAreAscii(b[1..]);
    }
  }

  lemma DocumentIsAscii(d: Document)
    requires ValidDocument(d)
    ensures IsAscii(PrintDocument(d))
  {
    if d.Members? {
      PrintIsAscii(d.members);
    }
  }

  function BodyBytes(d: Document): (r: seq<byte>)
    requires ValidDocument(d)
    ensures |r| == |PrintDocument(d)|
  {
    DocumentIsAscii(d);
    EncodeUtf8(PrintDocument(d))
  }

  function Data(version: nat, d: Document): seq<byte>
    requires ValidDocument(d)
  {
    PREFIX + ShortToBytes(version) + ShortToBytes(|BodyBytes(d)|) + BodyBytes(d)
  }

  // ---------------------------------------------------------------------------
  // Reading
  // ---------------------------------------------------------------------------

  predicate HasPrefix(code: seq<byte>) {
    PREFIX <= code
  }

  /** The body length that a header announces. */
  function Size(code: seq<byte>): nat
    requires |code| >= BODY_START
  {
    ShortFromBytes(code[6..8])
  }

  /** subarray(8, 8 + size): clamped to the end of the code. */
  function BodyEnd(code: seq<byte>): (end: nat)
    requires |code| >= BODY_START
    ensures BODY_START <= end <= |code|
  {
    if BODY_START + Size(code) <= |code| then BODY_START + Size(code) else |code|
  }

  function ParseBody(serialized: seq<byte>): (r: Result<Document, Error>)
    ensures r.Ok? ==> ValidDocument(r.value)
  {
    match DecodeUtf8(serialized)
    case None => Err(SyntaxError)
    case Some(text) =>
      match ParseDocument(text)
      case None => Err(SyntaxError)
      case Some(d) => if ValidDocument(d) then Ok(d) else Err(InvalidBody)
  }

  /** The header of the code; a code that ends inside the fixed fields is a range error. */
  function ReadHeader(code: seq<byte>): (r: Result<Option<Header>, Error>)
    ensures r.Ok? && r.value.Some? ==> ValidDocument(r.value.value.body)
  {
    if !HasPrefix(code) then Ok(None)
    else if |code| < BODY_START then Err(RangeError)
    else
      var body :- ParseBody(code[BODY_START..BodyEnd(code)]);
      Ok(Some(Header(ShortFromBytes(code[4..6]), body)))
  }

  function Initcode(code: seq<byte>): Result<seq<byte>, Error> {
    if !HasPrefix(code) then Err(NoHeader)
    else if |code| < BODY_START then Err(RangeError)
    else Ok(code[BodyEnd(code)..])
  }

  // ---------------------------------------------------------------------------
  // Rewriting
  // ---------------------------------------------------------------------------

  /** What a rewrite starts from: the existing header and initcode, or a fresh header. */
  function Base(code: seq<byte>): (r: Result<(Header, seq<byte>), Error>)
    ensures r.Ok? ==> ValidDocument(r.value.0.body)
  {
    match ReadHeader(code)
    case Err(e) => Err(e)
    case Ok(None) => Ok((Header(CURRENT_VERSION, Members([])), code))
    case Ok(Some(header)) => Ok((header, code[BodyEnd(code)..]))
  }

  lemma {:induction false} MergeValid(b: seq<Entry>, h: seq<Entry>)
    requires ValidBody(b)
    ensures ValidBody(Merge(b, h)) <==> ValidBody(h)
  {
    var m := Merge(b, h);
    forall i | 0 <= i < |m|
      ensures ValidBody(h) ==> ValidKey(m[i].key)
    {
      KeysAfterMerge(b, h, m[i].key);
      assert HasKey(m, m[i].key);
    }
    forall i | 0 <= i < |h|
      ensures ValidBody(m) ==> ValidKey(h[i].key)
    {
      KeysAfterMerge(b, h, h[i].key);
      assert HasKey(h, h[i].key);
    }
  }

  lemma AssignValid(d: Document, h: Object)
    requires ValidDocument(d) && ValidBody(h)
    ensures ValidDocument(Assign(d, h))
  {
    if d.Members? {
      MergeValid(d.members, h);
    }
  }

  function Rewrite(h: Object, version: nat, d: Document, initcode: seq<byte>): seq<byte>
    requires ValidDocument(d) && ValidBody(h)
  {
    AssignValid(d, h);
    Data(version, Assign(d, h)) + initcode
  }

  function DeployCode(h: Object, code: seq<byte>): Result<seq<byte>, Error> {
    if code == [] then Err(MalformedDeploycode)
    else if !ValidBody(h) then Err(MalformedHeader)
    else if h == [] then Ok(code)
    else
      var (header, initcode) :- Base(code);
      Ok(Rewrite(h, header.version, header.body, initcode))
  }

  // ---------------------------------------------------------------------------
  // The size field never wraps
  // ---------------------------------------------------------------------------

  function KeyAt(b: seq<Entry>, i: int): Option<string> {
    if 0 <= i < |b| then Some(b[i].key) else None
  }

  lemma AtMostTwoKeys(b: Object)
    requires ValidBody(b)
    ensures |b| <= 2
  {
    var first, second, third := KeyAt(b, 0), KeyAt(b, 1), KeyAt(b, 2);
    assert third == None;
  }

  function MaxEntry(e: Entry): nat {
    |e.key| + 3 + (if e.value.Number? then 16 else 5)
  }

  lemma EntryLength(e: Entry)
    ensures |PrintEntry(e)| <= MaxEntry(e)
  {
    if e.value.Number? {
      SafeIntLength(e.value.n);
    }
  }

  /** Types that a caller's TypeScript admits: expiry is a number, confidential a boolean. */
  predicate WellTyped(b: seq<Entry>) {
    forall i :: 0 <= i < |b| ==> (b[i].key == EXPIRY <==> b[i].value.Number?)
  }

  lemma ObjectLength(b: Object)
    requires ValidBody(b)
    ensures |Print(b)| <= 59
    ensures WellTyped(b) ==> |Print(b)| <= 48
  {
    AtMostTwoKeys(b);
    if |b| >= 1 {
      assert ValidKey(b[0].key);
      EntryLength(b[0]);
    }
    if |b| == 2 {
      assert ValidKey(b[1].key);
      EntryLength(b[1]);
      assert b[0].key != b[1].key;
      assert b[1..] == [b[1]];
      assert PrintMembers(b) == PrintEntry(b[0]) + "," + PrintEntry(b[1]);
    }
  }

  /**
   * Printed bodies have at most 48 bytes when the members have their declared types, and at most
   * 59 whatever they hold, so the 16-bit length field is exact.
   */
  lemma BodyLength(d: Document)
    requires ValidDocument(d)
    ensures |BodyBytes(d)| <= 59
    ensures (d.Members? ==> WellTyped(d.members)) ==> |BodyBytes(d)| <= 48
    ensures ShortFromBytes(ShortToBytes(|BodyBytes(d)|)) == |BodyBytes(d)|
  {
    match d
    case Members(b) => ObjectLength(b);
    case Scalar(Number(n)) => SafeIntLength(n);
    case _ =>
  }

  lemma ShortRoundTrip(num: nat)
    ensures ShortFromBytes(ShortToBytes(num)) == num % 0x1_0000
  {
    DivModUnique(num, 0x1_0000, num / 256 / 256, num / 256 % 256 * 256 + num % 256);
  }

  // ---------------------------------------------------------------------------
  // Reading what was written
  // ---------------------------------------------------------------------------

  lemma DataSections(version: seq<byte>, body: seq<byte>, initcode: seq<byte>)
    requires |version| == 2 && ShortFromBytes(ShortToBytes(|body|)) == |body|
    ensures var code := PREFIX + version + ShortToBytes(|body|) + body + initcode;
      && HasPrefix(code) && |code| == BODY_START + |body| + |initcode|
      && code[4..6] == version
      && BodyEnd(code) == BODY_START + |body|
      && code[BODY_START..BodyEnd(code)] == body
      && code[BodyEnd(code)..] == initcode
  {
    var code := PREFIX + version + ShortToBytes(|body|) + body + initcode;
    assert code[..4] == PREFIX;
    assert code[6..8] == ShortToBytes(|body|);
  }

  /** Reading any serialized body behind the fixed fields. */
  lemma ReadSerialized(version: nat, body: seq<byte>, initcode: seq<byte>)
    requires version < 0x1_0000 && |body| < 0x1_0000
    ensures var code := PREFIX + ShortToBytes(version) + ShortToBytes(|body|) + body + initcode;
      && code != []
      && (ParseBody(body).Err? ==> ReadHeader(code) == Err(ParseBody(body).error))
      && (ParseBody(body).Ok? ==> ReadHeader(code) == Ok(Some(Header(version, ParseBody(body).value))))
      && |code| >= BODY_START && BodyEnd(code) == BODY_START + |body|
      && code[BodyEnd(code)..] == initcode
      && Initcode(code) == Ok(initcode)
  {
    ShortRoundTrip(version);
    ShortRoundTrip(|body|);
    DataSections(ShortToBytes(version), body, initcode);
  }

  /** Reading header data followed by any initcode gives the body, version and initcode back. */
  lemma ReadData(version: nat, d: Document, initcode: seq<byte>)
    requires ValidDocument(d) && version < 0x1_0000
    ensures var code := Data(version, d) + initcode;
      && code != []
      && ReadHeader(code) == Ok(Some(Header(version, d)))
      && |code| >= BODY_START && BodyEnd(code) == |Data(version, d)|
      && Initcode(code) == Ok(initcode)
      && Base(code) == Ok((Header(version, d), initcode))
  {
    BodyLength(d);
    ParsePrintedBody(d);
    ReadSerialized(version, BodyBytes(d), initcode);
  }

  /**
   * Headers written by other programs: members with any white space in any place, with any ASCII
   * keys, repeated ones too, are read as the object they denote if the keys are valid, and refused
   * otherwise.
   */
  lemma {:induction false} ReadForeignHeader(version: nat, b: seq<Entry>, l: Layout, initcode: seq<byte>)
    requires version < 0x1_0000 && PlainKeys(b) && l.Blank() && |l.members| == |b|
    requires IsAscii(Spaced(b, l)) && |Spaced(b, l)| < 0x1_0000
    ensures DistinctKeys(Merge([], b))
    ensures var body := EncodeUtf8(Spaced(b, l));
      var code := PREFIX + ShortToBytes(version) + ShortToBytes(|body|) + body + initcode;
      && ReadHeader(code)
         == (if ValidBody(b) then Ok(Some(Header(version, Members(Merge([], b))))) else Err(InvalidBody))
      && Initcode(code) == Ok(initcode)
  {
    ParseForeignBody(b, l);
    ReadSerialized(version, EncodeUtf8(Spaced(b, l)), initcode);
  }

  lemma {:induction false} ParseForeignBody(b: seq<Entry>, l: Layout)
    requires PlainKeys(b) && l.Blank() && |l.members| == |b| && IsAscii(Spaced(b, l))
    ensures DistinctKeys(Merge([], b))
    ensures ParseBody(EncodeUtf8(Spaced(b, l)))
         == if ValidBody(b) then Ok(Members(Merge([], b))) else Err(InvalidBody)
  {
    DecodeEncoded(Spaced(b, l));
    ParseSpacedDocument(b, l);
    MergeValid([], b);
  }

  lemma ValidIsPlain(b: seq<Entry>)
    requires ValidBody(b)
    ensures PlainKeys(b)
  {
    forall e | e in b
      ensures forall i :: 0 <= i < |e.key| ==> IsPlain(e.key[i])
    {
      var j :| 0 <= j < |b| && b[j] == e;
      assert ValidKey(b[j].key);
    }
  }

  lemma ParsePrintedBody(d: Document)
    requires ValidDocument(d)
    ensures ParseBody(BodyBytes(d)) == Ok(d)
  {
    DocumentIsAscii(d);
    DecodeEncoded(PrintDocument(d));
    if d.Members? {
      ValidIsPlain(d.members);
    }
    ParsePrinted(d);
  }

  lemma BaseVersion(code: seq<byte>)
    requires Base(code).Ok?
    ensures Base(code).value.0.version < 0x1_0000
  {
  }

  /**
   * Round trip: after a rewrite with a non-empty header, the header read has the old version (1 if
   * there was none) and the old body with the new members assigned, and the initcode is the old
   * one. An object has the new members and, for the others, its old ones.
   */
  lemma {:induction false} ReadAfterRewrite(h: Object, code: seq<byte>)
    requires h != [] && DeployCode(h, code).Ok?
    ensures var out := DeployCode(h, code).value;
      && Base(code).Ok?
      && var (header, initcode) := Base(code).value;
      && ReadHeader(out) == Ok(Some(Header(header.version, Assign(header.body, h))))
      && Initcode(out) == Ok(initcode)
      && Base(out) == Ok((Header(header.version, Assign(header.body, h)), initcode))
      && forall key :: Member(Assign(header.body, h), key)
                       == if header.body.Members? && HasKey(h, key) then Get(h, key) else Member(header.body, key)
  {
    var (header, initcode) := Base(code).value;
    AssignValid(header.body, h);
    BaseVersion(code);
    ReadData(header.version, Assign(header.body, h), initcode);
    forall key
      ensures Member(Assign(header.body, h), key)
              == if header.body.Members? && HasKey(h, key) then Get(h, key) else Member(header.body, key)
    {
      MemberAfterAssign(header.body, h, key);
    }
  }

  lemma {:induction false} ShortIsValue(b: seq<byte>)
    requires |b| == 2
    ensures ShortFromBytes(b) == ValueBE(b)
  {
    assert ValueBE(b[..1]) == b[0] by { assert b[..1][..0] == []; }
  }

  lemma WrittenShort(num: nat)
    ensures ValueBE(ShortToBytes(num)) == num % 0x1_0000
  {
    ShortIsValue(ShortToBytes(num));
    ShortRoundTrip(num);
  }

  lemma FieldsSpelled(version: nat, body: seq<byte>)
    requires |body| < 0x1_0000
    ensures var data := PREFIX + ShortToBytes(version) + ShortToBytes(|body|) + body;
      && |data| == 8 + |body| && data[..4] == [0, 0x73, 0x69, 0x73]
      && ValueBE(data[4..6]) == version % 0x1_0000 && ValueBE(data[6..8]) == |body|
      && data[8..] == body
  {
    var data := PREFIX + ShortToBytes(version) + ShortToBytes(|body|) + body;
    assert data[4..6] == ShortToBytes(version) && data[6..8] == ShortToBytes(|body|);
    WrittenShort(version);
    WrittenShort(|body|);
  }

  lemma BodySpelled(d: Document)
    requires ValidDocument(d)
    ensures |BodyBytes(d)| == |PrintDocument(d)|
    ensures forall i :: 0 <= i < |BodyBytes(d)| ==> BodyBytes(d)[i] == PrintDocument(d)[i] as int
  {
    DocumentIsAscii(d);
  }

  /** Header data, spelled out; BodySpelled says that the body bytes are its text. */
  lemma DataSpelled(version: nat, d: Document)
    requires ValidDocument(d)
    ensures var data, body := Data(version, d), BodyBytes(d);
      && |data| == 8 + |body| && data[..4] == [0, 0x73, 0x69, 0x73]
      && ValueBE(data[4..6]) == version % 0x1_0000 && ValueBE(data[6..8]) == |body|
      && data[8..] == body
  {
    BodyLength(d);
    FieldsSpelled(version, BodyBytes(d));
  }

  /** What deployCode promises for code that carries no header: a version 1 header in front of all of it. */
  lemma RewriteWithoutHeader(h: Object, code: seq<byte>)
    requires h != [] && ValidBody(h) && code != [] && !([0, 0x73, 0x69, 0x73] <= code)
    ensures DeployCode(h, code).Ok?
    ensures var out := DeployCode(h, code).value;
      && out == Data(1, Members(h)) + code && |out| == 8 + |Print(h)| + |code|
      && Initcode(out) == Ok(code)
      && ReadHeader(out) == Ok(Some(Header(1, Members(h))))
  {
    FreshRewrite(h, code);
    ReadData(1, Members(h), code);
  }

  lemma FreshRewrite(h: Object, code: seq<byte>)
    requires h != [] && ValidBody(h) && code != [] && !([0, 0x73, 0x69, 0x73] <= code)
    ensures DeployCode(h, code) == Ok(Data(1, Members(h)) + code)
  {
    MergeEmpty(h, h);
    assert Base(code) == Ok((Header(1, Members([])), code));
    assert Assign(Members([]), h) == Members(h);
  }

  /** And for code that carries one: version, initcode and the other members stay. */
  lemma RewriteOverHeader(h: Object, code: seq<byte>)
    requires h != [] && ValidBody(h) && [0, 0x73, 0x69, 0x73] <= code
    ensures DeployCode(h, code).Ok? <==> ReadHeader(code).Ok?
    ensures DeployCode(h, code).Ok? ==>
      var out := DeployCode(h, code).value;
      && ReadHeader(code).value.Some?
      && var header := ReadHeader(code).value.value;
      && ReadHeader(out) == Ok(Some(Header(header.version, Assign(header.body, h))))
      && Initcode(out) == Initcode(code)
  {
    if ReadHeader(code).Ok? {
      ReadAfterRewrite(h, code);
    }
  }

  /** When deployCode succeeds, and how it fails. An empty header leaves the code alone. */
  lemma DeployCodeDomain(h: Object, code: seq<byte>)
    ensures DeployCode(h, code).Ok? <==>
      && code != [] && (forall i :: 0 <= i < |h| ==> h[i].key == "expiry" || h[i].key == "confidential")
      && (h == [] || ReadHeader(code).Ok?)
    ensures code == [] ==> DeployCode(h, code) == Err(MalformedDeploycode)
    ensures code != [] && !ValidBody(h) ==> DeployCode(h, code) == Err(MalformedHeader)
    ensures code != [] && ValidBody(h) && h != [] && ReadHeader(code).Err? ==>
      DeployCode(h, code) == Err(ReadHeader(code).error)
    ensures code != [] && h == [] ==> DeployCode(h, code) == Ok(code)
  {
    assert ValidBody(h) <==> forall i :: 0 <= i < |h| ==> h[i].key == "expiry" || h[i].key == "confidential";
  }

  /** The bytes after the fixed fields that the header announces, as far as there are any. */
  function Announced(code: seq<byte>): nat
    requires |code| >= 8
  {
    var size := ValueBE(code[6..8]);
    if 8 + size <= |code| then size else |code| - 8
  }

  lemma AnnouncedIsRead(code: seq<byte>)
    requires |code| >= 8
    ensures BodyEnd(code) == 8 + Announced(code)
  {
    ShortIsValue(code[6..8]);
  }

  /** The body bytes are text that denotes the document. */
  ghost predicate Encodes(body: seq<byte>, d: Document) {
    exists text :: IsAscii(text) && body == EncodeUtf8(text) && Denotes(text, d)
  }

  lemma EncodesExactly(body: seq<byte>, d: Document)
    ensures Encodes(body, d) <==> DecodeUtf8(body).Some? && ParseDocument(DecodeUtf8(body).value) == Some(d)
  {
    if DecodeUtf8(body).Some? {
      var text := DecodeUtf8(body).value;
      assert EncodeUtf8(text) == body;
      ParseExactly(text, d);
    }
    if Encodes(body, d) {
      var text :| IsAscii(text) && body == EncodeUtf8(text) && Denotes(text, d);
      DecodeEncoded(text);
      ParseExactly(text, d);
    }
  }

  predicate OnlyHeaderKeys(d: Document) {
    forall i :: 0 <= i < |Keys(d)| ==> Keys(d)[i] == "expiry" || Keys(d)[i] == "confidential"
  }

  lemma OnlyHeaderKeysAreValid(d: Document)
    ensures OnlyHeaderKeys(d) <==> ValidDocument(d)
  {
    assert d.Members? ==> forall i :: 0 <= i < |d.members| ==> Keys(d)[i] == d.members[i].key;
  }

  lemma ParseBodyExactly(body: seq<byte>, d: Document)
    ensures ParseBody(body) == Ok(d) <==> Encodes(body, d) && OnlyHeaderKeys(d)
  {
    EncodesExactly(body, d);
    OnlyHeaderKeysAreValid(d);
  }

  /**
   * Exactly which code is read as carrying a header, and which: the prefix, a big endian version, a
   * big endian length, and that many bytes that write a document with none but the valid keys.
   */
  lemma ReadsExactly(code: seq<byte>, version: nat, d: Document)
    ensures ReadHeader(code) == Ok(Some(Header(version, d))) <==>
      && |code| >= 8 && [0, 0x73, 0x69, 0x73] <= code
      && version == ValueBE(code[4..6])
      && Encodes(code[8..8 + Announced(code)], d) && OnlyHeaderKeys(d)
    ensures ReadHeader(code) == Ok(None) <==> !([0, 0x73, 0x69, 0x73] <= code)
  {
    if |code| >= 8 {
      ShortIsValue(code[4..6]);
      AnnouncedIsRead(code);
      ParseBodyExactly(code[8..8 + Announced(code)], d);
    }
  }

  /** What follows the header: the rest of the code behind the announced body. */
  lemma InitcodeExactly(code: seq<byte>)
    ensures Initcode(code) ==
      if !([0, 0x73, 0x69, 0x73] <= code) then Err(NoHeader)
      else if |code| < 8 then Err(RangeError)
      else Ok(code[8 + Announced(code)..])
  {
    if |code| >= 8 {
      AnnouncedIsRead(code);
    }
  }

  // ---------------------------------------------------------------------------
  // Header bodies that are not objects
  // ---------------------------------------------------------------------------

  /** The code has no header, or one whose body is an object. */
  predicate CarriesObject(code: seq<byte>) {
    match ReadHeader(code)
    case Err(_) => false
    case Ok(None) => true
    case Ok(Some(header)) => header.body.Members?
  }

  /** The header read from the rewritten code has all the members that the caller gave. */
  ghost predicate TakesEffect(h: Object, code: seq<byte>)
    requires DeployCode(h, code).Ok?
  {
    match ReadHeader(DeployCode(h, code).value)
    case Ok(Some(header)) => forall key :: HasKey(h, key) ==> Member(header.body, key) == Get(h, key)
    case _ => false
  }

  /**
   * isValidBody accepts [], "", numbers and booleans as the body of an existing header, and keeps
   * them: a header given for such code is dropped without an error. For code that can be rewritten,
   * this is the only way in which a header does not take effect.
   */
  lemma TakesEffectExactlyOnObjects(h: Object, code: seq<byte>)
    requires h != [] && DeployCode(h, code).Ok?
    ensures TakesEffect(h, code) <==> CarriesObject(code)
  {
    ReadAfterRewrite(h, code);
    assert HasKey(h, h[0].key);
    GetIffHasKey(h, h[0].key);
  }

  /** A header with body [], as any other program may have written it. */
  const EMPTY_ARRAY_HEADER: seq<byte> := PREFIX + [0, 1, 0, 2, 0x5B, 0x5D]

  lemma EmptyArrayData()
    ensures Data(1, EmptyArray) == EMPTY_ARRAY_HEADER
  {
    assert BodyBytes(EmptyArray) == [0x5B, 0x5D];
  }

  /** The failing input: a header with body [] stays as it is, byte for byte, whatever is assigned. */
  lemma EmptyArrayDropsHeader(h: Object, initcode: seq<byte>)
    requires ValidBody(h)
    ensures DeployCode(h, EMPTY_ARRAY_HEADER + initcode) == Ok(EMPTY_ARRAY_HEADER + initcode)
    ensures !CarriesObject(EMPTY_ARRAY_HEADER + initcode)
    ensures h != [] ==> !TakesEffect(h, EMPTY_ARRAY_HEADER + initcode)
  {
    EmptyArrayData();
    ReadData(1, EmptyArray, initcode);
    if h != [] {
      TakesEffectExactlyOnObjects(h, EMPTY_ARRAY_HEADER + initcode);
    }
  }

  // ---------------------------------------------------------------------------
  // The algebra of rewrites
  // ---------------------------------------------------------------------------

  /** Two results agree: both succeed with the same bytes, or both fail. */
  predicate Agree(r: Result<seq<byte>, Error>, s: Result<seq<byte>, Error>) {
    if r.Ok? then r == s else s.Err?
  }

  function Twice(g: Object, h: Object, code: seq<byte>): Result<seq<byte>, Error> {
    var once :- DeployCode(g, code);
    DeployCode(h, once)
  }

  lemma {:induction false} MergeEmpty(b: seq<Entry>, h: seq<Entry>)
    requires DistinctKeys(h)
    ensures Merge([], h) == h
    ensures Merge(b, h) == [] <==> b == [] && h == []
  {
    assert [] + h == h;
    MergeIntoEmpty([], h);
    if h != [] {
      KeysAfterMerge(b, h, h[0].key);
      assert HasKey(h, h[0].key);
    }
  }

  /**
   * Two rewrites are one rewrite with the merged header, byte for byte: on code without a header,
   * with one whose body is modelled JSON, or with one that cannot be read. Bodies outside that JSON
   * count as the last.
   */
  lemma {:induction false} RewritesCompose(g: Object, h: Object, code: seq<byte>)
    ensures DistinctKeys(Merge(g, h))
    ensures Agree(Twice(g, h, code), DeployCode(Merge(g, h), code))
  {
    MergeDistinct(g, h);
    MergeEmpty(g, h);
    MergeEmpty(h, []);
    if code != [] && ValidBody(g) {
      MergeValid(g, h);
      if g != [] && ValidBody(h) && h != [] && Base(code).Ok? {
        ReadAfterRewrite(g, code);
        AssignAssociative(Base(code).value.0.body, g, h);
        assert Data(0, EmptyArray) != [];
      }
    } else if code != [] {
      InvalidStaysInvalid(g, h);
    }
  }

  lemma {:induction false} InvalidStaysInvalid(g: seq<Entry>, h: seq<Entry>)
    requires !ValidBody(g)
    ensures !ValidBody(Merge(g, h))
  {
    var i :| 0 <= i < |g| && !ValidKey(g[i].key);
    assert HasKey(g, g[i].key);
    KeysAfterMerge(g, h, g[i].key);
    var j :| 0 <= j < |Merge(g, h)| && Merge(g, h)[j].key == g[i].key;
  }

  /** Applying the same header twice equals applying it once. */
  lemma RewriteIdempotent(h: Object, code: seq<byte>)
    ensures Agree(Twice(h, h, code), DeployCode(h, code))
  {
    MergePresent(h, h);
    RewritesCompose(h, h, code);
  }

  // ---------------------------------------------------------------------------
  // Appending constructor arguments
  // ---------------------------------------------------------------------------

  /**
   * Code whose reading cannot be changed by appended bytes: it has a header that is all there, or
   * it is not the beginning of the prefix.
   */
  predicate Appendable(code: seq<byte>) {
    if HasPrefix(code) then |code| >= BODY_START && BODY_START + Size(code) <= |code|
    else !(code <= PREFIX)
  }

  lemma BaseAppended(code: seq<byte>, args: seq<byte>)
    requires Appendable(code)
    ensures Base(code + args) ==
      match Base(code)
      case Err(e) => Err(e)
      case Ok((header, initcode)) => Ok((header, initcode + args))
  {
    var c := code + args;
    if HasPrefix(code) {
      assert c[..4] == code[..4];
      assert c[4..6] == code[4..6];
      assert c[6..8] == code[6..8];
      assert BodyEnd(c) == BodyEnd(code);
      assert c[BODY_START..BodyEnd(c)] == code[BODY_START..BodyEnd(code)];
      assert c[BodyEnd(c)..] == code[BodyEnd(code)..] + args;
    } else {
      assert |code| >= 4 ==> code[..4] == c[..4];
      assert |code| < 4 ==> code == c[..|code|];
    }
  }

  lemma RewriteAppended(h: Object, version: nat, d: Document, initcode: seq<byte>, args: seq<byte>)
    requires ValidDocument(d) && ValidBody(h)
    ensures Rewrite(h, version, d, initcode + args) == Rewrite(h, version, d, initcode) + args
  {
    AssignValid(d, h);
    var data := Data(version, Assign(d, h));
    assert data + (initcode + args) == (data + initcode) + args;
  }

  /** Rewriting commutes with appending arguments. */
  lemma RewriteCommutesWithArgs(h: Object, code: seq<byte>, args: seq<byte>)
    requires code != [] && Appendable(code)
    ensures DeployCode(h, code + args) ==
      match DeployCode(h, code)
      case Err(e) => Err(e)
      case Ok(out) => Ok(out + args)
  {
    BaseAppended(code, args);
    if ValidBody(h) && h != [] && Base(code).Ok? {
      var (header, initcode) := Base(code).value;
      RewriteAppended(h, header.version, header.body, initcode, args);
    }
  }

  ghost predicate CommutesWithArgs(h: Object, code: seq<byte>)
    requires DeployCode(h, code).Ok?
  {
    forall args: seq<byte> :: DeployCode(h, code + args) == Ok(DeployCode(h, code).value + args)
  }

  /** Arguments that the announced body length, or the missing rest of the prefix, swallows. */
  function SwallowedArgs(code: seq<byte>): seq<byte>
    requires !Appendable(code)
  {
    if HasPrefix(code) then [0xFF] else PREFIX[|code|..]
  }

  lemma SwallowedArgsBreak(h: Object, code: seq<byte>)
    requires h != [] && DeployCode(h, code).Ok? && !Appendable(code)
    ensures DeployCode(h, code + SwallowedArgs(code)).Err?
  {
    var args := SwallowedArgs(code);
    var c := code + args;
    if HasPrefix(code) {
      assert c[..4] == code[..4];
      assert c[6..8] == code[6..8];
      assert BodyEnd(c) == |c|;
      var serialized := c[BODY_START..BodyEnd(c)];
      assert serialized[|serialized| - 1] == 0xFF;
      assert DecodeUtf8(serialized) == None;
    } else {
      assert c == PREFIX;
    }
  }

  /** For code that can be rewritten at all, commuting with every argument is exactly Appendable. */
  lemma CommutesExactlyWhenAppendable(h: Object, code: seq<byte>)
    requires h != [] && DeployCode(h, code).Ok?
    ensures CommutesWithArgs(h, code) <==> Appendable(code)
  {
    if Appendable(code) {
      forall args: seq<byte>
        ensures DeployCode(h, code + args) == Ok(DeployCode(h, code).value + args)
      {
        RewriteCommutesWithArgs(h, code, args);
      }
    } else {
      SwallowedArgsBreak(h, code);
    }
  }

  /** The first byte of the prefix is no header, but becomes one with the right arguments. */
  lemma PrefixStartSwallowsArgs(h: Object)
    requires h != [] && ValidBody(h)
    ensures DeployCode(h, [0]).Ok? && !Appendable([0]) && !CommutesWithArgs(h, [0])
  {
    assert !HasPrefix([0]);
    assert [0] == PREFIX[..1];
    CommutesExactlyWhenAppendable(h, [0]);
  }

  /** A header with body {} that announces three bytes. */
  const SHORT_HEADER: seq<byte> := PREFIX + [0, 1, 0, 3, 0x7B, 0x7D]

  /** It is read as {}, and takes the first argument byte into its body. */
  lemma ShortHeaderSwallowsArgs(h: Object)
    requires h != [] && ValidBody(h)
    ensures DeployCode(h, SHORT_HEADER).Ok? && !Appendable(SHORT_HEADER) && !CommutesWithArgs(h, SHORT_HEADER)
  {
    assert BodyBytes(Members([])) == [0x7B, 0x7D] == SHORT_HEADER[BODY_START..BodyEnd(SHORT_HEADER)];
    ParsePrintedBody(Members([]));
    CommutesExactlyWhenAppendable(h, SHORT_HEADER);
  }

  /** Every rewritten code is appendable, so later arguments never disturb its header. */
  lemma RewrittenIsAppendable(h: Object, code: seq<byte>)
    requires h != [] && DeployCode(h, code).Ok?
    ensures Appendable(DeployCode(h, code).value)
  {
    var (header, initcode) := Base(code).value;
    AssignValid(header.body, h);
    BodyLength(Assign(header.body, h));
    DataSections(ShortToBytes(header.version), BodyBytes(Assign(header.body, h)), initcode);
  }

  // ---------------------------------------------------------------------------
  // The program's own form
  // ---------------------------------------------------------------------------

  method IsValidBody(headerBody: Document) returns (valid: bool)
    ensures valid == ValidDocument(headerBody)
  {
    var validKeys := [EXPIRY, CONFIDENTIAL];
    var keys := Keys(headerBody);
    for k := 0 to |keys|
      invariant forall i :: 0 <= i < k ==> ValidKey(keys[i])
    {
      if keys[k] !in validKeys {
        assert !ValidKey(headerBody.members[k].key);
        return false;
      }
    }
    assert headerBody.Members? ==> forall i :: 0 <= i < |keys| ==> keys[i] == headerBody.members[i].key;
    return true;
  }

  method CodeHasPrefix(code: array<byte>) returns (r: bool)
    ensures r == HasPrefix(code[..])
  {
    for i := 0 to |PREFIX|
      invariant i <= code.Length && code[..i] == PREFIX[..i]
    {
      if i >= code.Length || code[i] != PREFIX[i] {
        assert i < code.Length ==> code[..][i] == code[i];
        return false;
      }
      assert code[..i + 1] == code[..i] + [code[i]] && PREFIX[..i + 1] == PREFIX[..i] + [PREFIX[i]];
    }
    assert code[..][..4] == PREFIX;
    return true;
  }

  class DeployHeader {
    var version: nat
    var body: Document

    constructor (version: nat, body: Document)
      ensures this.version == version && this.body == body
    {
      this.version := version;
      this.body := body;
    }

    /** Object.assign(this.body, headerBody), member by member. */
    method Assign(headerBody: Object)
      modifies this`body
      ensures body == Json.Assign(old(body), headerBody)
    {
      if !body.Members? {
        return;
      }
      var members := body.members;
      for i := 0 to |headerBody|
        invariant DistinctKeys(members)
        invariant Merge(old(body).members, headerBody) == Merge(members, headerBody[i..])
      {
        assert headerBody[i..][0] == headerBody[i] && headerBody[i..][1..] == headerBody[i + 1..];
        PutDistinct(members, headerBody[i]);
        members := Put(members, headerBody[i]);
      }
      body := Members(members);
    }

    method Serialize() returns (data: array<byte>)
      requires ValidDocument(body)
      ensures fresh(data) && data[..] == Data(version, body)
    {
      var bodyBytes := BodyBytes(body);
      data := Bytes.Concat([PREFIX, ShortToBytes(version), ShortToBytes(|bodyBytes|), bodyBytes]);
      assert Bytes.Flatten([PREFIX, ShortToBytes(version), ShortToBytes(|bodyBytes|), bodyBytes])
          == Data(version, body) by {
        FlattenFour(PREFIX, ShortToBytes(version), ShortToBytes(|bodyBytes|), bodyBytes);
      }
    }
  }

  lemma FlattenFour(a: seq<byte>, b: seq<byte>, c: seq<byte>, d: seq<byte>)
    ensures Bytes.Flatten([a, b, c, d]) == a + b + c + d
  {
    Bytes.FlattenSnoc([], a);
    Bytes.FlattenSnoc([a], b);
    Bytes.FlattenSnoc([a, b], c);
    Bytes.FlattenSnoc([a, b, c], d);
    assert [] + [a] == [a];
    assert [a] + [b] == [a, b];
    assert [a, b] + [c] == [a, b, c];
    assert [a, b, c] + [d] == [a, b, c, d];
  }

  /** A new buffer with the header data first and the initcode behind it. */
  method Prepend(headerData: array<byte>, initcode: seq<byte>) returns (code: array<byte>)
    ensures fresh(code) && code[..] == headerData[..] + initcode
  {
    code := new byte[headerData.Length + |initcode|];
    Bytes.SetBytes(code, headerData[..], 0);
    assert code[..headerData.Length] == headerData[..];
    Bytes.SetBytes(code, initcode, headerData.Length);
  }

  /** DeployHeader.deployCode: an empty header returns the given array itself, else a new one. */
  method DeployCodeBytes(headerBody: Object, deploycode: array<byte>) returns (r: Result<array<byte>, Error>)
    ensures r.Ok? <==> DeployCode(headerBody, deploycode[..]).Ok?
    ensures r.Ok? ==> Ok(r.value[..]) == DeployCode(headerBody, deploycode[..])
    ensures r.Ok? ==> if headerBody == [] then r.value == deploycode else fresh(r.value)
    ensures r.Err? ==> r.error == DeployCode(headerBody, deploycode[..]).error
  {
    if deploycode.Length == 0 {
      return Err(MalformedDeploycode);
    }
    assert deploycode[..] != [];
    var valid := IsValidBody(Members(headerBody));
    if !valid {
      return Err(MalformedHeader);
    }
    if |headerBody| == 0 {
      return Ok(deploycode);
    }

    var read := ReadHeader(deploycode[..]);
    if read.Err? {
      return Err(read.error);
    }
    var currentHeader: DeployHeader;
    var initcode: seq<byte>;
    if read.value.None? {
      currentHeader := new DeployHeader(CURRENT_VERSION, Members([]));
      initcode := deploycode[..];
    } else {
      currentHeader := new DeployHeader(read.value.value.version, read.value.value.body);
      initcode := Initcode(deploycode[..]).value;
    }
    AssignValid(currentHeader.body, headerBody);
    currentHeader.Assign(headerBody);

    var headerData := currentHeader.Serialize();
    var code := Prepend(headerData, initcode);
    r := Ok(code);
  }
}
