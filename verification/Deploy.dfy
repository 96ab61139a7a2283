/**
 * What a deploy sends (packages/service/src/deploy/index.ts) and what discovering the deployed
 * code concludes (packages/service/src/rpc.ts).
 */
module Deploys {
  import opened Wrappers
  import opened Positional
  import opened Json
  import opened DeployHeaders
  import Bytes

  /** The bytecode option: absent, hex text, or bytes. */
  datatype Bytecode = Missing | HexText(text: string) | Raw(bytes: seq<byte>)

  /**
   * The deploy options. The constructor arguments are given as encoded, None when the constructor
   * takes no inputs.
   */
  datatype Options = Options(bytecode: Bytecode, header: Option<Object>, args: Option<seq<byte>>, gasLimit: bool)

  datatype DeployError = NoArguments | NoBytecode | GasLimitRequired | Malformed(inner: DeployHeaders.Error)

  datatype Coder = Plaintext | Confidential

  datatype DiscoverError = NoCode | Unreadable(inner: DeployHeaders.Error)

  predicate WellFormed(options: Options) {
    options.bytecode.HexText? ==> Bytes.IsHex(Bytes.StripPrefix(options.bytecode.text))
  }

  predicate Truthy(v: Option<Value>) {
    match v
    case None => false
    case Some(Number(n)) => n != 0
    case Some(Boolean(b)) => b
  }

  const DEFAULT_HEADER: Object := [Entry(CONFIDENTIAL, Boolean(true))]

  /** The given header members over the default one. */
  function DeployHeader(header: Option<Object>): Object {
    match header
    case None => DEFAULT_HEADER
    case Some(h) =>
      MergeDistinct(DEFAULT_HEADER, h);
      Merge(DEFAULT_HEADER, h)
  }

  /** The bytes of the bytecode option; empty text counts as none given. */
  function BytecodeBytes(bytecode: Bytecode): Option<seq<byte>>
    requires bytecode.HexText? ==> Bytes.IsHex(Bytes.StripPrefix(bytecode.text))
  {
    match bytecode
    case Missing => None
    case HexText(text) => if text == "" then None else Some(Bytes.ParseHex(text))
    case Raw(bytes) => Some(bytes)
  }

  /** BYTECODE || ENCODED(args). */
  function InitcodeOf(bytecode: seq<byte>, args: Option<seq<byte>>): seq<byte> {
    match args
    case None => bytecode
    case Some(encoded) => bytecode + encoded
  }

  /** The data of the deploy request; the header default is filled in twice on the way. */
  function Deploy(arguments: Option<Options>): Result<seq<byte>, DeployError>
    requires arguments.Some? ==> WellFormed(arguments.value)
  {
    match arguments
    case None => Err(NoArguments)
    case Some(options) =>
      match BytecodeBytes(options.bytecode)
      case None => Err(NoBytecode)
      case Some(bytecode) =>
        var header := DeployHeader(options.header);
        if Truthy(Get(header, CONFIDENTIAL)) && !options.gasLimit then Err(GasLimitRequired)
        else
          match DeployCode(DeployHeader(Some(header)), InitcodeOf(bytecode, options.args))
          case Err(e) => Err(Malformed(e))
          case Ok(data) => Ok(data)
  }

  function Discover(code: Option<seq<byte>>): Result<Coder, DiscoverError> {
    match code
    case None => Err(NoCode)
    case Some(code) =>
      match ReadHeader(code)
      case Err(e) => Err(Unreadable(e))
      case Ok(None) => Ok(Plaintext)
      case Ok(Some(header)) => Ok(if Truthy(Member(header.body, CONFIDENTIAL)) then Confidential else Plaintext)
  }

  lemma TruthyExactly(v: Option<Value>)
    ensures Truthy(v) <==> v !in {None, Some(Boolean(false)), Some(Number(0))}
  {
    match v
    case None =>
    case Some(Number(n)) => assert v == Some(Number(0)) <==> n == 0;
    case Some(Boolean(b)) => assert v == Some(Boolean(false)) <==> !b;
  }

  /** What discovery makes of any code: its errors, and otherwise the "confidential" member alone. */
  lemma DiscoverExactly(code: seq<byte>)
    ensures Discover(None) == Err(NoCode)
    ensures ReadHeader(code).Err? ==> Discover(Some(code)) == Err(Unreadable(ReadHeader(code).error))
    ensures ReadHeader(code) == Ok(None) ==> Discover(Some(code)) == Ok(Plaintext)
    ensures ReadHeader(code).Ok? && ReadHeader(code).value.Some? ==>
      var member := Member(ReadHeader(code).value.value.body, "confidential");
      Discover(Some(code)) == Ok(
        if member in {None, Some(Boolean(false)), Some(Number(0))} then Plaintext else Confidential)
  {
    if ReadHeader(code).Ok? && ReadHeader(code).value.Some? {
      TruthyExactly(Member(ReadHeader(code).value.value.body, "confidential"));
    }
  }

  /** What the caller asks for: confidential unless the header says false, or 0. */
  predicate WantsConfidential(header: Option<Object>) {
    header.None? || Get(header.value, "confidential") !in {Some(Boolean(false)), Some(Number(0))}
  }

  /** Filling in the default a second time changes nothing. */
  lemma DefaultTwice(header: Option<Object>)
    ensures DeployHeader(Some(DeployHeader(header))) == DeployHeader(header)
  {
    var h := if header.None? then [] else header.value;
    assert DeployHeader(header) == Merge(DEFAULT_HEADER, h);
    MergePresent(DEFAULT_HEADER, DEFAULT_HEADER);
    MergeAssociative(DEFAULT_HEADER, DEFAULT_HEADER, h);
  }

  lemma DeployedHeader(header: Option<Object>)
    ensures DeployHeader(header) != []
    ensures Truthy(Get(DeployHeader(header), CONFIDENTIAL)) <==> WantsConfidential(header)
    ensures HasKey(DeployHeader(header), CONFIDENTIAL)
  {
    var h: Object := if header.None? then [] else header.value;
    assert DeployHeader(header) == Merge(DEFAULT_HEADER, h);
    assert DEFAULT_HEADER[0].key == CONFIDENTIAL;
    GetAfterMerge(DEFAULT_HEADER, h, CONFIDENTIAL);
    KeysAfterMerge(DEFAULT_HEADER, h, CONFIDENTIAL);
    GetIffHasKey(h, CONFIDENTIAL);
    assert HasKey(DEFAULT_HEADER, CONFIDENTIAL);
    MergeEmpty(DEFAULT_HEADER, h);
  }

  /**
   * Deploy, then discover: the confidential coder is chosen exactly when the caller's header asks
   * for it, or is silent, and the bytecode carries no header or one whose body is an object; what
   * that object says does not matter. A confidential deploy needs a gas limit.
   */
  lemma DeployThenDiscover(options: Options)
    requires WellFormed(options) && Deploy(Some(options)).Ok?
    ensures var code := InitcodeOf(BytecodeBytes(options.bytecode).value, options.args);
      Discover(Some(Deploy(Some(options)).value))
      == Ok(if WantsConfidential(options.header) && CarriesObject(code) then Confidential else Plaintext)
    ensures WantsConfidential(options.header) ==> options.gasLimit
  {
    var header := DeployHeader(options.header);
    var code := InitcodeOf(BytecodeBytes(options.bytecode).value, options.args);
    DefaultTwice(options.header);
    DeployedHeader(options.header);
    ReadAfterRewrite(header, code);
  }

  /** What the caller's header says of a key, if there is one. */
  function Given(header: Option<Object>, key: string): Option<Value> {
    match header
    case None => None
    case Some(h) => Get(h, key)
  }

  /**
   * The header that a deploy sends, over code with no header or an object: every member that the
   * caller gives, confidential unless the caller speaks about it, and else what the code had.
   */
  lemma DeployedMembers(options: Options)
    requires WellFormed(options) && Deploy(Some(options)).Ok?
    requires CarriesObject(InitcodeOf(BytecodeBytes(options.bytecode).value, options.args))
    ensures var code := InitcodeOf(BytecodeBytes(options.bytecode).value, options.args);
      var sent := ReadHeader(Deploy(Some(options)).value);
      && sent.Ok? && sent.value.Some? && ReadHeader(code).Ok?
      && sent.value.value.version == (if ReadHeader(code).value.Some? then ReadHeader(code).value.value.version else 1)
      && forall key :: Member(sent.value.value.body, key) ==
           if Given(options.header, key).Some? then Given(options.header, key)
           else if key == "confidential" then Some(Boolean(true))
           else if ReadHeader(code).value.Some? then Member(ReadHeader(code).value.value.body, key)
           else None
  {
    var header := DeployHeader(options.header);
    var code := InitcodeOf(BytecodeBytes(options.bytecode).value, options.args);
    var h: Object := if options.header.None? then [] else options.header.value;
    DefaultTwice(options.header);
    DeployedHeader(options.header);
    ReadAfterRewrite(header, code);
    forall key
      ensures HasKey(header, key) <==> Given(options.header, key).Some? || key == "confidential"
      ensures HasKey(header, key) ==>
        Get(header, key) == if Given(options.header, key).Some? then Given(options.header, key) else Some(Boolean(true))
    {
      DefaultedMember(options.header, key);
    }
  }

  lemma {:induction false} DefaultedMember(header: Option<Object>, key: string)
    ensures HasKey(DeployHeader(header), key) <==> Given(header, key).Some? || key == "confidential"
    ensures HasKey(DeployHeader(header), key) ==>
      Get(DeployHeader(header), key) == if Given(header, key).Some? then Given(header, key) else Some(Boolean(true))
  {
    var h: Object := if header.None? then [] else header.value;
    assert DeployHeader(header) == Merge(DEFAULT_HEADER, h);
    GetAfterMerge(DEFAULT_HEADER, h, key);
    KeysAfterMerge(DEFAULT_HEADER, h, key);
    GetIffHasKey(h, key);
    assert DEFAULT_HEADER[0].key == CONFIDENTIAL;
    assert HasKey(DEFAULT_HEADER, key) <==> key == CONFIDENTIAL;
  }

  /** Every caller's header leads to the coder that it asks for. */
  ghost predicate DiscoveredAsAsked(bytecode: seq<byte>, args: Option<seq<byte>>) {
    forall header: Option<Object>, gasLimit ::
      var deployed := Deploy(Some(Options(Raw(bytecode), header, args, gasLimit)));
      deployed.Ok? ==>
        Discover(Some(deployed.value)) == Ok(if WantsConfidential(header) then Confidential else Plaintext)
  }

  /**
   * For bytecode that can be deployed, discovery agrees with every caller's header exactly when the
   * code carries no header or one whose body is an object.
   */
  lemma DiscoveredAsAskedExactlyOnObjects(bytecode: seq<byte>, args: Option<seq<byte>>)
    requires Deploy(Some(Options(Raw(bytecode), None, args, true))).Ok?
    ensures DiscoveredAsAsked(bytecode, args) <==> CarriesObject(InitcodeOf(bytecode, args))
  {
    forall header: Option<Object>, gasLimit |
        Deploy(Some(Options(Raw(bytecode), header, args, gasLimit))).Ok?
      ensures Discover(Some(Deploy(Some(Options(Raw(bytecode), header, args, gasLimit))).value))
           == Ok(if WantsConfidential(header) && CarriesObject(InitcodeOf(bytecode, args))
                 then Confidential else Plaintext)
    {
      DeployThenDiscover(Options(Raw(bytecode), header, args, gasLimit));
    }
  }

  /**
   * The failing input: for bytecode whose header has the body [], a deploy that is confidential by
   * default sends the bytecode as it is, and discovering it picks the plaintext coder.
   */
  lemma EmptyArrayHidesConfidentiality(initcode: seq<byte>)
    ensures var options := Options(Raw(EMPTY_ARRAY_HEADER + initcode), None, None, true);
      && WantsConfidential(options.header)
      && Deploy(Some(options)) == Ok(EMPTY_ARRAY_HEADER + initcode)
      && Discover(Some(EMPTY_ARRAY_HEADER + initcode)) == Ok(Plaintext)
  {
    var options := Options(Raw(EMPTY_ARRAY_HEADER + initcode), None, None, true);
    DefaultTwice(None);
    DeployedHeader(None);
    EmptyArrayDropsHeader(DEFAULT_HEADER, initcode);
    DeployThenDiscover(options);
  }

  /**
   * Rewriting the header of any code decides what is discovered exactly when the new header speaks
   * about confidentiality and the code carries no header or an object; otherwise the same is
   * discovered as before, plaintext without a header.
   */
  lemma {:induction false} RewriteThenDiscover(h: Object, code: seq<byte>)
    requires DeployCode(h, code).Ok?
    ensures Discover(Some(DeployCode(h, code).value)) ==
      if HasKey(h, CONFIDENTIAL) && CarriesObject(code)
      then Ok(if Truthy(Get(h, CONFIDENTIAL)) then Confidential else Plaintext)
      else Discover(Some(code))
    ensures !HasPrefix(code) ==> Discover(Some(code)) == Ok(Plaintext)
  {
    if h != [] {
      ReadAfterRewrite(h, code);
    }
  }

  /** The initcode in the bytecode itself: what follows its header, or all of it. */
  predicate OwnInitcode(bytecode: seq<byte>, initcode: seq<byte>) {
    if [0, 0x73, 0x69, 0x73] <= bytecode then Initcode(bytecode) == Ok(initcode) else initcode == bytecode
  }

  function OwnOf(bytecode: seq<byte>): seq<byte> {
    if [0, 0x73, 0x69, 0x73] <= bytecode && Initcode(bytecode).Ok? then Initcode(bytecode).value else bytecode
  }

  /**
   * The initcode read from a deploy request is the bytecode's own initcode followed by the encoded
   * arguments, for bytecode without a header or with a complete one.
   */
  lemma DeployedInitcode(options: Options)
    requires WellFormed(options) && Deploy(Some(options)).Ok?
    requires var bytecode := BytecodeBytes(options.bytecode).value; bytecode != [] && Appendable(bytecode)
    ensures var bytecode := BytecodeBytes(options.bytecode).value;
      exists own :: OwnInitcode(bytecode, own)
        && Initcode(Deploy(Some(options)).value) == Ok(own + if options.args.Some? then options.args.value else [])
  {
    var bytecode := BytecodeBytes(options.bytecode).value;
    var own := OwnOf(bytecode);
    var header := DeployHeader(options.header);
    DefaultTwice(options.header);
    DeployedHeader(options.header);
    ReadAfterRewrite(header, InitcodeOf(bytecode, options.args));
    if options.args.Some? {
      BaseAppended(bytecode, options.args.value);
    }
    assert Base(bytecode).Ok? && own == Base(bytecode).value.1;
    assert own + [] == own;
    assert OwnInitcode(bytecode, own);
  }

  /** Deploying with any arguments sends the bytecode's own initcode followed by them. */
  ghost predicate InitcodeFollowed(bytecode: seq<byte>, header: Option<Object>, gasLimit: bool) {
    exists initcode :: OwnInitcode(bytecode, initcode) && FollowedByArgs(bytecode, header, gasLimit, initcode)
  }

  ghost predicate FollowedByArgs(bytecode: seq<byte>, header: Option<Object>, gasLimit: bool, initcode: seq<byte>) {
    forall args: seq<byte> ::
      var deployed := Deploy(Some(Options(Raw(bytecode), header, Some(args), gasLimit)));
      deployed.Ok? && Initcode(deployed.value) == Ok(initcode + args)
  }

  /**
   * For bytecode that can be deployed without arguments, this holds exactly when the bytecode is
   * appendable: it has a header that is all there, or is not the beginning of the prefix.
   */
  lemma InitcodeFollowedExactlyWhenAppendable(bytecode: seq<byte>, header: Option<Object>, gasLimit: bool)
    requires Deploy(Some(Options(Raw(bytecode), header, None, gasLimit))).Ok?
    ensures InitcodeFollowed(bytecode, header, gasLimit) <==> Appendable(bytecode)
  {
    var given := DeployHeader(header);
    DefaultTwice(header);
    DeployedHeader(header);
    ReadAfterRewrite(given, bytecode);
    if Appendable(bytecode) {
      var initcode := OwnOf(bytecode);
      DeployedInitcode(Options(Raw(bytecode), header, None, gasLimit));
      forall args: seq<byte>
        ensures var deployed := Deploy(Some(Options(Raw(bytecode), header, Some(args), gasLimit)));
          deployed.Ok? && Initcode(deployed.value) == Ok(initcode + args)
      {
        RewriteCommutesWithArgs(given, bytecode, args);
        DeployedInitcode(Options(Raw(bytecode), header, Some(args), gasLimit));
      }
      assert OwnInitcode(bytecode, initcode) && FollowedByArgs(bytecode, header, gasLimit, initcode);
    } else {
      SwallowedArgsBreak(given, bytecode);
      var args := SwallowedArgs(bytecode);
      assert Deploy(Some(Options(Raw(bytecode), header, Some(args), gasLimit))).Err?;
    }
  }

  /** How a deploy fails: reported in this order. */
  lemma DeployErrors(options: Options)
    requires WellFormed(options)
    ensures Deploy(None) == Err(NoArguments)
    ensures options.bytecode in {Missing, HexText("")} ==> Deploy(Some(options)) == Err(NoBytecode)
    ensures options.bytecode !in {Missing, HexText("")} && WantsConfidential(options.header) && !options.gasLimit ==>
      Deploy(Some(options)) == Err(GasLimitRequired)
    ensures options.bytecode !in {Missing, HexText("")} && (WantsConfidential(options.header) ==> options.gasLimit) ==>
      (Deploy(Some(options)).Err? ==> Deploy(Some(options)).error.Malformed?)
  {
    DeployedHeader(options.header);
  }

  lemma SameBytesSameDeploy(options: Options, bytecode: Bytecode)
    requires WellFormed(options) && WellFormed(options.(bytecode := bytecode))
    requires BytecodeBytes(options.bytecode) == BytecodeBytes(bytecode)
    ensures Deploy(Some(options)) == Deploy(Some(options.(bytecode := bytecode)))
  {
  }

  /** Hex text, as written by toHex, stands for the bytes it spells. */
  lemma HexBytecode(options: Options, bytes: seq<byte>)
    requires options.bytecode == HexText(Bytes.ToHex(bytes))
    ensures WellFormed(options)
    ensures Deploy(Some(options)) == Deploy(Some(options.(bytecode := Raw(bytes))))
  {
    Bytes.HexRoundTrip(bytes);
    assert Bytes.ToHex(bytes)[0] == '0';
    SameBytesSameDeploy(options, Raw(bytes));
  }

  /** So does text in upper case, and text without the 0x. */
  lemma {:induction false} HexTextBytecode(options: Options, bytes: seq<byte>, upper: bool)
    requires bytes != [] && options.bytecode == HexText(Bytes.HexText(bytes, upper))
    ensures WellFormed(options)
    ensures Deploy(Some(options)) == Deploy(Some(options.(bytecode := Raw(bytes))))
  {
    Bytes.HexTextGivesBytes(bytes, upper);
    assert |Bytes.HexText(bytes, upper)| > 0;
    SameBytesSameDeploy(options, Raw(bytes));
  }

  /** A deploy fails only for the reasons listed, and each of them is enough. */
  lemma DeployDomain(options: Options)
    requires WellFormed(options)
    ensures Deploy(Some(options)).Ok? <==>
      && BytecodeBytes(options.bytecode).Some?
      && var code := InitcodeOf(BytecodeBytes(options.bytecode).value, options.args);
      && code != [] && ReadHeader(code).Ok?
      && (options.header.Some? ==> ValidBody(options.header.value))
      && (WantsConfidential(options.header) ==> options.gasLimit)
  {
    var h: Object := if options.header.None? then [] else options.header.value;
    DefaultTwice(options.header);
    DeployedHeader(options.header);
    assert DeployHeader(options.header) == Merge(DEFAULT_HEADER, h);
    MergeValid(DEFAULT_HEADER, h);
  }
}
