# Verification of oasis.js client protocols and codecs

A Dafny model of the parts of oasis.js whose correctness needs more than one function body: the
polling protocol of the developer gateway, the deploy header codec, the confidential wire format
with the number and hex conversions under it, balances, and the JSON-RPC websocket.
`dafny verify dfyconfig.toml` checks everything.

Operations are functions on values, and the code that updates objects or buffers in place is also
given as classes and methods with arrays and loops, each proved equal to its function
(`Model() == old(Model()).Operation(...)`). Main results about protocols are stated over every
finite sequence of steps (`Run`); a step that cannot happen in a state leaves it unchanged. No lemma
relies on Dafny's automatic induction.

| module | file | models |
|---|---|---|
| Wrappers | Wrappers.dfy | Option, and Result for thrown errors |
| Positional, Bytes | Bytes.dfy | base-256 and hex arithmetic; packages/common/src/bytes.ts |
| Balances | Balance.dfy | the 16-byte balance of packages/common/src/index.ts |
| Confidential | Confidential.dfy | packages/confidential/src/index.ts over an abstract AEAD |
| Json, DeployHeaders | Json.dfy, DeployHeader.dfy | packages/service/src/deploy/header.ts and the JSON it uses |
| Deploys | Deploy.dfy | packages/service/src/deploy/index.ts and discovery in packages/service/src/rpc.ts |
| Windows, Polling | Window.dfy, Polling.dfy | the window and the polling client of packages/gateway/src/polling.ts |
| RequestPolling, SubscriptionPolling | same names | runs of that client against a server queue with a discard floor |
| WebSockets | WebSocket.dfy | packages/web3/src/websocket.ts and its runs |

## What the proofs found

Where the code does not do what its documentation or purpose suggests, the model follows the code,
shows an input, and proves exactly when it does.

- `isValidBody` lets any JSON value without keys pass as an existing header body: `[]`, `""`, a
  number or a boolean. A header given for such code is dropped without an error
  (`EmptyArrayDropsHeader`), and a deploy that is confidential by default is later discovered as
  plaintext (`EmptyArrayHidesConfidentiality`). A header takes effect, and discovery agrees with
  every caller's header, exactly when the code carries no header or one whose body is an object
  (`TakesEffectExactlyOnObjects`, `DiscoveredAsAskedExactlyOnObjects`).
- A poll lets the server discard everything below its offset. A request for a lower id that comes
  after the poll was issued can lose its event for good: `LateLowerRequestLosesItsEvent` gives a
  run whose promise never resolves. `CanBeLostExactly` gives the exact condition (the server's
  floor, or the offset of a poll under way, is above the id, and no answer under way carries the
  event), and `ResolvableExactlyUnlessLost` says that a waiting promise can still resolve in every
  other case. `AscendingRequestsAreSafe` shows that requests in ascending order are never affected.
- Polls fire from a timer and can overlap. In a subscription two overlapping polls hand the same
  event to the callback twice (`OverlappingPollsRepeat`). Over all runs the callback has received a
  log prefix exactly when the ids of every answer counted up from the client's start as it arrived
  (`PrefixExactlyWhenConsecutive`), which holds when polls do not overlap (`EmittedIsLogPrefix`).
- A websocket request made while the connection is not open is only linked to the request made for
  it on open, whose rejection is logged and which is never sent again. Its promise can get stuck in
  three ways: that request is rejected, by an error response or by the timeout
  (`RejectedAfterWaitingIsStranded`); its connection closes, or stops delivering, before the response
  (`ClosedBeforeResponseIsStranded`); or it still waits when a disconnect has hit a connecting
  socket, and sockets deliver no messages while they close, as in a browser
  (`DisconnectedBeforeOpenIsStranded`). `SettlesUnlessStranded` states that a promise is or can be
  settled in every other case, for sockets that deliver while closing (the ws package) and for
  those that do not.
- Unless a poll fails, the poller's timer runs as long as any id of the window is uncollected, also
  when nobody waits for that id: after requests for ids 0 and 2 alone it keeps polling over id 1
  (`IdlePolling`). `TimerRunsExactlyOverGaps` states over all runs when it runs.
- `closeOnOpen` is never reset: after a disconnect during connecting, every later connection is
  closed as soon as it opens, also after `connect()` (`DisconnectWhileConnectingIsForever`,
  `FirstDisconnectCutsShort`). The connection is or can come to be open exactly when no disconnect
  of the run hit a connecting socket (`OpensExactlyUnlessCutShort`).
- `parseNumber` is documented to fail only when the result is longer than `numBytes`, and compares
  the number of hex digits with `numBytes` instead: its domain is below 16^numBytes, for at least
  one byte (`ParseNumberIsValue`, `ParseNumberRefusesWhatFits`). Encryption therefore fails from
  2^32 bytes on (`EncodeIsLayout`).
- The length fields of the wire format are little endian; the comments say big endian.
- Appending constructor arguments commutes with writing a header exactly for code without a header
  or with a complete one (`CommutesExactlyWhenAppendable`); a header that announces more bytes than
  there are, or code that is only the start of the prefix, swallows the arguments
  (`ShortHeaderSwallowsArgs`, `PrefixStartSwallowsArgs`).

## Model

| member | source | states |
|---|---|---|
| RequestPolling.AwaitedIdsAreCovered | packages/gateway/src/polling.ts:105-151 | in every reachable state each awaited id is uncollected and inside the window, a poll issued now has an offset at most every awaited id, and a resolved promise holds the server's event of its own id |
| RequestPolling.TimerRunsWhileAwaiting | packages/gateway/src/polling.ts:105-159 | in every reachable state the timer runs while any promise waits, at most one timer is live, and a running timer implies an open window with uncollected start |
| RequestPolling.TimerRunsExactlyOverGaps | packages/gateway/src/polling.ts:105-159 | over all runs the timer runs if and only if a request has had to wait since the last failed poll and some id of the window is uncollected |
| RequestPolling.GapKeepsPolling | packages/gateway/src/polling.ts:125-159 | an uncollected id inside the window keeps the timer running until its event is published or a poll fails |
| RequestPolling.IdlePolling | packages/gateway/src/polling.ts:105-159 | a concrete run after which nobody waits and polling goes on in every continuation that is not disturbed |
| RequestPolling.DiscardableExactlyWhenThreatened | packages/gateway/src/polling.ts:136-142 | some continuation discards an awaited event if and only if the floor or an outstanding offset is above its id |
| RequestPolling.AscendingRequestsAreSafe | packages/gateway/src/polling.ts:105-142 | a request whose id is at least all earlier ones never loses its event while it waits, in any continuation |
| RequestPolling.OffsetsFollowRequests | packages/gateway/src/polling.ts:136-142 | floor and offsets of every run never exceed the highest requested id |
| RequestPolling.LateLowerRequestLosesItsEvent | packages/gateway/src/polling.ts:105-142 | a concrete run whose promise waits for a published event and resolves in no continuation |
| RequestPolling.LostNeverResolves | packages/gateway/src/polling.ts:105-151 | a promise whose event is discarded and in no answer never resolves |
| RequestPolling.ResolvableExactlyUnlessLost | packages/gateway/src/polling.ts:105-151 | a waiting promise resolves in some continuation if and only if it is not lost: its id is not below the server's floor, or an answer under way carries its event |
| RequestPolling.CanBeLostExactly | packages/gateway/src/polling.ts:136-151 | a waiting promise can come to be lost if and only if the floor or an outstanding offset is above its id and no answer under way carries its event |
| RequestPolling.RoundResolves | packages/gateway/src/polling.ts:125-151 | from any state satisfying the invariant, one round of tick, serve and answer resolves a waiting promise whose retained event is in the answer |
| RequestPolling.RequestWaitsOrResolves | packages/gateway/src/polling.ts:105-120 | in every run a request adds one promise with its id and changes no other: resolved if its event has arrived, else waiting inside the window with the timer running |
| RequestPolling.AnswerResolvesExactly | packages/gateway/src/polling.ts:136-151 | an answer resolves exactly the waiting promises whose event it carries, with the server's event, and settles no other |
| RequestPolling.EarlyArrival | packages/gateway/src/polling.ts:105-110 | an event that arrived before its request resolves any later request for its id at once, after any further steps |
| RequestPolling.FailureRejectsWaiting | packages/gateway/src/polling.ts:125-134 | a failed poll, lost on the way there or back, rejects exactly the waiting promises with its error, stops the timer and keeps the window |
| RequestPolling.RunGrows | packages/gateway/src/polling.ts:105-120 | along any run promises keep their ids and settled ones their outcome |
| RequestPolling.RunKeeps | packages/gateway/src/polling.ts:105-159 | the invariant of the poller is kept by every run |
| SubscriptionPolling.NothingIsLost | packages/gateway/src/polling.ts:136-168 | in every run all ids below start were emitted, everything not emitted is retained by the server, start never decreases, the window ends at 2^53, and at most one timer is live |
| SubscriptionPolling.EmittedIsLogPrefix | packages/gateway/src/polling.ts:136-168 | with polls that do not overlap and contiguous answers the callback received exactly the log prefix up to start |
| SubscriptionPolling.PrefixExactlyWhenConsecutive | packages/gateway/src/polling.ts:136-168 | over all runs the callback has received a prefix of the log if and only if the ids of every answer counted up from start when it arrived |
| SubscriptionPolling.NeverEndsSilently | packages/gateway/src/polling.ts:125-168 | in every run without a stop by the subscriber, a subscription whose timer does not run has handed an error to the callback |
| SubscriptionPolling.FailedPollStops | packages/gateway/src/polling.ts:125-134 | in every run a failed poll stops the timer, hands its error to the callback, keeps all that was received, and makes subscribing possible again |
| SubscriptionPolling.SubscribeStarts | packages/gateway/src/polling.ts:161-168 | in every run subscribing is possible if and only if no timer runs, and then starts a new one and keeps all that was received |
| SubscriptionPolling.UnsubscribeStops | packages/gateway/src/polling.ts:156-159 | in every run stopping clears the timer and keeps all that was received |
| SubscriptionPolling.AnswerKeepsPrefixExactly | packages/gateway/src/polling.ts:144-150 | an answer keeps the trace a log prefix if and only if it is the run of the log from start |
| SubscriptionPolling.RoundCatchesUp | packages/gateway/src/polling.ts:125-151 | after an orderly run, one undisturbed round brings the callback to the whole log |
| SubscriptionPolling.OverlappingPollsRepeat | packages/gateway/src/polling.ts:125-151 | a concrete run with two overlapping polls that emits one event twice |
| Windows.SlideAllIsFirstGap | packages/gateway/src/polling.ts:234-246 | sliding any items moves start to the least uncollected id of the old window, or end, and collects exactly their ids |
| Windows.OrderIndependence | packages/gateway/src/polling.ts:234-246 | any permutation of the items gives the same window |
| Windows.ClosedWhenAllCollected | packages/gateway/src/polling.ts:234-253 | the window is closed if and only if every id of the old window is collected |
| Windows.ExtendSettled | packages/gateway/src/polling.ts:216-228 | extending takes an uncollected id in, keeps all that was inside, and leaves start uncollected |
| Windows.ExtendLeast | packages/gateway/src/polling.ts:216-228 | extending gives the least window that has the id and, if it was open, the old window, and touches no collected item |
| Windows.SlideMoves | packages/gateway/src/polling.ts:234-246 | an item elsewhere moves nothing; the item at start moves start to the next uncollected id or end |
| Windows.LastItemIsKept | packages/gateway/src/polling.ts:234-246 | of several items with one id the last is kept |
| Windows.Window.constructor | packages/gateway/src/polling.ts:208-211 | a missing bound is -1 |
| Windows.Window.Extend | packages/gateway/src/polling.ts:216-228 | the object form of extend |
| Windows.Window.Slide | packages/gateway/src/polling.ts:234-246 | the loop moves start to the first gap of the updated collection |
| Windows.Window.IsClosed | packages/gateway/src/polling.ts:251-253 | start equals end |
| Windows.Window.Item | packages/gateway/src/polling.ts:258-260 | the collected item of an id |
| Polling.PollingService.constructor | packages/gateway/src/polling.ts:63-75 | a subscription's window is [0, 2^53), otherwise it is closed |
| Polling.NewClients | packages/gateway/src/polling.ts:63-75 | a subscription begins with the window [0, 9007199254740992), any other client with a closed one, and no timer |
| Polling.ClosedWindowStops | packages/gateway/src/polling.ts:144-150 | after each event the timer is stopped if and only if the window has closed |
| Polling.AnswerSlides | packages/gateway/src/polling.ts:144-150 | the events of an answer slide into the window in order |
| Polling.PollingService.Response | packages/gateway/src/polling.ts:105-120 | resolves from the cache, or extends the window, adds both listeners and starts the timer if none runs |
| Polling.PollingService.HandleEvent | packages/gateway/src/polling.ts:144-150 | one event of an answer settles its listeners or reaches the subscriber, slides, and stops a closed window's timer |
| Polling.PollingService.Answer | packages/gateway/src/polling.ts:136-151 | the events of an answer are delivered in order |
| Polling.PollingService.Failure | packages/gateway/src/polling.ts:129-132 | every error listener rejects once, the callback gets the error, and polling stops |
| Polling.PollingService.Subscribe | packages/gateway/src/polling.ts:161-168 | refuses while polling, else adds a subscriber and starts |
| Polling.PollingService.Start | packages/gateway/src/polling.ts:125-134 | sets one new timer |
| Polling.PollingService.Stop | packages/gateway/src/polling.ts:156-159 | clears the current timer |
| DeployHeaders.RewritesCompose | packages/service/src/deploy/header.ts:47-80 | two rewrites equal one rewrite with the merged header, byte for byte and key order included, on code with no header, one whose body is modelled JSON, or one that cannot be read, failures included |
| DeployHeaders.RewriteIdempotent | packages/service/src/deploy/header.ts:47-80 | applying a header twice equals applying it once |
| DeployHeaders.RewriteWithoutHeader | packages/service/src/deploy/header.ts:47-80 | code without the prefix gets a version 1 header with the given members in front, and is itself the initcode read back, whole |
| DeployHeaders.RewriteOverHeader | packages/service/src/deploy/header.ts:47-80 | code with a header succeeds if and only if it can be read, keeps its version and initcode, and has the new members assigned |
| DeployHeaders.DeployCodeDomain | packages/service/src/deploy/header.ts:47-95 | exactly when deployCode succeeds and with which error it fails; an empty header leaves the code alone |
| DeployHeaders.ReadsExactly | packages/service/src/deploy/header.ts:100-161 | exactly which code is read as carrying which header: prefix, big endian version and length, and a body that writes a document with no other keys |
| DeployHeaders.InitcodeExactly | packages/service/src/deploy/header.ts:200-211 | the initcode is what follows the announced body |
| DeployHeaders.DataSpelled | packages/service/src/deploy/header.ts:28-38 | the bytes 00 73 69 73, the version and the body length big endian in two bytes each, then the body |
| DeployHeaders.ReadAfterRewrite | packages/service/src/deploy/header.ts:28-80 | reading a rewritten code gives the old version or 1, the old body with the new members assigned, and exactly the old initcode; an object body has every new member and keeps the others, any other body has none |
| DeployHeaders.TakesEffectExactlyOnObjects | packages/service/src/deploy/header.ts:47-110 | all members given by the caller are read back if and only if the code had no header or one whose body is an object |
| DeployHeaders.EmptyArrayDropsHeader | packages/service/src/deploy/header.ts:70-110 | code whose header body is the empty array stays the same byte for byte under every rewrite |
| DeployHeaders.ReadData | packages/service/src/deploy/header.ts:28-38 | reading serialized header data followed by any initcode returns version, body and initcode |
| DeployHeaders.ReadForeignHeader | packages/service/src/deploy/header.ts:133-161 | a header written by another tool, with any white space in each place, any key order and repeated keys, is read as the object its members denote, or refused for an unknown key |
| DeployHeaders.CommutesExactlyWhenAppendable | packages/service/src/deploy/header.ts:47-80 | rewriting commutes with all appended arguments if and only if the code has no header, not even the start of one, or a complete one |
| DeployHeaders.ShortHeaderSwallowsArgs | packages/service/src/deploy/header.ts:149-161 | a header that announces one byte too many is rewritten, and does not commute with arguments |
| DeployHeaders.PrefixStartSwallowsArgs | packages/service/src/deploy/header.ts:225-233 | code that is only the first prefix byte is rewritten, and does not commute with arguments |
| DeployHeaders.RewriteCommutesWithArgs | packages/service/src/deploy/header.ts:47-80 | rewriting appendable code followed by arguments is rewriting the code, followed by the arguments |
| DeployHeaders.RewrittenIsAppendable | packages/service/src/deploy/header.ts:73-80 | rewritten code always carries a complete header |
| DeployHeaders.BodyLength | packages/service/src/deploy/header.ts:28-38 | printed bodies have at most 48 bytes (59 for members of either type), objects or not, so the 16-bit length field is exact |
| DeployHeaders.ShortRoundTrip | packages/service/src/deploy/header.ts:214-223 | reading a written short gives the number modulo 2^16 |
| DeployHeaders.IsValidBody | packages/service/src/deploy/header.ts:100-110 | the key loop accepts exactly the bodies whose keys are all valid, and so every body without keys |
| DeployHeaders.CodeHasPrefix | packages/service/src/deploy/header.ts:225-233 | the index loop decides whether the code begins with the prefix |
| DeployHeaders.DeployHeader.Assign | packages/service/src/deploy/header.ts:70-72 | assigning the members in place is the merge for an object, and changes nothing that is printed for any other body |
| DeployHeaders.DeployHeader.Serialize | packages/service/src/deploy/header.ts:28-38 | the concatenated buffer is prefix, version, length and body |
| DeployHeaders.DeployCodeBytes | packages/service/src/deploy/header.ts:47-80 | the array form of deployCode, with its errors, and which array it returns |
| Json.ParsePrinted | packages/service/src/deploy/header.ts:149-161 | parsing a printed body, object or not, gives it back: members in order, decimal numbers included |
| Json.ParseExactly | packages/service/src/deploy/header.ts:160 | the parser accepts exactly the texts that write a document with some white space, and returns that document |
| Json.EntriesSpelled | packages/service/src/deploy/header.ts:274-276 | the printed members, spelled out |
| Json.DecimalDigit | packages/service/src/deploy/header.ts:274-276 | digit i of a printed number is that of n / 10^i |
| Json.ParseSpaced | packages/service/src/deploy/header.ts:149-161 | members written with any white space in each place, in any order and with repeated keys, parse as if assigned one after the other |
| Json.ParseSpacedKeyless | packages/service/src/deploy/header.ts:160 | an empty array, empty text, number or boolean within white space parses as itself |
| Json.UsualSpacing | packages/service/src/deploy/header.ts:160 | two members with one space after each colon and comma parse as the two members in order |
| Json.ParseDistinct | packages/service/src/deploy/header.ts:160 | a parsed object has each key once |
| Json.MergeAssociative | packages/service/src/deploy/header.ts:70-72 | Object.assign is associative, key order included |
| Json.MergeOrder | packages/service/src/deploy/header.ts:70-72 | assignment keeps the order of the old keys and puts the new ones behind them in order |
| Json.AssignAssociative | packages/service/src/deploy/header.ts:70-72 | assigning two headers in turn is assigning the merged one, for objects and for bodies without keys |
| Json.GetAfterMerge | packages/service/src/deploy/header.ts:70-72 | a merged object has the new members, and the old ones that are not overridden |
| Deploys.DeployThenDiscover | packages/service/src/rpc.ts:177-202 | discovering a deployed code picks the confidential coder if and only if the caller's header asks for it or is silent and the bytecode has no header or one whose body is an object, whatever that says; then a gas limit was given |
| Deploys.DiscoveredAsAskedExactlyOnObjects | packages/service/src/rpc.ts:177-202 | discovery agrees with every caller's header if and only if the code carries no header or one whose body is an object |
| Deploys.EmptyArrayHidesConfidentiality | packages/service/src/rpc.ts:188-192 | a deploy over a header with body empty array asks for confidentiality, succeeds, and is discovered as plaintext |
| Deploys.RewriteThenDiscover | packages/service/src/rpc.ts:177-202 | rewriting any code's header decides what is discovered exactly when the new header speaks about confidentiality and the code carries no header or an object; otherwise the same is discovered as before |
| Deploys.DiscoverExactly | packages/service/src/rpc.ts:177-202 | for any code: no code is an error, an unreadable header is an error, and otherwise the confidential member alone decides |
| Deploys.DeployedInitcode | packages/service/src/deploy/index.ts:141-157 | the initcode of a deploy request is what follows the bytecode's own header, or the whole bytecode, followed by the encoded arguments |
| Deploys.DeployedMembers | packages/service/src/deploy/index.ts:132-145 | the header sent has every member of the caller's, confidential true if the caller is silent about it, and else the bytecode's own members and version |
| Deploys.DeployErrors | packages/service/src/deploy/index.ts:65-179 | which error a deploy without arguments, bytecode or gas limit reports |
| Deploys.HexBytecode | packages/service/src/deploy/index.ts:78-81 | hex text as bytecode deploys what the bytes it spells deploy |
| Deploys.HexTextBytecode | packages/service/src/deploy/index.ts:78-81 | so does text in upper case, and text without 0x |
| Deploys.InitcodeFollowedExactlyWhenAppendable | packages/service/src/deploy/index.ts:141-157 | the initcode of a deploy is the bytecode's own followed by the arguments, for all arguments, if and only if the bytecode has no header, not even the start of one, or a complete one |
| Deploys.DeployDomain | packages/service/src/deploy/index.ts:65-179 | exactly when a deploy produces data |
| Deploys.DefaultTwice | packages/service/src/deploy/index.ts:132-143 | filling in the default header a second time changes nothing |
| Confidential.SplitInvertsLayout | packages/confidential/src/index.ts:120-161 | splitting returns given parts if and only if they are valid and the input is their layout |
| Confidential.LayoutInjective | packages/confidential/src/index.ts:56-63 | different parts have different layouts |
| Confidential.SplitDomain | packages/confidential/src/index.ts:120-172 | the accepted inputs, by length and the two little endian fields below 2^53-1 |
| Confidential.SplitErrors | packages/confidential/src/index.ts:120-155 | which error a refused payload reports |
| Confidential.LayoutSections | packages/confidential/src/index.ts:26-63 | where each of the six sections is, with both lengths little endian in eight bytes |
| Confidential.SplitEncryptedPayload | packages/confidential/src/index.ts:120-161 | the method with its arrays computes the split |
| Confidential.Encrypt | packages/confidential/src/index.ts:26-64 | the method with its concatenated buffer computes the encryption |
| Confidential.EncodeIsLayout | packages/confidential/src/index.ts:56-63 | the concatenated sections are the layout, and exist if and only if ciphertext and aad are shorter than 2^32 |
| Confidential.DecryptAfterEncrypt | packages/confidential/src/index.ts:26-107 | if open inverts seal for this message, decrypting an encryption returns plaintext, aad, nonce and sender key |
| Confidential.EncryptedIsLayout | packages/confidential/src/index.ts:26-64 | encrypting gives the layout of the sender's key, the sealed text, the aad and the nonce, exactly below 2^32 bytes |
| Confidential.DecryptOpensParts | packages/confidential/src/index.ts:71-107 | decrypting a layout opens its own parts, and fails if opening fails |
| Bytes.ToNumberIsValue | packages/common/src/bytes.ts:112-128 | toNumber is the base-256 value for 1 to 8 bytes in both byte orders, and rejects from 2^53-1 on |
| Bytes.ParseNumberIsValue | packages/common/src/bytes.ts:49-66 | parseNumber succeeds if and only if 0 <= num < 16^numBytes and numBytes > 0, with numBytes bytes denoting num |
| Bytes.NumberRoundTrip | packages/common/src/bytes.ts:49-128 | toNumber undoes parseNumber |
| Bytes.ParseNumberRefusesWhatFits | packages/common/src/bytes.ts:46-62 | 256 fits into two bytes and is refused |
| Bytes.ParseHexValue | packages/common/src/bytes.ts:8-27 | parseHex gives half the digits, rounded up, denoting the same number in the chosen byte order |
| Bytes.HexRoundTrip | packages/common/src/bytes.ts:8-39 | parsing the hex form gives the bytes back, or their mirror image for little endian |
| Bytes.HexSpelled | packages/common/src/bytes.ts:34-39 | the hex form is 0x and two lower case digits a byte |
| Bytes.HexTextGivesBytes | packages/common/src/bytes.ts:8-27 | hex text in either case, with or without 0x, gives the bytes it spells |
| Bytes.HexBodyReversed | packages/common/src/bytes.ts:116-122 | reversing digit pairs is reversing bytes |
| Bytes.Concat | packages/common/src/bytes.ts:71-84 | the filled buffer is the concatenation of the arrays |
| Balances.IntegerBalance | packages/common/src/index.ts:56-64 | any integer is stored as its residue modulo 2^128, big endian |
| Balances.HexBalance | packages/common/src/index.ts:65-67 | a hex string of at most 32 digits is the balance of the integer it denotes, a longer one is refused |
| Balances.IntegerAndHexAgree | packages/common/src/index.ts:53-73 | an integer and its hex form give the same balance |
| Balances.RawBalance | packages/common/src/index.ts:68-71 | bytes are taken as they are if there are 16 of them, and refused otherwise |
| Balances.WaysAgree | packages/common/src/index.ts:53-73 | sixteen bytes, their hex text in either case and their number give the same balance |
| Balances.BigintBytes | packages/common/src/index.ts:59-64 | the byte loop computes the residue modulo 2^128 |
| Balances.MakeBalance | packages/common/src/index.ts:53-73 | the constructor on numbers, strings and bytes, with its errors |
| Balances.Balance.Hex | packages/common/src/index.ts:31-36 | the cached hex form is that of the bytes |
| WebSockets.CallsAreSentInOrder | packages/web3/src/websocket.ts:182-234 | over any run frame i carries id i and the i-th request made in the run, all other calls wait in order, and none waits on an open socket |
| WebSockets.CallsAreThoseMade | packages/web3/src/websocket.ts:182-192 | over any run the recorded calls are those made, each linked if and only if the connection was not open when it was made |
| WebSockets.SettledOnlyByOwn | packages/web3/src/websocket.ts:194-218 | a step settles at most one pending promise, only by its own timeout or a response with its own id, and only after it was sent |
| WebSockets.RunGrows | packages/web3/src/websocket.ts:182-229 | along any run calls and frames stay as they are and settled promises keep their outcome |
| WebSockets.UnsettledFramesHaveTimers | packages/web3/src/websocket.ts:197-218 | a frame is unsettled if and only if its timeout runs; then its timeout rejects it, a delivered result of its id resolves it and an error rejects it, and the promise of its call follows except that a call that had to wait ignores rejections |
| WebSockets.LateResponseIsHarmless | packages/web3/src/websocket.ts:197-218 | a timeout leaves the listener in place; a late response removes it and changes no promise |
| WebSockets.SettlesUnlessStranded | packages/web3/src/websocket.ts:182-192 | over all runs a promise is settled, or settles in some continuation whose responses come over their frames' own sockets, if and only if its call is not stranded: linked, and its request rejected, unanswered on a socket that delivers no more, or never to be answered because every connection is closed on open |
| WebSockets.RejectedAfterWaitingIsStranded | packages/web3/src/websocket.ts:182-192 | a call made before the connection opens whose frame gets an error response is stranded |
| WebSockets.ClosedBeforeResponseIsStranded | packages/web3/src/websocket.ts:155-192 | a call made before the connection opens is stranded when that connection closes before the response, with any code |
| WebSockets.DisconnectedBeforeOpenIsStranded | packages/web3/src/websocket.ts:169-192 | a call that waits while a disconnect hits the connecting socket is stranded, if closing sockets deliver nothing |
| WebSockets.CloseStrandsUnanswered | packages/web3/src/websocket.ts:155-192 | closing a socket strands exactly the linked calls among those whose frames on it are unanswered |
| WebSockets.StrandedStays | packages/web3/src/websocket.ts:104-235 | a stranded call stays stranded in every continuation with genuine responses |
| WebSockets.ReachableSockets | packages/web3/src/websocket.ts:182-229 | in every run each frame was sent on a socket that exists and had opened |
| WebSockets.SignalsAlternate | packages/web3/src/websocket.ts:127-153 | over all runs the trace has one word for every change between fewer than two and at least two errors since the last open that was not cut short; it alternates, starts with trouble, and ends with trouble if and only if there are at least two such errors |
| WebSockets.SignalsFollowRun | packages/web3/src/websocket.ts:127-153 | over all runs the error count of the client is the number of errors since the last open that was not cut short |
| WebSockets.DisconnectWhileConnectingIsForever | packages/web3/src/websocket.ts:127-180 | after a disconnect during connecting no later step leaves the current socket open or signals ok |
| WebSockets.OpensExactlyUnlessGivenUp | packages/web3/src/websocket.ts:127-180 | a client without an open socket can get one in some continuation if and only if closeOnOpen is not set |
| WebSockets.CloseOnOpenExactlyWhenCutShort | packages/web3/src/websocket.ts:169-180 | over all runs closeOnOpen is set if and only if some disconnect hit a connecting current socket |
| WebSockets.OpensExactlyUnlessCutShort | packages/web3/src/websocket.ts:127-180 | over all runs the connection is open or can come to be if and only if no disconnect hit a connecting current socket |
| WebSockets.FirstDisconnectCutsShort | packages/web3/src/websocket.ts:169-180 | after a disconnect before the first open, no continuation has an open connection |
| WebSockets.AbnormalCloseRecovers | packages/web3/src/websocket.ts:155-167 | an abnormal close leaves the client connecting with every call and frame kept, and when that connection opens every waiting call is sent, frames of the closed socket not being sent again; a normal close makes no connection |
| WebSockets.DisconnectExactly | packages/web3/src/websocket.ts:169-180 | disconnect closes an open socket and changes nothing else, only remembers to close a connecting one, and otherwise does nothing |
| WebSockets.OpenEventExactly | packages/web3/src/websocket.ts:127-136 | an open event closes the current connection if and only if a disconnect is remembered |
| WebSockets.CallsWaitForOpen | packages/web3/src/websocket.ts:182-192 | while no socket opens no frame is sent and every new call waits |
| WebSockets.RunKeeps | packages/web3/src/websocket.ts:104-235 | the invariant of the client is kept by every run |
| WebSockets.RetryOpen | packages/web3/src/websocket.ts:127-128 | on an open socket the open event sends every queued call, in order |
| WebSockets.RetryClosed | packages/web3/src/websocket.ts:185-191 | an open event of a replaced socket queues the calls again, in order |
| WebSockets.MessageIsOwn | packages/web3/src/websocket.ts:122-125 | a response reaches the listener of its own id, if there is one, and nothing else |
| WebSockets.JsonRpcWebSocket.constructor | packages/web3/src/websocket.ts:79-88 | a new client is connecting and has sent nothing |
| WebSockets.JsonRpcWebSocket.NextId | packages/web3/src/websocket.ts:231-234 | ids count up from the old counter |
| WebSockets.JsonRpcWebSocket.Request | packages/web3/src/websocket.ts:182-229 | queues the call, or sends a frame with listener and timeout |
| WebSockets.JsonRpcWebSocket.EmitOpen | packages/web3/src/websocket.ts:186-190 | the once-listeners of the open event run in order |
| WebSockets.JsonRpcWebSocket.OnOpen | packages/web3/src/websocket.ts:127-143 | flushes the queue, then closes or signals ok and resets the error count |
| WebSockets.JsonRpcWebSocket.OnError | packages/web3/src/websocket.ts:145-153 | counts, and signals trouble on the second error only |
| WebSockets.JsonRpcWebSocket.OnClose | packages/web3/src/websocket.ts:155-161 | reconnects after any code but 1000 |
| WebSockets.JsonRpcWebSocket.Connect | packages/web3/src/websocket.ts:163-167 | replaces the current socket by a connecting one |
| WebSockets.JsonRpcWebSocket.Disconnect | packages/web3/src/websocket.ts:169-180 | closes an open socket, or remembers to close a connecting one |
| WebSockets.JsonRpcWebSocket.OnMessage | packages/web3/src/websocket.ts:122-125 | removes and calls the listeners of the response's id |
| WebSockets.JsonRpcWebSocket.OnTimeout | packages/web3/src/websocket.ts:209-216 | rejects the frame's promise and leaves its listener in place |

## Left out

- Cryptography: sealing and opening are function parameters; no property of them is assumed beyond inverting each other on the message at hand.
- JSON outside one flat object of naturals up to 2^53-1 and booleans, and outside the values without keys `[]`, `""`, such naturals and booleans: other texts, null, fractions, exponents, signs, nesting and escapes are parse failures in the model, as is text that is not ASCII. The program refuses null, non-empty arrays and non-empty texts as a body too; it accepts any other number as a body, as one more value without keys, and any JSON value as that of a member.
- DeployHeaders.RewritesCompose: an existing body that the program can parse and the model cannot (a member with another JSON value, a leading byte order mark, text that is not ASCII) counts as one that cannot be read, where the program rewrites it.
- DeployHeaders.RewriteIdempotent: the same existing bodies count as unreadable.
- DeployHeaders.DeployCodeBytes: the same existing bodies are an error here.
- A header that ends inside its fixed fields is modelled as a range error, which is what a buffer of exactly the code's length gives; reading on in a larger shared buffer is not modelled.
- Header objects of the caller: null or undefined headers and undefined member values, which the TypeScript types exclude.
- Hex text with characters that are not hex digits, and numbers that are not integers.
- The constructor arguments' CBOR encoding, extraction of the IDL from WASM, and the rest of the deploy options: the encoded arguments are given.
- The registry of polling services by url, queue and session, HTTP and sessions, and the poll api's url and method.
- Truthiness of collected events: events are objects, so a collected id always counts as collected.
- Errors thrown by subscription callbacks, and what a callback itself does; unsubscribing may happen at any step.
- Polling.PollingService.Subscribe: of several callbacks on one service only the first is traced; the others receive the same events and errors from when they are added.
- Calls of response on a subscription's service and of subscribe on the request service, which the gateway does not make.
- Timer durations: a live timer may fire at any time. Ids are naturals below 2^53, where JavaScript numbers are exact.
- Websocket middleware, malformed messages, and sends that throw: a received message is one that passed all of this. A promise that follows another settles in the same step rather than in a later microtask.
- Deploys.DeployDomain: the encoding of the arguments and reading the IDL from the bytecode can fail as well; both are given here.
- RPC method generation, option checks of RPC calls, the key store, wallets, gateways and workspace loading: thin wrappers and I/O.
