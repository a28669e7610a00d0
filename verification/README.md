# tinywallet: verified model of the transaction core

tinywallet builds, checks and signs transactions on four chains (EVM, Bitcoin, Solana, Tron)
behind a module that a host calls over a bus. This project models the parts of it where a
mistake moves money, and proves what they promise:

- **Tron** (`Varint`, `Proto`, `Hex`, `Utf8`, `Tron`, `TronRefinement`, `TronStability`, `TronClient`): a node builds
  the transaction, and the wallet reads its protobuf bytes to decide whether they are the
  transfer it asked for. The reader is proved equal to the published grammar, the check is
  proved equal to a condition stated over that grammar, and its verdict is proved stable. The
  client around it is proved to pass on exactly the replies that do what the quote says.
- **Wire formats** (`Rlp`, `Evm`, `Solana`, `Base64`): the code holds encoders only. Decoders are
  written as specification, proved to invert them and to accept nothing else, so what gets
  signed determines the facts it states.
- **Bitcoin** (`Btc`): largest-first coin selection with checked 64-bit sums, building, and the
  placement of signatures.
- **Quotes and intents** (`Intent`): 256-bit decimal amounts, ERC-20 calldata, and the comparison
  of an execution intent with a prepared quote.
- **The signing path** (`Service`): derive, build, sign and reassemble, across all four chains.
- **State machines** (`Signer`, `Lifecycle`, `Audit`, `AuditGraph`): the one-shot secret and host approval around
  signing, the services behind read/write locks, and the dependency-closure audit.

`Bytes` holds bytes, words, error kinds and the shared arithmetic. `dafny verify dfyconfig.toml`
checks the whole project.

## How the source is represented

- Foreign code (SHA-256, Keccak, ECDSA, ed25519, base58, bech32, key derivation, sighashes) is a
  record of function parameters, arbitrary but deterministic, so every statement holds for all of
  them. No injectivity of a hash is assumed anywhere.
- Host answers, task scheduling and the success of derivation are arbitrary: parameters of a step
  or of a method.
- Errors keep their kind and lose their text. Machine words are integers with explicit bounds;
  `<<` and `|` on 64-bit words are modelled bit by bit where bits could be lost.
- Text is ASCII. The integer parser under `decode_hex` takes a leading `+`; the model does too.
  On such text the structural check may accept what the byte-run check refuses:
  `AcceptedRunIff` gives the exact condition, `PlusHexIsRefused` a family of failures, and
  plain hex digits exclude them all.
- The order of the levels of the Tron check is that of the code. Where the comment on
  `verify_transfer` says that it confirms the recipient and the amount, the code confirms only
  that their bytes occur somewhere; `RunCheckIsStrictlyWeaker` shows the difference.
- EIP-155's `v` is said to bind a signature to one chain. With recovery ids 2 and 3, which the code
  admits, it does not: `RecoveryTwoCollides` gives the family of collisions and `SignedIff` the
  exact condition.
- The comparison of an intent with a quote does not see the amount or the recipient of a Solana or
  Tron token transfer. `QuoteFixesEffectIff` states exactly which quotes fix what moves.
- For a TRC20 transfer the client names the token contract as the expected recipient, while the
  comparison wants the payee there. `OwnIntentMatchesIff` states when the client's own transaction
  matches its quote, `MatchingTokenCallsPayee` and `EveryCallMatches` what matches instead.
- A signer without native approval signs messages of any chain, and transactions other than EVM
  ones, without asking the host; `UnapprovedIff` is exact about it. A Web3 execution asks the host
  about a Solana quote before it opens the signer, but nothing ties what is then signed to what
  was approved; `ExecutesUnapprovedIff` is exact about the two together.
- The result of signing is text and an id, as sent out. A Bitcoin transaction stays a value, since
  its serialisation is foreign code.

## Model

| member | source | states |
|---|---|---|
| `Varint.EncodeVarint` | crates/tinywallet-crypto/src/tx/proto.rs:66-79 | the loop writes the least-significant-first base-128 groups of the value |
| `Varint.TakeVarint` | crates/tinywallet-crypto/src/tx/proto.rs:179-198 | the shift-and-or loop on a 64-bit word computes the group reader, with no bit lost to a shift or an or |
| `Varint.TakeIff` | crates/tinywallet-crypto/src/tx/proto.rs:179-198 | a prefix is accepted with value v exactly when it is a well-formed varint of at most ten groups whose full base-128 sum is v and fits 64 bits, whatever follows |
| `Varint.TakeSplits` | crates/tinywallet-crypto/src/tx/proto.rs:179-198 | every accepted input splits into a well-formed varint of at most ten bytes and the untouched rest |
| `Varint.RoundTrip` | crates/tinywallet-crypto/src/tx/proto.rs:61-79 | reading what was written returns the value and leaves any tail |
| `Varint.EncodeIsShortest` | crates/tinywallet-crypto/src/tx/proto.rs:61-79 | no encoding of the value is shorter than the written one, and no other has its length |
| `Proto.ParseFields` | crates/tinywallet-crypto/src/tx/proto.rs:92-120 | the cursor loop computes the recursive reader, errors included |
| `Proto.ParseIff` | crates/tinywallet-crypto/src/tx/proto.rs:81-120 | the reader accepts exactly the byte strings that are fields laid end to end with no gap or overlap, and returns exactly those fields |
| `Proto.ParseConcat` | crates/tinywallet-crypto/src/tx/proto.rs:92-120 | once a parses, a followed by b parses exactly when b does, into the joined lists |
| `Proto.ParseSerialise` | crates/tinywallet-crypto/src/tx/proto.rs:92-120 | reading any serialised list of fields with numbers from 1 to 2^61-1 returns the list |
| `Proto.ValueIsRun` | crates/tinywallet-crypto/src/tx/proto.rs:106-110 | a length-delimited value is a contiguous run of the message that carries it |
| `Proto.LookupsIff` | crates/tinywallet-crypto/src/tx/proto.rs:122-176 | each accessor answers exactly when its field occurs once with the right wire type, and the optional one also when it is absent |
| `Hex.DecodeEncode` | crates/tinywallet-crypto/src/tx/tron.rs:292-317 | rendered hex decodes to the bytes and is plain lower-case text |
| `Hex.EncodeDecode` | crates/tinywallet-crypto/src/tx/tron.rs:292-317 | any even run of hex digits decodes, and renders back as its lower-case form |
| `Hex.TrimStrips` | crates/tinywallet-crypto/src/tx/tron.rs:292-293 | trimming removes all the surrounding space and nothing else |
| `Hex.LowerFolds` | crates/tinywallet-crypto/src/tx/tron.rs:67-71 | case is ignored for exactly the 26 ASCII letters |
| `Utf8.IsUtf8Iff` | crates/tinywallet-crypto/src/tx/tron.rs:237-243 | the type url is accepted as UTF-8 exactly when it encodes some sequence of scalar values |
| `Tron.CheckRawIff` | crates/tinywallet-crypto/src/tx/tron.rs:157-250 | the raw bytes are accepted exactly when every level is well-formed, each read field occurs once, and kind, UTF-8 type url, recipient and amount (or calldata, call value and fee limit) are those requested |
| `Tron.VerifyContractIff` | crates/tinywallet-crypto/src/tx/tron.rs:139-217 | the whole check accepts exactly on a matching txID, a valid recipient and bytes that perform the request |
| `Tron.VerifyContractErrors` | crates/tinywallet-crypto/src/tx/tron.rs:139-217 | bad hex, then the id, then the address each give their own error; a transaction that is read in full and does something else is an untrusted response |
| `Tron.VerifyTransferIff` | crates/tinywallet-crypto/src/tx/tron.rs:60-98 | the byte-run check accepts exactly on a matching txID, a valid recipient whose hex shows in the text, and a non-empty expected run that occurs in the bytes |
| `Tron.VerifyTransferErrors` | crates/tinywallet-crypto/src/tx/tron.rs:60-98 | its errors, in the order of its checks |
| `Tron.EndsWithIff` | crates/tinywallet-crypto/src/tx/tron.rs:157-186 | the type url test is that some front precedes the suffix |
| `Tron.LayersNest` | crates/tinywallet-crypto/src/tx/tron.rs:226-250 | unwrapping the contract and its `Any` succeeds exactly on nested well-formed messages with each read field occurring once |
| `TronRefinement.PayloadIsRun` | crates/tinywallet-crypto/src/tx/tron.rs:226-250 | the payload and every byte field read from it are contiguous runs of the raw data, four levels down |
| `TronRefinement.AcceptedRunIff` | crates/tinywallet-crypto/src/tx/tron.rs:60-98 | the byte-run check accepts a structurally accepted transaction exactly when the recipient's hex shows in the text and the expected run is non-empty and occurs in the bytes |
| `TronRefinement.PlainAcceptedRunIff` | crates/tinywallet-crypto/src/tx/tron.rs:60-98 | in plain hex digits the recipient always shows, so only the run decides |
| `TronRefinement.StructuralRefinesRun` | crates/tinywallet-crypto/src/tx/tron.rs:113-131 | in plain hex, structural acceptance implies byte-run acceptance for a minimally encoded amount or a non-empty TRC20 parameter |
| `TronRefinement.PlusHexIsRefused` | crates/tinywallet-crypto/src/tx/tron.rs:73-81 | a family in which the recipient does not show: spelled with plus signs, a transaction keeps its structural verdict and the byte-run check refuses it for any recipient with a zero byte |
| `TronRefinement.RunCheckIsStrictlyWeaker` | crates/tinywallet-crypto/src/tx/tron.rs:115-120 | for every native or TRC20 request whose run is there to look for, and every other payee or contract, a well-formed transaction names the other one, passes the byte-run check and fails the structural one |
| `TronRefinement.RunCheckSufficesIff` | crates/tinywallet-crypto/src/tx/tron.rs:60-131 | for one request, whatever the byte-run check accepts the structural check accepts exactly when the recipient is invalid or there is no run to look for |
| `TronRefinement.LayersAreUnique` | crates/tinywallet-crypto/src/tx/tron.rs:219-250 | raw bytes have at most one reading as nested layers |
| `TronStability.PaddingKeepsVerdict` | crates/tinywallet-crypto/src/tx/tron.rs:157-213 | inserting fields with unread numbers anywhere at any level leaves the result of the check unchanged, error kind included |
| `TronStability.PaddingKeepsAcceptance` | crates/tinywallet-crypto/src/tx/tron.rs:139-217 | the same for the whole check, with the id recomputed for each serialisation |
| `TronStability.RepetitionIsRefused` | crates/tinywallet-crypto/src/tx/proto.rs:152-176 | a transaction that repeats any field that is read, at any level, is refused |
| `Rlp.DecodeEncode` | src/tx/rlp.rs:29-36 | decoding an encoded string followed by any tail returns the string and the tail, in all three length classes |
| `Rlp.EncodeDecode` | src/tx/rlp.rs:29-36 | the decoder accepts only what the encoder writes |
| `Rlp.PrefixFree` | src/tx/rlp.rs:23-36 | no encoding is a prefix of a different one |
| `Rlp.DecodeListInverts` | src/tx/rlp.rs:38-48 | an encoded list of encoded strings determines the strings, whatever follows |
| `Rlp.EncodeDecodeList` | src/tx/rlp.rs:38-48 | the list decoder accepts only what the encoder writes for a list of strings |
| `Rlp.HeaderRoundTrip` | src/tx/rlp.rs:70-89 | a length prefix reads back as the length it was written for |
| `Rlp.StrippedUint` | src/tx/rlp.rs:50-59 | the stripped big-endian form of a 128-bit integer keeps its value |
| `Rlp.StripIsInjective` | src/tx/rlp.rs:61-68 | stripping leading zeros from byte strings of one width loses nothing |
| `Evm.AddressIsTwentyBytes` | src/tx/evm.rs:73-81 | an address text decodes exactly when it validates, and then to twenty bytes |
| `Evm.AddressReads` | src/tx/evm.rs:73-81 | twenty bytes are read from their digits, with or without 0x, whatever blanks surround them |
| `Evm.PayloadReads` | src/tx/evm.rs:83-97 | the signing payload decodes to nonce, gas price, gas limit, recipient, value, data, chain id and two empty integers, in that order |
| `Evm.SignedReads` | src/tx/evm.rs:142-167 | the signed form decodes to the same six facts, then recovery id + 2 * chain id + 35, r and s |
| `Evm.SignedForm` | src/tx/evm.rs:153-167 | reassembly succeeds exactly when the recovery id is at most 3, the recipient is valid and `v` fits 64 bits |
| `Evm.AttachErrors` | src/tx/evm.rs:142-167 | a bad recovery id, then an overflowing `v`, then a bad recipient each give their own error |
| `Evm.SigningPayloadIsInjective` | src/tx/evm.rs:83-97 | two signing payloads are equal exactly when all six facts and the chain id are |
| `Evm.SignedIff` | src/tx/evm.rs:241-255 | two signed forms are equal exactly when facts, r, s and recovery id + 2 * chain id are; with recovery ids 0 and 1 the chain and the recovery id are determined |
| `Evm.RecoveryTwoCollides` | src/tx/evm.rs:154-160 | every signed form with recovery id 2 is also the next chain's signed form with recovery id 0 |
| `Evm.PayloadIsNotSigned` | src/tx/evm.rs:91-97 | a signing payload equals a signed transaction only if r and s are zero |
| `Btc.OrderSorts` | src/tx/btc.rs:98-99 | the sort puts larger values first and keeps equal values in list order |
| `Btc.SelectCoins` | src/tx/btc.rs:97-126 | the loop returns the shortest largest-first prefix that reaches the target with its change, or the exact error |
| `Btc.OutcomeIff` | src/tx/btc.rs:93-126 | insufficient funds exactly when the list is empty or its whole sum is below the target; overflow exactly when the first prefix that reaches exceeds 64 bits |
| `Btc.SelectionIsSmallest` | src/tx/btc.rs:87-92 | no non-empty choice of coins that reaches the target is smaller than the selection |
| `Btc.InputsAreDistinct` | src/tx/btc.rs:97-126 | the chosen coins sit at distinct positions of the given list |
| `Btc.Build` | src/tx/btc.rs:136-192 | the built transaction spends the selection in order and pays amount and change; success exactly when a selection exists, both scripts exist and the selected ids parse, with the exact condition of a bad address and of insufficient funds |
| `Btc.OutcomeIsUnique` | src/tx/btc.rs:97-126 | a list and a target leave one outcome, error included |
| `Btc.ValueIsConserved` | src/tx/btc.rs:136-192 | input sum = output sum + fee + d with d at most 546, zero when there is change; change exceeds 546; the first output is the amount |
| `Btc.Sighashes` | src/tx/btc.rs:252-281 | one digest per input of the built transaction, in input order, each over that input's value; success exactly when the key controls the sender and the transaction can be built, a signing error exactly when the key's address is not the trimmed sender |
| `Btc.BuiltIsUnique` | src/tx/btc.rs:238-301 | the independent calls for digests and for assembly build one and the same transaction |
| `Btc.AttachSignatures` | src/tx/btc.rs:293-334 | signature i goes into the witness of input i and nothing else of the transaction changes; success and the signing error each exactly when their condition on key, selection, count and signatures holds |
| `Intent.MultiplyAdd` | crates/tinywallet-bus/src/intent/mod.rs:237-247 | the inner loop multiplies a 32-byte number by ten and adds a digit, with a carry of at most nine |
| `Intent.DecimalU256Word` | crates/tinywallet-bus/src/intent/mod.rs:232-254 | the nested loops compute the word of the decimal text, or none |
| `Intent.DecimalWordDenotes` | crates/tinywallet-bus/src/intent/mod.rs:232-254 | a word exists exactly for digit strings, of any length, below 2^256, and its 64 hex digits denote their value |
| `Intent.DecimalIff` | crates/tinywallet-bus/src/intent/mod.rs:232-236 | decimal text of a value is its printed form behind any number of zeros, and nothing else |
| `Intent.ParseU64Iff` | crates/tinywallet-bus/src/intent/mod.rs:38-38 | an amount parses to n exactly when it is a numeral of n in range, after at most one plus sign |
| `Intent.ParseU128Iff` | crates/tinywallet-web3/src/crypto/chains/tron/mod.rs:257-260 | the same for 128-bit amounts |
| `Intent.PrefixesAreRead` | crates/tinywallet-bus/src/intent/mod.rs:211-222 | an address must carry 0x or 0X; calldata takes either or none, and reads the same |
| `Intent.DecimalDenotes` | crates/tinywallet-module/src/service/web3.rs:699-699 | the chain id shown to the host in the network name denotes the chain id that is signed |
| `Intent.MatchesIff` | crates/tinywallet-bus/src/intent/mod.rs:211-230 | the text comparison accepts exactly the calldata whose ABI reading is a transfer of that amount to that address |
| `Intent.EncoderAgreesWithMatcher` | src/tx/evm.rs:206-223 | for every address text the encoder takes and every 128-bit amount, the encoded call is accepted for that text and any decimal spelling of the amount exactly when the text is 0x and forty digits with nothing around them |
| `Intent.AcceptedCallIsUnique` | crates/tinywallet-bus/src/intent/mod.rs:211-230 | calldata accepted for two recipients and amounts has one address and one value |
| `Intent.MatchIffQuotedEffect` | crates/tinywallet-bus/src/intent/mod.rs:22-107 | an intent matches a quote exactly when what it moves is what the quote promises, Solana and Tron tokens excepted |
| `Intent.UnboundMatchIff` | crates/tinywallet-bus/src/intent/mod.rs:73-107 | for a Solana or Tron token quote a match is exactly hex of some bytes as the message, or as the parameter of a TRC20 call whose expected recipient is the payee |
| `Intent.ChainIdsAreKnown` | crates/tinywallet-bus/src/wire/wallet.rs:173-182 | the six chain ids, no two alike, and Ethereum where a quote names no network |
| `Intent.QuoteFixesEffectIff` | crates/tinywallet-bus/src/intent/mod.rs:22-107 | all intents that match one quote move the same asset, amount and payee exactly when the quote is not a Solana or Tron token transfer |
| `Signer.StepKeepsInv` | crates/tinywallet-module/src/service/web3.rs:648-771 | every step of every call keeps the invariant that ties slot, pending calls and log |
| `Signer.AtMostOneTaker` | crates/tinywallet-module/src/service/web3.rs:264-311 | over every interleaving of calls in one context at most one call ever takes the secret, whether it then signs or fails, and only that call can sign, once |
| `Signer.SignedOnlyAsApproved` | crates/tinywallet-module/src/service/web3.rs:648-771 | whatever is signed agrees on request, transaction and secret chain; EVM transactions, and anything in a native-approval context, were approved earlier in the same call for exactly their facts |
| `Signer.SignedAsShown` | crates/tinywallet-module/src/service/web3.rs:648-771 | over every run, what needed approval was approved earlier in the same call on a showing of the very fields that are signed, under the quote of the approval in scope |
| `Signer.OpeningShows` | crates/tinywallet-module/src/service/web3.rs:656-708 | what the host is asked to approve, field by field: the EVM transaction and its network, or the native quote with the transaction or the hex of the message |
| `Signer.OverStaysOver` | crates/tinywallet-module/src/service/web3.rs:648-771 | a call that was refused, dropped or finished is never approved or signed for again |
| `Signer.AbandonRefuses` | crates/tinywallet-module/src/service/web3.rs:264-311 | dropping a call leaves the secret and the log as they are |
| `Signer.UnapprovedIff` | crates/tinywallet-module/src/service/web3.rs:648-771 | the signer signs a request without asking exactly when no native approval is in scope and it is a message, of any chain, or a transaction of its own chain other than EVM |
| `Signer.ExecutesUnapprovedIff` | crates/tinywallet-module/src/service/mod.rs:223-281 | counting the approval a Web3 execution asks for a Solana quote before it opens the signer, exactly the same requests can be signed after it, whatever the approved blob |
| `Signer.FactsDetermineRequest` | crates/tinywallet-module/src/service/web3.rs:656-747 | two requests look alike to the host exactly when they carry the same transaction, or the same message whatever its chain and scheme |
| `Signer.AccountIsTheSigners` | crates/tinywallet-module/src/service/web3.rs:635-646 | an account derived at any point of a run belongs to the secret of every signature of that run, all of them later, and none is derived once the secret is taken |
| `Signer.ModuleSigner.constructor` | crates/tinywallet-module/src/service/web3.rs:264-279 | a context starts with its secret in the slot and nothing signed |
| `Signer.ModuleSigner.TakeSecret` | crates/tinywallet-module/src/service/web3.rs:301-311 | taking empties the slot |
| `Signer.ModuleSigner.DeriveAccount` | crates/tinywallet-module/src/service/web3.rs:635-646 | deriving is the derive step of the transition system: it answers from the secret in the slot and leaves the slot to the signing call |
| `Signer.ModuleSigner.Sign` | crates/tinywallet-module/src/service/web3.rs:648-771 | a signer call is the begin, answer and finish steps of the transition system |
| `Lifecycle.StepKeepsInv` | crates/tinywallet-module/src/service/mod.rs:310-380 | every lock, mint, install, close, check and end step keeps exclusion, freshness and service |
| `Lifecycle.OperationKeepsItsRuntime` | crates/tinywallet-module/src/service/mod.rs:210-222 | in every interleaving on both services, an operation past its handle check keeps that runtime active and every writer out until it ends |
| `Lifecycle.RetiredHandleNeverServes` | crates/tinywallet-module/src/service/mod.rs:307-380 | once a handle has been replaced or closed it is never active again and no operation runs on it |
| `Lifecycle.ActiveHandleCanOperate` | crates/tinywallet-module/src/service/mod.rs:210-222 | unless a writer holds the lock, an operation with the active handle can get in, runs on that runtime, and leaves everything as it was |
| `Lifecycle.FreeServiceCanConfigure` | crates/tinywallet-module/src/service/mod.rs:310-320 | while the lock is free a new runtime can be installed and becomes the active one, and what it replaces is retired |
| `Lifecycle.EarlyHandleCanConfigure` | crates/tinywallet-module/src/service/mod.rs:322-337 | the same when the handle is minted before the lock is asked for |
| `Lifecycle.ActiveHandleCanClose` | crates/tinywallet-module/src/service/mod.rs:340-350 | while the lock is free the active handle can close its service, and is retired |
| `Lifecycle.ServiceCell.Configure` | crates/tinywallet-module/src/service/mod.rs:310-337 | the write section installs the new runtime |
| `Lifecycle.ServiceCell.Close` | crates/tinywallet-module/src/service/mod.rs:340-350 | close empties the cell exactly when the handle is the active one |
| `Lifecycle.ServiceCell.Admit` | crates/tinywallet-module/src/service/web3.rs:128-133 | an operation is admitted, and then operates, exactly when it carries the active handle |
| `Audit.ClassifyKinds` | scripts/check-bus-boundaries.py:127-137 | malformed exactly when some kind is, and otherwise relevant exactly when some kind is normal or build |
| `Audit.ScanDependencies` | scripts/check-bus-boundaries.py:118-150 | every unsound edge draws its own complaint, every complaint is about an edge, and the followed edges are queued with their paths |
| `Audit.Search` | scripts/check-bus-boundaries.py:88-151 | the worklist terminates on every graph and reports nothing exactly when the closure is clean; every violation names a real chain and what is wrong at its end, and everything wrong with any package of the closure is reported |
| `Audit.AuditMetadata` | scripts/check-bus-boundaries.py:45-151 | no violations exactly when the metadata is well shaped with one resolved root and the closure is clean; a bad shape gives the one violation of its first fault; otherwise the report is justified and complete |
| `Audit.PermittedOnly` | scripts/check-bus-boundaries.py:35-111 | what is permitted is the pinned storage bus, the local wallet bus or an allowed registry crate, and never a banned name |
| `Audit.RegistryPermits` | scripts/check-bus-boundaries.py:8-13 | the thirteen names that get in from the registry, and no others |
| `AuditGraph.GraphIsMetadata` | scripts/check-bus-boundaries.py:66-88 | the graph that is searched holds exactly the package and node entries of the metadata, with their dependency lists, and its root is the one package of the root's name |
| `AuditGraph.WellShapedIff` | scripts/check-bus-boundaries.py:45-87 | the shape is right exactly when both lists are there, no id occurs twice, one package has the root's name and a node resolves it |
| `Solana.EncodeShortvec` | src/tx/solana.rs:178-192 | the loop writes the compact groups of a 16-bit count |
| `Solana.ShortvecInverts` | src/tx/solana.rs:172-192 | a strict compact-u16 reader inverts the writer for every count |
| `Solana.MessageInverts` | src/tx/solana.rs:9-22 | a general reader of legacy messages inverts the layout for every message |
| `Solana.MessageIff` | src/tx/solana.rs:9-22 | the reader returns a message exactly on the bytes the layout writes for it, with every count within 16 bits |
| `Solana.TransactionIsCanonical` | src/tx/solana.rs:146-153 | whatever reads as a signed transaction is its counted 64-byte signatures and its message, laid end to end |
| `Solana.BuildMessage` | src/tx/solana.rs:67-105 | the appended bytes are the layout of the transfer message; a bad address and a bad blockhash each exactly when their error says so |
| `Solana.BuiltMessageMeans` | src/tx/solana.rs:67-105 | a built message is 150 bytes and reads as exactly one System transfer of the four facts, signed by the sender alone |
| `Solana.MessageIsInjective` | src/tx/solana.rs:61-105 | equal messages have equal sender, payee, blockhash and amount |
| `Solana.AttachSignature` | src/tx/solana.rs:146-153 | the wire transaction reads back as the one signature and the message |
| `Base64.EncodeBytes` | src/client/solana.rs:102-124 | the chunk loop, the same in both copies of the encoder, computes the encoding |
| `Base64.DecodeEncode` | src/client/solana.rs:102-124 | section 4 of RFC 4648 decodes the text to the bytes, padded or not, and the length is 4 * ceil(n / 3) |
| `Base64.EncodeDecode` | crates/tinywallet-module/src/service/mod.rs:1410-1433 | the strict decoder accepts only what the encoder writes |
| `Service.BuildUnsigned` | crates/tinywallet-module/src/service/mod.rs:1042-1108 | the payloads are the signing bytes of exactly this transaction, with the exact condition for success and for an input error on each of the four chains, on Tron that the structural check accepts |
| `Service.AttachSignature` | crates/tinywallet-module/src/service/mod.rs:1111-1184 | the signatures are placed as the chain's format has them and the result is the text to send, 0x hex, base64 or hex, with its id; the exact condition for success and for an input error on each of the four chains, on Tron that the check accepts again |
| `Service.EvmTransactionIff` | crates/tinywallet-module/src/service/mod.rs:1305-1339 | an EVM spec describes a transaction exactly when its gas price, value and data are read, and it is signable exactly when its recipient is blank or valid |
| `Service.TrimmedReads` | crates/tinywallet-module/src/service/mod.rs:1365-1371 | a printed 128-bit amount is read whatever blanks surround it |
| `Service.DataReads` | crates/tinywallet-module/src/service/mod.rs:1374-1395 | calldata is read from its digits behind an optional 0x and then blanks, and a blank before the 0x spoils it |
| `Service.SignPayloadIff` | crates/tinywallet-module/src/service/mod.rs:967-996 | a digest is signed on secp256k1 exactly when it has 32 bytes, a whole message as it is on ed25519 |
| `Service.SignTransaction` | crates/tinywallet-module/src/service/mod.rs:879-913 | the one-shot path succeeds exactly when the split path with the key derived from the secret does, on the chain of the transaction, and gives its result |
| `Service.SignedTronIsRequested` | crates/tinywallet-module/src/service/mod.rs:1077-1102 | a signed Tron spec performs the requested transfer; its text decodes to r, s and the recovery id of a signature over the hash of those bytes, which its id names |
| `Service.SignedEvmReads` | crates/tinywallet-module/src/service/mod.rs:1283-1339 | what is hashed and what is sent both decode to the nonce, gas price, gas limit, recipient, value and data of the spec itself, with a signature over the hash of that payload, and the id is the hash of the bytes sent |
| `Service.SignedEvmIsQuoted` | crates/tinywallet-bus/src/intent/mod.rs:40-72 | an EVM intent that matches a quote and gets signed decodes, as hashed and as sent, to the quoted network, recipient and value, and for a token to the quoted contract, value 0 and exactly the quoted transfer call |
| `Service.SameCall` | crates/tinywallet-module/src/service/mod.rs:1374-1395 | calldata text that the comparison and the builder both read is read by both as the same call |
| `Service.SignedSolanaTransfers` | crates/tinywallet-module/src/service/mod.rs:1149-1161 | the base64 text of a signed Solana spec reads as one System transfer of its sender, payee and amount under its blockhash, signed over that message |
| `Service.SignedBtcConserves` | crates/tinywallet-module/src/service/mod.rs:1046-1059 | a signed Bitcoin spec conserves value, its first output pays the amount to the script of its payee and a second one pays change to the script of its sender, and the witness of each input is a signature over that input's digest in that same transaction |
| `TronClient.ExecutionSpecIff` | crates/tinywallet-web3/src/crypto/chains/tron/mod.rs:251-303 | a node's reply goes to the signer exactly when the derived account is the sender, the id is that of the bytes, and the bytes pay the quoted amount to the payee or call the quoted token with a transfer of it to the payee, within the fee limit |
| `TronClient.ParameterIsCall` | crates/tinywallet-web3/src/crypto/chains/tron/mod.rs:132-145 | a parameter that is the two words of a call asks for exactly the transactions that make that call |
| `TronClient.SignerAgreesWithClient` | crates/tinywallet-web3/src/crypto/chains/tron/mod.rs:84-115 | what the client accepted, the signer's own check accepts, with the recomputed id and without the fee limit |
| `TronClient.SignedTronIsQuoted` | crates/tinywallet-web3/src/crypto/chains/tron/mod.rs:251-307 | the bytes whose hash gets signed for a Tron quote do what the quote says |
| `TronClient.OwnIntentMatchesIff` | crates/tinywallet-web3/src/crypto/chains/tron/mod.rs:193-229 | the transaction built for a Tron quote matches it exactly when it is native or the token address is the payee's text |
| `TronClient.OwnTokenIntentFails` | crates/tinywallet-web3/src/crypto/chains/tron/mod.rs:193-229 | every executable Tron token quote whose token text is not the payee's has a reply that reaches the signer and does not match the quote |
| `TronClient.MatchingTokenCallsPayee` | crates/tinywallet-bus/src/intent/mod.rs:82-100 | a matching, accepted TRC20 transaction calls the contract at the payee's address and no other |
| `TronClient.EveryCallMatches` | crates/tinywallet-bus/src/intent/mod.rs:82-100 | for every recipient and amount some accepted transaction matches a given Tron token quote and makes that call |

## Left out

- Hashes, curves, base58, bech32, BIP-32 and BIP-39: foreign libraries, taken as arbitrary functions.
- Balances, broadcasting, status and RPC transport: network plumbing.
- The x402 ledger, its runtime and its secret slot, the quote store and the Web3 service beyond its approval gate: other components with state of their own.
- `web3_approval_matches_request`: field-by-field equality over JSON, which would only add easy members.
- Wire types, serde tags, tool declarations, the asset catalogue and EIP-55 checksums: finite tables or short checks.
- Zeroizing of secrets and confidential transport: memory and bus behaviour, not functional properties.
- `audit_tree` and the cargo subprocesses of the boundary script: a one-pass filter and process I/O.
- Audit metadata in which a package has no name: the script would raise on it; the model gives every package with an id a name.
- Message text of errors, non-ASCII text, and buffers longer than Rust can allocate.
- Hex between the builder and the signer inside `Service`: payloads, public keys and signatures travel as bytes; the hex round trip is `Hex.DecodeEncode`.
- Consensus serialisation of a Bitcoin transaction: foreign code, applied to the transaction that `Service` returns.
- The lock in `Lifecycle` is any correct read/write lock: fairness and progress are not stated.
- `Rlp` and `Evm` are values: the source extends a local vector, which no caller can observe.
