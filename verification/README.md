# A verified model of TrustFlow

TrustFlow moves data owned by several parties into trusted execution environments. This project
models the parts of it where a mistake would lose data, seal it under the wrong key or accept the
wrong machine, and proves what those parts are for.

| file | what it models |
|---|---|
| `Octets` | bytes, concatenation, little-endian numbers, the loop `Bytes2Int` |
| `EncryptedFile`, `EncryptedFileTheorems` | the container of one encrypted file: 20-byte header, 8192-byte blocks, wrapping 64-bit guards |
| `FileCrypto` | `EncryptFile` and `DecryptFile` as loops over streams, proved against that container |
| `DirectoryTasks` | the asynchronous writers of a directory, as a state machine driven by a schedule |
| `DirectoryCrypto` | `EncryptToDir` and `DecryptToDir` on trees, over every interleaving |
| `Base64`, `Hex` | the text encodings between the parties |
| `DataCapsuleProxy` | `PutResultData` and `GetInputData` on local directories, and the registered key |
| `UploadProtocol` | the two-party upload as a transition system with lost messages and abandoned handlers |
| `UploadServer` | the receiver's handlers, as an object |
| `AttestationPolicy` | matching the attributes of a report against the rules of a policy |
| `AttestationFields` | what each field of a rule asks, on the texts themselves |
| `TdxBinding` | from certificate and nonce to TDX report data, and from the quote back to a verdict |
| `JsonModel`, `JsonRoundTrip` | the attestation data classes, the writer that drops None and the reader that inverts it |
| `JsonReaders` | what the C++ side finds, by name, in those documents |
| `EvalParams`, `EvalParamReader` | resolving the parameters of a node against a component definition |
| `Components`, `ComponentObject` | attribute declarations, and `definition()` over every sequence of calls |
| `ParameterLaws` | what single parameters and declarations mean, on their values |
| `ReadableDefinitions` | which returned definitions any node can satisfy |
| `CApi` | the buffer contract of the generator's and the verifier's C interface |

Loops and objects of the source are methods and classes here, proved against functions; the
functions carry the theorems. Foreign code enters as a parameter: AES-GCM is any pair of
functions that keeps lengths and opens what it sealed (`EncryptedFile.Aead`), SHA-256 is any
function to 32 bytes (`TdxBinding.Hash`), `math.isclose` is any relation (`EvalParams.Closeness`);
initialization vectors, the order of a directory walk, the schedule of the tasks, the chunks a
stream arrives in and the answers of remote services are arguments too. A 64-bit product
wraps (`EncryptedFile.Mul64`), and the cast of the last chunk's length to 32 bits is written out.

Some properties one would expect are false of the code. Each is stated with a failing input or run
and with the exact condition under which it holds:

- "A policy accepts when one of its rules matches" fails, because a string that does not match
  raises and ends the search (`MatchingRuleCanBeMissed`); it holds exactly when no rule ahead of
  the first match raises (`AcceptsIffSomeRuleMatches`).
- "A rule against debugging accepts no domain in debug mode" fails, because the verifier tests the
  SGX mask, bit 1, and DEBUG of a trust domain is bit 0 (`DebugRuleMisses`); the verdict is right
  exactly when the two bits are equal (`DebugRuleAgreesIff`).
- "A registered key means a delivered file" fails when an abandoned upload handler is still
  running beside the next one (`OverlapBreaks`); it holds in every run exactly when handlers do not
  overlap (`GuaranteeIff`).
- "Decrypting a directory keeps every file" fails for `x` beside `x.enc` (`SharedDestinationRaces`);
  it holds in every run exactly when files that share a destination agree (`KeepsEveryFileIff`).
- "A key put into a TDX report matches a rule that names it" fails, because the generator hashes
  the decoded bytes and the verifier the text (`PublicKeyMissed`); it holds exactly when the two
  hash alike (`PublicKeyAcceptedIff`).
- "A returned definition can be read" fails, because `definition()` takes the names of columns
  unchecked (`UnreadableDefinition`) and joins them with "_" where the reader joins them with "/"
  (`JoinedNamesClash`); `ReturnedReadableIff` says when it holds.
- "What was encrypted can be decrypted" fails for an empty directory and a destination that did not
  exist, which is not made, so that there is nothing to read from (`EmptyTreeLost`,
  `EmptySourceLost`); it holds exactly when there is a file or the destination existed
  (`TreeRoundTrip`, `PutThenGet`).
- "Decrypting undoes encrypting" fails for a container of 2^64 - 8105 bytes (`TooManyPackets`); it
  holds exactly while packets times 8192 fits 64 bits (`EncryptedFileTheorems.RoundTrip`), and so
  for every length below 2^63 (`RoundTripOfFile`).

Where a comment and the code disagree the code is followed: `crypto_util.cc:48-52` lists a block as
IV length, MAC length, IV, MAC, but the code writes IV length, IV, MAC length, MAC. The flags that
component declarations set on a bound and the flags the parameter reader tests have different
names in the source; the model has one flag.

## Model

| member | source | states |
|---|---|---|
| `Octets.Bytes2Int` | trustflow/proxy/utils/crypto_util.h:49-60 | the shifting loop refuses input wider than its result and otherwise computes the little-endian value, losing no bit |
| `Octets.LittleEndianRoundTrip` | trustflow/proxy/utils/crypto_util.h:49-60 | reading the bytes of a number that fits gives the number back |
| `Octets.LittleEndianConcat` | trustflow/proxy/utils/crypto_util.h:49-60 | the first bytes of a number weigh least, by powers of 256 |
| `Octets.WriteAtIs` | trustflow/proxy/utils/crypto_util.cc:198-259 | a stream write byte by byte: the chunk where it was written, the old contents elsewhere |
| `EncryptedFile.OpenSealedBlock` | trustflow/proxy/utils/crypto_util.cc:70-155 | the block parser opens exactly what the block writer wrote, for every chunk, key and IV |
| `EncryptedFile.OpenBlockIs` | trustflow/proxy/utils/crypto_util.cc:70-116 | a block given by its bytes (length, 32-byte field, length, 32-byte field, ciphertext) opens to a message if and only if the key has 16 or 32 bytes and the cipher accepts the tag; a wrong key size and a refused tag are told apart |
| `EncryptedFile.BlockParts` | trustflow/proxy/utils/crypto_util.cc:70-98 | every block of 66 bytes or more has these parts and a shorter one is refused for its format |
| `EncryptedFile.OverflowGuard` | trustflow/proxy/utils/crypto_util.cc:227-232 | dividing a wrapped 64-bit product back detects every overflow and nothing else |
| `EncryptedFile.GuardsIff` | trustflow/proxy/utils/crypto_util.cc:207-238 | the wrapping guards admit a header if and only if the true product is below 2^64 and the payload lies between n-1 and n full blocks |
| `EncryptedFile.HeaderErrors` | trustflow/proxy/utils/crypto_util.cc:207-238 | which error each refused header has, in true integers and in the order of the guards |
| `EncryptedFile.FirstError` | trustflow/proxy/utils/crypto_util.cc:240-254 | the first block that does not open decides the error |
| `EncryptedFile.SplitTiles` | trustflow/proxy/utils/crypto_util.cc:240-252 | the blocks read cover the payload exactly: all full but the last, their concatenation the payload |
| `EncryptedFile.SplitUnique` | trustflow/proxy/utils/crypto_util.cc:240-252 | any sequence of pieces that tiles the payload is the one that is read |
| `EncryptedFileTheorems.EncodedLength` | trustflow/proxy/utils/crypto_util.cc:329-362 | the output is 20 bytes, 66 a packet and the content long |
| `EncryptedFileTheorems.EncodedBytes` | trustflow/proxy/utils/crypto_util.cc:329-362 | the output byte by byte: the header, and a block for each chunk of 8126 bytes, the last one shorter |
| `EncryptedFileTheorems.RoundTrip` | trustflow/proxy/utils/crypto_util.cc:198-259 | DecryptFile on EncryptFile's output gives the content back exactly when packets times 8192 is below 2^64, and reports overflow otherwise |
| `EncryptedFileTheorems.RoundTripOfFile` | trustflow/proxy/utils/crypto_util.cc:198-259 | for every container below 2^63 bytes, which is as far as a signed file offset reaches, DecryptFile gives the content back without further condition |
| `EncryptedFileTheorems.TooManyPackets` | trustflow/proxy/utils/crypto_util.cc:227-232 | a content whose container is refused as an overflow; its length fits 64 bits, though no stream reports it |
| `EncryptedFileTheorems.EncodedIsRepresentable` | trustflow/proxy/utils/crypto_util.cc:329-362 | every output whose blocks fit 64 bits has a length that does |
| `EncryptedFileTheorems.DecodeFileIff` | trustflow/proxy/utils/crypto_util.cc:198-259 | DecryptFile answers some data if and only if the file is a header with a count and a block length followed by that many blocks, all full but the last, that open to the data |
| `EncryptedFileTheorems.RefusedTag` | trustflow/proxy/utils/crypto_util.cc:98-116 | a container with one block whose tag the cipher refuses never decrypts, and says so when it is the first bad block |
| `EncryptedFileTheorems.FinishedCount` | trustflow/proxy/utils/crypto_util.cc:235-252 | a file that decrypts has as its count the ceiling of payload over block length, and its plaintext is 66 bytes a block shorter than the payload |
| `EncryptedFileTheorems.FinishedCountUnique` | trustflow/proxy/utils/crypto_util.cc:235-252 | for one file length and block length at most one count lets DecryptFile finish, whatever the cipher, key and contents |
| `EncryptedFileTheorems.AdmittedCounts` | trustflow/proxy/utils/crypto_util.cc:227-238 | the guards alone admit the ceiling and, at an exact multiple only, one count more |
| `FileCrypto.DecryptDataBlock` | trustflow/proxy/utils/crypto_util.cc:70-116 | the offset-driven parser computes the block grammar, error by error |
| `FileCrypto.EncryptDataBlock` | trustflow/proxy/utils/crypto_util.cc:118-155 | appends exactly one sealed block and consumes exactly one chunk, or reports a bad key and writes nothing |
| `FileCrypto.EncryptFile` | trustflow/proxy/utils/crypto_util.cc:329-362 | succeeds exactly for distinct paths, non-empty content and a usable key; then the output is the container and the reads were the chunks, each byte once; on failure the output is untouched or a bare header |
| `FileCrypto.EncryptBlocks` | trustflow/proxy/utils/crypto_util.cc:351-357 | the packet loop seals chunk after chunk, and narrowing the last length to 32 bits loses nothing |
| `FileCrypto.DecryptFile` | trustflow/proxy/utils/crypto_util.cc:198-259 | answers what the container grammar says for every file, with its first error; the output is in every case the plaintexts up to the first block that does not open; on success the reads were the two counts and then the blocks, each byte once |
| `FileCrypto.DecryptBlocks` | trustflow/proxy/utils/crypto_util.cc:240-254 | the read loop opens block after block, with no underflow in the last length |
| `DirectoryTasks.StepInv` | trustflow/proxy/utils/crypto_util.cc:287-318 | every step of any thread keeps the files disjoint from the directories, every stream at the offset of its own writes, and a file with one writer equal to what has been written so far |
| `DirectoryTasks.EveryRun` | trustflow/proxy/utils/crypto_util.cc:379-399 | every finished run succeeds if and only if every job is sound and no file is needed as a directory; then there is one file at each destination, and wherever the jobs that share one agree it has their contents, however their writes interleave |
| `DirectoryTasks.StepKeeps` | trustflow/proxy/utils/crypto_util.cc:287-318 | every step keeps the writes of the last thread to truncate a file intact, as long as all its writers agree |
| `DirectoryTasks.ProducesUnique` | trustflow/proxy/utils/crypto_util.cc:379-399 | when all that share a destination agree the files meant are one tree, so all successful runs agree |
| `DirectoryTasks.RootIff` | trustflow/proxy/utils/crypto_util.cc:386-391 | after a run that succeeds the destination exists unless it did not before and there was nothing to write |
| `DirectoryTasks.StepUsesWork` | trustflow/proxy/utils/crypto_util.cc:316-318 | every step that does something uses up work, so no run goes on for ever |
| `DirectoryTasks.NotStuck` | trustflow/proxy/utils/crypto_util.cc:316-318 | until all futures can be joined some thread can move |
| `DirectoryTasks.Completes` | trustflow/proxy/utils/crypto_util.cc:316-318 | from every state some schedule leads to the end |
| `DirectoryCrypto.SuffixRoundTrip` | trustflow/proxy/utils/crypto_util.cc:298-299 | removing the last extension undoes appending ".enc" exactly for non-empty names |
| `DirectoryCrypto.DestRoundTrip` | trustflow/proxy/utils/crypto_util.cc:298-299 | a file's container decrypts to the file's own path |
| `DirectoryCrypto.EncNameIff` | trustflow/proxy/utils/crypto_util.cc:298 | a file counts as a container exactly when its name ends in ".enc" after at least one other character |
| `DirectoryCrypto.DestsAre` | trustflow/proxy/utils/crypto_util.cc:293-310 | where files go, on the characters of the name: a container to its path less the last four, any other file to its own path |
| `DirectoryCrypto.EncDestInjective` | trustflow/proxy/utils/crypto_util.cc:386-394 | two tasks write one container if and only if they are given one relative path |
| `DirectoryCrypto.EncryptToDirIff` | trustflow/proxy/utils/crypto_util.cc:364-403 | under every interleaving it returns exactly for an existing source of non-empty files, a usable key and no name plus ".enc" that is also a directory; then it has written exactly the containers, and the destination exists unless it did not before and there was no file |
| `DirectoryCrypto.ContainerWritten` | trustflow/proxy/utils/crypto_util.cc:386-394 | every file's container lies at the file's path with ".enc" appended |
| `DirectoryCrypto.KeepsEveryFileIff` | trustflow/proxy/utils/crypto_util.cc:261-322 | for a tree that can be decrypted: every run that returns keeps every file if and only if files that share a destination agree |
| `DirectoryCrypto.DecryptToDirIff` | trustflow/proxy/utils/crypto_util.cc:261-322 | for every tree and under every interleaving it returns exactly when the source exists, every container opens and goes to a name a file can have, and no file is needed as a directory; then it has kept every file whose sharers agree, and all files exactly when all sharers agree |
| `DirectoryCrypto.DotDest` | trustflow/proxy/utils/crypto_util.cc:298-303 | the containers `..enc` and `...enc` go to the names of directories, so that clause of the condition is not empty |
| `DirectoryCrypto.PlainFileKept` | trustflow/proxy/utils/crypto_util.cc:304-313 | a file that is no container is copied to its own path with its own bytes in every run that returns, unless its container lies beside it |
| `DirectoryCrypto.ContainerOpened` | trustflow/proxy/utils/crypto_util.cc:298-303 | a container is opened to its path less ".enc" in every run that returns, unless a file of that path lies beside it |
| `DirectoryCrypto.CanDecrypt` | trustflow/proxy/utils/crypto_util.cc:261-322 | every tree that can be decrypted has a walk and an interleaving that return |
| `DirectoryCrypto.SharedDestinationRaces` | trustflow/proxy/utils/crypto_util.cc:299-315 | on a directory with `x` and `x.enc` one interleaving returns with the copy and another with the plaintext written into the copy |
| `DirectoryCrypto.TreeRoundTrip` | trustflow/proxy/utils/crypto_util.cc:261-403 | decrypting what EncryptToDir returned gives back the same paths and bytes, for all orders and all interleavings of both, if and only if there was a file or the destination existed before; otherwise it throws |
| `DirectoryCrypto.EmptyTreeLost` | trustflow/proxy/utils/crypto_util.cc:261-264 | an empty directory whose encryption returns and cannot be decrypted |
| `Base64.UnpaddedRoundTrip` | examples/online-sample/client/jwe_client.py:15-42 | decode_base64 undoes encode_base64 for every byte string (section 5 of RFC 4648, Appendix C of RFC 7515) |
| `Base64.PadFormula` | examples/online-sample/client/jwe_client.py:39 | the length formula restores exactly the stripped padding |
| `Base64.AlphabetIs` | examples/online-sample/client/jwe_client.py:26 | the two alphabets of RFC 4648, written out |
| `Base64.SextetsAre` | examples/online-sample/client/jwe_client.py:26 | four characters carry the 24 bits of three bytes in order, those of a last group its bits and zeros |
| `Base64.ForeignSkipped` | examples/online-sample/client/jwe_client.py:41 | the lenient decoder reads a text as if its foreign characters were not there |
| `Base64.DecodesIff` | examples/online-sample/client/jwe_client.py:31-42 | a text of alphabet characters decodes if and only if its length is not one more than a multiple of four |
| `Base64.StandardRoundTrip` | trustflow/proxy/data_capsule_proxy/data_capsule_proxy.cc:148-202 | the strict padded decoder undoes the padded encoder for every byte string |
| `Base64.DecodeStandardIff` | trustflow/proxy/data_capsule_proxy/data_capsule_proxy.cc:156 | the strict decoder takes exactly whole groups of four alphabet characters whose last one or two may be padding |
| `DataCapsuleProxy.PutResultData` | trustflow/proxy/data_capsule_proxy/data_capsule_proxy.cc:138-207 | when it answers OK, exactly; a key given in base64 by the request, or the fresh one when none is given, is the key that seals every file, and its base64 text is the only one that can be put on record, after every file is sealed and whatever the answer |
| `DataCapsuleProxy.GetInputData` | trustflow/proxy/data_capsule_proxy/data_capsule_proxy.cc:71-136 | it answers OK, once the tasks have ended, exactly when a key is given, the source is local and exists, and the tree can be decrypted under that key; then every file whose sharers agree is kept, and all files exactly when all sharers agree |
| `DataCapsuleProxy.RegisteredKeyRecovers` | trustflow/proxy/data_capsule_proxy/data_capsule_proxy.cc:71-202 | whoever is given the key that sealed a tree gets the tree back, under every interleaving, if and only if there was a file or the destination existed before |
| `DataCapsuleProxy.PutThenGet` | trustflow/proxy/data_capsule_proxy/data_capsule_proxy.cc:71-202 | end to end: whenever PutResultData has put a key on record, even if the answer was lost, GetInputData with that record's key brings the source tree back if there was a file or the store existed before, and is refused otherwise |
| `DataCapsuleProxy.PutOwnKeyThenGet` | trustflow/proxy/data_capsule_proxy/data_capsule_proxy.cc:71-202 | a caller that gave its own key finds that very text on record and gets the tree back with it |
| `DataCapsuleProxy.EmptySourceLost` | trustflow/proxy/data_capsule_proxy/data_capsule_proxy.cc:71-202 | an empty source whose key is registered with the answer OK and for which GetInputData is refused |
| `UploadProtocol.RegisteredImpliesDelivered` | dm_component/componentize/main.py:126-186 | in every run a recorded key, acknowledged or not, is the key of a ciphertext the receiver holds in full, under the id in its metadata, after exactly one accepted shutdown and at most five attempts; a client that believes it has registered has |
| `UploadProtocol.RegisteredIsStable` | dm_component/componentize/main.py:167-186 | nothing that happens after the key is recorded changes the file, its metadata, the key or what the client believes |
| `UploadProtocol.CanRegister` | dm_component/componentize/main.py:126-186 | from every initial state an undisturbed run does register the key |
| `UploadProtocol.FiveAttempts` | dm_component/componentize/main.py:138-165 | up to four lost attempts leave a further one that can still register the key, and the fifth lost one ends the upload |
| `UploadProtocol.NothingAfterShutdown` | dm_component/componentize/server/src/service.rs:46-55 | once the server is down before an upload was accepted, no later attempt changes the receiver's file or metadata and no key is registered |
| `UploadProtocol.OverlapBreaks` | dm_component/componentize/server/src/service/upload.rs:93-112 | with overlapping handlers there is a run that registers the key over a truncated file |
| `UploadProtocol.GuaranteeIff` | dm_component/componentize/server/src/service/upload.rs:25-118 | the guarantee holds in every run if and only if handlers do not overlap |
| `UploadProtocol.UndisturbedDelivers` | dm_component/componentize/server/src/service/upload.rs:34-112 | overlapping or not, the guarantee holds in every run in which the attempt that is answered is the only one at work from the moment it opens its temp file |
| `UploadProtocol.OneAtATimeIsUndisturbed` | dm_component/componentize/server/src/service/upload.rs:34-112 | handlers that do not overlap always meet that condition |
| `UploadServer.Server.ReceiveFile` | dm_component/componentize/server/src/service/upload.rs:42-62 | the temp file ends as the concatenation of this request's chunks, whatever it held |
| `UploadServer.Server.HandleUpload` | dm_component/componentize/server/src/service/upload.rs:25-118 | succeeds exactly under the listed conditions; an accepted upload stores the concatenated chunks of the last file part, by its position, under the URI of the last store path and registers it under that path's id, whatever earlier requests left; the metadata also gains the entry when the service recorded it and its answer was lost; any other request writes at most a prefix |
| `UploadServer.StorableIff` | dm_component/componentize/server/src/service/upload.rs:34-104 | which requests can be stored, by the positions of their fields |
| `UploadServer.GatherIs` | dm_component/componentize/server/src/service/upload.rs:34-72 | the last store path and the last file part of a request are the ones that count |
| `UploadServer.Server.Shutdown` | dm_component/componentize/server/src/service.rs:46-55 | the first request is accepted and every later one refused |
| `AttestationPolicy.AttrsIsMatch` | trustflow/attestation/verification/interface/verifier.cc:125-215 | which of match, failure and raise a rule ends in, field by field in order |
| `AttestationPolicy.VerifyAttributes` | trustflow/attestation/verification/interface/verifier.cc:219-232 | returns if and only if a first rule that is not passed over matches; names the rule that raised; otherwise collects for every rule the soft field it failed at |
| `AttestationPolicy.AcceptanceIsSound` | trustflow/attestation/verification/interface/verifier.cc:219-232 | acceptance implies that some rule matches in every field, and an empty policy accepts nothing |
| `AttestationPolicy.AppendKeepsAcceptance` | trustflow/attestation/verification/interface/verifier.cc:219-232 | rules added at the end never turn acceptance into rejection |
| `AttestationPolicy.PrependDecides` | trustflow/attestation/verification/interface/verifier.cc:219-232 | a rule put in front decides alone unless it is passed over |
| `AttestationPolicy.MatchingRuleCanBeMissed` | trustflow/attestation/verification/interface/verifier.cc:46-64 | a policy whose second rule matches and which is rejected |
| `AttestationPolicy.AcceptsIffSomeRuleMatches` | trustflow/attestation/verification/interface/verifier.cc:125-232 | acceptance agrees with "some rule matches" if and only if no rule ahead of the first match raises |
| `AttestationFields.SvnLaw` | trustflow/attestation/verification/interface/verifier.cc:92-123 | a rule with the decimal text of m as its least version accepts a report with the text of n if and only if m <= n, and is passed over otherwise |
| `AttestationFields.SvnUnreadable` | trustflow/attestation/verification/interface/verifier.cc:110-121 | where either text is no number that fits an int, the rule is passed over |
| `AttestationFields.StoiReads` | trustflow/attestation/verification/interface/verifier.cc:105 | a number after white space and a sign, before anything but a digit, is read as it is if it fits an int |
| `AttestationFields.StoiRefuses` | trustflow/attestation/verification/interface/verifier.cc:105 | anything else after the white space and the sign is no number |
| `AttestationFields.BoolIs` | trustflow/attestation/verification/interface/verifier.cc:66-90 | two booleans match when both or neither are 1 or true in any case |
| `AttestationFields.RuleIs` | trustflow/attestation/verification/interface/verifier.cc:125-215 | a rule field by field: each text is empty or the same up to ASCII case, letter by letter, the key by the hash of its text |
| `Hex.EqualsIgnoreCaseIff` | trustflow/attestation/verification/interface/verifier.cc:46-64 | the comparison by letters: equal characters or the two cases of one ASCII letter |
| `Hex.HexText` | trustflow/attestation/verification/tdx/tdx_verifier.cc:78-81 | two lower-case digits a byte, the high one first |
| `Hex.HexRoundTrip` | trustflow/attestation/verification/tdx/tdx_verifier.cc:78-81 | decoding undoes encoding |
| `Hex.HexInjective` | trustflow/attestation/verification/tdx/tdx_verifier.cc:78-81 | two hex texts are equal up to case exactly when the bytes are |
| `Hex.TextRoundTrip` | trustflow/attestation/generation/tdx/tdx_generator.cc:60-69 | encoding what was decoded gives the text back up to case exactly for whole hex texts |
| `TdxBinding.PrepareTdxReportData` | trustflow/attestation/generation/tdx/tdx_generator.cc:41-76 | the in-place copies leave nonce or user data padded in the lower half and the key hash in the upper; refused parameters leave the buffer alone |
| `TdxBinding.MeasurementsIff` | trustflow/attestation/verification/tdx/tdx_verifier.cc:78-105 | the three measurement strings agree up to case if and only if all ten registers agree |
| `TdxBinding.MeasurementTexts` | trustflow/attestation/verification/tdx/tdx_verifier.cc:78-105 | the texts in order, 96 digits a register |
| `TdxBinding.ReferenceRuleIff` | trustflow/attestation/verification/tdx/tdx_verifier.cc:131-195 | a rule copied from a reference report accepts exactly the reports with its registers |
| `TdxBinding.Sha256` | examples/online-sample/client/jwe_client.py:131-140 | the updating loop hashes the arguments joined by dots |
| `TdxBinding.JoinedFront` | examples/online-sample/client/jwe_client.py:131-140 | the joined text from the front: the first piece, a dot and the others joined |
| `TdxBinding.ClientAcceptsIff` | examples/online-sample/client/jwe_client.py:143-147 | a client accepts a report if and only if its lower report data is the digest the client computes |
| `TdxBinding.RaParamsValid` | trustflow/proxy/utils/ra_util.cc:30-43 | what GetRaCert asks for is always a valid request, and its digest fills the lower report data |
| `TdxBinding.RaBinding` | trustflow/proxy/ra_proxy/ra_proxy.cc:48-52 | the quote for one certificate and nonce passes the policy built from another pair if and only if it is a large enough TDX quote of version 4 or 5 and the digests are equal, and so passes its own |
| `TdxBinding.JoinInjective` | trustflow/proxy/ra_proxy/ra_proxy.cc:48-52 | the hashed text determines certificate and nonce when certificates hold no dot |
| `TdxBinding.UserDataRoundTrip` | trustflow/attestation/verification/tdx/tdx_verifier.cc:171-185 | user data survives generation and parsing up to case exactly when it is 32 bytes of hex |
| `TdxBinding.NonceRoundTrip` | trustflow/attestation/verification/tdx/tdx_verifier.cc:171-185 | a nonce goes where user data goes and survives under the same condition |
| `TdxBinding.PublicKeyAcceptedIff` | trustflow/attestation/generation/tdx/tdx_generator.cc:70-75 | a reported key passes a rule naming it if and only if its decoded bytes and its text hash alike, though the two always differ |
| `TdxBinding.PublicKeyMissed` | trustflow/attestation/verification/interface/verifier.cc:194-207 | the key 00, refused by the rule that names it under every hash that tells its byte from its text |
| `TdxBinding.DebugRuleIff` | trustflow/attestation/verification/tdx/tdx_verifier.cc:187-194 | a rule against debugging accepts exactly the domains with bit 1 of their attributes clear |
| `TdxBinding.DebugRuleAgreesIff` | trustflow/attestation/verification/tdx/tdx_verifier.cc:187-194 | such a rule is right about a domain, whose DEBUG attribute is bit 0, if and only if bits 0 and 1 are equal |
| `TdxBinding.DebugRuleMisses` | trustflow/attestation/verification/tdx/tdx_verifier.cc:187-194 | a domain in debug mode that the rule accepts |
| `JsonModel.FilterNoneValues` | pylib/trustflow/attestation/common.py:20-43 | the filling loops compute the recursive filter |
| `JsonModel.SchemaKeysDistinct` | pylib/trustflow/attestation/common.py:46-282 | no data class has two fields of one name |
| `JsonRoundTrip.RoundTrip` | pylib/trustflow/attestation/common.py:62-282 | from_json undoes to_json if and only if the required fields are set and no list holds None, through all levels of nesting |
| `JsonRoundTrip.WritesNoNull` | pylib/trustflow/attestation/common.py:20-43 | the tree written holds no null anywhere |
| `JsonReaders.AttributesArrive` | pylib/trustflow/attestation/common.py:137-180 | every field of a rule written in Python arrives, by its name, in the field of the verifier that it is meant for |
| `JsonReaders.RulesArrive` | pylib/trustflow/attestation/common.py:195-206 | the rules of a policy written in Python are the rules the verifier tries, in order |
| `JsonReaders.GenParamsArrive` | pylib/trustflow/attestation/common.py:47-93 | the generation parameters written in Python are those the generator reads |
| `JsonReaders.ParamsArrive` | pylib/trustflow/attestation/common.py:47-93 | the other parameters by their names |
| `JsonReaders.UncomparedArrive` | pylib/trustflow/attestation/common.py:137-180 | the attributes no rule compares by their names |
| `JsonReaders.ReportArrives` | pylib/trustflow/attestation/common.py:107-122 | a report by the names of its fields |
| `JsonReaders.NestedArrive` | pylib/trustflow/attestation/common.py:195-267 | nested policies by theirs |
| `JsonReaders.RequiredFields` | pylib/trustflow/attestation/common.py:47-122 | which fields must be set for a value to survive: two of the generation parameters and four of a report |
| `JsonReaders.UnknownKeyRefused` | pylib/trustflow/attestation/common.py:67-73 | a document with a key the class does not know is refused |
| `EvalParamReader.GivenIff` | dm_component/componentize/component/eval_param_reader.py:138-147 | without repeated paths a path is given exactly by the one message that carries it and is not marked as open |
| `EvalParamReader.Reader.LoadAttrs` | dm_component/componentize/component/eval_param_reader.py:138-147 | collects the node's own messages, and refuses exactly a path that already carries one |
| `EvalParamReader.Reader.Preprocess` | dm_component/componentize/component/eval_param_reader.py:122-234 | the reader is built if and only if the node is acceptable; then each declared attribute and column has one entry with the node's value or the default, each passed its checks, and inputs and outputs are paired in order |
| `Components.OmittedIntReadsDefault` | dm_component/componentize/component/component.py:261-403 | a node that omits an accepted optional integer or list of integers is not refused for it and reads exactly the declared default |
| `Components.OmittedStrReadsDefault` | dm_component/componentize/component/component.py:405-477 | the same for strings and lists of strings |
| `Components.OmittedBoolReadsDefault` | dm_component/componentize/component/component.py:479-534 | the same for booleans and lists of booleans |
| `Components.GivenIntAcceptedIff` | dm_component/componentize/component/eval_param_reader.py:30-78 | a given integer passes exactly when it is allowed and in the declared interval |
| `ParameterLaws.GivenStrAcceptedIff` | dm_component/componentize/component/eval_param_reader.py:30-47 | a given string passes exactly when it is one of the allowed ones, and is read as it is |
| `ParameterLaws.GivenFloatAcceptedIff` | dm_component/componentize/component/eval_param_reader.py:30-78 | with exact comparison a given float passes exactly when it is allowed and between its bounds |
| `ParameterLaws.GivenReads` | dm_component/componentize/component/eval_param_reader.py:93-113 | what is read from a given message, type by type |
| `ParameterLaws.RefusedAttribute` | dm_component/componentize/component/eval_param_reader.py:149-172 | an attribute neither given nor optional, or of no type the reader knows, is refused |
| `ParameterLaws.ColumnAcceptedIff` | dm_component/componentize/component/eval_param_reader.py:81-90 | a column passes exactly when its counts allow its names, found under "input", the input and its own name |
| `ParameterLaws.PrefixedPath` | dm_component/componentize/component/eval_param_reader.py:162 | prefixes come before the name of an attribute, each followed by a slash |
| `ParameterLaws.ScalarIntAcceptedIff` | dm_component/componentize/component/component.py:261-403 | which single integers can be declared, with the interval written out |
| `ParameterLaws.ListIntAcceptedIff` | dm_component/componentize/component/component.py:261-403 | which lists of integers can be declared |
| `ParameterLaws.ScalarStrAcceptedIff` | dm_component/componentize/component/component.py:405-477 | which single strings can be declared |
| `ParameterLaws.ListStrAcceptedIff` | dm_component/componentize/component/component.py:405-477 | which lists of strings can be declared; a plain string as default stands for its letters |
| `ParameterLaws.BoolAcceptedIff` | dm_component/componentize/component/component.py:479-534 | which booleans can be declared |
| `ParameterLaws.ListLengthsStored` | dm_component/componentize/component/component.py:390-403 | list lengths are stored as declared, from zero and without end otherwise |
| `ParameterLaws.IoAcceptedIff` | dm_component/componentize/component/component.py:536-569 | which inputs and outputs can be declared |
| `ParameterLaws.DefinitionHolds` | dm_component/componentize/component/component.py:571-608 | a definition carries the component's names and everything declared before it, in order |
| `ParameterLaws.ColumnNameTaken` | dm_component/componentize/component/component.py:586-604 | an output named like an input and its column joined by "_" is refused, an attribute of that name is not |
| `Components.ProcessIff` | dm_component/componentize/component/component.py:571-608 | collecting names succeeds if and only if no claimed name was taken before it |
| `Components.FailedCallSticks` | dm_component/componentize/component/component.py:571-608 | a call that raises leaves a declared name among the claimed ones |
| `Components.StuckStep` | dm_component/componentize/component/component.py:571-608 | and then every later declaration and call leaves the component that way |
| `Components.DefinitionIsFinal` | dm_component/componentize/component/component.py:92-608 | over every sequence of declarations and calls a returned definition has pairwise distinct names and never changes, and after a call that raised none succeeds |
| `ReadableDefinitions.ReadableIff` | dm_component/componentize/component/eval_param_reader.py:122-234 | some node can be read against a definition if and only if its slot names are distinct, every slot has a value that passes its checks, and inputs and outputs repeat no name |
| `ReadableDefinitions.ReturnedReadableIff` | dm_component/componentize/component/component.py:571-608 | over every sequence of declarations and calls, a returned definition can be read if and only if its slot names are distinct, every required integer has room between its bounds and the column counts are in order |
| `ReadableDefinitions.UnreadableDefinition` | dm_component/componentize/component/component.py:593-596 | a returned definition that no node can satisfy because a column is declared twice |
| `ReadableDefinitions.JoinedNamesClash` | dm_component/componentize/component/eval_param_reader.py:207-225 | a returned definition that no node can satisfy because the two sides join names differently |
| `ComponentObject.Component.IntAttr` | dm_component/componentize/component/component.py:261-403 | accepts exactly the sound declarations and appends exactly that definition, list lengths included; a refused one changes nothing |
| `ComponentObject.Component.StrAttr` | dm_component/componentize/component/component.py:405-477 | the same for strings |
| `ComponentObject.Component.BoolAttr` | dm_component/componentize/component/component.py:479-534 | the same for booleans and lists of booleans |
| `ComponentObject.Component.Io` | dm_component/componentize/component/component.py:536-569 | the same for inputs and outputs |
| `ComponentObject.Component.Definition` | dm_component/componentize/component/component.py:571-608 | the claiming loops compute one step of the state machine the theorems are about, names left behind on failure included |
| `CApi.ReturnPayload` | trustflow/attestation/generation/wrapper/generator_wrapper_c_api.cc:45-108 | the payload is written whole or not at all and its length changes only then; the code is 0, 1 for argument errors, 6 for invalid formats and 18 for anything else; each text buffer ends terminated within its capacity, and no byte beyond a capacity changes |
| `CApi.FinishText` | trustflow/attestation/verification/wrapper/verifier_wrapper_c_api.cc:91-103 | one text buffer after a call: its contents up to capacity, its reported size, the rest unchanged |
| `CApi.ErrorMessage` | trustflow/attestation/verification/wrapper/verifier_wrapper_c_api.cc:74-103 | on error the message is the longest prefix that fits with its NUL, and the size is that prefix plus one |
| `CApi.ErrorDetails` | trustflow/attestation/generation/wrapper/generator_wrapper_c_api.cc:78-93 | the details are the stack trace in the same way, and a standard exception leaves the caller's bytes there |
| `CApi.SuccessMessage` | trustflow/attestation/generation/wrapper/generator_wrapper_c_api.cc:95-105 | on success the buffer keeps the caller's bytes but the last, and the size says where they end |

## Left out

- AES-GCM, SHA-256, RSA, SM2, X.509 and every OpenSSL call: foreign code, abstract here or absent.
- Quote verification, collateral and devices: foreign libraries and hardware; a quote carries its report data unchanged.
- The SGX and CSV verifiers and generators: the same comparisons over other fields.
- JWE and JWS envelopes and the text layer of JSON: foreign calls once cryptography is abstract; the JSON model starts at the parsed tree.
- Object storage in `PutResultData` and `GetInputData`, gRPC, HTTP, logging, configuration and waiting times: plumbing; the storage branch is not part of this model, only the local one.
- `eval_authorize`, `eval_data_export`, `eval_data_delete` and `eval_data_unauthorize`: calls to remote services in sequence.
- The getters of the parameter reader and of the component: look-ups in the tables described here.
- Float attributes of declarations: they differ from integers by rounding only; the reader keeps them, over any closeness relation.
- The branch of `EncryptToDir` and `DecryptToDir` for a single file: the case of one job.
- `AttestationReportVerify`: the case without a payload of what `ReturnPayload` states.
- Symbolic links in a source: an entry is taken under its own path, and the program resolves links, so that two entries may be given one path; `EncDestInjective` is about the paths given.
- TreeRoundTrip: is about files; a directory that holds none is not made again by the code.
- EncryptToDirIff: starts from a destination with no files, and creating a directory with its parents is one step.
- EveryRun: where jobs that share a destination do not agree it says that a file is there, not which bytes, because the schedule decides; copying a file is one step; a write or a read that fails in the operating system is not modelled; a task fails only where the code checks.
- RegisteredImpliesDelivered: requires handlers that run one at a time, which `GuaranteeIff` shows to be necessary, and one id in the URI on both sides.
- EncryptFile: writes header fields in little-endian order, as the machines the program runs on do.
- DecryptToDirIff: starts from a destination with no files, as EncryptToDirIff does.
- HandleUpload: a URI is taken as parsed, the remote answers are arguments, and two handlers at once are in `UploadProtocol` only.
- JoinInjective: needs certificates without a dot, as PEM texts are.
- RaBinding: says nothing about two different texts with one digest, because SHA-256 is any function.
- PublicKeyAcceptedIff: a key's text is taken byte by byte, one byte a character.
- JsonRoundTrip.RoundTrip: a document whose shape does not fit its class is kept as read, as the Python constructors do.
- ErrorMessage: is about texts without NUL, as C strings are.

Nothing was executed: every statement is a proof about the model.
