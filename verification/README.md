# CPace, proved

A model of the Go package `cpace`: the initiator-responder flow of
`draft-irtf-cfrg-cpace-21` for the suite CPACE-RISTR255-SHA512, with mandatory
key confirmation, and of the evidence-bundle checker kept beside it.

`dafny verify dfyconfig.toml` checks everything.

## How it is built

| file | what it models |
|---|---|
| `ByteStrings.dfy` | bytes, the bitwise operators on naturals, `clone`, `clearBytes` |
| `LengthValue.dfy` | LEB128 and length-value concatenation, as loops over a growable slice |
| `Framing.dfy` | the A, B and C envelopes with their caps |
| `HashInputs.dfy` | every byte string that is hashed, authenticated or expanded |
| `Suite.dfy` | the primitives, prime-order arithmetic, the key schedule, clashes |
| `Sampling.dfy` | rejection sampling of scalars |
| `SuiteModel.dfy` | primitives that satisfy the assumptions |
| `PeerShare.dfy` | validation of a peer's share |
| `Protocol.dfy` | what each step computes, on values |
| `HonestExchange.dfy` | the outcome of faithful delivery |
| `Outcomes.dfy` | what each call returns for every input, down to the primitives and the bytes given to them |
| `Runs.dfy` | any number of instances, arbitrary delivery |
| `CallerInputs.dfy`, `Transcripts.dfy`, `Cores.dfy`, `Sessions.dfy`, `Api.dfy` | the same steps on the heap: who owns, overwrites and keeps which array |
| `SingleUse.dfy` | the terminal claim and all interleavings of calls racing for it |
| `EvidenceTree.dfy`, `EvidenceBundle.dfy`, `EvidenceManifest.dfy` | the evidence-bundle checker on a file tree with links |

The heap methods are proved to compute the functions of `Protocol.dfy`; the
protocol theorems are about those functions. The Claimed function of
`SingleUse.dfy` and the Serve function of `Sessions.dfy` play the same part for
the lock-protected sections.

SHA-512, HMAC, HKDF and the map to the group are uninterpreted. None is assumed
injective, since none is on byte strings. That a collision exists somewhere says
nothing, so no theorem here ends in "or a collision exists": each ends in "or
this clash", two inputs computed by a given function (`Suite.TagClash`,
`Runs.AgreementClash`, `HonestExchange.Exchange.SuspectClash`) from strings that
the run itself fed to one primitive. A generator clash is two generator strings
with the same group element.

The group is the integers modulo a prime order, written additively, with an
arbitrary canonical encoding in which the identity is 32 zero bytes; every group
of prime order is of this shape. `SuiteModel.LawsConsistent` exhibits a model of
the laws of every prime order up to 2^256. That the order exceeds 2^252 is a
separate conjunct of `Valid`.

Two facts worth knowing. `Agreement` holds against a network that delivers
anything, and includes agreement on password, context and crossed identities,
because each party multiplied into the common secret the share it generated
itself. `ReflectionTestExact` says what the equal-tag tests of both Finish
methods are for: in their absence a responder's own tag is the tag it waits for
exactly when both parties sent the same share with the same associated data, and
`ReflectionReachable` that such worlds exist for every accepted input.

What is overwritten is stated by saying of every array and scalar that a call
allocates what became of it, so a forgotten buffer cannot satisfy a contract. The
program does leave some in memory: its own copies of wire strings, the MAC-key
input before the ISK is appended, and confirmation tags. The contracts name them
(`Transcripts.LeftOver`).

## Model

| member | source | states |
|---|---|---|
| LengthValue.LebIsCanonical | length_value.go:26-38 | every number has an encoding that is terminated, minimal and sums back to it in base 128 |
| LengthValue.CanonicalIsLeb | length_value.go:43-60 | every minimal terminated digit string is the encoding of its base-128 value |
| LengthValue.LebPrefixFree | length_value.go:26-38 | at most one number's encoding starts at a given place |
| LengthValue.LebLengthBound | length_value.go:40-42 | k bytes suffice exactly for numbers below 2^(7k) |
| LengthValue.LebDigits | length_value.go:26-38 | byte i of an encoding is the i-th digit base 128, with the high bit set unless it is the last |
| LengthValue.Buffer.AppendLEB128 | length_value.go:26-38 | the shift loop appends the minimal encoding, allocating nothing when it fits |
| LengthValue.Buffer.Append | length_value.go:17-20 | append allocates nothing while capacity lasts, else one array; the array left behind holds the old contents and zeros |
| LengthValue.NextDigit | length_value.go:27-32 | the masked, shifted and flagged byte is the next base-128 digit |
| LengthValue.AddDigit | length_value.go:49-52 | OR-and-shift adds the next digit's weight and the continuation bit is read off |
| LengthValue.ReadLEB128 | length_value.go:43-60 | returns a number exactly when its minimal encoding of at most maxBytes bytes starts at the offset, with the end offset; each rejection reason is exact |
| LengthValue.Leb128LenInt | length_value.go:62-69 | the computed length is the length that appendLEB128 emits, for every number |
| LengthValue.LengthValueLen | length_value.go:22-24 | the computed length is that of any length-value field of n bytes |
| LengthValue.LvCatInto | length_value.go:5-15 | the concatenation, in the only array the call allocates, which ends full: no append reallocates |
| LengthValue.LvPrefixFree | length_value.go:17-20 | a length-value field and what follows it are determined by the whole |
| LengthValue.LvCatInjective | length_value.go:5-15 | equal concatenations come from equal lists, of any lengths |
| LengthValue.LvCatAppend | length_value.go:5-15 | the concatenation of an appended list is the concatenation of the concatenations |
| LengthValue.LvCatLast | length_value.go:5-20 | appending a field appends its length prefix and its bytes |
| Framing.ParsedAs | framing.go:151-214 | an answer with the decoder's contract, success or failure, is that of the encoder's partial inverse |
| Framing.MessageAExactly | framing.go:69-97 | accepted as message A with fields sid, Ya, ADa if and only if the bytes are 0xc1, 0x01, 0x01 and those fields, of at most 1024, of 32 and of at most 65536 bytes |
| Framing.MessageBExactly | framing.go:69-97 | the same for message B: role 0x02, a share of 32 bytes, data of at most 65536, a tag of 64 |
| Framing.MessageCExactly | framing.go:69-97 | the same for message C: role 0x03, a tag of 64 bytes |
| Framing.ParseEncode | framing.go:111-167 | decode after encode is the identity within the caps |
| Framing.EncodeInjective | framing.go:111-125 | a byte string encodes at most one message of at most one kind |
| Framing.OneKindOnly | framing.go:69-97 | no byte string is accepted as two of A, B and C |
| Framing.PackageSpecsBounded | framing.go:23-45 | the three message kinds satisfy what the package's constant expressions assert |
| Framing.ValidMessageBelowCap | framing.go:12-15 | every in-cap message is strictly below the 128 KiB aggregate cap |
| Framing.EncodeMessage | framing.go:111-125 | the message, in the only array the call allocates, whose precomputed capacity is the final length |
| Framing.MessageReader.ReadField | framing.go:193-207 | consumes one field the cap accepts, and fails exactly when none starts at the offset, leaving it unmoved |
| Framing.DecodeMessage | framing.go:151-214 | accepts exactly the encodings of in-cap tuples and returns that tuple; every failure is ErrMessage |
| HashInputs.GeneratorStringInjective | crypto.go:23-30 | the generator string determines DSI, password, CI and sid |
| HashInputs.GeneratorStringLayout | crypto.go:23-30 | the padding length takes one byte; DSI, password and padding fill one 128-byte block exactly when they fit, and otherwise there is no padding |
| HashInputs.ChannelIdentifierInjective | input.go:197-209 | CI determines both identities, in their roles, and the context |
| HashInputs.ExportInfoInjective | session.go:108 | exporter info determines purpose and context |
| HashInputs.MacMessageInjective | crypto.go:123 | the MAC message determines share and associated data |
| HashInputs.IskMaterialIsSevenFields | crypto.go:91-98 | the raw transcript behind the prefix still gives the encoding of one seven-field list |
| HashInputs.IskMaterialInjective | crypto.go:91-98 | ISK material determines sid, K and the four transcript fields |
| HashInputs.SidOutputDetermines | transcript.go:72-77 | the sid-output input is its 14-byte label and the four transcript fields, and determines them |
| HashInputs.MacKeyInputInjective | crypto.go:108-116 | the raw MAC-key concatenation determines sid and ISK because an ISK has 64 bytes |
| HashInputs.MacKeyInputDetermined | crypto.go:110-115 | equal concatenations have equal parts if and only if the two ISK lengths agree |
| HashInputs.MacKeyInputAmbiguousWithoutLength | crypto.go:110-115 | every nonempty ISK has a shorter one, with a longer sid, of the same concatenation |
| HashInputs.DomainSeparation | crypto.go:32-118 | the strings hashed for generator, ISK, MAC key and sid output are pairwise different for all arguments |
| Suite.NonzeroProduct | peer_share.go:72-82 | modulo a prime, a product of nonzero factors is nonzero |
| Suite.MulCommutes | core.go:43-101 | Diffie-Hellman: both orders of multiplication give one element |
| Suite.MulInjective | crypto.go:87-89 | a nonzero scalar maps distinct elements to distinct elements |
| Suite.KeySchedule | transcript.go:13-77 | ISK, both tags and the transcript id of a view, down to SHA-512 and HMAC and the bytes given to them |
| Suite.EqualTags | crypto.go:108-125 | equal tags certify equal views and equal authenticated share and data, or the computed clash breaks a primitive |
| Suite.ReflectionTestExact | core.go:69-74 | the two tags of a view coincide exactly when both sides sent the same share and data, up to the computed clash |
| Sampling.FirstScalarIsFirst | crypto.go:53-76 | the sample is the first nonzero 252-bit candidate among the tries, at 32 bytes each; failure means there is none |
| Sampling.SampledExactly | crypto.go:53-76 | sampling yields the low 252 bits of the first of 128 blocks of 32 bytes where they are not zero, and fails exactly when no block has them |
| Sampling.MaskIsReduction | crypto.go:60 | clearing four bits of the last byte reduces the little-endian value modulo 2^252 |
| Sampling.SampleScalar | crypto.go:53-76 | the loop returns that number and leaves the stream after that block; the canonical-decode rejection is unreachable; on every path the only array allocated is zero and the only scalar allocated is the result |
| SuiteModel.LawsConsistent | crypto.go:15-22 | the assumptions on the primitives have a model for every prime order that fits the 32-byte encoding |
| PeerShare.DecodeOnceRefines | core.go:85-101 | decoding once gives the secret or error of decoding inside the multiplication |
| PeerShare.ShareClassification | peer_share.go:42-99 | a share is accepted exactly when it encodes a non-identity element, else fails for exactly one of three reasons with one ErrAbort wrap |
| PeerShare.SharedSecretNeverNeutral | peer_share.go:72-82 | an accepted share and a nonzero scalar never give the neutral element |
| PeerShare.ZeroScalarIsNeutral | peer_share.go:72-82 | the zero scalar does, with a bare ErrAbort |
| Protocol.RespondNeverNeutral | core.go:85-101 | the responder's constructor fails exactly when the share is bad or the randomness ends: never on a neutral secret |
| Protocol.MessageAUnderstood | api.go:46-58 | message A of any accepted input decodes to the fields put in |
| Protocol.MessageBUnderstood | api.go:68-86 | message B decodes to the responder's share, data and tag |
| Protocol.MessageCUnderstood | api.go:106 | message C decodes to the tag |
| Outcomes.AcceptedInputs | input.go:51-99 | the accepted inputs by the sizes of their fields, and for the others exactly when the error also wraps ErrEmptySessionID |
| Outcomes.GeneratorExactly | crypto.go:23-42 | the generator from password, identities, context and sid, down to SHA-512 and the bytes given to it, for both roles |
| Outcomes.StartExactly | api.go:46-58 | the error, or the core and the bytes of message A, for every input and randomness |
| Outcomes.RespondRefuses | api.go:68-79 | an input error first; then ErrMessage for any bytes that are no message A for this session id |
| Outcomes.RespondExactly | api.go:68-86 | for every message A of this session id: identity, encoding or randomness error, or the view, the core and the bytes of message B |
| Outcomes.InitiatorRefuses | api.go:92-101 | ErrMessage for any bytes that are no message B |
| Outcomes.InitiatorFinishExactly | core.go:53-76 | for every message B: share error, confirmation failure, or the tag and the session |
| Outcomes.ResponderFinishExactly | api.go:127-138 | success on exactly one message C, and only if the two tags differ; otherwise ErrMessage or ErrConfirmationFailed |
| Outcomes.ExportExactly | session.go:108-112 | HKDF of the key over the label, purpose and context |
| HonestExchange.BeginsExactly | api.go:68-86 | after faithful delivery Respond fails only for its own input, sid, randomness, or an identity generator |
| HonestExchange.InitiatorCompares | core.go:53-76 | the honest initiator's outcome is decided by the two tag comparisons alone |
| HonestExchange.SameGeneratorSameView | core.go:53-115 | the two views agree exactly when the two generators do |
| HonestExchange.SameGeneratorSameInputs | crypto.go:32-42 | generators agree when password, context and crossed identities do, and only then up to a generator clash |
| HonestExchange.InitiatorConfirmsExactly | core.go:53-76 | the initiator confirms exactly the matching exchanges and otherwise returns ErrConfirmationFailed |
| HonestExchange.MatchingFinishes | core.go:53-129 | a matching exchange without a clash has one view, which determines both results and message B |
| HonestExchange.HonestOutcome | api.go:92-138 | both Finish calls succeed if and only if the exchange matches; then key, transcript id and all exports agree, and peer identities and data are crossed |
| Runs.RunSound | core.go:26-129 | in every reachable world every instance's stored and released values are those of its view |
| Runs.OpeningStep | api.go:46-86 | Start and Respond add one open instance exactly when they succeed |
| Runs.FinishStep | api.go:92-138 | a Finish on an open instance ends accepted, on the tag in its message and with the call's result, if and only if the call succeeds; else spent; nothing else moves |
| Runs.CloseStep | terminal_state.go:47-70 | a Close leaves its instance spent if it was open, as it was if not, and moves nothing else |
| Runs.FaithfulRun | api.go:46-138 | the run of a faithfully delivered exchange ends with both accepted on each other's tag, over one view, with its sessions, if the inputs match; if they do not, the initiator ends spent; or the computed clash breaks a primitive |
| Runs.NoSameRoleTag | core.go:69-127 | no instance accepts a tag released in its own role, up to the computed clash |
| Runs.SameViewSameConfiguration | core.go:30-100 | equal views imply equal password, context, sid and crossed identities, up to a generator clash |
| Runs.Agreement | core.go:53-129 | acceptance of a released tag makes the two instances partners in opposite roles with one view and configuration; a responder's partner has already accepted this responder's tag |
| Runs.AgreementOneToOne | core.go:53-129 | instances that accepted the same instance's tag drew the same scalar |
| Runs.PartnersShareSession | session.go:116-123 | accepted partners hold equal keys, transcript ids and exports, and each other's identity and data |
| Runs.TranscriptIDsDiffer | transcript.go:72-77 | accepted instances with equal transcript ids have equal shares and data in their views, or SHA-512 clashes on two given strings |
| Runs.SettledForever | terminal_state.go:29-55 | whatever follows, an accepted or spent instance never changes, and none disappears or changes its inputs |
| Runs.ReflectionReachable | core.go:120-126 | whatever input a party starts with, a world is reachable in which the responder awaits the very tag it sent, and only the equal-tag test refuses it |
| CallerInputs.AcceptInput | input.go:51-99 | accepts exactly valid inputs, with the source's order of checks; allocates six copies on success and nothing on failure |
| CallerInputs.CallerInput.Copy | input.go:62-69 | six fresh arrays, pairwise distinct, holding the caller's bytes |
| CallerInputs.CallerInput.Wipe | input.go:101-111 | every array still owned is zero |
| CallerInputs.CallerInput.Handoff | input.go:116-136 | arrays move to their protocol roles without copying, the source keeps none, the context is zeroed, CI is the one array allocated |
| CallerInputs.BuildCI | input.go:197-209 | a fresh array holding CI |
| CallerInputs.NormalizedSlices.Wipe | input.go:160-167 | all six arrays are zero |
| CallerInputs.NormalizeInput | input.go:177-184 | the normalized copies, or the input's error; every array the call allocated is one of these or the zeroed context |
| Transcripts.DeriveISK | crypto.go:91-106 | the ISK of the material; every other array the call allocated is zero |
| Transcripts.ComputeTag | crypto.go:108-125 | the confirmation tag; every other array the call allocated is zero or holds only the key input's prefix and sid |
| Transcripts.NewTranscript | transcript.go:13-27 | fresh copies of the four fields and their ordered encoding; nothing else is allocated but parts of that encoding |
| Transcripts.Transcript.Clear | transcript.go:48-62 | all five arrays are zero and dropped, also on a second call |
| Cores.CalculateGenerator | crypto.go:32-42 | the generator; every array the call allocated is zero |
| Cores.NewInitiatorCore | core.go:26-51 | computes the specified core and share; the password and every other array the call allocated are zero |
| Cores.InitiatorCore.VerifyThenTag | core.go:65-74 | a tag is produced exactly when the peer's is the expected one and differs from it |
| Cores.InitiatorCore.Finish | core.go:53-76 | the specified outcome; on every path each array allocated is a result, zero (K and the local ISK among them), or one of the named wire strings, MAC prefixes and tags |
| Cores.InitiatorCore.Clear | core.go:133-139 | the scalar is zero and dropped |
| Cores.NewResponderCore | core.go:78-115 | computes the specified core, share and tag; an invalid share is refused before password or randomness is touched; each store allocated is a result, zero (y and K among them), or a named wire string, MAC prefix or tag |
| Cores.ResponderCore.Finish | core.go:117-129 | the specified outcome; each array allocated is the session's, zero, a MAC prefix or a tag |
| Cores.ResponderCore.Clear | core.go:144-151 | the ISK and transcript arrays are zero and dropped |
| Sessions.AfterIsClosed | session.go:65-82 | the state after any calls is closed without a key if one was Close, else open with the original key |
| Sessions.SessionLinearises | session.go:65-114 | every interleaving answers each call as before or after the first Close; exports use the original key and have the requested length |
| Sessions.Session.constructor | session.go:116-123 | an open session on clones of everything it is given |
| Sessions.Session.Close | session.go:65-82 | the key is zero and dropped, metadata unchanged, idempotent |
| Sessions.Session.Export | session.go:92-114 | the answer of the critical section, in a fresh array |
| Sessions.Session.TranscriptID | session.go:31-36 | a fresh copy, open or closed |
| Sessions.Session.PeerAssociatedData | session.go:41-46 | a fresh copy, open or closed |
| Sessions.Session.PeerID | session.go:52-57 | a fresh copy, open or closed |
| SingleUse.SingleUseState.ClaimFinish | terminal_state.go:29-41 | the critical section for Finish |
| SingleUse.SingleUseState.ClaimClose | terminal_state.go:43-55 | the critical section for Close; a late claim is no error |
| SingleUse.ExecuteKeeps | terminal_state.go:13-70 | under every schedule the state is untouched or has one winner whose progress determines the secret |
| SingleUse.SingleUseSafety | terminal_state.go:29-70 | at most one winner, exact replies to all losers, only the winner touches the core and finds it intact, and the secret is gone when it returns |
| SingleUse.Progress | terminal_state.go:29-70 | in every interleaving four steps of its own finish a call; the first to move on an unclaimed core wins, finds the secret live, leaves it dropped and returns what it computed |
| Api.Start | api.go:46-58 | refines the specified Start; caller slices unchanged; on every path each array or scalar the call allocated is a result holding its specified value, or zero, or the public share; nothing is allocated for an invalid input |
| Api.Respond | api.go:68-86 | the same for Respond, where what is neither result nor zero is a wire string, a MAC prefix or a tag |
| Api.BuildResponder | api.go:74-85 | the specified responder and message between the first step and the wipe |
| Api.FinishInitiator | api.go:92-107 | outcome by claim and specification; after a won claim the scalar is zero and gone on every path while the session keeps its key in its own arrays; everything else allocated is zero, a wire string, a MAC prefix or a tag; a lost claim touches nothing |
| Api.CloseInitiator | api.go:113-121 | the claimed core is cleared, a late close is a no-op |
| Api.FinishSpendsCopies | api.go:27-30 | finishing one copy makes every copy refuse Finish and accept Close |
| Api.FinishResponder | api.go:127-138 | the same for the responder, whose ISK and transcript arrays are zero afterwards |
| Api.CloseResponder | api.go:144-152 | the claimed core is cleared, a late close is a no-op |
| EvidenceTree.SplitJoin | tools/evidencebaseline/main.go:766-768 | splitting a joined path gives back its components |
| EvidenceTree.SafeSlashPathExactly | tools/evidencebaseline/main.go:484-503 | safe references are exactly plain names joined by slashes, with a final slash only where allowed |
| EvidenceTree.DirectLast | tools/evidencebaseline/main.go:484-551 | a path without links goes one name further only into a directory that has it |
| EvidenceTree.LstatRepoRelative | tools/evidencebaseline/main.go:519-551 | succeeds exactly on safe references all of whose parents are real directories, and returns the node there |
| EvidenceTree.LstatChecksumEntry | tools/evidencebaseline/main.go:766-794 | succeeds exactly when the path reaches a non-link without passing a link |
| EvidenceBundle.ParseSHA256SUMS | tools/evidencebaseline/main.go:686-738 | silent exactly when all lines are blank or well formed and no path repeats; then returns all entries in order |
| EvidenceBundle.LinesExactly | tools/evidencebaseline/main.go:693-697 | the scanner's lines of any content, a last one without newline included, each without one final carriage return |
| EvidenceBundle.GoodLineExactly | tools/evidencebaseline/main.go:698-727 | a good line is 64 lower-case hex digits, two spaces and a safe path without white space or leading star |
| EvidenceBundle.EntriesLast | tools/evidencebaseline/main.go:728-732 | one more line adds one entry, its hash and path, exactly when it is good |
| EvidenceBundle.BlankExactly | tools/evidencebaseline/main.go:698-700 | a blank line has only spaces and the five control characters from tab to carriage return |
| EvidenceBundle.ExemptExactly | tools/evidencebaseline/main.go:841-847 | the walk exempts the three top-level control files and entries named .DS_Store, and nothing else |
| EvidenceBundle.BundleRawFiles | tools/evidencebaseline/main.go:796-839 | collects exactly the non-exempt regular files, silent exactly when nothing else but directories lies below |
| EvidenceBundle.ValidateControlFile | tools/evidencebaseline/main.go:647-679 | silent exactly when the control file is regular, or absent where optional |
| EvidenceBundle.VerifySHA256Entry | tools/evidencebaseline/main.go:740-764 | silent exactly when the entry names a linkless regular file of that hash |
| EvidenceBundle.CheckBundle | tools/evidencebaseline/main.go:587-645 | silent exactly on covered bundles |
| EvidenceBundle.SilenceMeansCovered | tools/evidencebaseline/main.go:587-645 | the check is silent if and only if: no link leads to the bundle; its control files are regular; SHA256SUMS has entries, good lines only, no path twice; every listed path is a linkless regular file of that hash; and every other file below, bar the three control files and .DS_Store entries, is regular and listed exactly once with its hash |
| EvidenceManifest.ParseManifest | tools/evidencebaseline/main.go:228-249 | returns the unpadded non-comment lines and reports exactly the padded ones |
| EvidenceManifest.RefsLast | tools/evidencebaseline/main.go:228-249 | one more line adds itself unless it is empty, a comment or padded |
| EvidenceManifest.ManifestRoundTrip | tools/evidencebaseline/main.go:251-256 | writing then parsing is the identity exactly when each reference is one unpadded non-comment line |

## Left out

- The internals of SHA-512, HMAC, HKDF, ristretto255 and the system randomness; a nil random source (the package then uses the system's).
- That the suite's group order is prime: it is an assumption of `Laws`, and `SuiteModel.LawsConsistent` takes the prime as given.
- Secrecy, guessing bounds and timing.
- Error texts: an error is the chain of sentinels it wraps and the share role it names.
- Panics and the clean-up that defers perform after one; copies of secrets made by the Go runtime or kept inside library objects.
- The generator element: it is a value here, so its own clearing is not shown.
- Nil slices: a nil input slice is an empty array. Fields that the program sets to nil after clearing are null here.
- The transcript is copied to an array of its own length; the program keeps the slice that append grew.
- Wire messages, exporter purpose and context, and decoded message fields are immutable values; the arrays modelled are inputs, package copies, secrets, sessions, and outgoing messages and tags.
- Calling a Session method on a nil pointer; a Session without state is modelled.
- Preemption inside a lock section: sections are atomic steps, everything between them interleaves.
- Api.Start: does not say how many bytes of the random source are left, because no caller can observe it.
- Evidence checker: the baseline index and its Markdown table, reference extraction by regular expression, the discovery of bundles, the command line and printing, the temporary file and rename, read errors, lines over the scanner's 64 KiB limit, non-ASCII white space, the order and texts of findings, and changes to the tree while it runs.
- `tools/releasepolicy`: a field-by-field comparison against a fixed catalogue.
