# NOA receipt verifier: a Dafny model

An offline verifier reads a chain of signed, hash-linked receipts and answers VALID, UNVERIFIED, TAMPERED,
UNTRUSTED or MALFORMED. This project models the parts of it whose correctness is decided by code, and proves
what they promise. All results are for-all statements; nothing here was executed.

- **JSON.** The strict parser, the RFC 8785 printer and the strict-bytes gate (`Utf`, `Json`, `JsonParse`,
  `JsonEscapes`, `JsonRoundTrip`, `StrictBytes`, `JsonMachine`). Text is a sequence of Unicode scalar values. The Go parser (2000
  open containers) and the TypeScript one (64 levels, every value counted) are one family over `Limits`.
- **Chain.** Receipt and checkpoint shapes, the hash input, the walk, the producer and the byte entry (`Receipt`,
  `Verify`, `ChainMeaning`, `Refusals`, `ChainTheorems`, `ChainMachine`, `BytesEntry`, `Builder`).
- **History.** Key lifetimes, witness separation and attribution (`Historical`, `HistoricalTheorems`,
  `HistoricalMachine`).
- **Time.** The two Gregorian day counts and the timestamp order with its two readings of second 60 (`Calendar`,
  `Timestamp`).
- **Keys.** Modular arithmetic up to Fermat's little theorem, the Edwards addition law, extended coordinates, square
  roots, strict point decoding, the scalar loop and the bounded cache (`Modular`, `EdwardsLaw`, `Extended`,
  `SquareRoot`, `Ed25519`, `StrictKey`, `StrictKeyMachine`).
- **Wire.** The request grammar, the framed serve loop, and the ledger and deploy projections (`Request`, `Serve`,
  `ServeTheorems`, `ServeMachine`, `Projections`, `LedgerTransfer`, `DeployRelease`).

Code that updates variables is a method or a class with loops, in the modules ending in `Machine` and in `Timestamp`
and `Builder`; each is proved equal to a specification function, and the theorems are about that function.

## What is taken as given

- SHA-256, base64, SPKI decoding, the Ed25519 signature equation, Unicode NFC, the serve loop's verdict and its
  envelope signature are function-valued fields of `Env`, `Producer` and `Kernel`. No property of them is built in.
  Tamper evidence is therefore stated as "the chains agree, or they exhibit two receipts whose hash inputs collide",
  and producer completeness requires that signing with a listed secret verifies under its key (`Builder.Honest`).
- `Ed25519.FieldFacts` names the two facts section 5.1 of RFC 8032 states of the constants: 2^255 - 19 is prime and d is
  not a square modulo it. That the addition law's denominators never vanish, that sums of curve points are curve
  points, and Fermat's inverse are proved from these two, for any field that has them (`EdwardsLaw.SmallSetting` is a
  small one). Soundness of decoding needs neither.
- The source's JSON number scan refuses any fraction or exponent; the model refuses them at the same point. Error
  messages and offsets are not part of a parse result, and warnings are values that carry their seq.
- Key sorting is an insertion sort in the model and a library sort in the source; `SortedUnique` shows that any
  correct sort gives the same list.
- `time.Parse` in the Go historical verifier is modelled by the arithmetic the Python port writes out (`_instant`).
  The builder's final self-check uses the same shape predicate as the verifier.
- A document entering a projection is its UTF-8 bytes; a text argument is its encoding.
- What the builders receive as the previous receipt or the head is any JSON value, read as the source reads it: absent
  for a falsy one, refused where a read throws or gives undefined. Adding one to a text or container gives a text in the
  source, which its final self-check refuses; the model refuses it at once.

## Model

| member | source | states |
|---|---|---|
| Utf.DecodeEncoded | impl-go/parse.go:266-331 | decoding the UTF-8 of a scalar gives it back and stops right after it |
| Utf.EncodeDecoded | impl-go/strict_bytes.go:37-47 | every accepted UTF-8 sequence is the one encoding of its scalar |
| Utf.Encode16Injective | impl-go/jcs.go:116-133 | different texts have different UTF-16 code units |
| Utf.Less16StrictTotal | impl-go/jcs.go:120-133 | the key order is irreflexive and total: two different keys are ordered exactly one way |
| Utf.Less16Transitive | impl-go/jcs.go:120-133 | the key order is transitive |
| Utf.CompareUtf16 | impl-go/jcs.go:120-133 | the index loop decides the lexicographic order of UTF-16 code units |
| Utf.AstralSortsLow | impl-go/jcs.go:114-133 | of two keys that first differ in a supplementary character and one of U+E000..U+FFFF, the supplementary one sorts first, unlike code point order |
| Json.SortedUnique | impl-go/jcs.go:116-118 | a key set has one sorted list, so the printed form does not depend on the sort used |
| JsonRoundTrip.NumberReads | impl-go/parse.go:208-261 | every safe integer, printed in decimal, is read back by the number scanner |
| JsonRoundTrip.TextReads | impl-go/parse.go:266-331 | every text, escaped as the printer escapes it, is read back |
| JsonEscapes.HexValueExact | impl-go/parse.go:362-384 | a hex digit is read in either case and nothing else is |
| JsonEscapes.ReadHex4Exact | impl-go/parse.go:362-384 | a code unit u is read if and only if the four octets spell u |
| JsonEscapes.EscapeExact | impl-go/parse.go:336-359 | a \u escape denotes c, ending at j, if and only if it spells the one or two UTF-16 units of c and j is right after them; lone surrogates denote nothing |
| JsonEscapes.FullEscapeReads | impl-go/parse.go:266-359 | every character spelled as \u escapes, surrogate pairs included, is read back in a string body |
| JsonRoundTrip.ParsePrint | impl-go/parse.go:41-384 | parse(print(v)) = v for every value within the depth and integer bounds and without forbidden keys, for both parsers |
| JsonRoundTrip.PrintInjective | impl-go/jcs.go:19-75 | values with equal canonical bytes are equal |
| StrictBytes.ParserImage | impl-go/parse.go:66-182 | the parser can produce a value if and only if the value is within the bounds |
| StrictBytes.PrintIsValid | impl-go/jcs.go:19-112 | canonical bytes are always valid UTF-8 |
| StrictBytes.StrictAdmitsCanonical | impl-go/strict_bytes.go:37-64 | strict-bytes admits data as v if and only if v is within bounds and data is its canonical form |
| StrictBytes.StrictUnique | impl-go/strict_bytes.go:37-64 | one admitted spelling per value, every natively read value has one, and strict admission implies the same native tree |
| JsonMachine.Parser.ReadValue | impl-go/parse.go:66-91 | the cursor method reads what the grammar function reads and leaves the cursor where it ends |
| JsonMachine.Parser.ReadObject | impl-go/parse.go:93-146 | the member loop with its duplicate and forbidden-key checks refines the grammar function |
| JsonMachine.Parser.ReadArray | impl-go/parse.go:148-182 | the item loop refines the grammar function |
| JsonMachine.Parser.ReadLiteral | impl-go/parse.go:184-202 | true, false and null exactly |
| JsonMachine.Parser.ReadMagnitude | impl-go/parse.go:216-222 | the digit loop stops at the end of the run and has its decimal value |
| JsonMachine.Parser.ReadNumber | impl-go/parse.go:208-261 | sign, magnitude and the refusals refine the number function, bounds included |
| JsonMachine.Parser.ReadText | impl-go/parse.go:266-331 | the character loop refines the text function |
| JsonMachine.Parser.ReadEscapedChar | impl-go/parse.go:336-359 | the cursor method reads what the escape function reads, whose meaning is `JsonEscapes.EscapeExact`, and stops where it stops |
| JsonMachine.Parser.ReadUnit | impl-go/parse.go:362-384 | four hex digits give their value |
| JsonMachine.ParseStrict | impl-go/parse.go:41-53 | the whole parser equals the parse function, so it inherits the round trip |
| JsonMachine.JcsString | impl-go/jcs.go:78-112 | the escape loop writes the canonical string |
| JsonMachine.SortUtf16 | impl-go/jcs.go:116-118 | the result is sorted and has exactly the given keys |
| JsonMachine.Jcs | impl-go/jcs.go:19-75 | the recursive writer produces the canonical bytes |
| JsonMachine.AdmitChainBytes | impl-go/strict_bytes.go:37-64 | the gate as code equals the gate as specified, for every profile name |
| Receipt.HashInputDetermines | impl-go/verify.go:428-437 | two well-shaped receipts with one hash input and one recorded hash are equal except for sig.value |
| Receipt.StripDetermines | impl-go/verify.go:174-195 | exact keys make the stripped receipt determine everything but the two stripped fields |
| Receipt.FillingKeepsHashInput | src/canonicalize.ts:41-69 | filling chain.hash and sig.value leaves the hash input unchanged |
| Receipt.ReceiptWellFormed | impl-go/verify.go:202-409 | a well-shaped receipt, stripped or not, is within the bounds of both parsers and both printers |
| Receipt.CheckpointWellFormed | impl-go/verify.go:463-502 | the same of a checkpoint |
| Receipt.CheckpointInputDetermines | impl-go/verify.go:440-446 | two well-shaped checkpoints with one hash input say the same thing and are equal except for sig.value |
| ChainMeaning.IndexMeaning | impl-go/verify.go:569-580 | the index is built if and only if there is one chain id and no repeated seq, and then holds every receipt under its seq |
| ChainMeaning.ExactlyAllSeqs | impl-go/verify.go:616-622 | n distinct seqs fill 0..n-1 if and only if each is below n |
| ChainMeaning.TenantsMeaning | impl-go/verify.go:594-611 | the carried tenant agrees if and only if all tenants present before the first gap are equal to each other and to it |
| ChainMeaning.WalkMeaning | impl-go/verify.go:613-684 | the walk goes through if and only if every seq passes its checks, and reports exactly the warnings of those seqs |
| ChainMeaning.CheckpointMeaning | impl-go/verify.go:686-712 | the checkpoint passes if and only if it authenticates, names the head and its kid may speak for the opener |
| ChainMeaning.ValidMeans | impl-go/verify.go:538-721 | VALID if and only if a keyring is given, inputs are well formed and the chain is acceptable: seqs 0..n-1, one chain, tenants and keys consistent, every hash, link, signature and authorisation good |
| ChainMeaning.AcceptedMeans | impl-go/verify.go:714-720 | acceptance with or without a keyring has the same meaning |
| ChainMeaning.NeverBoth | impl-go/verify.go:717-720 | VALID needs a keyring and UNVERIFIED its absence |
| Refusals.MalformedMeans | impl-go/verify.go:538-567 | MALFORMED if and only if the receipts, keyring or manifest are not well formed; the further MALFORMED return of lines 624-626 needs a text that is not valid UTF-8, which no value here holds |
| Refusals.WalkUntrusted | impl-go/verify.go:618-667 | the walk ends UNTRUSTED if and only if the first thing wrong is an intact, signed receipt whose key may not speak for its agent |
| Refusals.UntrustedMeans | impl-go/verify.go:538-712 | UNTRUSTED if and only if inputs are well formed, one chain, no repeated seq, tenants equal up to the first gap, and the first thing wrong is such a receipt, or every receipt is good and an authentic checkpoint on the head has a kid not authorised for the opener |
| Refusals.TamperedMeans | impl-go/verify.go:569-712 | TAMPERED if and only if inputs are well formed and the chain is neither acceptable nor untrusted |
| Refusals.ManifestOnlyRestricts | impl-go/verify.go:655-711 | a manifest only restricts: VALID with one is VALID without, and nothing is UNTRUSTED without one |
| ChainTheorems.OrderInvariant | impl-go/verify.go:569-580 | every permutation of the input gives the same status and the same warnings |
| ChainTheorems.WarningsExact | impl-go/verify.go:613-684 | a warning is reported if and only if it is due: duplicate-id exactly where the id occurs at a lower seq |
| ChainTheorems.WarningsOrdered | impl-go/verify.go:613-684 | warnings come in seq order, the timestamp one before the duplicate one |
| ChainTheorems.WarningsReported | impl-go/verify.go:714-720 | a refusal reports nothing and an acceptance reports all that is due |
| ChainTheorems.SameHash | impl-go/verify.go:428-437 | equal recorded hashes mean equal signed content or a collision |
| ChainTheorems.SameHashSamePast | impl-go/verify.go:613-684 | by induction along the links: one common hash means the same seq and the same past, or a collision |
| ChainTheorems.TamperEvidence | impl-go/verify.go:538-721 | two accepted chains sharing a hash anywhere stand at one seq there and agree on every signed byte up to it, or exhibit a collision |
| ChainTheorems.SameCheckpoint | impl-go/verify.go:506-530 | one signed message means one checkpoint up to sig.value, with the same chain, seq, head hash, time and kid, or a collision |
| ChainTheorems.PrefixAcceptable | impl-go/verify.go:613-684 | acceptance without a checkpoint is closed under prefixes |
| ChainTheorems.DomainsSeparate | impl-go/verify.go:418-424 | no receipt signing message is ever a checkpoint signing message |
| BytesEntry.StrictVerdictIsNative | impl-go/strict_bytes.go:69-75 | on admitted input the strict verdict is the native one, and canonicalising any native input keeps its verdict |
| ChainMachine.ReceiptHashInput | impl-go/verify.go:428-437 | deleting from a copy and printing it gives the specified hash input |
| ChainMachine.CheckpointInput | impl-go/verify.go:440-446 | the same for checkpoints |
| ChainMachine.VerifyCheckpoint | impl-go/verify.go:506-530 | bad, unverified or ok as specified, for any value at all |
| ChainMachine.CheckShapes | impl-go/verify.go:562-567 | passes if and only if every element is well shaped |
| ChainMachine.BuildIndex | impl-go/verify.go:569-580 | the map-filling loop refines the index |
| ChainMachine.CheckTenants | impl-go/verify.go:594-611 | the lastPresent loop refines the tenant rule, stopping at a gap |
| ChainMachine.CheckReceipt | impl-go/verify.go:623-667 | the checks on one receipt in the source's order |
| ChainMachine.WalkChain | impl-go/verify.go:613-684 | the loop over pinned keys, seen ids, previous receipt and warnings refines the walk |
| ChainMachine.CheckCheckpoint | impl-go/verify.go:686-712 | the checkpoint branch in the source's order |
| ChainMachine.VerifyChain | impl-go/verify.go:538-721 | status and warnings equal the specified verdict for every input |
| ChainMachine.VerifyChainBytes | impl-go/strict_bytes.go:69-75 | the byte entry equals its specification |
| Builder.BuildReceipt | src/builder.ts:76-150 | for any value passed as the previous receipt: drafting, hashing, signing and filling gives the specified receipt, or none |
| Builder.BuiltMeans | src/builder.ts:76-150 | a built receipt is well shaped, has the seq and link read from whatever came before, and its hash and signature cover it |
| Builder.PositionAfterReceipt | src/builder.ts:112-113 | after a well-shaped receipt that is the next seq, linked to its hash |
| Builder.BuildCheckpoint | src/builder.ts:232-260 | for any value passed as the head: the checkpoint built over it, or none if it would be malformed |
| Builder.BuiltCheckpointMeans | src/builder.ts:232-260 | it names the chain, seq and hash read from the head and its signature covers it |
| Builder.RunAcceptable | src/builder.ts:76-150 | every honest, disciplined run of the builder is an acceptable chain |
| Builder.BuilderCompleteness | src/builder.ts:146-150 | such a run is VALID |
| Builder.CheckpointCompleteness | src/builder.ts:232-260 | adding a checkpoint over the head by a listed signer keeps it VALID |
| Historical.ValidHasIndex | impl-go/historical.go:183-198 | a VALID chain has the full index the historical code rebuilds |
| HistoricalTheorems.AcceptableSignersLoad | impl-go/historical.go:229-232 | on a verified chain every signer's key loads, so the refusal there is never reached |
| HistoricalTheorems.WitnessLoads | impl-go/historical.go:220-225 | an authentic checkpoint's key loads, so the refusal there is never reached |
| HistoricalTheorems.SeparationMeans | impl-go/historical.go:226-236 | the only failure is a shared key: none if and only if every signer differs from the witness in kid and key bytes, in any order |
| HistoricalTheorems.AnchoredExactly | impl-go/historical.go:241-292 | the anchoring decision attributes if and only if chain, seq, hash and every lifetime fit |
| HistoricalTheorems.WitnessedExactly | impl-go/historical.go:199-239 | the witness decision attributes if and only if the witness is sound and the anchor is |
| HistoricalTheorems.AttributionExactly | impl-go/historical.go:157-293 | ATTRIBUTABLE_AS_OF if and only if the chain is VALID, the witness authentic, separate, unretired and active, and every covered signer active and unretired at the checkpoint time |
| HistoricalTheorems.VerifiedMeans | impl-go/historical.go:287-292 | VERIFIED and PARTIAL are exactly the attributing verdicts, VERIFIED only at the head |
| HistoricalTheorems.ClassesExactly | impl-go/historical.go:157-251 | INVALID if and only if the receipt root, the chain or the checkpoint fails by itself; CONFLICT if and only if a sound witness names no receipt of a VALID chain; a root is called invalid if and only if it does not parse |
| HistoricalTheorems.LeapSecondNeverAttributes | impl-py/noa_verify.py:892-932 | a checkpoint in second 60 attributes nothing |
| HistoricalTheorems.WideningKeepsAttribution | impl-go/historical.go:256-286 | lifetimes that contain the old ones keep everything an attribution rests on |
| HistoricalTheorems.WideningKeepsVerdict | impl-go/historical.go:256-292 | wider roots give the same classification, seq and time |
| HistoricalTheorems.PrefixIsBehind | impl-go/historical.go:244-247 | every non-empty proper prefix of a VERIFIED chain is CONFLICT, CHECKPOINT_AHEAD |
| HistoricalTheorems.ExtensionIsPartial | impl-go/historical.go:183-293 | every longer VALID chain containing it, with signers other than the witness, is PARTIAL through the same seq as of the same time |
| HistoricalTheorems.HistoricalOrderInvariant | impl-go/historical.go:157-293 | every permutation of the receipts gives the same result; only the chain id shown for a chain that is not VALID may differ |
| HistoricalMachine.ReadEntry | impl-go/historical.go:108-152 | one lifecycle entry is accepted if and only if it meets the rules, with its two bounds |
| HistoricalMachine.ReadLifecycle | impl-go/historical.go:105-154 | the loop over entries refines the lifecycle reading whatever order the map yields |
| HistoricalMachine.ParseHistoricalKeyring | impl-go/historical.go:85-155 | flat and lifecycle documents as specified, every refusal included |
| HistoricalMachine.CheckSeparation | impl-go/historical.go:226-236 | the receipt loop finds the first separation failure |
| HistoricalMachine.CheckLifetimes | impl-go/historical.go:256-280 | the two flags after the loop say exactly whether any covered lifetime fails |
| HistoricalMachine.Anchor | impl-go/historical.go:241-292 | the anchoring half equals its specification |
| HistoricalMachine.Witness | impl-go/historical.go:199-239 | the witness half equals its specification |
| HistoricalMachine.VerifyHistoricalChain | impl-go/historical.go:157-293 | the whole historical verdict, all twelve fields, equals the specified one |
| Calendar.MarchDaysCounts | impl-py/noa_verify.py:371-384 | the March-based formula equals counting years and months one by one, plus a constant |
| Calendar.FormulasAgree | impl-py/noa_verify.py:892-932 | the two day formulas differ by one constant on all years from 0 |
| Calendar.NextDateIsOneLater | impl-go/verify.go:110-128 | both formulas add exactly 1 from each valid date to the next |
| Calendar.MarchDaysOrder | impl-go/verify.go:47-60 | an earlier date if and only if a smaller day number |
| Timestamp.ScanRfc3339 | src/scan.ts:140-176 | the scanner accepts if and only if the text matches the published pattern |
| Timestamp.PatternUnique | src/scan.ts:140-176 | a matching text matches in one way |
| Timestamp.FractionNanos | impl-go/verify.go:132-146 | the two digit loops give the fraction to nine digits |
| Timestamp.NanosRange | src/scan.ts:292-307 | a fraction is below one second |
| Timestamp.ReadStamp | impl-go/verify.go:77-96 | a stamp is read if and only if the text is an instant, and its fields are in range |
| Timestamp.NotComparableExactly | impl-go/verify.go:153-172 | not comparable if and only if the minutes are adjacent, 60 in the lower and 0 in the upper, and the nanoseconds make the readings differ |
| Timestamp.BackwardsStrict | src/scan.ts:325-342 | "backwards" is irreflexive, asymmetric and transitive |
| Timestamp.BackwardsIsEarlierInstant | impl-py/noa_verify.py:397-420 | away from second 60, backwards if and only if the instant decreases |
| Modular.Fermat | impl-py/noa_verify.py:67-67 | a^(p-1) = 1 for every prime p not dividing a |
| Modular.FermatInverse | impl-py/noa_verify.py:67-67 | the power p - 2 is the inverse |
| EdwardsLaw.DenominatorNever | src/keys.ts:139-150 | on curve points d x1 x2 y1 y2 is never 1 or -1: the addition law is complete |
| EdwardsLaw.SumOnCurve | impl-py/noa_verify.py:81-85 | the sum of curve points is on the curve |
| Extended.JsRemExact | src/keys.ts:83-86 | the source's remainder is the one number congruent to the dividend, of its sign and below the modulus in size |
| Extended.Consistent | src/keys.ts:139-150 | a representing tuple keeps T Z = X Y |
| Extended.AddRepresents | src/keys.ts:140-150 | one extended addition of signed residues represents the affine sum |
| Ed25519.Constants | src/keys.ts:73-80 | p = 5 mod 8, the stored root squares to -1, and d is not -1 |
| Ed25519.AffineSum | impl-py/noa_verify.py:81-85 | the affine sum by two Fermat inverses satisfies its defining equations and is on the curve |
| Ed25519.LadderRepresents | src/keys.ts:156-164 | after any bits e the accumulator represents the recursive affine multiple by e |
| Ed25519.IdentityTest | src/keys.ts:163-163 | the two residue tests hold if and only if the represented point is (0, 1) |
| Ed25519.SubgroupTestExact | src/keys.ts:156-164 | the loop's test holds if and only if the affine [L]P is (0, 1), for every curve point |
| SquareRoot.RootSound | src/keys.ts:121-132 | every recovered x is in range and on the curve |
| SquareRoot.RootComplete | src/keys.ts:121-132 | for every curve point a root is found, equal to its x up to sign |
| StrictKey.DecodeSound | src/keys.ts:109-137 | an accepted encoding yields a point in range, on the curve, that encodes back to the same 32 bytes |
| StrictKey.DecodeComplete | impl-py/noa_verify.py:173-197 | every curve point in range is decoded from its encoding |
| StrictKey.DecodeExact | src/keys.ts:101-137 | decoding gives p if and only if p is in range, on the curve and encodes to the input |
| StrictKey.DecodeInjective | src/keys.ts:101-137 | no two accepted encodings share a point |
| StrictKey.EncodePointMeans | impl-py/noa_verify.py:110-113 | the low 255 bits of an encoding are y and the top bit is the parity of x |
| StrictKey.StrictPublicKeyMeans | src/keys.ts:166-189 | a key passes if and only if it is the encoding of an unlisted curve point with [L]P = (0, 1) |
| StrictKey.RememberedSound | src/keys.ts:180-188 | one call keeps every entry correct and the bound, and answers the uncached decision |
| StrictKey.CacheTransparent | impl-py/noa_verify.py:199-218 | after any sequence of calls the cache is sound, at most 4096, and the next answer is the uncached one |
| StrictKeyMachine.FieldMod | src/keys.ts:83-86 | the non-negative residue |
| StrictKeyMachine.ModPow | src/keys.ts:89-99 | the square-and-multiply loop gives base^exp with the sign-keeping remainder, for every base and modulus |
| StrictKeyMachine.RecoverX | src/keys.ts:121-132 | reducing after every product gives the specified root |
| StrictKeyMachine.DecodeStrictPoint | src/keys.ts:109-137 | the byte loop and branches equal the specified decoder for every byte string |
| StrictKeyMachine.DoubleAndAdd | src/keys.ts:156-164 | the bit loop computes the ladder |
| StrictKeyMachine.IsInPrimeOrderSubgroup | src/keys.ts:156-164 | the method equals the subgroup test |
| StrictKeyMachine.KeyCache.constructor | src/keys.ts:152-153 | an empty cache is sound |
| StrictKeyMachine.KeyCache.IsStrictPublicKey | src/keys.ts:176-189 | the answer is the uncached decision, the cache stays sound and within its bound, and changes only as specified |
| Request.SectionsWritten | src/serve.ts:86-97 | writing back the sections read gives the remaining bytes |
| Request.SectionsRead | src/serve.ts:86-97 | sections written in ascending order are read back |
| Request.ParseRequestExact | src/serve.ts:78-105 | a payload parses to r if and only if it is two octets followed by the encoding of r, r within its field widths |
| Request.RequestCanonical | src/serve.ts:71-77 | no request has two encodings behind the same two octets |
| Serve.PumpForetold | src/serve.ts:264-291 | consuming frames changes nothing that will be observed |
| Serve.ChunkingIndependent | src/serve.ts:203-307 | for every chunking the frames written and the exit code are those of the whole stream's session |
| ServeTheorems.CleanSessionExact | src/serve.ts:264-303 | exit 0 with given exchanges if and only if the stream is exactly their framed requests and each is answered |
| ServeTheorems.SessionAnswered | src/serve.ts:233-291 | every stream splits into the answered frames and a rest, empty after a clean end |
| ServeTheorems.IdsIncrease | src/serve.ts:240-241 | answered ids rise strictly |
| ServeTheorems.AnsweredOwn | src/serve.ts:233-262 | every response answers the request in its own payload |
| ServeTheorems.ResponseBinds | src/serve.ts:139-159 | a response carries the id, nonce and digest of the payload it answers, at fixed places |
| ServeTheorems.EnvelopeInjective | src/serve.ts:108-118 | equal signed envelopes mean equal request digest, id, nonce and verdict digest |
| ServeTheorems.RunSafe | src/serve.ts:203-307 | every run: HELLO, responses in order with rising ids, at most one protocol error, last and exactly when the exit code is 1 |
| ServeTheorems.RunFits | src/serve.ts:120-124 | everything a run writes fits its four length octets |
| ServeTheorems.WireReads | src/serve.ts:197-199 | such frames are told apart on the wire: equal bytes mean equal frames |
| ServeMachine.ReadSections | src/serve.ts:84-97 | the offset loop refines the section grammar |
| ServeMachine.ReadRequest | src/serve.ts:78-105 | the parser as code equals the grammar function, refusal codes included |
| ServeMachine.Server.WriteFrame | src/serve.ts:197-199 | stdout grows by the payload behind its length |
| ServeMachine.Server.HandlePayload | src/serve.ts:233-262 | one payload writes its response or returns its error code, and moves only the last id |
| ServeMachine.Server.PumpFrames | src/serve.ts:264-291 | the loop over acc and need equals the pump function |
| ServeMachine.Server.Data | src/serve.ts:293-297 | a data event equals its specification, ignored once done |
| ServeMachine.Server.End | src/serve.ts:298-303 | end of input is clean at a frame boundary and an error inside a frame |
| ServeMachine.ServeStream | src/serve.ts:197-307 | a whole run of the object leaves on stdout the length-prefixed frames of the stream's session and returns its code |
| Projections.FlatTextsReparse | src/jcs.ts:39-132 | an object of at most six short texts is canonicalizable, fits, and parses back to itself at 64 levels |
| LedgerTransfer.CheckTransferExact | src/ledger-transfer.ts:314-346 | the member rules accept if and only if the object is a valid tuple and nothing else |
| LedgerTransfer.TransferReads | src/ledger-transfer.ts:359-369 | the render node reads back the tuple just written |
| LedgerTransfer.TransferProjection | src/ledger-transfer.ts:381-423 | the re-parse refusal is unreachable; a tuple is shown if and only if the document is that valid tuple, with its canonical bytes and rows |
| LedgerTransfer.TransferRowsRebuild | src/ledger-transfer.ts:400-414 | the tuple can be rebuilt from its rows |
| LedgerTransfer.TransferBinds | src/ledger-transfer.ts:381-423 | equal bound bytes, equal rows and equal tuples are the same thing |
| LedgerTransfer.TransferIdempotent | src/ledger-transfer.ts:348-369 | projecting the canonical bytes gives the same result |
| DeployRelease.ReadReleaseExact | src/deploy-release.ts:417-444 | the field rules and the closed world accept if and only if the object is a valid tuple |
| DeployRelease.ReleaseProjection | src/deploy-release.ts:407-472 | the re-parse refusal is unreachable; a tuple is shown if and only if the document is that valid tuple |
| DeployRelease.ReleaseLineReads | src/deploy-release.ts:456-464 | the Release line gives back operation, repository and commit |
| DeployRelease.ReleaseLineInjective | src/deploy-release.ts:456-464 | the line is injective even when the repository contains '@' |
| DeployRelease.ReleaseBinds | src/deploy-release.ts:407-472 | equal bound bytes, equal rows and equal tuples are the same thing |

## Left out

- SHA-256, base64, SPKI/DER and the final Ed25519 group equation: foreign code, kept as functions.
- Proofs that 2^255 - 19 is prime and that d is a non-square: long certificates of fixed numbers, named in `Ed25519.FieldFacts` instead.
- That the eight listed encodings are the points of order dividing 8: a table of constants.
- The signature-R check of `src/keys.ts`: the decoder and the table again, with no subgroup test.
- Frame timers, stdin and stdout errors and key generation in `src/serve.ts`: only data and end events are modelled.
- Unicode normalisation and HMAC pseudonyms: they depend on tables and a keyed hash; normalisation is a function of `Producer`.
- `src/verify.ts`, federation, policy and COSE modules, and `src/action-digest.ts`: not part of this model.
- Command lines, file reading, exit codes outside the serve loop, and the C#, Rust and remaining Python ports: they add no new property.
- Error texts, error offsets and the `paramsHash` field of a projection, which is the digest of the canonical bytes shown.
- Prototype, Proxy and realm hardening: JavaScript object semantics with no counterpart here.
- Library key sorting: the model sorts by insertion, so the order of comparisons is not captured.
- JsonMachine.Parser.ReadValue: the cursor class is fixed to the Go bounds; the 64-level TypeScript parser is modelled by the grammar functions only.
