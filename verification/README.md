# NextSQL verification project

A Dafny model of the parts of NextSQL where a mistake is hardest to see, with proofs of what those parts
promise. Check it with `dafny verify dfyconfig.toml` (Dafny 4.11).

**Deterministic field encryption in the Node driver** (`drivers/node/client-encryption.js`, `drivers/node/nextsql.js`).
`Siv` is AES-SIV as the driver computes it, over an arbitrary block function; in `Gf128` blocks are also read as
polynomials over GF(2), so that doubling can be compared with multiplication by x. `Utf16` and `Utf8`, `Base64url`,
`Decimal` and `Json` (the NSJB document format) are the encodings underneath; `FieldCrypt` puts them together.
`Collections` is the STRUCT/ARRAY/MAP parameter format and `CollectionReader` its loops. `Wire` is the frame reader
as a state machine over socket events.

**Short-lived credentials and identity policy** (`internal/auth`, `internal/authbroker`). `TokenText`, `Format` and
`TokenClaims` are the signed region; `TokenKeys` the signing keyset; `Revocations` the revocation set;
`TokenVerify` Mint and Verify. `Policy` is the NSIP policy format, `PolicyReader` its cursor, `RoleTemplate` and
`RoleMapping` its evaluation, `Exchange` the exchange of an identity-provider token for a credential.

**Passwords, keys and rows** (`internal/auth/store.go`, `drivers/go/nextsql.go`). `UserStore` interleaves upsert,
delete, login and the delayed rehash of legacy records. `FieldKeyring` is the Go driver's durable field keyring.
`RowStream` is its result streaming.

**Backup** (`internal/backup`). `Backup` seals members of a live database in chunks under one data key. `Archive` is
the log archive: runs of archivers over one directory, point-in-time resolution and restore; `ArchiveIndex` is its
index file.

Modelling conventions. Bytes are a type of 0..255, Go strings are byte strings, JavaScript strings are Dafny strings,
and sequences of sixteen-bit units where encrypted text is concerned.
Times are integer nanoseconds. Block ciphers, key streams, hashes, signatures, regular expressions and number
conversions are function-valued parameters: nothing is assumed of them unless a lemma's `requires` says so (`Correct`,
`AllOpen`, `Ideal`, `WellBehaved`, `Javascript`). Files are values that are written and read back; clocks are
parameters, and an operation that reads the clock twice takes two readings. A method with a loop is proved equal to a
function, and the lemmas are about that function.

## What the proofs found

Properties that hold only under a condition the code does not check. Each has an if-and-only-if and a member at an
input where the property fails.

- Text in an encrypted field comes back exactly when it does not begin with a byte-order mark, which the driver's decoder
  drops, and every surrogate has its partner, since the encoder replaces a lone one (`FieldCrypt.TextComesBack`; at
  U+FEFF followed by an x, `FieldCrypt.MarkedTextLost`, and at a lone surrogate, `FieldCrypt.SurrogateLost`).
- Frames delivered by the Node driver's reader are the frames sent, in order, exactly until a frame is delivered after
  a body read failed behind its consumed header: the reader serves what is left in its buffer even on a closed
  connection (`Wire.DeliveredExactly`). A caller that stops reading at such a failure is safe (`Wire.CarefulCaller`);
  one that goes on is safe exactly when the socket reported an error, behind which every read fails, or the bytes left
  hold no frame at a whole number of headers (`Wire.SafeAfterLoss`; at a payload that contains a header, `Wire.StrayFrame`).
- A revoked token id stays out exactly when the longest whole-second lifetime, the clock skew and the time between the
  verifier's two clock readings fit into thirty days (`Revocations.RevokedIdStaysOut`, `TokenVerify.RevokedStaysOut`).
  The default 24-hour maximum leaves room; within a minute of the 30-day ceiling there is none
  (`TokenVerify.ConfiguredVerifiers`), and a credential revoked the second it was minted verifies again
  (`TokenVerify.RevokedComesBack`).
- A credential revoked with an expiry of the caller's choice stays out exactly when that expiry reaches the
  credential's own, the skew and the clock gap (`Revocations.RevokedUntil`). The expiry Mint reports, which
  `nextsql token revoke --expires` invites, does not: the verifier takes the credential again from that instant on, for
  the length of its skew (`TokenVerify.RevokedUntilExpiry`).
- The exchange reads the clock once to bound the lifetime and once to mint. No credential outlives its
  identity-provider token, whose expiry is a whole second, exactly when the second of the second reading begins less
  than a second after the first reading; with a TTL below a second, when it is at most the next second
  (`Exchange.OutlivesExactly`; at readings on two successive whole seconds, `Exchange.OutlivesBySecond`).
- Every granted role is held, or inside the boundary when provisioned just in time, exactly when a membership feed is
  wired (`Exchange.CoveredIffWired`; without a feed, `Exchange.UnwiredGrants` grants a role to a principal that holds
  none).
- `WriteIdentityPolicy` accepts default and literal role names of more than 128 raw bytes when trimming shortens them;
  reading such a file back is refused, never misread (`Policy.WrittenPolicyReadsBack`; at a padded role name,
  `Policy.PaddedRole`).
- Decimal bytes survive a round trip exactly when the number is not negative zero (`Decimal.DecimalRoundTrip`; at "-0",
  `Decimal.NegativeZero`).
- An NSJB document comes back whole exactly when no member at any level is called `__proto__` and every number is what
  its printed form stands for (`Json.WholeDocument`; at one `__proto__` member, `Json.ProtoMemberLost`).
- A collection comes back exactly when it is spelled as the decoder spells values, its members conform to the type
  inferred from the first non-null member and the decoder's depth and count limits hold
  (`Collections.CollectionRoundTrip`). An array of n NULLs is refused from six on (`Collections.NullArrays`), and a
  struct with a repeated field name never comes back (`Collections.RepeatedField`).
- `Rows.Close` reaches the frame boundary exactly when no batch still to be read is empty (`RowStream.Rows.CloseRows`;
  at one empty batch, `RowStream.EmptyBatch`).
- Sealed chunks of a member cannot be moved around as long as it has fewer than 2^32 of them; from there on the 32-bit
  chunk index repeats and the first chunk opens once more (`Backup.OpensOnlyItsOwn`, `Backup.IndexWraps`).
- The archive index reads back exactly while fewer than 65,536 segments are listed, because the count has sixteen bits
  and the writer's guard is 2^20; from then on every call and every restore fails (`ArchiveIndex.WriteRead`,
  `Archive.IndexRun`; at 65,536 segments, `Archive.FullIndex`).
- A restore from the archive succeeds exactly when every segment it needs was last sealed under the key of the archiver
  that first wrote the index; each archiver makes a key of its own and keeps the index's old one
  (`Archive.RestoreRun`; with a second archiver, as after a restart, `Archive.SecondArchiver`).
- A segment archived by the target time is left out of the restore to the resolved LSN exactly when some nonzero LSN is
  eligible and all eligible ones are below the segment's first (`Archive.ResolvedSegmentsApplied`). Calls that leave
  both bounds at zero never cause it (`Archive.OrderedRun`); `Log.Recycle` gives the last one and does, for a segment
  that begins after the redo LSN (`Archive.RecycledBeyondRedo`).
- `s2v` throws on an empty vector list, where section 2.4 of RFC 5297 defines a value (`Siv.ComputeS2V`).

## Model

| member | source | states |
|---|---|---|
| Gf128.DoubleIsMulX | drivers/node/client-encryption.js:386-391 | for every block, the shift-and-carry doubling is multiplication by x in GF(2^128) (section 2.3 of RFC 5297) |
| Gf128.Dbl | drivers/node/client-encryption.js:386-391 | the byte-carry loop over the buffer computes that doubling |
| Gf128.Xor16Poly | drivers/node/client-encryption.js:392 | xor of blocks is addition of polynomials |
| Siv.ComputeCmac | drivers/node/client-encryption.js:393-401 | for every block function and message length, the loop computes CMAC by block partition and subkeys (section 2.4 of RFC 4493) |
| Siv.AbsorbClosedForm | drivers/node/client-encryption.js:402-404 | folding n vectors gives x^n CMAC(0) plus the sum of x^(n-1-i) CMAC(v_i), for every vector list |
| Siv.ComputeS2V | drivers/node/client-encryption.js:402-409 | the loops, including the in-place xor into the tail of a long last vector, compute S2V (section 2.4 of RFC 5297); fails exactly on the empty list |
| Siv.CryptInvolutive | drivers/node/client-encryption.js:410-414 | counter mode under the masked tag undoes itself |
| Utf16.UnitsScalars | drivers/node/client-encryption.js:102-105 | reading a string as Unicode and writing it back keeps its length, and keeps it if and only if every surrogate has its partner |
| Utf16.ScalarsUnits | drivers/node/client-encryption.js:236-238 | every Unicode text is what a string reads as |
| Utf16.ComesBack | drivers/node/client-encryption.js:102-238 | encoding and decoding returns the string if and only if it is well formed and has no leading mark |
| Utf8.DecodeEncode | drivers/node/client-encryption.js:230-239 | strict decoding undoes encoding, for every text |
| Utf8.MarkShows | drivers/node/client-encryption.js:238-238 | encoded text begins with EF BB BF if and only if the text begins with U+FEFF |
| Utf8.DroppingMark | drivers/node/client-encryption.js:238-238 | a decoder that drops one leading mark returns the text without its leading U+FEFF |
| Base64url.DecodeEncode | drivers/node/client-encryption.js:359-379 | decoding undoes encoding, and encoded text passes the alphabet and length checks (section 5 of RFC 4648) |
| Base64url.CanonicalText | drivers/node/client-encryption.js:359-379 | text that re-encodes to itself is exactly the encoder's image |
| Decimal.BigintBytesRoundTrip | drivers/node/nextsql.js:585-595 | the minimal big-endian bytes of a number have that value |
| Decimal.BytesToBigint | drivers/node/nextsql.js:596-603 | the accumulating loop computes the base-256 value |
| Decimal.ZeroSpelling | drivers/node/nextsql.js:628-645 | the two strings compared with are exactly the spellings of zero at that scale |
| Decimal.ReadRender | drivers/node/nextsql.js:604-645 | rendered text reads back as the same number and scale, a zero without its sign |
| Decimal.DecimalRoundTrip | drivers/node/nextsql.js:604-645 | for every accepted text decoding keeps number and scale, a second trip changes nothing, and the bytes survive if and only if the number is not negative zero |
| Decimal.NegativeZero | drivers/node/nextsql.js:604-645 | "-0" is accepted, decodes to "0", and "0" has other bytes |
| Decimal.DecodedDecimal | drivers/node/nextsql.js:628-645 | whatever the bytes, decoded text reads back and renders to itself |
| Decimal.NormalizedNumber | drivers/node/client-encryption.js:212-228 | normalising keeps sign and number, fixes the column's scale, and always gives encodable text |
| Decimal.NormalizedBytesEqual | drivers/node/client-encryption.js:212-228 | two values of one column get equal bytes if and only if they are the same number with the same sign mark |
| Json.SortAscending | drivers/node/client-encryption.js:285-333 | members are written in ascending order of their UTF-8 keys |
| Json.ReadNSJB | drivers/node/nextsql.js:671-742 | the offset-advancing parser with its array and object loops computes the parsing function, errors included |
| Json.ReadPrint | drivers/node/client-encryption.js:285-337 | wherever the printed bytes of a document stand, parsing there returns the document and stops right behind them |
| Json.NSJBRoundTrip | drivers/node/client-encryption.js:272-337 | the parser consumes exactly the printed bytes and returns the document, members in key order, numbers as read, minus `__proto__` members |
| Json.WholeDocument | drivers/node/nextsql.js:660-742 | the document comes back whole if and only if no member at any level is called `__proto__` and every number is what its printed form stands for |
| Json.ProtoMemberLost | drivers/node/nextsql.js:713-734 | the document with one `__proto__` member is printed and comes back empty |
| Json.SamePrint | drivers/node/client-encryption.js:285-337 | documents that differ only in insertion order print to the same bytes at every depth |
| Json.PrintedDocuments | drivers/node/client-encryption.js:272-337 | two documents have equal bytes if and only if they are the same up to member order, `__proto__` members included |
| FieldCrypt.IntRoundTrip | drivers/node/client-encryption.js:158-210 | every in-range integer of every width and sign survives its fixed-width form |
| FieldCrypt.ScalarRoundTrip | drivers/node/client-encryption.js:92-270 | for every supported type decoding a scalar's plaintext returns what the column stores of it |
| FieldCrypt.AadInjective | drivers/node/client-encryption.js:349-358 | the associated data determines database, table, column and header |
| FieldCrypt.EmittedPassesInspection | drivers/node/client-encryption.js:339-379 | everything the encryptor can emit passes inspection, up to the 1 MiB plaintext and 64-byte key id, and is parsed into the same key id, type and body |
| FieldCrypt.OpensSealed | drivers/node/client-encryption.js:464-487 | the tag and the ciphertext stand where decryption looks, and decrypting gives the plaintext |
| FieldCrypt.FieldRoundTrip | drivers/node/client-encryption.js:464-487 | for every supported type, value, key and column, decryption returns what the column stores of the value |
| FieldCrypt.TextComesBack | drivers/node/client-encryption.js:464-487 | for every sequence of sixteen-bit units: text survives encryption and decryption if and only if every surrogate has its partner and it does not begin with U+FEFF |
| FieldCrypt.MarkedTextLost | drivers/node/client-encryption.js:238-238 | U+FEFF followed by an x decrypts to the x alone |
| FieldCrypt.SurrogateLost | drivers/node/client-encryption.js:102-105 | a lone surrogate decrypts to U+FFFD |
| FieldCrypt.EqualCiphertexts | drivers/node/client-encryption.js:464-475 | under one key, column and type ciphertexts are equal if and only if plaintexts are |
| FieldCrypt.EqualDecimals | drivers/node/client-encryption.js:212-228 | decimal ciphertexts agree if and only if number and sign mark do |
| FieldCrypt.EqualDocuments | drivers/node/client-encryption.js:272-337 | two JSON documents of one column have the same ciphertext if and only if they are the same up to member order |
| Collections.NullBit | drivers/node/nextsql.js:488-494 | bit i of the bitmap is set exactly for a NULL member i |
| Collections.ReadsNested | drivers/node/nextsql.js:335-376 | reading back a written descriptor gives the same type and stops behind it if and only if depth and field counts are in range |
| Collections.InferredType | drivers/node/nextsql.js:450-486 | the inferred type of every encodable value is well formed and can be written |
| Collections.ReadsPayload | drivers/node/nextsql.js:391-431 | the payload of a conforming value reads back as that value, NULLs in place, consuming exactly its bytes, if and only if it is spelled as the decoder spells values and the count limits hold |
| Collections.DecodedTidy | drivers/node/nextsql.js:391-431 | whatever the bytes, a decoded value is spelled that way: canonical decimals, no repeated or `__proto__` field, no repeated primitive map key |
| Collections.DecodedConforms | drivers/node/nextsql.js:378-431 | whatever the bytes, a decoded value conforms to the descriptor it was read with, repeated fields counted once and `__proto__` not at all |
| Collections.CollectionRoundTrip | drivers/node/nextsql.js:501-505 | decoding an encoded parameter returns the same tree and consumes all of it if and only if the value is spelled as the decoder spells values, its members conform to the inferred type and the limits hold at every level |
| Collections.NullArrays | drivers/node/nextsql.js:391-505 | an array of n NULLs comes back if and only if n is at most five; from six on it is refused |
| Collections.RepeatedField | drivers/node/nextsql.js:420-430 | a struct with two fields of one name never comes back |
| CollectionReader.ReadDescriptor | drivers/node/nextsql.js:335-376 | the recursive descriptor reader computes the type-reading function, errors included |
| CollectionReader.ReadFields | drivers/node/nextsql.js:356-374 | the loop over struct fields reads n names and types in order |
| CollectionReader.ReadPayload | drivers/node/nextsql.js:391-431 | the member loop with its moving offset computes the payload-decoding function |
| CollectionReader.Build | drivers/node/nextsql.js:420-430 | the final loops assign struct fields by name and set map pairs by key |
| CollectionReader.CollectionPayload | drivers/node/nextsql.js:488-499 | the single pass that sets bits in place yields the bitmap of the NULL members and the other payloads in order |
| Wire.ParsesHeader | drivers/node/nextsql.js:1544-1573 | the header written for a frame parses to its type and length |
| Wire.NextBytes | drivers/node/nextsql.js:1519-1525 | the bytes a served read takes are the header or payload of the next undelivered frame |
| Wire.LostStays | drivers/node/nextsql.js:1509-1562 | once a frame is lost, no event brings it back, and what is left in the buffer stays shorter than its payload |
| Wire.Reached | drivers/node/nextsql.js:1488-1583 | for every cut of the stream and every interleaving of arrivals, reads, resumptions, errors and the end: bytes taken plus buffer equal bytes received and delivered frames are the sent ones, until a body read fails behind its header |
| Wire.DeliveredExactly | drivers/node/nextsql.js:1488-1583 | delivered frames are a prefix of the sent frames if and only if nothing was delivered after a body read failed behind its consumed header; up to there they always are |
| Wire.CarefulCaller | drivers/node/nextsql.js:1488-1583 | a caller that starts no read after such a failure only ever sees a prefix of the sent frames |
| Wire.ErrorSilences | drivers/node/nextsql.js:1513-1518 | behind a socket error nothing is ever delivered again, whatever arrives |
| Wire.NothingMore | drivers/node/nextsql.js:1509-1562 | after a failed read nothing is ever delivered again if and only if the socket reported an error or the buffer holds no frame at a whole number of headers |
| Wire.SafeAfterLoss | drivers/node/nextsql.js:1488-1583 | behind a lost frame every continuation still delivers a prefix of the sent frames if and only if the socket reported an error or the buffer holds no such frame |
| Wire.StrayFrame | drivers/node/nextsql.js:1509-1562 | a stream that ends inside a payload beginning with a header: the next read delivers a frame that was never sent |
| Wire.NeverFails | drivers/node/nextsql.js:1488-1583 | without an end or an error no read ever fails |
| Wire.DeliversAll | drivers/node/nextsql.js:1534-1562 | once the whole stream has arrived, at most three steps of the reader for each frame deliver all of it |
| Wire.Complete | drivers/node/nextsql.js:1544-1562 | a reader blocked on a fully arrived stream has delivered every frame and holds no byte |
| Wire.Reader.constructor | drivers/node/nextsql.js:1489-1507 | a fresh reader has received and delivered nothing |
| Wire.Reader.Pump | drivers/node/nextsql.js:1509-1532 | an error fails the pending read, enough bytes serve it, the end of the stream fails it, in that order |
| Wire.Reader.OnData | drivers/node/nextsql.js:1495-1498 | appends the chunk and pumps |
| Wire.Reader.OnClose | drivers/node/nextsql.js:1503-1506 | marks the end and pumps |
| Wire.Reader.OnError | drivers/node/nextsql.js:1499-1502 | records the error and pumps |
| Wire.Reader.StartRead | drivers/node/nextsql.js:1534-1545 | starts a frame, the first time or after any failure: asks for a header |
| Wire.Reader.ResumeRead | drivers/node/nextsql.js:1544-1562 | a served read checks the header and asks for the payload, delivers, or fails |
| Wire.Reader.RunAll | drivers/node/nextsql.js:1488-1583 | the object driven by any list of events is in the state of the state machine the lemmas are about |
| RowStream.Rows.constructor | drivers/go/nextsql.go:992-1054 | the first frame decides between an open row stream and a finished result |
| RowStream.Rows.FinishLocked | drivers/go/nextsql.go:1394-1404 | releases the connection once and changes nothing else |
| RowStream.Rows.Fill | drivers/go/nextsql.go:1335-1380 | acknowledges the spent batch, then reads the next batch or runs through Ready |
| RowStream.Rows.Outcome | drivers/go/nextsql.go:1353-1380 | the outcome and the Ready behind it are consumed and the connection is released |
| RowStream.Rows.Next | drivers/go/nextsql.go:1312-1333 | hands out the next row of the concatenated batches, or ends with all frames consumed |
| RowStream.Rows.CloseRows | drivers/go/nextsql.go:1382-1393 | releases the lock exactly once and reaches the frame boundary if and only if no batch still to be read is empty |
| RowStream.EmptyBatch | drivers/go/nextsql.go:1382-1393 | one empty batch: Close releases the connection with the outcome and Ready unread |
| RowStream.Rows.Drain | drivers/go/nextsql.go:1382-1393 | the loop of Close stops at the outcome or at the first empty batch |
| RowStream.Rows.Drive | drivers/go/nextsql.go:1312-1404 | for every order of Next and Close rows come out as the concatenated batches, one acknowledgement per batch, all frames through Ready consumed, one unlock |
| RowStream.AckedAll | drivers/go/nextsql.go:1335-1345 | acknowledgements equal batches exactly when none is empty, and never exceed them |
| UserStore.Store.UpsertInRealm | internal/auth/store.go:226-254 | replaces the record with one that accepts the password, or changes nothing |
| UserStore.Store.DeleteInRealm | internal/auth/store.go:156-169 | removes exactly that user, and reports whether there was one |
| UserStore.Store.Lookup | internal/auth/store.go:272-318 | the login verdict and whether a rehash follows |
| UserStore.Store.Rehash | internal/auth/store.go:321-335 | upgrades the record still stored under the key, if it is still a legacy one |
| UserStore.RunReachable | internal/auth/store.go:272-335 | in every interleaving the pending rehashes and the records satisfy the linking invariant |
| UserStore.RehashReplacesVerified | internal/auth/store.go:321-335 | a rehash that changes anything replaces the very record that was verified with one accepting the same password |
| UserStore.RehashNeverUndoes | internal/auth/store.go:226-335 | no pending rehash overwrites a later password or restores a deleted user |
| UserStore.RunImplements | internal/auth/store.go:156-335 | the store simulates a directory with atomic upsert and delete and no rehash at all |
| UserStore.LoginVerdicts | internal/auth/store.go:272-335 | after every interleaving every login gets that directory's verdict |
| TokenText.NormFixed | internal/auth/token.go:73 | normalising twice is normalising once |
| TokenText.DedupFacts | internal/auth/token.go:125-143 | the role list holds exactly the normalised names, each once |
| TokenText.DedupFixed | internal/auth/token.go:125-143 | a valid role list is unchanged by normalisation |
| TokenText.NormTokenRoles | internal/auth/token.go:125-143 | the loop with its seen set computes that list; refused exactly for more than 16 names, an empty or an over-long one |
| TokenClaims.ClaimsRoundTrip | internal/auth/token.go:76-211 | decoding an encoded region returns the normalised claims, and the region always fits the 4096-byte limit |
| TokenClaims.TokenRoundTrip | internal/auth/token.go:215-240 | splitting a wire token returns region and signature |
| TokenKeys.TokenKeyset.constructor | internal/auth/tokenkeys.go:54-63 | a new keyset has one current key with id 1 |
| TokenKeys.TokenKeyset.AddKey | internal/auth/tokenkeys.go:83-112 | the loop clears the current mark and finds the greatest id; the new key becomes current; refused exactly at 64 keys |
| TokenKeys.TokenKeyset.RetireKey | internal/auth/tokenkeys.go:116-156 | retires the last key with the id unless it is unknown, already retired or the last live one, and promotes the newest live key |
| TokenKeys.TokenKeyset.Scan | internal/auth/tokenkeys.go:119-128 | one pass finds the last index of the id and counts live keys |
| TokenKeys.TokenKeyset.FindNewest | internal/auth/tokenkeys.go:141-150 | one pass finds the live key with the greatest id |
| TokenKeys.AddKeepsGood | internal/auth/tokenkeys.go:83-112 | adding keeps ids counting up and the newest live key as the only current one |
| TokenKeys.RetireKeepsGood | internal/auth/tokenkeys.go:116-156 | retiring keeps them too |
| TokenKeys.RunKeeps | internal/auth/tokenkeys.go:54-186 | in every run of AddKey, Retire and Reload exactly one key is current, it is live and the newest, ids are distinct, public keys never change and retirement is final |
| TokenKeys.AlwaysSigns | internal/auth/tokenkeys.go:174-186 | such a keyset always has a signer, whose own verifier key it publishes |
| TokenKeys.RetiredForever | internal/auth/tokenkeys.go:159-171 | a retired id verifies nothing in any later state |
| TokenKeys.KeysRoundTrip | internal/auth/tokenkeys.go:272-398 | the keyset file decodes to the keyset, times cut to seconds |
| TokenKeys.PublishedKeys | internal/auth/tokenkeys.go:205-227 | a server that loads the published file verifies exactly what the issuer verifies and cannot sign |
| Revocations.TokenRevocations.constructor | internal/auth/tokenrevoke.go:40-49 | a new set is empty in memory and on file |
| Revocations.TokenRevocations.Persist | internal/auth/tokenrevoke.go:174-183 | whatever order the maps are walked in, the file decodes to the set with times cut to seconds |
| Revocations.TokenRevocations.Revoke | internal/auth/tokenrevoke.go:75-87 | prunes, then records the id unless the set is full; a refusal prunes memory but not the file |
| Revocations.TokenRevocations.RevokePrincipal | internal/auth/tokenrevoke.go:91-108 | a later cutoff replaces an earlier one; invalid names and a full table are refused |
| Revocations.TokenRevocations.Prune | internal/auth/tokenrevoke.go:129-138 | drops expired ids and writes the file only when something changed |
| Revocations.TokenRevocations.Reload | internal/auth/tokenrevoke.go:149-165 | memory becomes what the file holds |
| Revocations.PruneMap | internal/auth/tokenrevoke.go:140-146 | deleting while walking in any order leaves exactly the unexpired ids |
| Revocations.Walk | internal/auth/tokenrevoke.go:185-219 | walking a map in any order lists each entry once |
| Revocations.FileRoundTrip | internal/auth/tokenrevoke.go:185-289 | for every order of entries the file decodes to the set with times cut to seconds |
| Revocations.CutoffsNeverMoveBack | internal/auth/tokenrevoke.go:75-165 | over every run of Revoke, RevokePrincipal, Prune and Reload no principal's cutoff moves back |
| Revocations.SubSecondsDoNotMatter | internal/auth/tokenrevoke.go:111-126 | dropping the part of a second below a cutoff changes no verdict about a decoded credential |
| Revocations.CutoffIsFinal | internal/auth/tokenrevoke.go:91-126 | a credential rejected by a cutoff is rejected in every later state |
| Revocations.RunHeld | internal/auth/tokenrevoke.go:75-165 | over every run an id stays in memory and on file until its expiry has passed |
| Revocations.RevokedIdStaysOut | internal/auth/tokenverify.go:159-184 | an id revoked with the default expiry is never accepted again in any run, if and only if lifetime, skew and clock gap fit into thirty days |
| Revocations.RevokedUntil | internal/auth/tokenrevoke.go:75-126 | a credential revoked until e is never accepted again in any run, if and only if it was never admissible or the whole second of e reaches its expiry, the skew and the clock gap |
| TokenVerify.MintSucceeds | internal/auth/tokenverify.go:26-67 | with a good keyset Mint fails only on the request: lifetime, names or roles out of range |
| TokenVerify.MintedVerifies | internal/auth/tokenverify.go:139-185 | after any keyset history a minted credential verifies to its normalised claims exactly while its key is live, its lifetime admitted, the clock in its skewed window, the audience equal and it is not revoked |
| TokenVerify.MintExpiry | internal/auth/tokenverify.go:44-67 | the reported expiry is a whole second, at most the TTL after minting and less than two seconds short of it |
| TokenVerify.RevokedNeverVerifies | internal/auth/tokenverify.go:139-185 | if lifetime, skew and clock gap fit into thirty days, Verify refuses every credential whose id was revoked, in every run |
| TokenVerify.RevokedComesBack | internal/auth/tokenverify.go:139-185 | otherwise a credential minted with the longest lifetime and revoked the same second verifies again |
| TokenVerify.RevokedStaysOut | internal/auth/tokenverify.go:139-185 | for every signature scheme, keyset and verifier: revoked ids stay out of Verify in every run if and only if the verifier leaves that room |
| TokenVerify.ConfiguredVerifiers | internal/auth/tokenverify.go:86-110 | every verifier that can be configured: the default leaves room for 29 days less a minute, one within a minute of the ceiling for nothing |
| TokenVerify.RevokedUntilExpiry | internal/auth/tokenverify.go:139-185 | a minted credential revoked until its reported expiry verifies again from that instant for the length of the skew, whatever else the set held |
| RoleTemplate.ValidateRoleTemplate | internal/auth/identitypolicy.go:769-785 | the loop accepts exactly the templates whose references parse and name an existing group |
| RoleTemplate.ValidMeans | internal/auth/identitypolicy.go:769-785 | the validator's scan agrees with parsing into pieces and checking each reference |
| RoleTemplate.ExpandRoleTemplate | internal/auth/identitypolicy.go:515-537 | the loop computes the expander's scan, errors included |
| RoleTemplate.ExpansionMeans | internal/auth/identitypolicy.go:515-537 | the expander renders the parsed pieces with the groups of the match if all of them exist, and fails otherwise |
| RoleTemplate.AcceptedExpands | internal/auth/identitypolicy.go:515-785 | the validator's scan accepts a template for n groups if and only if the expander's scan succeeds on every match with n groups |
| RoleTemplate.ParseSpell | internal/auth/identitypolicy.go:515-537 | any list of literal bytes and numbered references, spelled out, is read back piece by piece |
| Policy.PolicyBijection | internal/auth/identitypolicy.go:789-954 | a byte string decodes to a policy if and only if it is that policy's encoding and its role names fit |
| Policy.WrittenPolicyReadsBack | internal/auth/identitypolicy.go:789-954 | reading a written policy gives the same policy, or a refusal exactly when a role name is over 128 raw bytes |
| Policy.PaddedRole | internal/auth/identitypolicy.go:789-1009 | a small policy with its role name padded by n spaces is written, and read back if and only if n is below 128 |
| Policy.DocCodecOk | internal/auth/identitypolicy.go:650-767 | a policy that compiles is within every limit of the format but the raw length of role names |
| PolicyReader.Cursor.constructor | internal/auth/identitypolicy.go:957-960 | a cursor stands at its offset |
| PolicyReader.Cursor.Byte | internal/auth/identitypolicy.go:964-971 | reads one byte or reports truncation |
| PolicyReader.Cursor.Count | internal/auth/identitypolicy.go:973-980 | reads a little-endian count or reports truncation |
| PolicyReader.Cursor.String | internal/auth/identitypolicy.go:982-993 | reads a bounded string or reports an error |
| PolicyReader.Cursor.Roles | internal/auth/identitypolicy.go:995-1009 | the loop reads a bounded list of bounded strings |
| PolicyReader.Cursor.Conditions | internal/auth/identitypolicy.go:876-894 | the loop reads the conditions of a rule |
| PolicyReader.Cursor.Transforms | internal/auth/identitypolicy.go:904-921 | the loop reads the transforms of a principal |
| PolicyReader.Cursor.Rules | internal/auth/identitypolicy.go:863-924 | the loop reads the subject rules |
| PolicyReader.Cursor.Mappings | internal/auth/identitypolicy.go:926-945 | the loop reads the group mappings |
| PolicyReader.ReadIdentityPolicy | internal/auth/identitypolicy.go:836-954 | the cursor reads accept exactly what the format accepts, with the same result |
| RoleMapping.MatchRule | internal/auth/identitypolicy.go:289-306 | the first rule with this issuer whose conditions all pass, or none |
| RoleMapping.DerivePrincipal | internal/auth/identitypolicy.go:416-442 | a derived principal is always a valid login of 1 to 128 characters |
| RoleMapping.LoginIsNormal | internal/auth/identitypolicy.go:606-618 | a valid login is unchanged by credential normalisation |
| RoleMapping.MapGroups | internal/auth/identitypolicy.go:475-513 | the three nested loops collect, in order and once each, what the mappings contribute for the groups |
| RoleMapping.MappedRolesExactly | internal/auth/identitypolicy.go:475-513 | a role is mapped if and only if some mapping grants it for some group |
| RoleMapping.NothingSkipped | internal/auth/identitypolicy.go:491-503 | in a compiled policy every template of a matching mapping expands: the skip branch is unreachable |
| RoleMapping.MapIdentity | internal/auth/identitypolicy.go:274-334 | the steps of Map, in order, with every failure |
| RoleMapping.MapIsSound | internal/auth/identitypolicy.go:274-334 | a mapped identity has a valid login and one to sixteen distinct roles, exactly those the policy grants |
| RoleMapping.IntersectRoles | internal/auth/identitypolicy.go:358-382 | both loops compute the mapped roles that are held, in mapped order, once each |
| RoleMapping.NoEscalation | internal/auth/identitypolicy.go:354-382 | the intersection holds exactly the roles that are both mapped and held |
| RoleMapping.AuthorizeIsSound | internal/auth/identitypolicy.go:341-352 | an authorised identity has exactly the roles that the policy grants and the principal holds, at least one; denied exactly when the policy maps nothing or none of it is held |
| Exchange.ApplyRoleBoundary | internal/authbroker/jit.go:23-58 | the boundary set, the filter loop and the sort |
| Exchange.BoundedRoles | internal/authbroker/jit.go:23-58 | just-in-time roles are exactly the mapped roles inside the boundary, sorted and distinct |
| Exchange.EffectiveRolesSound | internal/authbroker/exchange.go:141-165 | effective roles are exactly the mapped ones that are held, or inside the boundary |
| Exchange.GrantIsSound | internal/authbroker/exchange.go:132-198 | for every policy, claim set and membership answer a granted credential's own claims carry distinct roles, at most 16: with a feed exactly those the policy grants that are held, or inside the boundary when provisioned; without one exactly those the policy grants |
| Exchange.CoveredIffWired | internal/authbroker/exchange.go:141-165 | over all compiled policies, tokens, requests and clocks every granted role is held, or inside the boundary when provisioned, if and only if the membership feed is wired |
| Exchange.UnwiredGrants | internal/authbroker/broker.go:257-266 | without a feed a one-rule policy grants its default role to a principal that holds nothing |
| Exchange.GrantExpiry | internal/authbroker/exchange.go:168-207 | the expiry is within the configured TTL, within the identity-provider token's expiry if the second reading is prompt, and otherwise beyond it by at most the time between the readings |
| Exchange.OutlivesExactly | internal/authbroker/exchange.go:132-207 | for every TTL that can be configured and any two clock readings no exchange, whatever the policy, token, request and feed, grants a credential that outlives its source, if and only if the second reading's second begins less than a second after the first (for a TTL below a second: is at most the next one) |
| Exchange.OutlivesBySecond | internal/authbroker/exchange.go:132-207 | readings at 0 and 1 s, a token that expires at 1 s and a TTL of at least 1 s: the exchange grants a credential that expires at 2 s |
| Backup.AADInjective | internal/backup/seal.go:16-23 | the additional data determines member name and chunk index, for names of any length |
| Backup.GrowingCopy | internal/backup/seal.go:58-98 | a file that only grows is copied as it was when opened |
| Backup.CopySize | internal/backup/seal.go:99-101 | whatever happened to the file, an accepted copy has the recorded size |
| Backup.Dek.constructor | internal/backup/backup.go:163-166 | a new data key has sealed nothing |
| Backup.Dek.SealBytes | internal/backup/seal.go:80-83 | one seal spends one generation |
| Backup.SealFile | internal/backup/seal.go:25-115 | the read-and-seal loop over a changing file; succeeds exactly when the copy is complete and no generation wraps to zero, and then holds header and records of every piece |
| Backup.SealPiece | internal/backup/seal.go:76-95 | one chunk spends one generation under its name and index and appends one record |
| Backup.OpenMember | internal/backup/seal.go:137-213 | the reading loop computes the opening function, errors included |
| Backup.OpenUndoesSeal | internal/backup/seal.go:137-213 | opening a sealed member returns the bytes sealed into it, for a cipher that opens what this key sealed |
| Backup.HotBackup | internal/backup/seal.go:58-115 | a member sealed from a growing file opens to exactly the first size-at-open bytes |
| Backup.Create | internal/backup/backup.go:163-256 | over all members and the manifest the generations are 1, 2, 3, ... without gap or repeat, `nonceHigh` is the last, and every member holds a complete copy of its source; fails only if a source shrank or all 64-bit generations are spent |
| Backup.IdealExists | internal/backup/seal.go:80-83 | whatever was sealed, a cipher exists that opens all of it and nothing else |
| Backup.OpensOnlyItsOwn | internal/backup/seal.go:16-23 | with an ideal cipher any bytes opened under a member's name give leading pieces of that member or nothing |
| Backup.BackupOpens | internal/backup/backup.go:163-256 | every member of a finished backup, the manifest among them, opens to the copy it holds, which for a file that only grew is the file as it was when opened |
| Backup.BackupOpensOnly | internal/backup/backup.go:163-256 | under the same key nothing opens under a member's name but leading pieces of that copy |
| Backup.IndexWraps | internal/backup/seal.go:16-23 | behind the first 2^32 chunks of a member its first chunk opens once more, so the bound of the two rows above is sharp |
| ArchiveIndex.WriteArchiveIndex | internal/backup/archive.go:180-229 | the checking and filling loops compute the file of a list, refused above 2^20 entries or for a name outside 1 to 255 bytes |
| ArchiveIndex.ReadArchiveIndex | internal/backup/archive.go:115-178 | the reading loop computes the parsing function, errors included |
| ArchiveIndex.WriteRead | internal/backup/archive.go:115-229 | a written index reads back if and only if it lists fewer than 65,536 entries |
| Archive.SegmentLSNRange | internal/backup/archive.go:231-273 | the scan returns the least nonzero and the greatest LSN, in order |
| Archive.DirArchiver.constructor | internal/backup/archive.go:37-52 | a new archiver holds the directory and a wrapped key of its own |
| Archive.DirArchiver.Archive | internal/backup/archive.go:54-91 | seals over the old copy, takes bounds left at zero from the scan, and lists the segment; every failure leaves what the source leaves |
| Archive.DirArchiver.AppendIndex | internal/backup/archive.go:93-113 | reads the index, replaces or appends, writes it back under the key it already holds; fails on an unreadable index |
| Archive.DirArchiver.Replace | internal/backup/archive.go:101-111 | the loop replaces the entry with this id or appends |
| Archive.IndexKeeps | internal/backup/archive.go:93-113 | over every run one entry per segment, every segment once, as archived last |
| Archive.IndexRun | internal/backup/archive.go:54-229 | over every run of calls, by one archiver after another, the index file reads back as those entries under the first archiver's key if and only if fewer than 65,536 segments were listed, and is unreadable for good from then on |
| Archive.ArchiveAll | internal/backup/archive.go:37-113 | any archivers calling in turn leave the directory the run lemmas are about |
| Archive.FilesRun | internal/backup/archive.go:54-91 | over every run each listed segment's copy is the one its entry describes, under the key of the archiver that made it |
| Archive.ResolveUntilTime | internal/backup/archive.go:324-349 | the loop returns the best LSN of the index, or an error when the index is unreadable or the LSN zero |
| Archive.BestIsGreatest | internal/backup/archive.go:324-349 | the resolved LSN is eligible and the greatest eligible one |
| Archive.BestMonotone | internal/backup/archive.go:324-349 | a later target never resolves to an earlier LSN |
| Archive.ApplyArchive | internal/backup/archive.go:275-320 | the loop restores, in order, the entries that do not start beyond the bound, and fails at the first copy that is missing, changed or under another key |
| Archive.RestoredExactly | internal/backup/archive.go:297-320 | one segment that does not open fails the whole restore; otherwise every segment not skipped is restored |
| Archive.RestoreRun | internal/backup/archive.go:54-320 | after every run a restore returns exactly the segments not skipped if fewer than 65,536 are listed and each of those was last sealed under the first archiver's key, and fails otherwise |
| Archive.OneArchiver | internal/backup/archive.go:54-320 | one archiver alone restores all it listed |
| Archive.SecondArchiver | internal/backup/archive.go:37-113 | two archivers with keys of their own, whatever they archived: a restore that needs the second one's segment fails |
| Archive.FullIndex | internal/backup/archive.go:180-229 | 65,536 segments by one archiver, whatever they hold, cannot be restored; 65,535 can |
| Archive.ResolvedSegmentsApplied | internal/backup/archive.go:297-349 | a segment archived by the target time is left out of the restore to the resolved LSN if and only if some nonzero LSN is eligible and all eligible ones are below its first; never with its range in order |
| Archive.OrderedCall | internal/backup/archive.go:63-72 | bounds left at zero record a range in order; with only the last one given, if and only if the segment begins at or before it |
| Archive.OrderedRun | internal/backup/archive.go:54-349 | after every run of calls that record ranges in order nothing archived by the target time is left out |
| Archive.RecycledBeyondRedo | internal/wal/log.go:1080-1097 | a segment recycled with a redo LSN below its first is left out of every later restore unless the base backup covers its first LSN |
| Archive.NothingBeyond | internal/backup/archive.go:297-300 | nothing that starts after the resolved LSN is applied |
| FieldKeyring.CreateKeyring | drivers/go/nextsql.go:241-259 | a new keyring holds the one key as current; an invalid key is refused |
| FieldKeyring.FileFieldKeyring.constructor | drivers/go/nextsql.go:250-259 | memory and file agree from the start |
| FieldKeyring.FileFieldKeyring.Persist | drivers/go/nextsql.go:390-396 | the file decodes to the keyring, times cut to seconds |
| FieldKeyring.FileFieldKeyring.FindKey | drivers/go/nextsql.go:312-318 | the first record with the id |
| FieldKeyring.FileFieldKeyring.Rotate | drivers/go/nextsql.go:306-334 | makes the key the only current one, adding it if new; refused for a revoked id, an invalid key or a full keyring; the file follows |
| FieldKeyring.FileFieldKeyring.Revoke | drivers/go/nextsql.go:338-360 | zeroes and marks the key unless it is unknown, current or already revoked; the file follows |
| FieldKeyring.FileFieldKeyring.Reload | drivers/go/nextsql.go:364-377 | memory becomes what the file holds: the same keyring, times cut to seconds |
| FieldKeyring.RotateKeepsGood | drivers/go/nextsql.go:306-334 | rotation keeps one current unrevoked key, distinct ids, at most 64 records and zero material exactly on revoked ones |
| FieldKeyring.RevokeKeepsGood | drivers/go/nextsql.go:338-360 | revocation keeps them too |
| FieldKeyring.RunKeeps | drivers/go/nextsql.go:241-377 | so does every run of Rotate, Revoke and Reload |
| FieldKeyring.CurrentResolves | drivers/go/nextsql.go:277-301 | there is always a current key and it resolves by its own id |
| FieldKeyring.RevokedForever | drivers/go/nextsql.go:289-360 | a revoked id never resolves or becomes current again, in any run |
| FieldKeyring.KeyringRoundTrip | drivers/go/nextsql.go:398-532 | the file of a good keyring decodes to that keyring, times cut to seconds |

## Left out

- The randomized (AES-GCM) field mode: `InspectField` models its prefix and lengths, but its encryption and decryption would only repeat the deterministic ones with a nonce.
- CollectionReader.ReadDescriptor: ENUM descriptors, whose member list the source reads, are refused.
- CollectionReader.ReadPayload: FLOAT, VECTOR, geometry, ENUM, DATE, TIME and INTERVAL members, which the source reads, are refused; a UUID is its 16 bytes, not its text.
- Json.ReadNSJB: a second `__proto__` member behind one that is null becomes an own property in the source and is dropped here; the printer writes no key twice.
- Json.NSJBRoundTrip: strings and keys are Unicode text; a lone surrogate, which the printer refuses, cannot be written down.
- Collections.CollectionRoundTrip: asks that the encoding is under 4 GiB, where the length field would wrap; texts and names are Unicode text, so a lone surrogate, which the encoder replaces, cannot be written down.
- Siv.ComputeCmac: AES-128 and AES-CTR are arbitrary functions; nothing is claimed about their strength.
- Base64url.DecodeEncode: Go's decoder also skips line breaks inside a token, which the model does not.
- TokenText.NormFixed: case and white space are those of ASCII; Unicode case folding is not modelled.
- Wire.Reader.StartRead: one reader at a time; the overlapping-read rejection is not modelled. Nothing arrives after the end of the stream, as sockets promise.
- Protocol messages beyond frames, prepared statements, pools, clusters, TLS and sockets.
- UserStore.LoginVerdicts: password hashes are ideal functions; hashing cost and timing are not modelled, nor is the user file.
- File writes that fail: `persist`, `atomicWrite` and `fsync` are taken to succeed, so that memory and file change together; concurrent writers of one file are not modelled.
- TokenKeys.KeysRoundTrip: only one direction; unknown flag bits are ignored by the decoder, so other byte strings decode to the same keyset. `FieldKeyring.KeyringRoundTrip` likewise.
- Revocations.FileRoundTrip: only one direction, since the order of entries is not determined and names are normalised on reading.
- The claims, keyset, revocation and keyring codecs are modelled on values; filling a buffer at an offset is not modelled for encoders.
- Revocations.RevokedIdStaysOut: clock readings of one run never go back; monotonic-clock adjustments are not modelled.
- TokenVerify.MintedVerifies: signatures are ideal in one direction (a signature made verifies); unforgeability is not stated.
- `TokenVerifier.Reload` as one step over keyset and revocations.
- Identity-provider token verification, introspection, replay protection, the HTTP layer and audit records; `Exchange.ExchangeToken` starts from a verified token.
- RoleMapping.MapIdentity: regular expressions are an arbitrary matcher; a number claim carries its printed text.
- Backup.SealFile: SHA-256 sums, the manifest encoding and the temporary file of `sealBytes` are left out; the manifest is an arbitrary function of the sealed members.
- Backup.BackupOpensOnly: asks for fewer than 2^32 chunks in the member, like `Backup.OpensOnlyItsOwn`; `Backup.IndexWraps` shows why.
- Backup crash points, directory publication, keystore copies, restore tests, retention and the wrapping of data keys.
- Archive.ApplyArchive: a sealed copy is its size, its sum and the key that opens it; that sealing and opening agree is in `Backup`. The checksum of the index is an arbitrary function.
- The storage engine, write-ahead log writer, SQL executor, replication and command-line tools.
