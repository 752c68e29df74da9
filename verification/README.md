# A Dafny model of mtprsto

mtprsto is an MTProto 2.0 client written from scratch. This project models the parts of it
whose behaviour is decided by code rather than by the protocol document, and proves what that
code achieves. `dafny verify dfyconfig.toml` checks everything.

| files | models |
|---|---|
| `Bytes`, `Serialize` | byte strings, the TL writer and reader |
| `Schema*` | `tools/gentl.py` and `tools/update_schema.py`: the emitted readers and writers as programs with a semantics, boxing, writability, the alias audit, layer diffs |
| `NumberTheory`, `FloatRoot`, `Factor` | factoring `pq`, with the floating-point bound of the trial division |
| `Ige`, `KeyExchange`, `RsaPad`, `Session`, `AuthKey` | AES-IGE, Diffie-Hellman, SRP, RSA padding, the message envelope and the key exchange |
| `Transport` | the AES-CTR streams of Obfuscated2 |
| `File`, `Upload` | download ranges and upload parts |
| `Updates`, `UpdateLaws` | the update dispatcher and what its invariants mean |
| `Frames`, `Service`, `Exchange`, `SendRpc`, `RpcLaws`, `PoolTasks` | frames, containers and service messages byte by byte, one RPC against any server, and all tokio tasks over the shared session |

Conventions. AES, SHA, gzip, PBKDF2, clocks and random bytes are parameters; only D(E(x)) = x,
unpack(pack(x)) = x and the RSA inverse are assumed, and only where a statement says so. Big
integers are mathematical integers. Machine integers wrap, saturate or are cut where the code
does that; arithmetic that Rust checks only in debug builds wraps. A place where the Rust code
would panic is the error `Panic`. Classes follow the source's mutable objects; their methods
are tied to functions, and the laws are lemmas about those functions.

Where the code and its comments disagree the model follows the code, and the exact condition
under which the promise holds is a theorem:

- `download_parallel` duplicates bytes unless each range is a whole number of 1 MiB chunks
  (`File.ParallelExact`).
- The emitted reader binds the element count of a vector to a variable `n`, which hides a
  schema field of that name (`SchemaRoundTrip.RoundTrip`, `SchemaExamples.CounterCaptured`).
- The alias audit does not compare vector-ness (`SchemaAlias.AliasExact`).
- `compute_needs_box` also boxes edges on cycles that run through vectors, and every edge of a
  cycle where one would do (`SchemaBoxing.BoxNeeded`, `SchemaBoxing.OneBoxLess`).
- `compute_writable` accepts vectors that `gen_field_write` cannot write
  (`SchemaWritable.WritableEmits`).
- `gzip_packed` may be nested three deep, not four (`Frames.NestingLimit`).
- The packed form of a payload can be up to two bytes longer than the payload, though never
  for the payloads of TL, whose length is a multiple of four (`Session.CompressedGrows`).
- `bad_server_salt` and `bad_msg_notification` 16 and 17 are obeyed whichever message they
  name: a request can be executed twice (`RpcLaws.ExecutedTwice`), and is certain not to be
  exactly when of any two attempts one is named as unprocessed (`RpcLaws.AtMostOnceExactly`).
- `send_rpc` can panic: on an `rpc_result` item of four to eleven bytes and on a negative inner
  length (`RpcLaws.RunPanics`); an item of fewer than four bytes panics in
  `choose_container_item` (`Frames.ChooseContainerItem`).
- `send_frame` and `recv_frame` of Obfuscated2 keep equal counters only for some payload lengths
  (`Transport.FramesInStep`), and even then the payload arrives only where two stretches of
  keystream happen to agree (`Transport.PayloadArrives`).
- `parse_server_dh_params` can panic in the documented order of steps (`AuthKey.ParsePanics`).

## Model

| member | source | states |
|---|---|---|
| `Serialize.TLWriter.WriteBytes` | src/serialize.rs:115-131 | a TL string appended to the buffer is its length prefix, its bytes and zeros up to the next multiple of four of the absolute position; long lengths keep 24 bits |
| `Serialize.TLWriter.WriteVectorLong` | src/serialize.rs:159-165 | the vector constructor, the count cast to `i32`, and the items in order |
| `Serialize.TLReader.ReadBytes` | src/serialize.rs:338-364 | every outcome of reading a TL string, with the value or the error and where the cursor is left, including padding that leads past the end |
| `Serialize.TLReader.ReadU32` | src/serialize.rs:246-251 | the little-endian number at the cursor, or an error that leaves the cursor alone |
| `Serialize.TLReader.ReadU64` | src/serialize.rs:280-285 | the same for eight bytes |
| `Serialize.TLReader.ReadVectorHeader` | src/serialize.rs:418-434 | accepts exactly the vector constructor followed by a non-negative count |
| `Serialize.EncBytesMeans` | src/serialize.rs:115-131 | what a written string looks like: one length byte up to 252, else 254 and three digits; the bytes; and zeros for at most three more positions |
| `Serialize.ReadBackBytes` | src/serialize.rs:115-131 | a TL string written at one offset and read where the alignment agrees, whatever follows, comes back whole exactly when it is shorter than 2^24 bytes |
| `Serialize.ReadBackVectorHeader` | src/serialize.rs:418-434 | a written vector count comes back exactly when it is below 2^31 |
| `Serialize.ReadBackU32` | src/serialize.rs:246-251 | a written word is read back and four bytes are consumed |
| `Serialize.ReadBackU64` | src/serialize.rs:280-285 | a written double word is read back and eight bytes are consumed |
| `Schema.WordValueBit` | tools/gentl.py:352-366 | a bit of the word that `write_to` computes is set exactly when some field carrying it is present |
| `Schema.WordValueBound` | tools/gentl.py:356-366 | with bits below 32 the computed word fits 32 bits |
| `SchemaRoundTrip.FieldsBack` | tools/gentl.py:348-389 | the statements of all fields from any one on, run by the emitted reader over what the emitted writer wrote, bind the written values and stop where the bytes stop |
| `SchemaRoundTrip.NamedBack` | tools/gentl.py:626-670 | what the emitted `write_to` of a clean value wrote, the emitted `read_from` reads back with its flag words recomputed, consuming exactly those bytes |
| `SchemaRoundTrip.NamedRead` | tools/gentl.py:561-623 | every value the emitted reader of a writable type, which has a single constructor, returns is clean: short strings, agreeing flag bits, zero 128- and 256-bit integers |
| `SchemaRoundTrip.RoundTrip` | tools/gentl.py:348-389 | for every schema and every struct type with both halves, any value, any following bytes and any aligned offset: the value comes back whole exactly when it is clean and its stored flag words are the recomputed ones |
| `SchemaWire.ReadByArm` | tools/gentl.py:919-959 | the emitted reader of any type takes the first constructor that has code and whose id, or in a type of several whose alias, is the one on the wire, and reads its fields after those four bytes |
| `SchemaWire.UnknownId` | tools/gentl.py:919-959 | any other id is refused, with the cursor right after it |
| `SchemaWire.EnumRead` | tools/gentl.py:919-959 | in a type whose constructors all have code, with distinct ids and no alias, each one is read back by its own id |
| `SchemaWire.StructForm` | tools/gentl.py:348-389 | the bytes of a struct: the constructor id, the flag words in the order of first use, and the fields in schema order, each aligned where the one before ended |
| `SchemaWire.FieldForm` | tools/gentl.py:366-389 | a flag word or an absent value adds nothing, any other field the form of its type |
| `SchemaWire.ScalarForms` | tools/gentl.py:286-306 | the bytes of numbers, booleans, strings and raw integers, digit by digit |
| `SchemaWire.VectorForm` | tools/gentl.py:254-285 | the bytes of a vector: constructor, count, and the items one after the other |
| `SchemaExamples.CounterCaptured` | tools/gentl.py:566-575 | a field called `n` before a vector comes back as the vector length: the schema is accepted and the value is lost unless it was zero |
| `SchemaExamples.UnusedWord` | tools/gentl.py:631-637 | with a declared flag word that no field uses, the reader fails on everything the writer wrote |
| `SchemaWritable.Ok` | tools/gentl.py:177-204 | the memoised depth-first test answers, from any correct memo and any stack of ancestors, whether everything reachable from the type is a single-constructor type with writable fields and no cycle |
| `SchemaWritable.ComputeWritable` | tools/gentl.py:171-207 | every entry of the finished memo is right, whatever the order of the types |
| `SchemaWritable.WritableEmits` | tools/gentl.py:190-206 | a type marked writable gets a `write_to` exactly when it has no vector of doubles, booleans, or 128- or 256-bit integers |
| `SchemaBoxing.Closure` | tools/gentl.py:529-540 | the worklist ends with exactly the types reached by one or more edges |
| `SchemaBoxing.EdgesExactly` | tools/gentl.py:518-527 | the graph has an edge exactly from a type to each defined type that a field of one of its constructors names |
| `SchemaBoxing.ComputeNeedsBox` | tools/gentl.py:509-554 | an edge is boxed exactly when it lies on a cycle of the schema graph |
| `SchemaBoxing.FiniteSize` | tools/gentl.py:609-622 | no chain of types each containing the next in place is longer than the schema: every emitted type has a finite size |
| `SchemaBoxing.EndlessExactly` | tools/gentl.py:517-524 | for any choice of boxes, chains of types each containing the next in place are unbounded exactly when such containment has a cycle |
| `SchemaBoxing.BoxNeeded` | tools/gentl.py:542-553 | for any choice of boxes, in particular none, an edge is gone along without end exactly when it is not boxed, belongs to a field that is no vector and closes a cycle of such edges |
| `SchemaBoxing.OneBoxLess` | tools/gentl.py:542-553 | of the emitted boxes a single one can be left out exactly when it is not that of a type that contains itself in place, as the other boxes break every longer cycle |
| `SchemaBoxing.OverBoxed` | tools/gentl.py:522-553 | a box is emitted on a cycle that runs through a vector, though no type would be endless without it |
| `SchemaAudit.Compatible` | tools/update_schema.py:286-295 | the loop with one index computes the greedy embedding of the old fields in the new ones |
| `SchemaAudit.EmbedsExactly` | tools/update_schema.py:286-295 | the greedy pass misses nothing: it accepts exactly when there are rising positions of the new shape that hold the old fields, all other positions being conditional |
| `SchemaAudit.AliasSound` | tools/update_schema.py:286-295 | when the old shape embeds in the new one, every payload the old reader accepts with the added bits clear is accepted by the new reader with the same values, the added fields absent and the same bytes consumed |
| `SchemaAlias.AliasExact` | tools/update_schema.py:286-295 | for every accepted pair and every payload the old reader takes, with the added bits clear: the newer reader returns the old values in the new shape and consumes the same bytes exactly when every field that changed between vector and single value is absent; `true` and `#` fields may change |
| `SchemaAudit.AuditExact` | tools/update_schema.py:286-295 | acceptance together with unchanged vector-ness is the field-by-field embedding that makes decoding sound for every payload |
| `SchemaAudit.JsonAuditExact` | tools/update_schema.py:271-284 | against the published JSON, acceptance also means that the old shape has no vector at all |
| `SchemaAudit.VectorChangeAccepted` | tools/update_schema.py:281-295 | an `int` turned into a vector of `int` passes the comparison, and four bytes the old reader accepts are refused by the new one |
| `SchemaDiffs.Schema.Declare` | tools/update_schema.py:113-142 | one declaration replaces the line of its name in place or is appended to the section it is classified into; no other line moves; it fails exactly when a new name cannot be classified |
| `SchemaDiffs.Schema.ApplyDiffs` | tools/update_schema.py:94-143 | after all layers both position indexes are exact, old lines stand where they stood, each line has the text declared last for its name, each new name stands in the section its separators, traverse lines or the draft give it, and the count is that of the declarations; it fails exactly on a line that is not understood or a new name that cannot be classified |
| `SchemaDiffs.Schema.ApplyLayer` | tools/update_schema.py:108-142 | one layer: every separator switches the section, and a new name goes where its first declaration in the layer stands |
| `SchemaDiffs.LastDeclarationWins` | tools/update_schema.py:118-123 | the line found through the index is the last declaration of the name, or the untouched old line, and it is the only line of that name |
| `SchemaDiffs.LastMeans` | tools/update_schema.py:107-123 | the last declaration of a name is one after which the name does not occur |
| `NumberTheory.GcdDivides` | src/mtproto.rs:1161-1171 | the gcd divides both numbers and every common divisor divides it |
| `Factor.BiguintGcd` | src/mtproto.rs:1161-1171 | the loop computes the recursive Euclidean gcd, with gcd(0, n) = n |
| `Factor.Floyd` | src/mtproto.rs:1141-1149 | within `n` rounds the slow and the fast pointer are equal, for every `c` |
| `Factor.RhoAttempt` | src/mtproto.rs:1135-1156 | the loop ends within `n` rounds, at the first round whose gcd is not one; a result multiplies to `n` with its first factor strictly between 1 and `n`; there is none exactly when the pointers met |
| `Factor.TrialDivision` | src/mtproto.rs:1110-1118 | the least odd divisor from 3 up to the bound with its cofactor, or `(n, 1)` when there is none |
| `Factor.PollardRhoFactor` | src/mtproto.rs:1098-1129 | zero and one are refused; every result multiplies to `n`; below 2^63 it is the least odd divisor within the bound; otherwise it fails only when the pointers meet |
| `Factor.FactorPq` | src/mtproto.rs:446-461 | for a product of two odd primes in order, success returns exactly those primes in that order, and below 2^63 it always succeeds |
| `NumberTheory.OnlyFactors` | src/mtproto.rs:446-461 | a product of two primes has no other proper factorisation |
| `FloatRoot.RootReaches` | src/mtproto.rs:1092-1112 | rounding `n` to a double, taking the root and rounding again never loses a factor: below 2^63 the truncated root is at least every `p` with p*p <= n |
| `Ige.AesIgeEncrypt` | src/crypto.rs:63-115 | in place, the buffer becomes the chain of c = E(p ^ x) ^ y; a length that is not whole blocks is refused and the buffer untouched |
| `Ige.AesIgeDecrypt` | src/crypto.rs:127-175 | in place, the buffer becomes the chain of p = D(c ^ y) ^ x; the same refusal |
| `Ige.ChainAt` | src/crypto.rs:63-115 | block k of the ciphertext is E(p_k ^ c_(k-1)) ^ p_(k-1), the initial pair standing in before the first block |
| `Ige.RoundTrip` | src/crypto.rs:63-175 | for any block permutation, any initial pair and any number of blocks, each direction undoes the other |
| `KeyExchange.DhAgreement` | src/crypto.rs:325-338 | both completions give the same 256 bytes, the number g^(ab) mod p |
| `KeyExchange.BiguintTo256Bytes` | src/crypto.rs:387-393 | succeeds exactly below 2^2048 and then loses nothing; above, the copy panics |
| `KeyExchange.VerifyDhParams` | src/crypto.rs:358-383 | accepts exactly g in 2..7, 1 < g_a < p - 1 and a 2048-bit p; p = 0 panics |
| `KeyExchange.SrpCheckPassword` | src/crypto.rs:541-615 | uses the first drawn exponent strictly between 0 and p and answers for that one |
| `KeyExchange.AnswerMeans` | src/crypto.rs:541-615 | the answer spelled out: A, x, k and u from the padded numbers, any t with t + k*g^x = B modulo p, S = t^(a + u*x), and the proof over all of them |
| `KeyExchange.Unblinded` | src/crypto.rs:577-582 | B + p - (k*v mod p) is never negative and is g^b modulo p |
| `KeyExchange.SecretsAgree` | src/crypto.rs:577-586 | for all numbers, the client's t^(a+u*x) and the server's (A * v^u)^b are the same residue, g^(b*(a+u*x)) |
| `KeyExchange.SrpAgreement` | src/crypto.rs:541-615 | a client with the password and a server with its verifier compute the same proof, for every modulus up to 2^2048, every hash and every exponent; the padded A is lossless |
| `RsaPad.Pad` | src/crypto.rs:630-699 | refuses long data and other key sizes; otherwise encrypts the block of the first draw below the modulus |
| `RsaPad.KeyBlockMeans` | src/crypto.rs:646-683 | the block is the temporary key under the hash of the rest, and the rest decrypts to the reversed payload with its padding, then their hash |
| `RsaPad.UnpadPadded` | src/crypto.rs:646-683 | reversing, hashing, encrypting and masking are undone step by step and the hash check passes, for every payload and draw |
| `RsaPad.ServerReadsPayload` | src/crypto.rs:685-698 | the holder of the private exponent reads the payload back from the ciphertext |
| `Session.MtProtoSession.NextMsgId` | src/mtproto.rs:105-115 | the clock id if it is later, else the last id plus four, so the high word is the corrected time whenever that has moved on; ids divide by four and rise strictly for the first 2^30 - 2 allocations |
| `Session.ClockId` | src/crypto.rs:860-867 | the high word of an id is the corrected time modulo 2^32 and the low word is 4 |
| `Session.MtProtoSession.NextSeqNo` | src/mtproto.rs:118-124 | the number is twice the content messages before plus the content bit, wrapped to 32 bits as the code wraps it |
| `Session.SequenceLaw` | src/mtproto.rs:118-124 | the wrapped number is the exact one precisely for the first 2^30 content messages |
| `Session.BuildPlaintext` | src/mtproto.rs:127-162 | header, payload and 12 to 267 bytes of padding; the length is a multiple of 16 |
| `Session.PlaintextParts` | src/mtproto.rs:127-162 | where salt, session, id, sequence number, length, payload and padding stand |
| `Session.PadExtra` | src/mtproto.rs:144-158 | random padding adds up to fifteen whole blocks to the least padding |
| `Session.CompressPayload` | src/mtproto.rs:171-194 | the payload or its packed form, at most two bytes longer, and never longer when the length is a multiple of four |
| `Session.CompressedGrows` | src/mtproto.rs:187-194 | compression makes a payload longer exactly when the packed form needs the long length prefix and is nine or ten bytes shorter, as the remainders modulo four decide; the payload length then leaves 2 or 3 |
| `Session.TwoBytesLonger` | src/mtproto.rs:187-194 | 266 bytes that pack into 257 are sent as 268 |
| `Session.OpenPanics` | src/mtproto.rs:299-303 | the receiver panics exactly on a message under the right key whose inner length is -32 to -1 |
| `Session.GzipBack` | src/mtproto.rs:171-194 | unwrapping restores every payload under 2^24 bytes that does not begin with the gzip constructor |
| `Session.MtProtoSession.EncryptMessage` | src/mtproto.rs:207-229 | key id, message key and the encrypted plaintext of the possibly packed payload |
| `Session.KeyOffsets` | src/mtproto.rs:207-229 | which bytes of the key enter the message key and both hashes, for the offset 0 of what is sent and 8 of what is received, and how key and initialisation vector interleave the hashes |
| `Session.MtProtoSession.DecryptMessageWithX` | src/mtproto.rs:256-309 | all checks in order; the sender's salt is adopted only from a message that passed them |
| `Session.MtProtoSession.DecryptMessage` | src/mtproto.rs:239-241 | what servers send is opened with offset 8 |
| `Session.OpenedExactly` | src/mtproto.rs:256-309 | a message is accepted exactly when it names the key, has whole blocks and decrypts to an acceptable plaintext with the message key it carries |
| `Session.ParseExactly` | src/mtproto.rs:290-309 | a plaintext is accepted exactly when it is the layout of salt, id and payload with any session, sequence number and padding, the payload below 2^31 bytes |
| `Session.EnvelopeRoundTrip` | src/mtproto.rs:207-309 | opening a message sealed with any offset gives its id, its salt and the packed payload exactly when that is shorter than 2^31 bytes |
| `AuthKey.AuthKeyCreation.ParseServerDhParams` | src/mtproto.rs:526-607 | result and every field after reading the server's parameters, on success and on each failure |
| `AuthKey.TempKeyMeans` | src/mtproto.rs:546-570 | temporary key and initialisation vector are two halves of three hashes and four bytes of the new nonce |
| `AuthKey.ParsePanics` | src/mtproto.rs:521-607 | in the documented order of steps the parse panics exactly when the encrypted answer is of no or one block, or is complete with a zero prime; no read of it panics |
| `AuthKey.EmptyAnswerPanics` | src/mtproto.rs:542-579 | an answer of no bytes is enough |
| `AuthKey.AuthKeyCreation.BuildSetClientDhParams` | src/mtproto.rs:621-699 | result and every field after building the client's message: the secret and the hash of the candidate key are kept, the message carries the current retry id |
| `AuthKey.AuxHashMeans` | src/mtproto.rs:647-656 | the kept hash is the 64 high bits of the SHA-1 of the candidate key |
| `AuthKey.AuthKeyCreation.ComputeAuthKey` | src/mtproto.rs:739-752 | g_a^b mod p in 256 bytes, or the missing step |
| `AuthKey.ServerParamsRead` | src/mtproto.rs:526-607 | the client reads exactly the generator, the prime and the public value a server sealed, and accepts them when they are in range |
| `AuthKey.AcceptedIsReady` | src/mtproto.rs:526-607 | accepted parameters leave every field set that the later steps unwrap |
| `AuthKey.MessageRecovered` | src/mtproto.rs:660-698 | a server with the temporary key recovers exactly the nonces, the retry id and g_b, and the hash check passes |
| `AuthKey.DhLadder` | src/api.rs:146-230 | against any server: one to four messages, message i with retry id 0 or the hash of candidate key i-1; every answer but the last begins with the id of `dh_gen_retry`; the key of the last message is returned exactly when its answer begins with the id of `dh_gen_ok`, and every other last answer, by its bytes, gives its error |
| `AuthKey.VerdictMeans` | src/mtproto.rs:706-730 | the three verdicts by constructor id, given both nonces and the hash; any other id is refused once the nonces are there, and a short answer is a read error |
| `AuthKey.AnswerSays` | src/mtproto.rs:706-730 | an id followed by two nonces, a hash and anything is an answer of that kind |
| `AuthKey.LadderAgreement` | src/api.rs:150-227 | the server that sent g^a recovers from any of these messages the retry id and a public value from which it computes the client's very key, whose hash is the one the client kept |
| `Transport.AesCtr.Crypt` | src/transport.rs:88-104 | in place, byte i meets keystream byte i; the counter advances by the number of started blocks modulo 2^128 |
| `Transport.AesCtr.Step` | src/transport.rs:96-102 | the carry loop adds one to the 128-bit big-endian counter |
| `Transport.CutAtWholeBlock` | src/transport.rs:88-104 | cutting a call at a multiple of 16 changes neither the bytes nor the counter |
| `Transport.FirstBlock` | src/transport.rs:88-104 | the first sixteen bytes meet the encrypted counter itself |
| `Transport.StreamsUndo` | src/transport.rs:88-104 | two streams with equal key and counter, called with the same lengths, undo each other over any run of calls |
| `Transport.GenerateInit` | src/transport.rs:202-245 | the first draw that no server would mistake for another protocol, with the tag in bytes 56 to 60 and the data centre in bytes 60 and 61 |
| `Transport.RefusedMeans` | src/transport.rs:218-240 | the refused blocks by their bytes: those of HTTP, TLS, the unobfuscated protocols, and a zero second word |
| `Transport.StampedParts` | src/transport.rs:205-216 | the tag and the two bytes of the data centre are stamped, every other byte is as drawn |
| `Transport.Obfuscated2Keys` | src/transport.rs:271-295 | both streams and the header derived from the random block; the encrypting stream starts four blocks in |
| `Transport.ServerAgrees` | src/transport.rs:271-295 | a server deriving its streams from the header reads the tag and the data centre, and both directions start in step |
| `Transport.FramesInStep` | src/transport.rs:156-194 | when length and payload are encrypted in one call and decrypted in two, the counters are equal after a frame exactly when the payload length modulo 16 is 0 or above 12 |
| `Transport.PayloadArrives` | src/transport.rs:156-194 | the payload decrypts to what was sent exactly when the keystream from its fifth byte agrees with the keystream from its second block over the payload length |
| `Transport.LengthArrives` | src/transport.rs:156-194 | the length word always decrypts to what was sent |
| `Transport.FramesAreCalls` | src/transport.rs:156-194 | a sent frame is one call on the stream and a received one two |
| `File.Download` | src/file.rs:273-289 | the whole file when no read failed, else the error of the read that failed |
| `File.PlanRanges` | src/file.rs:314-333 | the spawned ranges, with the saturating arithmetic, are those of ceil(size / workers) bytes each |
| `File.RangesTile` | src/file.rs:314-333 | the ranges are non-empty, start at 0, meet end to start and stop at the size |
| `File.FetchRange` | src/file.rs:336-356 | a worker returns the file from its start to the end of its last whole chunk or of the file |
| `File.DownloadParallel` | src/file.rs:299-368 | serial below the threshold, else the reassembled pieces of all ranges; errors are the server's |
| `File.ParallelExact` | src/file.rs:314-367 | the reassembled bytes are the file exactly when the range length is a whole number of chunks or one range covers everything |
| `File.ThreeChunksTwoWorkers` | src/file.rs:314-367 | three chunks over two workers do not come back as the file |
| `File.SortedStays` | src/file.rs:366-367 | the parts arrive in order, so sorting them moves none |
| `Upload.FillPart` | src/file.rs:75-87 | a part is the next 512 KiB of the content or what is left, however little each read returns |
| `Upload.SplitParts` | src/file.rs:72-90 | the parts joined are the content up to the last part's end |
| `Upload.TotalParts` | src/file.rs:58-70 | refuses exactly empty files and big files over 4000 parts; else the least number of parts that covers the size |
| `Upload.EveryPartOnce` | src/file.rs:92-123 | in lists of strided indices that reach the total, index `part` stands in list `part % workers` at one place and in no other |
| `Upload.Workers` | src/file.rs:92-123 | the spawned workers send every part index exactly once |
| `Upload.WholeContent` | src/file.rs:58-90 | a file of exactly the declared size is sent whole |
| `Updates.UpdateDispatcher.DispatchOne` | src/updates.rs:221-284 | on the fields: an update at or before the cursor only adds to the stale ones; the next one is delivered and moves the cursor, whatever waits; one beyond a gap is appended to the buffer below 10,000 entries, else dropped; a flagged channel is queued once; channel and handlers get each delivered update once; all invariants are kept |
| `Updates.UpdateDispatcher.DispatchList` | src/updates.rs:212-218 | a list is dispatched one by one and what it returns is what the channel got; a list beyond a gap that fits the buffer ends there whole and in order, nothing else changing |
| `Updates.SettledMeans` | src/updates.rs:221-284 | every case of one dispatch, told by comparing counters, with all that changes and all that does not |
| `Updates.Kept` | src/updates.rs:248-257 | a run of updates beyond a gap fills the buffer in order up to its limit and only the rest is dropped |
| `Updates.UpdateDispatcher.ProcessUpdates` | src/updates.rs:169-209 | the four envelopes: dates, sequence number, dispatch, and the bare cursor move of a short sent message |
| `Updates.UpdateDispatcher.GapResolved` | src/updates.rs:300-316 | the cursor is set, the flag cleared, and the whole old buffer dispatched again in order |
| `Updates.UpdateDispatcher.NeedsDifference` | src/updates.rs:294-297 | true exactly when something is buffered |
| `Updates.UpdateDispatcher.TakeChannelsTooLong` | src/updates.rs:259-271 | returns each channel flagged since the last time, once |
| `Updates.UpdateDispatcher.AdvanceChannelPts` | src/updates.rs:370-383 | sets one channel's counter and clears its flag; no other channel changes |
| `Updates.UpdateDispatcher.OnUpdate` | src/updates.rs:286-291 | a handler sees exactly what is delivered after it registered |
| `Updates.UpdateDispatcher.InitState` | src/updates.rs:161-166 | the cursor is set and the buffer left alone |
| `Updates.SettledConsistent` | src/updates.rs:221-284 | conservation over one dispatch: what was offered is delivered, stale, buffered, dropped or still to come, as multisets |
| `UpdateLaws.TilesExactly` | src/updates.rs:72-91 | between resets the delivered counts tile the counter line and sum to the cursor's movement exactly when no addition saturated |
| `UpdateLaws.CoveredOnce` | src/updates.rs:221-257 | every counter value between the last reset and the cursor is covered by exactly one delivered update |
| `UpdateLaws.NeverTwice` | src/updates.rs:221-257 | no counter value is delivered twice, saturated or not |
| `UpdateLaws.FlushDelivers` | src/updates.rs:300-316 | resolving a gap at any boundary of a contiguous buffer drops the prefix, delivers the rest in order, ends at the last counter with nothing waiting |
| `UpdateLaws.DeliverAll` | src/updates.rs:240-247 | a chain that starts at the cursor is delivered whole, whatever waits in the buffer |
| `UpdateLaws.FlushElsewhere` | src/updates.rs:300-316 | resolving a gap past the whole buffer drops it; before all of it, it stays as it is |
| `Frames.ContainerItems` | src/pool.rs:846-896 | the items of a frame as the walk finds them |
| `Frames.ContainerBack` | src/pool.rs:846-896 | every container of fewer than 2^31 messages comes apart into the bodies it was made of, whatever follows it |
| `Frames.ContainerCut` | src/pool.rs:861-895 | with any announced count: a negative one gives nothing, a smaller one the first messages, and a larger one all of them when what follows the last whole message is cut off |
| `Frames.UnwrapItemGzip` | src/pool.rs:1040-1060 | the bounded unwrapping of one item |
| `Frames.NestingLimit` | src/pool.rs:1040-1060 | an item packed k times is unwrapped exactly when k is below 4; the fourth unwrap is never looked at |
| `Frames.SplitFrame` | src/pool.rs:635-643 | the plain items of a frame, or the first failure |
| `Frames.ChooseContainerItem` | src/pool.rs:901-957 | the first result, else the first message that is not noise; an item under four bytes panics |
| `Service.FirstResultMeans` | src/pool.rs:901-957 | the first result is the first item with that constructor |
| `Service.FirstSignalMeans` | src/pool.rs:901-957 | the first signal is the first item that is neither acknowledgement, pong, new session nor new salt |
| `Service.FrameMeans` | src/pool.rs:846-896 | a container of unpacked messages, written byte by byte, comes apart into their bodies |
| `Service.AnswerMeans` | src/pool.rs:961-1014 | the payload of an `rpc_result` for any id is the answer, when it is no error, dropped answer, rejection or packed one |
| `Service.PackedAnswerMeans` | src/pool.rs:1016-1036 | a payload packed once is unpacked |
| `Service.ErrorMeans` | src/pool.rs:991-1006 | an `rpc_error` gives its error |
| `Service.BrokenMeans` | src/pool.rs:967-1014 | a dropped answer, a payload cut short and a rejection inside are the errors they are |
| `Service.BadMsgMeans` | src/mtproto.rs:915-927 | which bytes of `bad_msg_notification` are the id and the code |
| `Service.BadServerSaltMeans` | src/pool.rs:814-842 | the salt of `bad_server_salt` is bytes 20 to 28, for all values |
| `Service.NewSessionMeans` | src/pool.rs:814-842 | the salt of `new_session_created` is bytes 20 to 28 |
| `Service.NewServerSaltMeans` | src/pool.rs:814-842 | the salt of `new_server_salt` is bytes 4 to 12 |
| `Service.OnlySaltMessages` | src/pool.rs:814-842 | nothing else announces a salt, and no message cut short does |
| `Exchange.WalkFrame` | src/api.rs:301-339 | the second walk over the same wire format |
| `Exchange.SameWalk` | src/api.rs:301-339 | it finds what the pool's walk finds, except on container frames of four to seven bytes |
| `Exchange.ScanExchange` | src/api.rs:341-394 | answer, re-send flag, acknowledged ids and salt after the items of one frame |
| `Exchange.SeenMeans` | src/api.rs:341-394 | the answer is the first result for this id; a re-send is asked for exactly when a salt was rejected; exactly the ids of the results are acknowledged, in order; the salt is that of the last item that announces one, else the old one |
| `Exchange.SaltAdopted` | src/api.rs:351-378 | the salt after each of the three announcements, for all values of their fields |
| `SendRpc.Evidence` | src/pool.rs:647-779 | a frame makes the client send again only if it holds a salt or clock rejection of whichever message, or a result that declares the current request uninitialised; it ends the call with a body only if it holds an answer to the current id or a service reply |
| `SendRpc.StillWaiting` | src/pool.rs:647-779 | the client goes on waiting exactly when every item of the frame is one it drains |
| `SendRpc.NoCauseNoResend` | src/pool.rs:665-672 | no announcement of a new session or salt makes the client send again |
| `RpcLaws.ExecutedTwice` | src/pool.rs:658-705 | against a server that tells only the truth, with any keys, a salt or clock rejection of another message makes the client send again, and both attempts are executed |
| `RpcLaws.AtMostOnceExactly` | src/pool.rs:658-749 | for every run: no truthful server can have executed two attempts, if and only if of any two attempts some message names one as unprocessed; and when an unbroken run leaves two attempts unnamed, the client left the earlier one because of a salt or clock rejection that does not name it |
| `RpcLaws.MisledBy` | src/pool.rs:658-705 | when the client left an executed attempt, the last frame of that attempt holds a salt or clock rejection that names another message or none |
| `SendRpc.SenderPool.ScanFrame` | src/pool.rs:645-779 | the walk over the items of one frame computes verdict and shared state of the walk the laws speak of |
| `SendRpc.WalkEnds` | src/pool.rs:651-764 | for every frame and whatever follows an item: when every earlier item is passed over, an answer to this call returns its body, an error ends the call and a clock rejection starts another attempt |
| `SendRpc.WalkOn` | src/pool.rs:658-779 | when no item ends the walk, it asks for another attempt exactly when a salt was rejected |
| `SendRpc.WalkState` | src/pool.rs:658-764 | the shared state is that of the items passed over, each announcement in order, plus what the ending item changes |
| `RpcLaws.SaltTaken` | src/pool.rs:658-672 | the shared salt after each of the three announcements, for all values |
| `RpcLaws.ClockCorrected` | src/pool.rs:673-705 | codes 16 and 17 set the clock from the id they name and start another attempt |
| `RpcLaws.UpdatesPumped` | src/pool.rs:706-733 | the four kinds of updates are pushed to the pump, when there is one, and drained |
| `RpcLaws.FrameTaken` | src/pool.rs:632-647 | a frame the server sealed: its own id is queued, its salt adopted, and its items walked |
| `RpcLaws.LossEnds` | src/pool.rs:559-623 | a lost connection ends the call after the fourth attempt or a failed reconnect, else clears the initialisation |
| `SendRpc.LookFails` | src/pool.rs:628-807 | every other way a read ends the call: the failure of the connection, of opening the frame or of the item that fails, sixteen drained frames, and a salt still rejected on the fourth attempt |
| `SendRpc.AwaitLaw` | src/pool.rs:628-807 | however the server behaves: at most 17 frames; all but the last fully drained; another attempt only after a frame with a rejection and before the fourth attempt; a body only from an answering item |
| `SendRpc.SenderPool.AwaitAnswer` | src/pool.rs:628-807 | the frame loop: its result, the shared state it leaves and the ids it queues are those the laws speak of |
| `SendRpc.SenderPool.TakeFrame` | src/pool.rs:632-647 | one read: its id is queued before the frame is looked at, even when the frame cannot be split |
| `SendRpc.OneAttemptLaw` | src/pool.rs:559-623 | one attempt: its id, whether it carried the initialisation, and why another may follow; after a reconnect the next carries it |
| `SendRpc.EveryRun` | src/pool.rs:503-810 | against any server: at most four attempts of at most 17 frames; every attempt but the last was rejected or broken; a returned body came from the last frame of the last attempt; after a broken connection the initialisation is sent again |
| `SendRpc.SenderPool.SendRpc` | src/pool.rs:503-810 | the loops compute such a run, with its state and every received id queued, never pass the end of the attempt loop, and return a body exactly when the bytes that arrive say so, as in `SendRpc.ReturnsExactly` |
| `SendRpc.ReturnsExactly` | src/pool.rs:503-810 | for every run and every body: it is returned exactly when some attempt gets, after frames that are all drained, one whose items are passed over up to an answer with this body, and every earlier attempt got a rejection or lost its connection |
| `RpcLaws.ExecutedAtMostOnce` | src/pool.rs:559-809 | with a truthful server whose rejections name the current attempt, and no network failure, no attempt but the last was executed, so the request at most once |
| `RpcLaws.ExecutedExactlyOnce` | src/pool.rs:738-767 | and when a result body is returned the last attempt was executed, alone, and the result named its id |
| `RpcLaws.ScanPanics` | src/pool.rs:651-745 | the walk over the items of a frame panics exactly when it gets to an `rpc_result` of four to eleven bytes, every earlier item being passed over |
| `RpcLaws.RunPanics` | src/pool.rs:497-749 | for every run against every server, the call panics exactly when an arrival it awaited has an inner length of -32 to -1 or holds an `rpc_result` cut short that the walk gets to |
| `RpcLaws.FourBytesPanic` | src/pool.rs:738-745 | four bytes are enough |
| `SendRpc.SenderPool.QueueAck` | src/pool.rs:1117-1126 | every received id is acknowledged or queued once and in order, and fewer than `ack_batch_max` stay queued |
| `SendRpc.SenderPool.FlushAcks` | src/pool.rs:1130-1148 | the whole queue goes out as one batch; an empty queue sends nothing |
| `PoolTasks.OrderObeyed` | src/pool.rs:581-597 | whatever a caller, raw sender, flusher or keepalive holds ranks strictly below what it waits for: permit, then codec, then everything else |
| `PoolTasks.NoCircularWait` | src/pool.rs:1196-1227 | no chain of waits returns to its start, a self-wait included |
| `PoolTasks.SomeoneMoves` | src/pool.rs:1190-1268 | from any task the chain of waits leads over at most three others to one that waits for nothing that is held |
| `PoolTasks.NoDeadlock` | src/pool.rs:452-457 | at every moment of every run the chain of waits from any task ends at one that has an enabled step |
| `PoolTasks.BaseGrowsFromHeld` | src/pool.rs:545-597 | going from one stage to the next never conjures a lock: what the next stage starts with was held |
| `PoolTasks.InvKept` | src/pool.rs:452-457 | every step of every interleaving keeps mutual exclusion, the numbering law, the ownership of ids and single acceptance |
| `PoolTasks.NumbersInEveryRun` | src/mtproto.rs:105-124 | in every run ids divide by four and rise within the 64-bit budget, and each sequence number is the wrapped `i32` of twice the content messages before plus the content bit, exact for the first 2^30 of them |
| `PoolTasks.ReadsByHolderOnly` | src/pool.rs:539-551 | in every run whoever takes a frame off a connection holds its permit, and nobody else does |
| `PoolTasks.AcceptedByItsAttemptOnly` | src/pool.rs:738-767 | in every run a result is accepted by at most one call, and only by the attempt for which the id it names was allocated |

## Left out

- SchemaRoundTrip.RoundTrip: supposes that each constructor declares exactly the flag words its fields use, in the order of first use (`SchemaExamples.UnusedWord` shows why; words in another order come back only when their values agree), that no flag word is called `n`, and that rustc accepts the emitted text; the newtype profiles, the types read through a fallback and the renaming of identifiers are not modelled.
- SchemaWritable.WritableEmits: the memo of `can_generate` and the closure over requested types in `gen_output` are not modelled; the theorems hold for every content of that memo.
- SchemaDiffs.Schema.ApplyDiffs: supposes that no name occurs twice in the base schema, as the position dictionaries keep only the last of two; after a failure, which is stated exactly, only the index invariants are.
- Factor.PollardRhoFactor: the random constant is a parameter, and doubles have an unbounded exponent, which no value here reaches.
- KeyExchange.SrpCheckPassword: stops with no answer when the given draws are used up, where the code keeps drawing.
- KeyExchange.DhAgreement: for every modulus up to 2^2048 instead of the one constant of the source.
- Session.MtProtoSession.EncryptMessage: the 64-bit key id and the random bytes are given; SHA-1 of the key is not computed.
- AuthKey.DhLadder: starts after the server's parameters were accepted; `resPQ`, the request for the parameters and the ping that activates the key are not modelled beyond `Factor`, `RsaPad` and `Session`, nor is the first salt, computed from the nonces.
- Transport.FramesInStep: the refusal of frames over the size caps, before anything is encrypted or after the length is read, is left out.
- Transport.Obfuscated2Keys: sockets and the WebSocket path are not modelled.
- File.DownloadParallel: the workers' requests are made one after the other, which an unchanging server cannot tell from concurrent ones; a server that gives wrong bytes is not considered.
- Upload.EveryPartOnce: the requests themselves, their failures and the retries of the pool are not part of it.
- Updates.UpdateDispatcher.ProcessUpdates: the client's pump that feeds recovered messages with counter `i32::MAX` and count 0 is not modelled; the dispatcher buffers those.
- SendRpc.SenderPool.SendRpc: one connection, with the bytes that arrive, the clock and the outcome of reconnecting as a script; backoff delays and the classification of `rpc_error` texts are left out, every such error being `Rpc`.
- RpcLaws.ExecutedAtMostOnce: says nothing across reconnects, where each attempt has a new id and a server may execute both.
- RpcLaws.AtMostOnceExactly: supposes that some truthful server could have sent the run's messages; a server that contradicts itself is not considered.
- Frames.ContainerItems: the vector allocated for the announced count is left out.
- SchemaAlias.AliasExact: supposes distinct field names and that no changed or added field is called `n`, like the emitted element counter.
- SendRpc.SenderPool.FlushAcks: the write of the batch and its failure, which the code only logs, are left out.
- PoolTasks.InvKept: the read side of the session lock excludes like the write side, frames and failures are arbitrary, and a raw sender may reconnect more than once, so it has more interleavings than the code.
- PoolTasks.NumbersInEveryRun: ids rise for the first 2^30 - 2 allocations of a session, the point up to which 64 bits provably do not wrap.
- Exchange.ScanExchange: the four exchanges of sixteen frames around it are not modelled.
- Sockets, TLS, WebSocket, files, JSON sessions, logging and the command-line examples are input and output.
- Request builders, constructor tables and `src/client_wrappers.rs` are flat; the schema theorem covers their pattern.
- `src/resilience.rs`, TCP failover and backoff would only add easy members.
- `build_msg_container` writes another format than `container_items` reads.

