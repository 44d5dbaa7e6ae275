# Verified model of OP-TEE crypto, locking, memory protection and loading

Dafny models of six parts of OP-TEE and proofs about them. `dafny verify dfyconfig.toml` checks everything.

- **AES-GCM** (`Polynomial`, `Gf128`, `GhashTable`, `GcmSpec`, `GcmStream`, `GcmMessages`, `GcmStandard`,
  `GcmDiffers`). The block cipher is any
  function on blocks. `GcmStream.Context` is the streaming context with its partial-block buffers; `GcmSpec` is the
  one-shot definition of what the code computes; `GcmStandard` relates that to NIST SP 800-38D.
- **Lock-order checker** (`LockGraph`, `LockSearch`, `LockChecker`, `LockRuns`). `LockChecker` holds the graph and
  its operations, `LockRuns` the interleavings of calls by any number of threads.
- **TZC-380 region allocator** (`Tzc380`), with `Arithmetic` below it.
- **Cipher modes and hashing** (`BlockModes`, `Cts`, `Sm4`, `Sm3`), with `Bytes`, `Words`,
  `WordNumbers` and `BigEndian` below them.
  Ciphers, the SM4 round function and the SM3 compression function are parameters.
- **Fortuna** (`FortunaRing`, `PoolTurns`, `FortunaPools`, `FortunaLog`, `Fortuna`, `FortunaRuns`). The ring is a
  state machine whose steps are the single loads and stores of one writer and one reader; `RingBuffer` runs the
  source's operations as such steps. In `Fortuna.Generator` every call into the crypto library may fail, every
  encryption is on record, and so is everything that has happened to the pools. `FortunaRuns` joins ring and
  generator in whole runs.
- **ELF loader** (`Segments`, `Loader`, `Symbols`, `SymbolOrder`).

Buffers that the source requires to be disjoint are passed in as values, so input and output cannot overlap. Objects
that the source updates in place are classes; their ghost fields record what has been absorbed, encrypted or loaded.

## Where code and documentation differ

The models follow the code.

- The GCM counter step is a full 128-bit increment where the standard increments 32 bits; `GcmStandard.CountersAgree`
  says exactly when the sequences agree and `GcmDiffers.DiffersFromStandard` gives a message where they do not. The
  lengths are multiplied by 8 in 32 bits; `GcmStandard.LengthsAgree` says exactly when that is right, and
  `GcmDiffers.TagStandardWhen` that the tag is the standard's exactly then.
- `sm3_update` adds at most one to the high length word; `Sm3.CarryExact` says exactly when that counts right.
- The comment on `reseed_from_pool` promises divisibility by 2^n. The test alone is weaker (`Fortuna.BitTestWeaker`);
  the loop around it is exact (`Fortuna.Generator.RestartPools`).
- The comment on `ta_elf_resolve_sym` says global symbols are searched before weak ones, and that only the given
  module is searched if there is one. The code takes the first module that answers, and goes on to all modules after
  the given one. `SymbolOrder.DocumentedWhen` says exactly when the two
  agree, and `SymbolOrder.WeakHidesGlobal` and `SymbolOrder.SearchGoesOn` give inputs where they do not.
- The comment in `adjust_segments` requires address and offset to add up with the previous segment; the asserts check
  them modulo the alignment only. `Segments.ContentKeptExactly` says exactly when the file contents stay in place.

## Model

| member | source | states |
|---|---|---|
| Gf128.GfMul | optee_os/core/crypto/aes-gcm.c:523-548 | the 128-step loop returns, for every pair of blocks read as polynomials from the top bit of the first byte on, their product with P^128 replaced by P^7 + P^2 + P + 1, the product of section 6.3 of NIST SP 800-38D |
| Gf128.PolyMulP | optee_os/core/crypto/aes-gcm.c:540-543 | one shift of Y: coefficient n becomes coefficient n - 1, flipped for n in {0, 1, 2, 7} if coefficient 127 was set |
| Gf128.MulIsPolynomialProduct | optee_os/core/crypto/aes-gcm.c:523-548 | coefficient n of the unreduced product is the sum of x_i y_j over i + j = n, and every P^(128+k) is replaced by P^k + P^(k+1) + P^(k+2) + P^(k+7) |
| Polynomial.HornerStep | optee_os/core/crypto/aes-gcm.c:535-544 | reduced products can be built one coefficient at a time |
| Gf128.MulPLinear | optee_os/core/crypto/aes-gcm-ghash-tbl.c:49-91 | multiplication by P distributes over addition |
| Gf128.MulCommutes | optee_os/core/crypto/aes-gcm-sw.c:24-35 | the product does not depend on the order of its operands, although the two builds pass them in different orders |
| Gf128.CoefficientTest | optee_os/core/crypto/aes-gcm.c:523-548 | bit n of a block, most significant first, is the coefficient the shifted element shows on top |
| GhashTable.FillPowers | optee_os/core/crypto/aes-gcm-ghash-tbl.c:55-78 | entries 8, 4, 2, 1 hold H, HP, HP^2, HP^3 and entry 0 is zero |
| GhashTable.FillSums | optee_os/core/crypto/aes-gcm-ghash-tbl.c:80-90 | the entries between two powers are the sums of the entries below them |
| GhashTable.GenTable | optee_os/core/crypto/aes-gcm-ghash-tbl.c:49-91 | entry k of the 16-entry table is the product of the 4-bit polynomial k with H, for all k |
| GhashTable.Shift4IsMulP4 | optee_os/core/crypto/aes-gcm-ghash-tbl.c:98-103 | a 4-bit shift folded with last4 is four multiplications by P, for every element |
| GhashTable.TailStep | optee_os/core/crypto/aes-gcm-ghash-tbl.c:109-145 | one byte of the Horner loop: the product of the bytes from i on follows from that of the bytes after i by two table entries and two 4-bit shifts |
| GhashTable.MultTable | optee_os/core/crypto/aes-gcm-ghash-tbl.c:109-145 | the nibble loop over a table for H returns the product of the polynomials x and H, reduced |
| GhashTable.GhashMulAdds | optee_os/core/crypto/aes-gcm-ghash-tbl.c:109-145 | multiplication by the hash key goes with sums of blocks |
| GcmSpec.Key.GhashIsSum | optee_os/core/crypto/aes-gcm-sw.c:24-35 | GHASH of any blocks is their sum, each times the power of the hash key that counts the blocks from it on, as in section 6.4 of NIST SP 800-38D |
| GcmStream.HashKeyStandard | optee_os/core/crypto/aes-gcm-sw.c:24-35 | both hold of the hash key the code makes from any block cipher |
| GhashTable.TableOrder | optee_os/core/crypto/aes-gcm-sw.c:24-35 | the table build multiplies in the other operand order and still computes what the bit build does |
| GhashTable.BothBuilds | optee_os/core/crypto/aes-gcm-sw.c:24-35 | for every hash key and block the table build and the bit-by-bit build give the same block, the reduced product of the two polynomials |
| GcmSpec.Key.GhashAppend | optee_os/core/crypto/aes-gcm-sw.c:37-51 | hashing two runs of blocks one after the other is hashing them together |
| GcmSpec.Key.CryptAppend | optee_os/core/crypto/aes-gcm.c:189-255 | the keystream continues at the byte where the last call stopped |
| GcmSpec.Key.CryptInvolution | optee_os/core/crypto/aes-gcm.c:189-255 | applying the keystream twice gives the data back |
| GcmStream.Context.constructor | optee_os/core/crypto/aes-gcm.c:69-122 | a fresh context satisfies the invariant with nothing absorbed: hash subkey and table set up, first counter derived, keystream block pre-computed for encryption only |
| GcmStream.Init | optee_os/core/crypto/aes-gcm.c:69-122 | tags longer than a block are refused; otherwise a fresh valid context for the given key, direction, nonce and tag length |
| GcmStream.Context.SetFirstCounter | optee_os/core/crypto/aes-gcm.c:84-93 | the first counter block is the nonce followed by 1 for twelve bytes, and the hash of the padded nonce and its length otherwise; the hash state is zero again afterwards |
| GcmStream.Context.HashPadZero | optee_os/core/crypto/aes-gcm.c:27-55 | absorbs any byte string padded with zeros to whole blocks |
| GcmStream.Context.HashBlock | optee_os/core/crypto/aes-gcm-sw.c:24-35 | one block into the hash, through whichever multiplier the build has |
| GcmStream.Context.HashBlocks | optee_os/core/crypto/aes-gcm-sw.c:37-51 | a run of blocks into the hash |
| GcmStream.Context.AbsorbAad | optee_os/core/crypto/aes-gcm.c:153-178 | the loop absorbs exactly the data at any pointer alignment; the head flag, set once and never cleared, never gets the same buffer hashed twice |
| GcmStream.Context.UpdateAad | optee_os/core/crypto/aes-gcm.c:140-181 | additional data is refused exactly while the 32-bit payload count is not zero; taken before the payload it is appended to what was absorbed, and after a payload of a multiple of 2^32 bytes it is hashed as if it were more ciphertext |
| GcmStream.Context.CryptPartial | optee_os/core/crypto/aes-gcm.c:211-243 | bytes up to the end of a block are encrypted with the buffered keystream, hashed as ciphertext on either side, and the schedule for the next block is set up |
| GcmStream.Context.EncryptBlock | optee_os/core/crypto/aes-gcm-sw.c:53-66 | one block under the pre-computed keystream block, which is replaced by the one for the next block |
| GcmStream.Context.DecryptBlock | optee_os/core/crypto/aes-gcm-sw.c:92-105 | one block under a keystream block computed on demand; both schedules use the counters of the same sequence |
| GcmStream.Context.CryptBlocks | optee_os/core/crypto/aes-gcm-sw.c:131-143 | a run of whole blocks in either direction |
| GcmStream.Context.EnterPayload | optee_os/core/crypto/aes-gcm.c:200-206 | the first payload call pads the additional data, even when it brings no bytes |
| GcmStream.Context.UpdatePayload | optee_os/core/crypto/aes-gcm.c:189-255 | for payloads of any length output is the input under the keystream from the current byte on; the invariant is kept |
| GcmStream.Context.HashEnd | optee_os/core/crypto/aes-gcm.c:266-288 | at the end the hash state is the digest of the padded additional data, the padded ciphertext and both lengths |
| GcmStream.Context.OperationFinal | optee_os/core/crypto/aes-gcm.c:266-288 | the last piece is processed and the tag buffer holds the tag of everything absorbed |
| GcmStream.Context.EncFinal | optee_os/core/crypto/aes-gcm.c:290-308 | a tag buffer that is too short is refused with nothing changed; otherwise the tag is that of the one-shot definition |
| GcmStream.Context.DecFinal | optee_os/core/crypto/aes-gcm.c:318-336 | a tag of the wrong length is refused with nothing changed; otherwise accepted exactly when it equals the tag of the received ciphertext |
| GcmMessages.SealChunks | optee_os/core/crypto/aes-gcm.c:140-308 | any split of the additional data at any alignments and any split of the payload, in either build, gives the ciphertext and tag of the one-shot definition |
| GcmMessages.OpenChunks | optee_os/core/crypto/aes-gcm.c:140-336 | any split of the ciphertext decrypts to the one-shot plaintext and is accepted exactly when the tag is right |
| GcmMessages.OpenSeal | optee_os/core/crypto/aes-gcm.c:290-336 | on whole messages decryption undoes encryption and the tag matches |
| GcmMessages.RoundTrip | optee_os/core/crypto/aes-gcm.c:69-336 | encrypting in some chunks and decrypting in others, with different builds and different splits of the additional data, returns the plaintext and accepts the tag |
| GcmStandard.IncIsPlusOne | optee_os/core/crypto/aes-gcm.c:346-356 | the two-word counter step is plus one modulo 2^128 |
| GcmStandard.IncVersusInc32 | optee_os/core/crypto/aes-gcm.c:346-356 | the step differs from inc32 of section 6.2 of NIST SP 800-38D exactly when the low 32 bits are all ones |
| GcmStandard.CountersAgree | optee_os/core/crypto/aes-gcm.c:346-356 | the first n counters are those of the standard if and only if the low 32 bits do not wrap within them |
| GcmStandard.LengthsAgree | optee_os/core/crypto/aes-gcm.c:57-67 | the length block is that of the standard if and only if both lengths are below 2^29 bytes |
| GcmStandard.J0Standard | optee_os/core/crypto/aes-gcm.c:84-93 | the first counter block is that of section 7.1 of NIST SP 800-38D for nonces below 2^29 bytes |
| GcmStandard.CryptStandard | optee_os/core/crypto/aes-gcm.c:189-255 | the keystream is that of section 6.5 as long as the low 32 bits do not wrap |
| GcmStandard.SealIsStandard | optee_os/core/crypto/aes-gcm.c:69-308 | ciphertext and tag are those of section 7.1, written independently with inc32 and 64-bit lengths |
| GcmDiffers.MulByOne | optee_os/core/crypto/aes-gcm.c:523-548 | multiplying by the one of the field changes nothing, so a cipher that encrypts the zero block to it makes GHASH a plain sum |
| GcmDiffers.DiffersFromStandard | optee_os/core/crypto/aes-gcm.c:69-122 | a permutation of blocks, a nonce of sixteen bytes and a plaintext of one byte for which the ciphertext is not the one of the standard |
| GcmDiffers.TagStandardWhen | optee_os/core/crypto/aes-gcm.c:57-308 | where multiplication by the hash key is one-to-one and the counter does not wrap, the ciphertext is the one of the standard and the tag is so exactly when both lengths are below 2^29 bytes |
| GcmDiffers.LongAadDiffers | optee_os/core/crypto/aes-gcm.c:57-67 | a cipher for which, with any 12-byte nonce, 2^29 or more bytes of additional data always give another tag than the standard |
| GcmStandard.LateAad | optee_os/core/crypto/aes-gcm.c:200-206 | additional data given after an empty payload call hashes as if given before exactly when what came before was whole blocks or what follows cannot be told from the padding |
| LockSearch.Found | optee_os/core/kernel/lockdep.c:128-209 | when the breadth-first search meets an edge back to the start, the path it holds is a shortest cycle through the start |
| LockSearch.NotFound | optee_os/core/kernel/lockdep.c:128-209 | a search that runs dry means no cycle passes through the start |
| LockChecker.Checker.Visit | optee_os/core/kernel/lockdep.c:211-232 | recursive marking: nodes marked temporary but not permanent are exactly the recursion stack, which is a walk of the graph, finished ones form a topological order, and a failure comes with a cycle |
| LockChecker.Checker.Sort | optee_os/core/kernel/lockdep.c:233-252 | from clear marks, succeeds if and only if the graph has no cycle, and then leaves all marks clear |
| LockChecker.Checker.Expand | optee_os/core/kernel/lockdep.c:157-199 | one node of the search: all its edges followed, the way back to the start found, or the memory for it used up, with every allocation accounted for |
| LockChecker.Checker.Enqueue | optee_os/core/kernel/lockdep.c:180-198 | an unvisited successor is marked and queued with its path one longer, given two allocations |
| LockChecker.Checker.Follow | optee_os/core/kernel/lockdep.c:157-199 | one edge: back to the start, to a node seen before, or to a node that is queued, given the memory |
| LockChecker.Checker.ShortestCycle | optee_os/core/kernel/lockdep.c:128-209 | given two allocations for each lock and one more, returns nothing exactly when no cycle passes through the start; what it returns is a shortest one beginning at the start, closed by a zero |
| LockChecker.Checker.FindEdge | optee_os/core/kernel/lockdep.c:254-266 | finds an edge exactly when the graph has it |
| LockChecker.Checker.PrintCycle | optee_os/core/kernel/lockdep.c:292-324 | prints the edges of a shortest cycle through the lock, or an assert fires because memory for the search ran out |
| LockChecker.Checker.PrintEdges | optee_os/core/kernel/lockdep.c:301-321 | every edge looked up while printing is found, in the order of the cycle |
| LockChecker.Checker.AddToGraph | optee_os/core/kernel/lockdep.c:23-43 | adds the node unless it is there; an allocation failure changes nothing |
| LockChecker.Checker.AddEdge | optee_os/core/kernel/lockdep.c:77-99 | adds the edge unless it is there; an allocation failure changes nothing |
| LockChecker.Checker.Record | optee_os/core/kernel/lockdep.c:338-354 | the node and an edge from every held lock, or a prefix of them when memory runs out |
| LockChecker.Checker.Acquire | optee_os/core/kernel/lockdep.c:334-374 | success keeps the graph acyclic and the marks clear and appends the lock; BAD_STATE leaves the list alone and reports a shortest cycle through the requested lock; running out of memory is told apart by where it happens |
| LockChecker.Checker.TryAcquire | optee_os/core/kernel/lockdep.c:381-402 | a node but no edges, and the lock is appended |
| LockChecker.Owned.Release | optee_os/core/kernel/lockdep.c:404-419 | takes out the newest entry for the lock and leaves every other one in place, or reports that there is none |
| LockChecker.Checker.Destroy | optee_os/core/kernel/lockdep.c:461-514 | removes the node and every edge to it, and nothing else |
| LockChecker.CycleAtRequest | optee_os/core/kernel/lockdep.c:334-363 | an acquire that makes an acyclic graph cyclic makes a cycle through the requested lock |
| LockRuns.StepKeeps | optee_os/core/kernel/lockdep.c:334-514 | every successful call of any thread keeps the graph acyclic and every blocking entry reached by an edge from each earlier entry |
| LockRuns.NoCircularWait | optee_os/core/kernel/lockdep.c:334-419 | in such a state no set of threads can wait for each other in a circle |
| LockRuns.RunKeeps | optee_os/core/kernel/lockdep.c:334-514 | the invariant holds at every point of every interleaving |
| LockRuns.RunSafe | optee_os/core/kernel/lockdep.c:334-514 | in every interleaving of successful calls by any number of threads the graph stays acyclic and no circular wait can form |
| LockRuns.AcquireStep | optee_os/core/kernel/lockdep.c:334-374 | the acquire method on the shared graph and a list of owned locks performs the acquire step of the run; given memory it succeeds exactly when no cycle would form |
| LockRuns.TryAcquireStep | optee_os/core/kernel/lockdep.c:381-402 | the non-blocking acquire performs its step, given memory always |
| LockRuns.ReleaseStep | optee_os/core/kernel/lockdep.c:404-419 | the release performs its step exactly when the thread holds the lock, and takes the newest entry for that lock out of its list |
| LockRuns.ReleaseTakes | optee_os/core/kernel/lockdep.c:404-419 | a release step takes the newest entry for the lock out of the list of its thread; graph, other entries and other threads stay as they are |
| LockRuns.DestroyStep | optee_os/core/kernel/lockdep.c:461-514 | the destruction performs its step exactly when no thread holds the lock |
| LockRuns.PermittedSteps | optee_os/core/kernel/lockdep.c:334-514 | a call has a successful step exactly when it would close no cycle, release a held lock or destroy an unowned one |
| LockRuns.Execute | optee_os/core/kernel/lockdep.c:334-514 | any list of calls executed on the real objects is such a run, and it stops before the end only where the next call cannot succeed or memory is short |
| Tzc380.PlanShape | optee_os/core/drivers/tzc380.c:243-285 | what is covered and what is left always add up to the request |
| Tzc380.PlanCovers | optee_os/core/drivers/tzc380.c:243-285 | for any request each address is covered once up to where the loop has got and not at all beyond |
| Tzc380.PlanPlaced | optee_os/core/drivers/tzc380.c:243-285 | every region is a multiple of its size and fits the address width |
| Tzc380.PlanCompletes | optee_os/core/drivers/tzc380.c:243-287 | for bases and sizes that are multiples of 32 KiB nothing is left over |
| Tzc380.CoverEighths | optee_os/core/drivers/tzc380.c:264-275 | the eight-step loop disables exactly the subregions outside the request and advances by the enabled ones |
| Tzc380.Controller.ConfigureRegion | optee_os/core/drivers/tzc380.c:178-198 | base and attribute word of one region are written; of region 0 only the permission bits; for a region that does not exist the assert fires |
| Tzc380.Controller.AutoConfigure | optee_os/core/drivers/tzc380.c:219-289 | terminates and programs the plan into consecutive regions, succeeding exactly when it completes and the regions suffice, which for 32 KiB multiples only takes enough regions; on success from region 1 or later the registers written are enabled with the permissions asked for and no other one has changed; what the controller reads from them covers exactly the request, without overlap, if the attributes leave bits 15 to 8 and 6 to 1 clear, and, for attributes that leave bits 6 to 1 clear, exactly if no subregion the plan needs has its disable bit set |
| Tzc380.Fields | optee_os/core/include/drivers/tzc380.h:190-204 | the size and disable fields of the word are those of the region ored with the bits of the attributes, the enable bit is set and bits 31 to 28 are those of the attributes |
| Tzc380.SizeField | optee_os/core/include/drivers/tzc380.h:190-192 | where the attributes leave it clear, bit i from 1 to 6 of the word is bit i - 1 of the power less one |
| Tzc380.DecodesAsMeant | optee_os/core/drivers/tzc380.c:249-279 | the region read back from the ored word is the one meant if and only if the attributes set no bit of its size and disable fields that it does not set itself |
| Tzc380.HoldsPlan | optee_os/core/drivers/tzc380.c:219-289 | the registers read back as the plan if and only if that is so for each region |
| Tzc380.DimmedCover | optee_os/core/drivers/tzc380.c:268-279 | an exact cover of which any subregion is switched off is no longer one |
| Tzc380.ProgramProtects | optee_os/core/drivers/tzc380.c:219-289 | registers programmed with attributes that leave the size field alone protect exactly the requested range if and only if no subregion switched on in the plan has its disable bit set; attributes that also leave the disable bits alone always do |
| Tzc380.AllDisabled | optee_os/core/drivers/tzc380.c:219-289 | attributes that set all disable bits leave no request protected, although the call succeeds |
| Tzc380.CoversWhenDone | optee_os/core/drivers/tzc380.c:243-287 | whatever the request, a plan that leaves nothing over covers it exactly and without overlap |
| Tzc380.HitTwice | optee_os/core/drivers/tzc380.c:243-285 | an address in two enabled subregions of different regions is counted twice, so an exact count means disjoint regions |
| Tzc380.CoversExactly | optee_os/core/drivers/tzc380.c:219-289 | for 32 KiB multiples within the address width the enabled subregions are pairwise disjoint with union exactly the requested range, and both closing asserts hold |
| BlockModes.EcbInverse | optee_os/core/crypto/sm4.c:203-214 | ECB under an inverse cipher undoes ECB |
| BlockModes.CbcInverse | optee_os/core/crypto/sm4.c:216-247 | CBC decryption undoes CBC encryption |
| BlockModes.CtrInverse | optee_os/core/crypto/sm4.c:249-270 | CTR undoes itself |
| Cts.DecryptEncrypt | optee_os/core/crypto/aes-cts.c:93-187 | ciphertext stealing is undone for every message longer than a block and every cipher with an inverse |
| Cts.EncryptIsSwappedCbc | optee_os/core/crypto/aes-cts.c:68-78 | the result is CBC of the zero-padded message with the last two blocks swapped, cut to the length of the message |
| Cts.EncryptAppend | optee_os/core/crypto/aes-cts.c:104-106 | leading whole blocks may be encrypted first by plain CBC |
| Cts.DecryptAppend | optee_os/core/crypto/aes-cts.c:104-106 | leading whole blocks may be decrypted first by plain CBC |
| Cts.Context.CbcUpdate | optee_os/core/tee/tee_cryp_utl.c:97-151 | whole blocks go through CBC into the destination and move the chaining value; anything else is refused with nothing changed |
| Cts.WhenTakenWhole | optee_os/core/crypto/aes-cts.c:101-114 | with the block count held in an int, a last update is taken whole if and only if it is longer than a block and at most 2^31 bytes |
| Cts.LongLastUpdates | optee_os/core/crypto/aes-cts.c:101-118 | lengths above that for which the product overflows, for which the update is refused, and for which all but 64 bytes are left out |
| Cts.Context.Update | optee_os/core/crypto/aes-cts.c:93-187 | the status for every input, the result of the bytes taken in the destination and nothing written behind it, which for last updates of at most 2^31 bytes is the whole result; nothing is changed on an error |
| Cts.Context.EncryptLast | optee_os/core/crypto/aes-cts.c:116-138 | the buffer sequence of the encrypting branch produces the stolen ciphertext of the blocks counted, in place |
| Cts.Context.DecryptLast | optee_os/core/crypto/aes-cts.c:139-185 | the buffer sequence of the decrypting branch produces the plaintext of the blocks counted, in place |
| Cts.Feed | optee_os/core/crypto/aes-cts.c:93-187 | any split into whole-block updates and a last update gives the result of the whole message up to what the last update takes, which is all of it from 17 to 2^31 bytes |
| Cts.RoundTrip | optee_os/core/crypto/aes-cts.c:93-187 | a message encrypted in one split and decrypted in any other comes back, both last updates being of more than a block and at most 2^31 bytes |
| Sm4.CryptInverse | optee_os/core/crypto/sm4.c:163-201 | with its round keys reversed the 32-round cipher undoes itself, whatever the round function and the keys |
| Sm4.FillTrace | optee_os/core/crypto/sm4.c:150-182 | the round loops fill the array with the words of the recurrence |
| Sm4.Context.SetKey | optee_os/core/crypto/sm4.c:140-161 | the words behind the round keys start from the big-endian words of the key, masked with FK, and each further one is the word four before it plus the round function of the next three and a constant |
| Sm4.ConstantIs | optee_os/core/crypto/sm4.c:84-94 | byte j of constant i is 7(4i + j) modulo 256 |
| Sm4.Context.SetKeyDec | optee_os/core/crypto/sm4.c:192-201 | the in-place swaps reverse the round keys |
| Sm4.Context.OneRound | optee_os/core/crypto/sm4.c:163-184 | the words of the rounds start from the big-endian words of the input, each further one is the word four before it plus the round function of the next three and the round key, and the last four, newest first, are the output |
| Sm4.Context.CryptEcb | optee_os/core/crypto/sm4.c:203-214 | ECB of section 6.1 of NIST SP 800-38A, block by block |
| Sm4.Context.CryptCbc | optee_os/core/crypto/sm4.c:216-247 | CBC of section 6.2 in the direction the context is keyed for: each block is added to the ciphertext block before it, and the last ciphertext block is left as the chaining value |
| Sm4.Context.CryptCtr | optee_os/core/crypto/sm4.c:249-270 | CTR of section 6.5: block i is added to the encryption of the counter plus i, and the counter is left at its start plus the number of blocks |
| BlockModes.ModesByBlock | optee_os/core/crypto/sm4.c:203-270 | what each mode does to each block |
| BlockModes.BumpNValue | optee_os/core/crypto/sm4.c:249-270 | the counter after n steps is n more, modulo 2^128 |
| Sm4.StepCounter | optee_os/core/crypto/sm4.c:262-264 | the byte-carry loop is plus one modulo 2^128 |
| BigEndian.BumpIsPlusOne | optee_os/core/crypto/sm4.c:262-264 | the carry into the byte string is addition of one modulo 256^n |
| Sm4.WholeInverse | optee_os/core/crypto/sm4.c:203-270 | each mode is undone by its counterpart |
| Sm4.CryptChunks | optee_os/core/crypto/sm4.c:203-270 | any chunks of whole blocks give the result of the whole message |
| Sm4.RoundTrip | optee_os/core/crypto/sm4.c:140-270 | key both directions from one key, encrypt in some chunks and decrypt in others: the message comes back, in every mode |
| Sm3.CarryExact | optee_os/core/crypto/sm3.c:168-171 | the high length word counts right if and only if the update is below 2^32 bytes or wraps the low word at most once |
| Sm3.TallyExact | optee_os/core/crypto/sm3.c:168-171 | the two words stay right through every update that can be counted |
| Sm3.LongUpdateMiscounts | optee_os/core/crypto/sm3.c:168-171 | one update of 2^33 bytes is counted short |
| Sm3.Context.Absorb | optee_os/core/crypto/sm3.c:173-188 | whole blocks are compressed in order and the rest waits in the buffer |
| Sm3.Context.Update | optee_os/core/crypto/sm3.c:157-189 | the state is the iterated compression of all whole blocks so far, the buffer the bytes after them, and the two length words advance as counted |
| Sm3.PaddingParts | optee_os/core/crypto/sm3.c:191-211 | the padding and the two shifted length words are the padding of section 5.2 of GM/T 0004-2012 |
| Sm3.PaddingIs | optee_os/core/crypto/sm3.c:188-215 | a one bit, zeros, and the number of bits modulo 2^64 as the last eight bytes |
| Sm3.OutputWords | optee_os/core/crypto/sm3.c:216-223 | word i of the state stands at bytes 4i to 4i + 3 of the digest, highest byte first |
| Sm3.LengthField | optee_os/core/crypto/sm3.c:204-208 | the length field equals the length in bits exactly below 2^61 bytes |
| Sm3.Context.Final | optee_os/core/crypto/sm3.c:198-224 | the digest is that of the padded message with the counted length, with no byte left unprocessed |
| Sm3.OneShot | optee_os/core/crypto/sm3.c:226-235 | the digest of the message, for messages below 2^33 bytes; above that, of the message with the length miscounted |
| Sm3.HashChunks | optee_os/core/crypto/sm3.c:157-224 | any chunks give the digest of the whole message with the counted length, and the digest of the standard when each chunk can be counted and the total is below 2^64 bytes |
| Sm3.ShortCountable | optee_os/core/crypto/sm3.c:168-171 | chunks below 2^32 bytes can always be counted |
| Sm3.Context.SetPads | optee_os/core/crypto/sm3.c:248-254 | both pads are the zero-padded key masked with their constants |
| Sm3.Context.HmacInit | optee_os/core/crypto/sm3.c:237-260 | keys longer than a block are hashed first, with the length that is counted for them; both pads are the key block masked, and the inner message starts with the inner pad |
| Sm3.KeyCounted | optee_os/core/crypto/sm3.c:242-246 | for keys below 2^33 bytes the key block is that of the standard |
| Sm3.Context.HmacFinal | optee_os/core/crypto/sm3.c:267-278 | the outer hash over the inner one |
| Sm3.HmacChunks | optee_os/core/crypto/sm3.c:237-290 | any key and any chunks give the HMAC with the counted lengths, which is the one of section 2 of RFC 2104 wherever the lengths can be counted |
| FortunaRing.NextInv | optee_os/core/crypto/rng_fortuna.c:175-220 | every single store or load of writer and reader keeps the ring invariant |
| FortunaRing.SlotFree | optee_os/core/crypto/rng_fortuna.c:185-192 | the slot being written is none of the slots still to be read |
| FortunaRing.Run | optee_os/core/crypto/rng_fortuna.c:175-220 | the invariant holds after every interleaving of steps |
| FortunaRing.PopsInOrder | optee_os/core/crypto/rng_fortuna.c:175-220 | in every interleaving pops return the zeroed first slot and then the accepted pushes, in order, each once |
| FortunaRing.NoTornRead | optee_os/core/crypto/rng_fortuna.c:200-220 | a slot being read holds one whole event and is not being written |
| FortunaRing.PushesWereOffered | optee_os/core/crypto/rng_fortuna.c:175-198 | accepted pushes are a subsequence of the offered events, cut to four bytes |
| FortunaRing.RingBuffer.Push | optee_os/core/crypto/rng_fortuna.c:175-198 | the assignments are the writer steps: the event is accepted with the first four bytes of its data unless the ring is full, whatever the reader is doing |
| FortunaRing.RingBuffer.Pop | optee_os/core/crypto/rng_fortuna.c:200-220 | the assignments are the reader steps: the next event of the history or nothing, and the length assert holds |
| FortunaPools.WithDataZero | optee_os/core/crypto/rng_fortuna.c:200-265 | the zeroed first slot is popped without effect |
| FortunaPools.WithDataAt | optee_os/core/crypto/rng_fortuna.c:258-260 | the events with data are exactly those, in their order |
| FortunaPools.QuickEventsAt | optee_os/core/crypto/rng_fortuna.c:304-311 | the quick events of a history are exactly those, in their order |
| FortunaPools.AcceptedAll | optee_os/core/crypto/rng_fortuna.c:185-192 | as long as there is room all pushes are accepted, each with the first four bytes of its data |
| PoolTurns.TurnsRotate | optee_os/core/crypto/rng_fortuna.c:267-296 | however the compare-and-swap loops of the updaters interleave, the i-th update gets the i-th pool in rotation |
| PoolTurns.TurnsDiffer | optee_os/core/crypto/rng_fortuna.c:276-288 | updates fewer than 32 turns apart never get the same pool |
| FortunaLog.IncrementIsNext | optee_os/core/crypto/rng_fortuna.c:74-79 | the two-word increment steps through the counter values in order |
| FortunaLog.CounterRepeats | optee_os/core/crypto/rng_fortuna.c:74-79 | two counter values are equal if and only if their positions agree modulo 2^128 |
| FortunaLog.NoCounterReused | optee_os/core/crypto/rng_fortuna.c:315-338 | no counter value occurs twice in the record of encryptions within 2^128 steps |
| FortunaLog.LogNext | optee_os/core/crypto/rng_fortuna.c:320-335 | one more encryption keeps the record in order and adds one to the uses of its key |
| FortunaLog.LogRekeyed | optee_os/core/crypto/rng_fortuna.c:499-502 | a new key starts with no uses on record |
| Fortuna.BitTestExact | optee_os/core/crypto/rng_fortuna.c:420-430 | the bit test decides divisibility by 2^n exactly for multiples of 2^(n-1) |
| Fortuna.BitTestWeaker | optee_os/core/crypto/rng_fortuna.c:420-430 | taken alone the test passes for a pool that is not due |
| Fortuna.Generator.Init | optee_os/core/crypto/rng_fortuna.c:130-173 | refused while alive; succeeds exactly when none of its calls fails, with the key hashed from the seed and the counter at one |
| Fortuna.Generator.Encrypt | optee_os/core/crypto/rng_fortuna.c:321-325 | every attempt to encrypt the counter is on record with its key, failed or not |
| Fortuna.Generator.GenerateBlocks | optee_os/core/crypto/rng_fortuna.c:315-338 | exactly the encryptions made are added to the record, all of them under the current key, and the counter moves on for each, failed ones included; it succeeds exactly when no call fails, and then block i of the output is the encryption of the counter plus i |
| FortunaLog.UsesCounted | optee_os/core/crypto/rng_fortuna.c:320-335 | the uses of a key are the entries of the record in its epoch |
| Fortuna.Generator.GenerateRandomData | optee_os/core/crypto/rng_fortuna.c:341-359 | the keystream of as many blocks as needed, the last one cut, with exactly those encryptions on record |
| Fortuna.Generator.AddEvent | optee_os/core/crypto/rng_fortuna.c:222-246 | the pool grows by two bytes, source number and length, and the first 32 bytes of the data, and the measure of pool 0 by the bytes of data unless it would overflow; a pool that does not exist is refused; a failed call leaves at most the header behind; the history of the pools has the event |
| Fortuna.Generator.DrainOne | optee_os/core/crypto/rng_fortuna.c:250-264 | one turn of the draining loop: the next event of the ring with data is given to its pool, or the loop ends because the ring is empty or the event has no data |
| Fortuna.Generator.Drain | optee_os/core/crypto/rng_fortuna.c:248-265 | the events popped from the ring, while others arrive, are given to the pools in order up to the first that is refused or fails; what is in the pools then is stated for each outcome, and success means that the ring is exhausted or an event without data was popped |
| Fortuna.Generator.RestartPool | optee_os/core/crypto/rng_fortuna.c:394-418 | the pool starts again with the digest of what it held, unless a call fails, and the history of the pools has it |
| Fortuna.Generator.RestartPools | optee_os/core/crypto/rng_fortuna.c:450-461 | the loop with the bit test restarts pool n exactly when 2^n divides the reseed count, for all 32-bit counts, and what is hashed into the new key are the digests of those pools in order |
| Fortuna.Generator.MaybeReseed | optee_os/core/crypto/rng_fortuna.c:432-474 | with enough in pool 0 the new key hashes the digests of exactly the due pools; otherwise nothing changes; the epoch moves exactly with the key |
| Fortuna.Generator.Generate | optee_os/core/crypto/rng_fortuna.c:489-503 | output from the old key, the next two blocks become the new key, and the epoch moves on; the record grows by exactly those encryptions |
| Fortuna.Generator.Draw | optee_os/core/crypto/rng_fortuna.c:485-503 | the reseeding and output of a read: exactly its encryptions go on record, and the counter moves on once for each and at most once more |
| Fortuna.Generator.Read | optee_os/core/crypto/rng_fortuna.c:476-512 | one read, its encryptions and the draining of the ring: success keeps the generator alive under a key nothing was encrypted with; any error ends it; the outcome is decided by the failing calls and the events; the counter moves on at most once more than it is encrypted |
| Fortuna.Generator.RngRead | optee_os/core/crypto/rng_fortuna.c:514-531 | the output is made of keystreams of at most 1 MiB each, and the record grows by their blocks and two for each new key; any amount is delivered or the generator has ended |
| FortunaRuns.PoppedPushes | optee_os/core/crypto/rng_fortuna.c:175-265 | in every reachable state of the ring the popped events with data are the first accepted pushes with data |
| FortunaRuns.Execute | optee_os/core/crypto/rng_fortuna.c:130-531 | in every run from an init, whichever calls fail, the record is the list of all encryptions behind what was delivered; the counter has moved at most once more for each piece, so no counter value is in the record twice before about 2^128 encryptions; between two key changes at most 65,538 blocks are encrypted; the pools hold exactly what the events and restarts of the run make of them, and the quick events among these are the accepted pushes with data, in order, each once, up to those still in the ring; without a failed call everything asked for is delivered and every event taken is added whole; each operation has its effect on ring and pools |
| FortunaRuns.Perform | optee_os/core/crypto/rng_fortuna.c:298-531 | one operation: what it delivers, what it adds to the record, when it succeeds, and its effect on ring and pools: a quick event is accepted unless the ring is full, a slow one is given to its pool, and after it or a successful read the ring has been drained |
| FortunaRuns.AddSlow | optee_os/core/crypto/rng_fortuna.c:298-313 | a slow event is given to its pool and the ring is drained; the generator stays alive and nothing is encrypted |
| FortunaPools.Arrive | optee_os/core/crypto/rng_fortuna.c:175-198 | of the events pushed one after the other exactly those that do not find the ring full are accepted, in order |
| Segments.Elf.CheckSegments | optee_os/ldelf/ta_elf.c:574-593 | passes exactly the lists for which every assert holds of every segment, written out as numbers |
| Segments.Elf.AdjustAt | optee_os/ldelf/ta_elf.c:600-658 | one turn of the loop: merge into the segment before or align to a page, or an assert fires |
| Segments.Elf.AdjustSegments | optee_os/ldelf/ta_elf.c:566-660 | editing the list in place gives the adjusted list, or stops exactly when an assert fires |
| Segments.AdjustedPlaces | optee_os/ldelf/ta_elf.c:595-658 | results are the groups of segments that reach into each other's pages, in order, each within its result |
| Segments.ExactlyOneHome | optee_os/ldelf/ta_elf.c:566-660 | every address of every segment lies in exactly one result, whose permissions are the union of those of its group |
| Segments.AdjustedMarks | optee_os/ldelf/ta_elf.c:609-660 | no result has a permission that no segment of its group has, and it is marked as remapped exactly if its first segment was or starts on a file page the results before it have mapped |
| Segments.NoSharedPage | optee_os/ldelf/ta_elf.c:566-660 | results after the first start on page boundaries and no page holds addresses of two results |
| Segments.NothingExtra | optee_os/ldelf/ta_elf.c:618-656 | every mapped address is in a segment or on the page a segment starts on |
| Segments.ContentKeptExactly | optee_os/ldelf/ta_elf.c:604-632 | every byte keeps its place in the file, or stays zero, if and only if each segment with file bytes is as far from the file as the head of its group |
| Segments.DistanceUnchecked | optee_os/ldelf/ta_elf.c:619-621 | the asserts let through two segments for which that fails |
| Segments.AndMask | optee_os/ldelf/ta_elf.c:595-595 | masking with a power of two less one keeps the remainder |
| Loader.EnqueuedFacts | optee_os/ldelf/ta_elf.c:74-86 | queueing keeps what is there in place, adds exactly what is new and makes no duplicates |
| Loader.Ldelf.FindElf | optee_os/ldelf/ta_elf.c:88-97 | finds a UUID exactly when it is queued |
| Loader.Ldelf.QueueElf | optee_os/ldelf/ta_elf.c:74-86 | appends a UUID that is not yet queued and otherwise does nothing |
| Loader.Ldelf.AddDependencies | optee_os/ldelf/ta_elf.c:929-938 | queues every needed binary; the new entries stand in the order of their first occurrence |
| Loader.EnqueuedOrder | optee_os/ldelf/ta_elf.c:74-86 | new entries were asked for and stand in the order in which they were first asked for |
| Loader.Ldelf.Load | optee_os/ldelf/ta_elf.c:1161-1179 | succeeds exactly for binaries that exist with the right width, and queues what they need |
| Loader.Ldelf.LoadFrom | optee_os/ldelf/main.c:151-152 | walking the queue while it grows ends with all needs queued and each binary loaded once, or at a binary that cannot be loaded |
| Loader.Ldelf.RelocateFrom | optee_os/ldelf/main.c:154-157 | relocates each binary from the given place on, in order |
| Loader.Ldelf.LoadMain | optee_os/ldelf/ta_elf.c:1113-1138 | the main binary is first in the queue and sets the width |
| Loader.Ldelf.Start | optee_os/ldelf/main.c:142-157 | main and its closure are loaded and then relocated, or some binary in the closure cannot be loaded |
| Loader.Ldelf.AddLibrary | optee_os/ldelf/ta_elf.c:1441-1472 | nothing for a binary already there; otherwise its closure is appended, loaded and then relocated |
| Loader.Ldelf.Dlopen | optee_os/ldelf/dl.c:11-22 | other flags are refused and the zero UUID asks for nothing |
| Loader.LoadsFirst | optee_os/ldelf/ta_elf.c:1455-1461 | no binary is relocated before all of its batch, and all batches before, are loaded |
| Loader.NeedsLoadedFirst | optee_os/ldelf/main.c:151-157 | when a binary is relocated everything it needs has been loaded |
| Loader.Run | optee_os/ldelf/main.c:142-157 | a start and any dlopen calls end with a queue without duplicates, main first, that is exactly the dependency closure of what was asked for; they fail exactly when that closure cannot be loaded |
| Symbols.ElfHash | optee_os/ldelf/ta_elf_rel.c:19-33 | each character is added to sixteen times the hash so far modulo 2^32, and the four bits above the lowest 28 are moved onto bits 4 to 7; for names of up to five bytes that is the sum of the characters weighted by powers of 16 |
| Symbols.HashIsNumber | optee_os/ldelf/ta_elf_rel.c:25-31 | the word operations compute that recurrence on numbers for every name |
| Symbols.HashOfShort | optee_os/ldelf/ta_elf_rel.c:25-31 | as long as the weighted sum stays below 2^28 it is the hash |
| Symbols.StringSpan | optee_os/ldelf/ta_elf_rel.c:46-47 | the name compared is everything up to the first zero byte |
| Symbols.TrySymbolFinds | optee_os/ldelf/ta_elf_rel.c:35-79 | exactly which symbols are found and with what value, and exactly at which the search is given up |
| Symbols.HashIs28Bits | optee_os/ldelf/ta_elf_rel.c:26-30 | the top four bits of the hash are always clear |
| Symbols.NameInBounds | optee_os/ldelf/ta_elf_rel.c:44-46 | the bounds test admits an offset one past the string table; the comparison depends on the table alone exactly when the string ends within it |
| Symbols.ResolveHelper | optee_os/ldelf/ta_elf_rel.c:81-143 | the chain walk ends and returns the first symbol not passed over, or aborts on an index out of range |
| Symbols.LookupIsScan | optee_os/ldelf/ta_elf_rel.c:81-143 | for a table that has every symbol in the bucket given by the hash of its name as a number, with unique names, the hash lookup agrees with a scan of the whole symbol table |
| Symbols.GlobalBeatsWeak | optee_os/ldelf/ta_elf_rel.c:171-176 | a module with a defined global symbol of that name never answers with a weak one |
| Symbols.ResolveSym | optee_os/ldelf/ta_elf_rel.c:153-185 | the given module is searched first, then all modules; the first that answers decides, also when it answers with a malformed symbol |
| SymbolOrder.AnswerGrade | optee_os/ldelf/ta_elf_rel.c:35-79 | a module answers exactly when it has a defined global, a defined weak or an undefined weak symbol of that name |
| SymbolOrder.AnswerMalformed | optee_os/ldelf/ta_elf_rel.c:60-76 | the search is aborted at a module exactly when its symbol of that name has an unsupported type or lies outside the module |
| SymbolOrder.DocumentedWhen | optee_os/ldelf/ta_elf_rel.c:145-150 | the result is the documented one if and only if the given module has the symbol or no module has it and, with no module given, the first module with anything to offer has a symbol as good as any (or both are malformed) |
| SymbolOrder.WeakHidesGlobal | optee_os/ldelf/ta_elf_rel.c:145-150 | a weak symbol in an earlier module hides a global one in a later module |
| SymbolOrder.SearchGoesOn | optee_os/ldelf/ta_elf_rel.c:145-150 | a symbol missing from the given module is found in another one, where the documentation has it not found |

## Left out

- AES rounds, S-boxes, the SM3 compression function and SHA-256: function parameters; the proofs hold for any.
- GCM pointer alignment of source and destination in payload updates: it only chooses between two loops with the same values. The alignment of additional data is modelled.
- Lockdep call stacks: debug output only.
- Lock graph pointers: nodes and edges are identified by lock id, the field the source compares; list links and freeing are not modelled.
- TZC-380 registers other than the region set-up, and the action and lockdown registers.
- AES CBC and ECB as used by ciphertext stealing are taken from their definitions; XTS and CTR dispatch is not modelled.
- Sm4 inputs that are not whole blocks: the source asserts that there are none.
- Clearing of secrets from memory.
- Tzc380.Controller.AutoConfigure: requires an address width of at most 63 and a request that ends below 2^64, so that no shift or sum wraps.
- Fortuna.Generator.AddEvent: requires a live generator; the source hands its pool contexts to the crypto library, which asserts that they exist.
- Fortuna.Generator.Read: takes the test whether the generator is alive and the read as one step; in the source the test comes before the lock, so a reader may pass it while another one ends the generator.
- Fortuna.Generator.Drain: events arrive between two pops; the interleaving of single loads and stores of pushes and pops is proved in `FortunaRing`.
- Cts.Context.Update: models a 64-bit size_t and a compiler that truncates when storing into an int; where the product of two ints overflows nothing is promised.
- Fortuna rate limiting by time: a boolean input.
- FortunaRing memory ordering weaker than interleaving of single loads and stores.
- Segments.Elf.AdjustSegments: the sum of offset and file size is not wrapped at 64 bits.
- Mapping, populating and relocation patching in the loader, and allocation failures while queueing.
- Symbol values are not wrapped at 64 bits.
- Symbols.ResolveHelper: requires at least one bucket and chains that end; a cyclic chain would not terminate.
- CBC-MAC, the SM2 key derivation, drivers other than TZC-380, and the build scripts: they would only add easy members.
