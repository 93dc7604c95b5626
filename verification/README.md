# Phantom Grid: verified models

A Dafny model of the parts of Phantom Grid where correctness depends on more than one function: the XDP gate and its
packet rewriter, the SPA protocol, the ELK exporter, the log broadcaster, the RESP parser, login sessions and the
generation of the port checks. `dafny verify dfyconfig.toml` checks everything.

| file | models |
|---|---|
| Bytes, Arithmetic, Crypto, Wrappers | integer widths, big-endian fields, bitwise operators, division; the cryptographic operations as uninterpreted functions; the optional value |
| Checksum, Gate, GateProgram | `phantom.c`: the incremental checksum, what the program decides and writes, and the program itself in host byte order and in place |
| GateMeaning | what the program does to every frame, said on the frame's bytes, the whitelist and the port table alone |
| RedirectChecksums | what a redirect does to the IPv4 and TCP checksums, for every IPv4 header and packet length and for fragments |
| Totp, Packet, Verifier | codes and their windows, the packet format, `VerifyPacket` |
| Replay, ReplaySafety, ReplayWitness | the self-cleaning replay cache over whole runs, alone and together with the timestamp and TOTP windows, and the histories that show which assumptions are needed |
| Handler, System | the whitelist write, and kernel and user space running together, with overlapping verifications and evictions |
| Exporter, Broadcast, Sessions | the concurrent protocols: buffer and flushes, broadcaster and clients, sessions and cleanup |
| Resp, Ports, PortGen | the RESP parser with an encoder, port lists, and the meaning of the generated C functions |

Code that updates state in place is a class or method whose contract equates the new state with a specification
function; the theorems are lemmas about those functions and about runs, which are arbitrary sequences of steps. A step is
one stretch of code that runs without interference: one XDP program run, one critical section, one channel operation.

What the proofs say about the code, beyond what its documentation promises:

- `csum_replace2` is exact except when every covered word becomes zero, where it stores 0 instead of 0xFFFF. On the
  redirect path this cannot happen.
- The redirect looks for the TCP header 20 bytes after the start of the IPv4 header whatever the header's length, and never
  at the packet's total length. A redirect of a packet with a 24- to 32-byte header breaks the header checksum, one with a
  36-byte header does so unless two changes cancel out, and with 20 bytes or at least 40 the header checksum keeps its
  verdict. The TCP checksum fares like the header checksum in every packet of at least 38 bytes. In a shorter one with a
  20-byte header, as only a fragment can be, the correction lands behind the packet: from 24 to 34 bytes the redirect
  always breaks the TCP checksum, and the few lengths left have their exact condition.
- The timestamp test accepts one timestamp outside its five minutes: the one whose difference from the clock is 2^63.
- The replay cache by itself accepts a hash again after 301 s. What rules replays out is the TOTP window. Every packet has
  a goroutine of its own, which samples the clock first and takes the lock later, so locks can be taken out of clock order.
  With codes of one counter each, no packet is accepted twice if and only if (2 tolerance + 1) steps, the delay with which
  codes are sampled and the lag by which locks are out of clock order are together at most 301 s. The code bounds neither
  delay nor lag.
- If codes repeat, a packet first accepted before its own timestamp can be accepted twice, also in clock order and with the
  default step and tolerance. With lag L, n acceptances of one packet need (n - 1)(301 - L) <= 600; in clock order that
  is at most two.
- A negative replay window below -1 can make a whitelist expiry wrap around to the far future.
- The RESP parser goes by lines and ignores declared lengths, so it returns the arguments exactly when none contains CRLF.
  Commands without a single argument come back as the fields of their own encoding. Words on a line come back however
  they are spaced.
- The legacy TOTP secret and keys count only while the corresponding list is empty.
- A browser misses a log message exactly when 100 others were waiting in its channel as that one was offered.
- Distinct documents are exported in order if and only if the batches are answered in turn: the oldest in flight when it
  was delivered, the youngest when it failed. Overlapping flushes can break this.
- Close can lose documents although its own flush succeeds, when an earlier flush fails meanwhile and puts its batch back.
  With nothing but answers coming in, it delivers everything if and only if every answer reports success and every batch
  gets one.
- Port validation looks neither at macros nor at decoys. For a list it accepts, the generated check is right if and only if
  the protected ports' macros, with the decoys defined too, stand for protected ports and no two for the same one. A second
  protected port or a decoy with the same macro takes a port away, as a decoy 2121 named FTP_PORT would take away port 21.
- Changing a password ends no session.
- `internal/spa/integration_test.go:386` expects version 1 packets; `internal/spa/packet.go:49` writes version 2. The
  model follows the code.

## Model

| member | source | states |
|---|---|---|
| Checksum.TwoFoldsSuffice | internal/ebpf/programs/phantom.c:94-95 | the two unrolled folds fully fold every 32-bit accumulator |
| Checksum.FoldFullyClosed | internal/ebpf/programs/phantom.c:91-97 | folding sends zero to zero and anything else to its residue modulo 65535 in 1..65535 |
| Checksum.ReplaceMatchesRecompute | internal/ebpf/programs/phantom.c:91-97 | updating a correct checksum for an edit of one word gives exactly the recomputed checksum, if and only if the new covered sum is not zero |
| Checksum.ReplaceKeepsVerdict | internal/ebpf/programs/phantom.c:91-97 | exactly when a receiver's test of the sum gives the same answer before and after an update, for every sum and every checksum, correct or corrupted |
| Checksum.EditMatchesRecompute | internal/ebpf/programs/phantom.c:91-97 | the same exactness for messages as byte strings of any length, odd ones included, and for an edit given by any two words with the right difference |
| Checksum.EditKeepsVerdict | internal/ebpf/programs/phantom.c:91-97 | exactly when an in-place edit keeps the receiver's verdict on a message: always between two covered sums that are not zero, and at zero as VerdictSurvives says |
| Checksum.EditToZeroRejected | internal/ebpf/programs/phantom.c:91-97 | an edit of a correct message leaving all covered words zero makes a receiver reject it |
| Checksum.RecomputedIsIntact | internal/ebpf/programs/phantom.c:91-97 | a message holding its recomputed checksum passes the receiver's test |
| Checksum.SwapReplace | internal/ebpf/programs/phantom.c:91-97 | on byte-swapped words csum_replace2 gives exactly the byte-swapped result |
| Checksum.SwapFold | internal/ebpf/programs/phantom.c:94-95 | byte swapping commutes with one's-complement folding |
| Gate.RedirectFields | internal/ebpf/programs/phantom.c:99-126 | a redirected frame has the honeypot port and the TTL and window chosen by the source port, and differs from the original only there and in the two checksums |
| Gate.RedirectSettles | internal/ebpf/programs/phantom.c:247-294 | only redirected frames are written, and the written frame passes to the honeypot unchanged from then on |
| GateMeaning.StepMeaning | internal/ebpf/programs/phantom.c:199-298 | for every frame, whitelist and port table: dropped are exactly tokens, segments to critical ports without an unexpired entry of their sender, and scans of ports neither critical nor decoy; with it the new whitelist, each counter, and which frames are rewritten |
| GateMeaning.KindMeaning | internal/ebpf/programs/phantom.c:199-298 | which frames are of which of the six kinds, on their bytes and the port table |
| GateMeaning.ScanMeaning | internal/ebpf/programs/phantom.c:181-197 | the flag tests pick out the zero byte and seven combinations of the six lower flags, and no others |
| GateMeaning.RedirectRewrites | internal/ebpf/programs/phantom.c:99-126 | a redirected frame has port 9999, the TTL and window of its source port's remainder by 4, and every other byte but the checksums as before |
| RedirectChecksums.EditMoves | internal/ebpf/programs/phantom.c:123-126 | one edit of a word and its checksum correction move each of the two sums by exactly the parts of both words inside its bytes, wherever header and packet end |
| RedirectChecksums.SegmentEditExact | internal/ebpf/programs/phantom.c:123-126 | with a 20-byte header one edit of a segment word keeps a correct TCP checksum exactly the recomputed one and leaves the IPv4 header alone |
| RedirectChecksums.TtlMoves | internal/ebpf/programs/phantom.c:116-121 | the TTL edit, whose words carry a zeroed protocol byte, moves the header's sum by a multiple of 65535 and the message's not at all, for every header and packet length |
| RedirectChecksums.TtlEditExact | internal/ebpf/programs/phantom.c:116-121 | it keeps a correct header checksum exactly the recomputed one and leaves the TCP message alone |
| RedirectChecksums.RedirectVerdicts | internal/ebpf/programs/phantom.c:286-292 | for every header length, packet length and fragment, an intact header or message stays acceptable if and only if the changes inside its own bytes are a multiple of 65535, and then a corrupted one stays rejected too |
| RedirectChecksums.HeaderCleanExactly | internal/ebpf/programs/phantom.c:243-292 | that condition for the header: it holds for 20 bytes and from 40 bytes on, fails for 24 to 32 bytes, and for 36 bytes depends on port and window |
| RedirectChecksums.LongPacketCleanAlike | internal/ebpf/programs/phantom.c:243-292 | for the message of a packet that reaches past the word at 50: it holds if and only if the header's does |
| RedirectChecksums.MessageCleanExactly | internal/ebpf/programs/phantom.c:243-292 | for the message of a packet with a 20-byte header, by packet length: always, never, or as the uncorrected changes inside the packet cancel out |
| RedirectChecksums.OptionsBroken | internal/ebpf/programs/phantom.c:243-292 | a correct packet with a 24-byte header both of whose checksums the program breaks |
| RedirectChecksums.ShortFragmentBroken | internal/ebpf/programs/phantom.c:243-292 | a correct short fragment in a padded frame whose TCP checksum the program breaks |
| RedirectChecksums.RedirectKeepsChecksums | internal/ebpf/programs/phantom.c:286-292 | with a 20-byte header, correct checksums stay exactly the recomputed ones through port, TTL and window edits, for whole segments and first fragments |
| RedirectChecksums.ProgramKeepsChecksums | internal/ebpf/programs/phantom.c:199-298 | whatever the program does with a frame, an intact header or message stays acceptable if and only if the frame is not redirected or the changes inside cancel out |
| GateProgram.XdpProgram.constructor | internal/ebpf/programs/phantom.c:41-81 | maps start empty and counters at zero |
| GateProgram.XdpProgram.ReplaceChecksum | internal/ebpf/programs/phantom.c:91-97 | the in-place update on host-order words writes the network-order result on either kind of host |
| GateProgram.XdpProgram.ReplaceChecksumNet | internal/ebpf/programs/phantom.c:91-97 | the same in terms of the network-order values of the words |
| GateProgram.XdpProgram.MutateOsPersonality | internal/ebpf/programs/phantom.c:99-131 | writes exactly the specified TTL and window edits and counts one mutation |
| GateProgram.XdpProgram.MutateTtl | internal/ebpf/programs/phantom.c:116-121 | the TTL store and its checksum update, byte for byte |
| GateProgram.XdpProgram.MutateWindow | internal/ebpf/programs/phantom.c:123-126 | the window store and its checksum update, byte for byte |
| GateProgram.XdpProgram.IsSpaWhitelisted | internal/ebpf/programs/phantom.c:133-148 | true exactly for an unexpired entry; an expired entry of this address, and nothing else, is deleted |
| GateProgram.XdpProgram.VerifyMagicPacket | internal/ebpf/programs/phantom.c:154-167 | the accumulated differences are zero exactly when the payload starts with the token |
| GateProgram.XdpProgram.SpaWhitelistIp | internal/ebpf/programs/phantom.c:169-179 | overwrites the address's expiry with now plus 30 s in 64-bit arithmetic and counts one success |
| GateProgram.XdpProgram.RedirectToHoneypot | internal/ebpf/programs/phantom.c:286-292 | the destination rewrite followed by the personality is the specified redirect |
| GateProgram.XdpProgram.TcpLogic | internal/ebpf/programs/phantom.c:243-295 | verdict, maps, counters and frame of the TCP branch are those of the specification whose meaning StepMeaning gives, on either kind of host |
| GateProgram.XdpProgram.PhantomProg | internal/ebpf/programs/phantom.c:199-298 | drops a frame exactly in the three cases of StepMeaning, and leaves whitelist, counters and every frame byte as described there, for every frame length and either byte order |
| Totp.Truncate | internal/spa/totp.go:21-25 | truncation stays inside the 20-byte hash and the code is below 10^6 |
| Totp.TruncatedBytes | internal/spa/totp.go:21-25 | the code is the number of the four bytes at the offset, without the top bit, modulo 10^6 |
| Totp.Rfc4226Example | internal/spa/totp.go:21-25 | the truncation gives 872921 on the example of section 5.4 of RFC 4226 |
| Totp.CodeOfCounter | internal/spa/totp.go:11-19 | the message authenticated is the counter as eight big-endian bytes, modulo 2^64 when negative |
| Totp.ValidateTotp | internal/spa/totp.go:34-48 | true if and only if some counter within the tolerance of the clock's counter produces the code |
| Totp.CounterOfStepStart | internal/spa/totp.go:39-41 | the time the loop passes has exactly the step as its counter, for either sign |
| Totp.SkewCovered | internal/spa/totp.go:34-48 | any skew up to tolerance times time step between the clocks is covered |
| Totp.WindowContains | internal/spa/totp.go:51-56 | the reported interval contains the timestamp if and only if it is non-negative or a multiple of the step |
| Totp.CodeConstantOnWindow | internal/spa/totp.go:51-56 | the interval is exactly the times with the same counter, and the code is constant on it |
| Totp.WindowWidth | internal/spa/totp.go:35-45 | two clocks sharing a counter in their windows are less than (2 tolerance + 1) steps apart |
| Totp.WindowWidthAttained | internal/spa/totp.go:35-45 | that bound is attained |
| Packet.ParseSpaPacket | internal/spa/packet.go:134-187 | the stepwise parser gives the specified packet for every input, and each error exactly on the inputs written out for it |
| Packet.ParseOfEncode | internal/spa/packet.go:134-187 | parsing an encoded well-formed packet of either version gives the packet back |
| Packet.EncodeOfParse | internal/spa/packet.go:134-187 | re-encoding a successfully parsed packet gives back the same bytes, and its body is the bytes before the signature |
| Packet.ParseExactly | internal/spa/packet.go:134-187 | the parser accepts exactly the encodings of well-formed packets |
| Packet.CreatedRoundTrip | internal/spa/packet.go:36-131 | parsing a created packet returns every field, and the verified bytes are the sealed bytes |
| Packet.CreatePacket | internal/spa/packet.go:36-131 | the buffer filled field by field is the encoding of the sealed packet, for both schemes and every padding size; no packet exactly when padding is wanted and drawing it fails |
| Packet.PutBigEndian | internal/spa/packet.go:51-52 | writes one field and nothing else of the buffer |
| Packet.PaddingRange | internal/spa/packet.go:56-64 | padding of obfuscated packets is any size from 16 to 64 bytes, of others none |
| Packet.AddressForms | internal/spa/packet.go:42-45 | every IPv4 address has one 16-byte form and goes back to its four bytes, no other 16 bytes do, and a missing address is bound as 0.0.0.0 |
| Verifier.TimestampExactly | internal/spa/verifier.go:59-70 | the 64-bit test passes within 300 s either way and at the one difference 2^63, and nowhere else |
| Verifier.TimestampExactWhenNonNegative | internal/spa/verifier.go:59-70 | for non-negative timestamps the window is exact |
| Verifier.PassesExactly | internal/spa/verifier.go:30-129 | the ordered checks pass exactly for genuine packets: bound address, fresh timestamp, and, on the configuration's own fields, a code in the window of a secret of the list, or of the legacy secret if there is no list, and a seal of a key chosen likewise with the mode byte of the configured mode |
| Verifier.PassedMeans | internal/spa/verifier.go:72-125 | what a passed packet had, field by field of the configuration: a listed secret's code and a listed key's seal, the legacy ones only while their list is empty |
| Verifier.RefusedExactly | internal/spa/verifier.go:30-129 | the exact cause of each refusal of a packet that parses |
| Verifier.SealMeaning | internal/spa/verifier.go:90-125 | the seal test holds exactly for a configured key and the mode byte of the configured mode, which the seal's length forces |
| Verifier.SealedAddressIsWhitelisted | internal/spa/verifier.go:42-57 | for version 2 the address whitelisted later is the last four bytes of the sealed address field |
| Verifier.ClientPacketPasses | internal/spa/verifier.go:30-129 | a client packet from its bound address, with a key and secret of the lists (or the legacy ones when those are empty) and close clocks, passes every check |
| Verifier.ClientPacketAccepted | internal/spa/verifier.go:30-153 | such a packet is accepted if and only if its hash is not cached or its entry is pruned on the way in |
| Verifier.PacketVerifier.AnyTotp | internal/spa/verifier.go:72-84 | finds exactly whether the window of some listed secret has the code, or that of the legacy secret when nothing is listed |
| Verifier.PacketVerifier.AnyKey | internal/spa/verifier.go:95-124 | the loop over the keys finds exactly whether one of them matches |
| Verifier.PacketVerifier.AnySeal | internal/spa/verifier.go:90-125 | finds exactly whether the seal is one of a configured key |
| Verifier.PacketVerifier.Check | internal/spa/verifier.go:30-129 | the part before the lock gives the specified verdict, error by error |
| Verifier.PacketVerifier.CleanUp | internal/spa/verifier.go:139-145 | deleting entries one by one in any order leaves exactly those at most 300 s old |
| Verifier.PacketVerifier.CommitReplay | internal/spa/verifier.go:135-152 | the locked section's answer and new cache |
| Verifier.PacketVerifier.VerifyPacket | internal/spa/verifier.go:30-153 | verdict and new cache of the whole call; the cache changes only when all checks passed |
| Replay.RefusedExactly | internal/spa/verifier.go:138-150 | a commit is refused if and only if its hash is cached and not pruned on the way in |
| Replay.CleanupBetweenAcceptances | internal/spa/verifier.go:135-150 | in any interleaving a cleanup whose clock is over 300 s past the first acceptance lies between two acceptances of a hash |
| Replay.AcceptedAgainExactly | internal/spa/verifier.go:135-150 | in any interleaving a hash is accepted again if and only if such a cleanup has been since its latest acceptance, at the latest its own |
| Replay.AcceptancesFarApart | internal/spa/verifier.go:135-150 | with commits at most a lag out of clock order two acceptances of a hash are more than 300 s minus the lag apart |
| Replay.RefinesNeverForgetting | internal/spa/verifier.go:135-150 | with commits at most a lag out of clock order and no hash returning after 300 s minus the lag, every verdict is that of a set that never forgets |
| Replay.RecentEntriesBounded | internal/spa/verifier.go:138-150 | in any interleaving the cache holds no more recent entries than there were recent acceptances |
| Replay.CacheBound | internal/spa/verifier.go:138-150 | after every commit the cache holds at most 1001 entries or no more than the acceptances of the last 300 s |
| Replay.CacheAloneForgets | internal/spa/verifier.go:138-150 | a run in clock order in which the cache accepts one hash twice |
| ReplaySafety.OnceUnlessEarly | internal/spa/verifier.go:59-70 | with locks at most a lag out of clock order, a second acceptance of the same bytes needs a first one before the packet's own timestamp and comes after it, each up to the lag |
| ReplaySafety.AcceptancesBounded | internal/spa/verifier.go:59-150 | with locks at most a lag out of clock order, n acceptances of one packet need (n - 1)(301 - lag) <= 600, whatever the TOTP codes |
| ReplaySafety.AtMostTwice | internal/spa/verifier.go:59-150 | in clock order no packet is accepted three times, whatever the TOTP codes |
| ReplaySafety.PassesCloseTogether | internal/spa/verifier.go:59-88 | with a code produced by one counter, two passes of the same bytes are less than (2 tolerance + 1) steps plus the sampling delay apart |
| ReplaySafety.AtMostOnce | internal/spa/verifier.go:30-153 | with one-counter codes and a window that fits 301 s together with sampling delay and lock lag, no bytes are accepted twice, whatever hashes collide |
| ReplaySafety.RefinesPerfectMemory | internal/spa/verifier.go:30-153 | under those conditions and without hash collisions, every verdict is that of a verifier remembering every packet for ever |
| ReplayWitness.ReplayExcludedExactly | internal/spa/verifier.go:59-150 | for every step, tolerance, sampling delay and lock lag, no history of packets with one-counter codes has a second acceptance if and only if window, delay and lag fit 301 s together |
| ReplayWitness.WideWindowAcceptedTwice | internal/spa/verifier.go:59-150 | whenever they do not fit, a flood of sealed packets after which the first is accepted again |
| ReplayWitness.RepeatedCodeAcceptedTwice | internal/spa/verifier.go:59-150 | in clock order, with the default step and tolerance and a code that comes back, the same packet is accepted twice |
| Handler.SameAddress | internal/spa/map_loader.go:82-87 | a whitelist key matches a frame's source exactly when the address bytes agree |
| Handler.ExpiryValue | internal/spa/map_loader.go:104-112 | the wrapping steps amount to uptime plus duration plus one second modulo 2^64, in every branch of the uptime fallbacks |
| Handler.ExpiryBound | internal/spa/map_loader.go:104-112 | the expiry is at most uptime plus duration plus one second, if and only if that sum is not negative |
| Handler.MapLoader.WhitelistIp | internal/spa/map_loader.go:76-113 | writes exactly one entry, with that expiry, or nothing for a missing map or an address without a 4-byte form |
| Handler.MapLoader.RemoveWhitelistIp | internal/spa/map_loader.go:143-155 | deletes exactly the address's entry, and reports an error when there is none |
| Handler.SpaHandler.ProcessPacket | internal/spa/handler.go:167-236 | the whitelist changes if and only if the packet is not static, verifies and has an IPv4 address, and then by exactly one entry |
| Handler.StaticExactly | internal/spa/handler.go:238-255 | a packet is static exactly when it equals the token and starts with neither version byte, so nothing that parses is |
| System.EntryIsLastGrant | internal/ebpf/programs/phantom.c:133-179 | in every run an entry holds the expiry of its address's most recent authorisation, and the address was not evicted since |
| System.WhitelistedImpliesAuthorised | internal/ebpf/programs/phantom.c:133-148 | whatever is evicted, the gate admits an address only while its most recent authorisation lasts |
| System.LazyDeletionInvisible | internal/ebpf/programs/phantom.c:133-148 | in every run the lazily deleted map answers every query exactly as "the most recent authorisation has not expired and was not evicted since" |
| System.GrantHasCause | internal/spa/handler.go:201-213 | every authorisation is a magic token or the write of an attempt that began, passed all checks, was the one waiting at its lock, was new there, and was the one waiting for this write |
| System.CriticalPortIsAuthorised | internal/ebpf/programs/phantom.c:257-262 | in every run a frame, told by its bytes, passes to a critical port only if its source's most recent authorisation is a token at most 30 s old or the unexpired write of a packet verified in this run, genuine and, for version 2, sealed with this very source address |
| System.PacketAuthorisationBound | internal/spa/map_loader.go:104-112 | an unexpired packet's authorisation is at most the replay window plus one second past the uptime sample |
| System.AdmittedSourceIsSealed | internal/spa/verifier.go:42-57 | the packet that authorises a frame's source is genuine, and for version 2 that source is the address inside the sealed bytes |
| System.CacheIsHistory | internal/spa/verifier.go:135-150 | in every run the cache is the one its lock steps make |
| System.HistoryIsChecked | internal/spa/verifier.go:30-129 | whatever reached the lock passed all checks |
| System.BytesAcceptedOnce | internal/spa/handler.go:161-213 | in every run of the whole system whose codes belong to one counter and whose window fits 301 s together with sampling delay and lock lag, the same bytes are accepted at most once |
| System.VerificationGrants | internal/spa/handler.go:167-213 | passing every check and being new under the lock leads to the whitelist write, whatever happens between the steps |
| System.HonestClientAdmitted | internal/spa/handler.go:167-213 | once its verification is done, a known client's packet from its bound address opens every critical port to that address until exactly the entry's expiry, unless the entry is evicted or overwritten |
| System.TokenOpensPorts | internal/ebpf/programs/phantom.c:169-179 | a token opens every critical port to its sender for exactly 30 s, unless the entry is evicted or overwritten |
| System.DroppedExactly | internal/ebpf/programs/phantom.c:199-298 | after every run a frame is dropped if and only if it is a token, a segment to a critical port whose sender's latest authorisation has expired, was evicted or never was, or a scan of a port neither critical nor decoy |
| System.DecoyPasses | internal/ebpf/programs/phantom.c:264-271 | after every run a frame to a decoy port that is not critical passes unchanged |
| System.CountersMatchTraffic | internal/ebpf/programs/phantom.c:128-130 | after every run each counter is the number of frames of its kinds, told by their bytes, modulo 2^64 |
| Exporter.Conservation | internal/exporter/elk.go:63-114 | in every interleaving exported documents are delivered, in flight or buffered, each exactly once |
| Exporter.OrderExactly | internal/exporter/elk.go:87-114 | for distinct documents, delivered then in flight then buffered is the export order throughout a run if and only if every batch is answered in turn |
| Exporter.InTurnKeepsOrder | internal/exporter/elk.go:87-114 | answers in turn keep the order, whatever overlaps, repeats or fails |
| Exporter.OutOfTurnBreaksLine | internal/exporter/elk.go:103-113 | any single answer out of turn breaks it |
| Exporter.ExportOrder | internal/exporter/elk.go:87-114 | in particular order is kept while flushes do not overlap, failed sends included |
| Exporter.OverlapReorders | internal/exporter/elk.go:97-104 | overlapping flushes can deliver in another order |
| Exporter.FinalFlushExactly | internal/exporter/elk.go:143-157 | with nothing but answers coming in after the final flush starts, all documents (distinct) are delivered if and only if every answer to a batch in flight is a success and no batch stays unanswered |
| Exporter.FinalFlushDelivers | internal/exporter/elk.go:143-157 | with anything happening while the final batch is sent, everything exported before Close (distinct documents) is delivered if and only if nothing in flight at its start is then still in flight or put back |
| Exporter.CloseLosesDocuments | internal/exporter/elk.go:97-113 | a run in which Close's own flush succeeds and documents stay behind |
| Exporter.FinalFlushUndisturbed | internal/exporter/elk.go:143-157 | undisturbed and successful, it delivers everything no other flush holds |
| Exporter.ElkExporter.BeginFlush | internal/exporter/elk.go:87-98 | empties the buffer into a batch, or does nothing on an empty buffer |
| Exporter.ElkExporter.EndFlush | internal/exporter/elk.go:103-113 | a batch is delivered, or put back in front of whatever was buffered meanwhile |
| Exporter.ElkExporter.ExportEvent | internal/exporter/elk.go:63-84 | with exporting enabled, stamps and appends, and starts a flush exactly when the buffer reaches the batch size; otherwise does nothing |
| Exporter.ExportExactly | internal/exporter/elk.go:63-84 | an export appends the event with the time it lacked, and takes the whole buffer as a batch when it is full with it |
| Exporter.FullBatches | internal/exporter/elk.go:78-81 | while sends succeed and only exports start them, every batch has exactly the batch size and fewer documents wait |
| Exporter.ElkExporter.Flush | internal/exporter/elk.go:117-121 | undisturbed, a flush delivers the whole buffer or changes nothing |
| Broadcast.AlwaysSound | internal/webdash/server.go:101-126 | in every interleaving the broadcaster never sends on a closed channel, no channel holds more than 100 messages, and exactly the streaming clients are registered, up to the one being added or removed |
| Broadcast.GotExactly | internal/webdash/server.go:118-126 | at every point a client has got exactly the messages whose offer met fewer than 100 waiting, in order |
| Broadcast.OfferedExactly | internal/webdash/server.go:118-126 | at every point the messages offered to a client and the one pending are those published while it was registered |
| Broadcast.RoomExactly | internal/webdash/server.go:118-126 | those offered with room are a subsequence of all offered, and all of them if and only if no offer met exactly 100 messages |
| Broadcast.ClientsGetTheirMessages | internal/webdash/server.go:140-164 | between messages each client has an in-order subsequence of what was published while it was registered, and all of it if and only if no offer to it met a channel with exactly 100 messages |
| Broadcast.AnyOrderSendsOnce | internal/webdash/server.go:118-126 | the protocol's steps for one message end, in any visiting order, with the message added once to each registered client's channel with fewer than 100 messages, and nothing else changed |
| Broadcast.LogServer.AddClient | internal/webdash/server.go:104-105 | registers the client with an empty channel, as the steps Join and Insert of the protocol |
| Broadcast.LogServer.RemoveClient | internal/webdash/server.go:106-107 | likewise by Leave and Delete: the channel its handler closes next is no longer registered, and no other changes |
| Broadcast.LogServer.SendToClients | internal/webdash/server.go:118-126 | adds the message to every registered channel with fewer than 100 messages and changes nothing else, as Publish, one SendOne for each client in some order, and Finish |
| Broadcast.LogServer.Iterate | internal/webdash/server.go:101-116 | every iteration of the select loop is the protocol's steps for what it received, and none for a closed log channel |
| Broadcast.LogServer.TakeMessage | internal/webdash/server.go:154-161 | a handler receives the oldest message of its channel and the others stay, which is one Receive step |
| Broadcast.LogServer.CloseChannel | internal/webdash/server.go:143-146 | a handler closes a channel that is no longer registered |
| Broadcast.LogServer.NothingLost | internal/webdash/server.go:101-164 | after any calls in any order, a client has got or holds all its messages in order if and only if none was offered while its channel held 100 |
| Resp.ParseResp | internal/honeypot/redis_handler.go:217-269 | the index loops stay in bounds, terminate and compute the line-by-line specification on every input |
| Resp.ParseArray | internal/honeypot/redis_handler.go:227-242 | the inner loop takes exactly the specified bulks and leaves the index on the last line used |
| Resp.ScanPrinted | internal/honeypot/redis_handler.go:229-230 | scanning a printed count gives the count |
| Resp.TakeEncoded | internal/honeypot/redis_handler.go:231-242 | the inner loop takes exactly the encoded arguments, whatever they start with |
| Resp.PartsCrlfFree | internal/honeypot/redis_handler.go:217-269 | no part ever contains CRLF |
| Resp.RoundTripExactly | internal/honeypot/redis_handler.go:217-269 | parsing encoded commands gives back all arguments in order, if and only if no argument contains CRLF and there is some argument unless there is no command |
| Resp.FieldsExactly | internal/honeypot/redis_handler.go:257-265 | the fields of a string are the one list of blank-free words that some spacing turns into it |
| Resp.InlineRoundTrip | internal/honeypot/redis_handler.go:255-259 | words on a line come back as the words, with any blanks between and around them |
| Resp.SingleRoundTripExactly | internal/honeypot/redis_handler.go:243-254 | a bulk string, a simple string and an error come back if and only if they do not contain CRLF |
| Resp.MixedRoundTrip | internal/honeypot/redis_handler.go:217-269 | arrays, strings, errors and lines of words in any mixture come back in order, and as the input's fields if there is nothing in them |
| Resp.ScanExactly | internal/honeypot/redis_handler.go:230 | the count scanned, with blanks, sign, leading zeros and trailing text, and 0 when it does not fit 64 bits |
| Sessions.ValidateExactly | internal/webdash/auth.go:108-197 | whenever cleanup runs, a token validates for a user if and only if a successful login entered it for that user at most 24 h ago and it was neither logged out nor entered again since |
| Sessions.FreshTokens | internal/webdash/auth.go:117-127 | with tokens never drawn twice, only logout or expiry ends a session |
| Sessions.ValidTokenHadPassword | internal/webdash/auth.go:108-130 | every valid token goes back to a password that matched when it was checked |
| Sessions.CleanupLeavesNoneExpired | internal/webdash/auth.go:184-197 | after every run, cleaning up leaves exactly the stored sessions that have not expired |
| Sessions.PasswordExactly | internal/webdash/auth.go:133-150 | over whole runs a password matches if and only if its hash is that of the user's latest successful change, or of the password stored at the start when there was none |
| Sessions.AuthManager.constructor | internal/webdash/auth.go:45-68 | a missing administrator is added and stored users are kept |
| Sessions.AuthManager.Authenticate | internal/webdash/auth.go:108-130 | undisturbed, a login checks and enters a session for 24 h as the two steps do, or enters none |
| Sessions.AuthManager.ChangeUserPassword | internal/webdash/auth.go:133-150 | succeeds exactly with the old password; then exactly the passwords with the new one's hash match and no other record, role or session changes; on failure nothing does |
| Sessions.AuthManager.ValidateToken | internal/webdash/auth.go:153-167 | the user of an unexpired stored session |
| Sessions.AuthManager.LogoutToken | internal/webdash/auth.go:178-182 | removes exactly this session |
| Sessions.AuthManager.CleanupSessions | internal/webdash/auth.go:184-197 | deleting in any order leaves exactly the unexpired sessions |
| Ports.ValidatePorts | internal/config/ports.go:98-116 | accepts exactly the duplicate-free, in-range lists, and reports the first duplicate before the first port out of range |
| Ports.GetPorts | internal/config/ports.go:65-80 | the ports of the list in order |
| Ports.FindPortDefinition | internal/config/ports.go:83-95 | the first critical definition of the port, else the first fake one, else none |
| PortGen.GroupByCategory | cmd/config-gen/main.go:126-129 | each category's slice is its definitions in list order |
| PortGen.SortByPort | cmd/config-gen/main.go:134-136 | a sorted permutation |
| PortGen.BuildCategories | cmd/config-gen/main.go:125-144 | grouping and sorting lose and duplicate no definition, in whatever order categories are visited |
| PortGen.Generate | cmd/config-gen/main.go:126-160 | the whole generator, with its category map visited in any order, emits functions true exactly on the ports of the two lists where aliases agree |
| PortGen.GeneratedMeaning | cmd/config-gen/main.go:60-82 | where aliases agree, each emitted function is true exactly on the ports of its list, whatever order the sorts produced |
| PortGen.CheckExactlyForAnyDecoys | cmd/config-gen/main.go:60-82 | for a list validation accepts and any decoys, the generated check is right if and only if the protected ports' macros stand for protected ports and no two for the same one |
| PortGen.CheckExactly | cmd/config-gen/main.go:60-82 | unless a decoy carries a protected port under another one's macro, that is every protected port's macro standing for that port itself |
| PortGen.PortKeptExactly | cmd/config-gen/main.go:60-82 | under the same condition and port by port: the check accepts a protected port if and only if its own macro stands for it |
| PortGen.CheckExactlyIfDecoysAgree | cmd/config-gen/main.go:60-82 | where decoys leave the protected macros alone, that is no two protected ports sharing a macro |
| PortGen.DecoyTakesMacro | cmd/config-gen/main.go:60-82 | a decoy with a protected port's macro removes that port from the check and puts its own in |
| PortGen.SwappedMacrosStillExact | cmd/config-gen/main.go:60-82 | decoys that carry each other's protected port can swap two macros and leave the check right |
| PortGen.SharedAliasLosesPort | cmd/config-gen/main.go:60-82 | under the same condition, of any two definitions that share a macro the generated check misses one's port |
| PortGen.ShippedAliasesAgree | internal/config/ports.go:30-62 | in the shipped lists every macro stands for one port |
| PortGen.ShippedCriticalList | internal/config/ports.go:30-34 | the shipped critical list passes validation and holds ports 21 and 22 |
| PortGen.ShippedChecks | internal/config/ports.go:30-62 | the shipped configuration generates a check true exactly on 21 and 22 and one true exactly on the 24 decoys |
| PortGen.ShippedTable | internal/config/ports.go:30-62 | so the XDP program runs with exactly that port table, port 21 being on both lists |

## Left out

- Strength of Ed25519, HMAC, SHA-1 and SHA-256: any functions with the right output sizes; theorems name the matching keys or absence of collisions they need.
- Sockets, deadlines, logging, file reads, eBPF loading, HTTP, TLS and certificates: I/O; clock samples, random bytes, uptime and BulkIndex results are parameters.
- The shared UDP read buffer between packet goroutines (internal/spa/handler.go:161): each packet is an immutable byte string.
- Byte layout of whitelist keys between Go and the kernel (internal/spa/map_loader.go:87): one abstract 32-bit address on both sides.
- LRU order of the BPF maps: eviction is an arbitrary step; a lookup's delete racing with a fresh write is covered as an eviction, so it can only deny.
- Floating point in the uptime conversion: uptime is a whole number of nanoseconds on the kernel's clock.
- Checksum theorems: frames whose total length exceeds the frame or falls short of the header, or whose header length field is below 5, which a receiver discards first; padding after the packet and other fragments' payloads are arbitrary.
- Clock range: wall-clock seconds are between 0 and 2^62, so that only the packet's own timestamp can make the timestamp arithmetic wrap; step * timeStep is not wrapped.
- Totp.ValidateTotp: a zero time step, on which the code divides by zero, is excluded.
- ReplayWitness.ReplayExcludedExactly: tolerance and sampling delay are below 2^62, so that counters near a timestamp do not share their 64-bit value.
- PortGen.SortGroups: does not state that groups end up sorted by name, because no decision depends on it.
- Alternate BulkIndex addresses (internal/exporter/elk.go:226-256): one success or failure per batch.
- Custom static tokens (internal/spa/handler.go:169-172): user space returns without acting.
- Broadcast.LogServer.TakeMessage: the line written for the browser, with newlines replaced, is not modelled.
- The client map of the broadcaster during a panic: a send on a closed channel is recorded and proved impossible rather than followed further.
- Request middleware, cookies, fleet and settings handlers, user file format: HTTP plumbing.
- phantom_spa.c, phantom_spa_dynamic.c and phantom_egress.c: not loaded by the agent, or with a constant verdict.
- Honeypot dialogues, banners, virtual file system, dashboard, menus and key generation: text plumbing with easy facts only.
