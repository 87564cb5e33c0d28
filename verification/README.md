# A verified model of nexapipe

nexapipe is a proxy that reaches services behind NAT. Most of it moves bytes
over QUIC, but its guarantees rest on a handful of self-contained pieces: an
allocator of virtual addresses, a name cache with single-flight resolution, the
framing of request bodies, a reader of TLS hellos, byte accounting for flows, a
connect budget, the tunnel's own wire formats, and the rules that pick a backend
and match a host name. This project models those pieces in Dafny and proves what
the program relies on them for.

`dafny verify dfyconfig.toml` checks everything.

## How the model is laid out

| files | what they model |
|---|---|
| `VirtualIpPool`, `VirtualIpRuns`, `VirtualIpGap`, `VirtualIpRecency`, `VirtualIp` | the virtual address pool: what each operation does, whole runs, what one kind of interruption costs, a plain recency list that the pool is proved to compute, and the pool as it runs in place |
| `DnsTable`, `DnsFlight`, `DnsRuns`, `DnsMemory`, `DnsCancel`, `DnsOverlap` | the name cache: the bounded table, the single-flight protocol as a transition system over any number of callers, whole runs, how long an answer lasts, which cancellations are harmless, and what the others lead to |
| `HttpBody`, `HttpFraming` | where a request body ends, and exactly what ends a chunked one |
| `TlsSni` | the host name in a ClientHello |
| `FlowTraffic`, `FlowLedger`, `FlowRegistry`, `FlowCancel` | byte accounting under interleaving, against what was recorded, the list of open flows, and ending one |
| `DialBudget` | one connect budget shared by several addresses |
| `L4Preface`, `L4Udp`, `L4Tunnel` | the tunnel's preface, datagram framing and payload reader |
| `Balancer`, `HostPattern`, `HostNames` | picking a backend, matching a host, and which hosts that is character by character |
| `Bytes`, `Text`, `Finite`, `Wrappers` | what they share |

Where the program updates state in place, a class does too, and its methods are
proved equal to functions on values; the theorems are about those functions.
Concurrent parts are transition systems: a lock's critical section and an atomic
access are one step each, and theorems are about every run.

Clocks, the resolver, the network and random draws are parameters. Times are
nanoseconds as naturals. 64-bit stamps, counters and ids are naturals; a length
that has to fit in 16 or 64 bits is bounded explicitly. A flight's identity is
its position among all flights ever created.

## Results worth knowing

- The pool's TTL hold. An address changes hands while an answer naming it may
  still be cached only if more names than the pool has addresses were asked
  about in that one TTL window. Below that bound no cached answer is ever wrong, and
  with nothing interrupted the bound is exact (`UnbrokenIffWindowsFit`).
  This holds in every run of allocations and lookups, and of allocations
  interrupted and recovered from, with one exception.
- The exception is an allocation of a new name interrupted in the few
  instructions between moving the cursor and the forward insert, in a pool that
  is neither full nor empty. The address skipped stays unoccupied, so the cursor
  comes back to occupied addresses before the pool is full and takes one of them
  from a live answer; three names in a pool of three addresses are enough
  (`ThreeNamesThreeAddresses`). Exactly these interruptions can have that effect
  (`SkipCostsAnAnswerIff`).
- Single flight, and cancellation. A caller that is cancelled drops the flight
  for everybody. At most one resolver call per name runs in every run in which no
  caller is cancelled while it waits for the resolver, or while others hold its
  undecided flight and none of them has got an answer yet. Every other
  cancellation is harmless, and each of these can be followed by two calls at
  once with nobody else cancelled (`TwoCallsAfterCancelIff`). In the same way no
  call starts while an answer is in the table unless a caller was cancelled while
  others held a flight that could still store one (`RestartAfterCancelIff`). The
  documentation promises one call per name without the exception.
- Chunked bodies. `ChunkedBodyIsExact` covers the grammar of RFC 9112;
  `FramingIsOverIff` says what the framing takes in general. Whatever comes
  between a chunk's data and the next line feed is dropped, a size may carry a
  plus sign, and a line that cannot be read or does not end in time is the other
  way for a body to be over.
- Refused patterns. The matcher's documentation says a pattern that would be
  refused matches nothing. It can: the empty pattern matches the empty host,
  `.x` matches the host `.x`, and `*.` matches the host `a.]`, which folds to a
  name ending in a dot. The claim holds for a host exactly when its folded form
  is not empty and has no dot at either end (`RefusedPatternsMatchNothingIff`).
- How long the name cache remembers. An answer stored at a time is what every
  caller is told until the positive or negative TTL has passed, and not after,
  unless a later store replaces or pushes out the name
  (`AnswerLastsItsLifetime`).
- The pool's key. A trailing dot is documented as making no difference to it.
  White space before the dot does make one, because it is trimmed only at the
  ends (`TrailingDotFoldsAwayIff`).
- The connect budget. Every address is sure to be dialled exactly when the budget
  exceeds the floor times all addresses but one and their count fits in 32 bits
  (`AllSureToBeTriedIff`).
- The server's datagram loop ends a flow whose held bytes outgrow their buffer.
  `Forward` shows that never happens, whatever the client sends.

## Model

| member | source | states |
|---|---|---|
| VirtualIpPool.TrailingDotFoldsAwayIff | crates/nexapipe-client/src/domains.rs:26-40 | adding a trailing dot to a name leaves its key as it is exactly when the name is all white space or none comes right before the dot |
| VirtualIpPool.SameKeyIff | crates/nexapipe-client/src/domains.rs:26-40 | two names share a key exactly when they are the same character by character up to ASCII case, apart from white space around them and the dots at their end |
| VirtualIpPool.KeyExists | crates/nexapipe-client/src/domains.rs:38-40 | every name is such a core, then dots, between white space |
| VirtualIpPool.Victim | crates/nexapipe-client/src/virtual_ip.rs:221-238 | the address to recycle is least by last use, then by number, among the addresses whose answer has expired, or among all when none has |
| VirtualIpPool.CursorIsFree | crates/nexapipe-client/src/virtual_ip.rs:255-264 | until the pool is full the cursor is an unoccupied address of the pool |
| VirtualIpPool.KnownNameStays | crates/nexapipe-client/src/virtual_ip.rs:245-253 | a known name keeps its address, nobody moves, and the hold starts again |
| VirtualIpPool.NewNameMoves | crates/nexapipe-client/src/virtual_ip.rs:255-286 | a new name gets an address of the pool and displaces nobody before the pool is full and exactly one name after |
| VirtualIpPool.AllocKeepsInv | crates/nexapipe-client/src/virtual_ip.rs:241-286 | an allocation keeps the two maps exact inverses and the occupied addresses exactly those right behind the cursor, going round |
| VirtualIpPool.AllocKeepsStamps | crates/nexapipe-client/src/virtual_ip.rs:190-195 | last-used stamps stay pairwise distinct, positive and bounded by the clock |
| VirtualIpPool.AllocBreaksLiveAnswerIff | crates/nexapipe-client/src/virtual_ip.rs:208-267 | with inverse maps, an allocation takes an address whose answer is still live exactly when the name is new and, if the pool is full, no answer has expired, or if not, the cursor is at an address held on a live answer |
| VirtualIpPool.CostlyMeansCrowded | crates/nexapipe-client/src/virtual_ip.rs:255-267 | with the occupied addresses right behind the cursor, that is exactly when the name is new, the pool is full and no answer has expired |
| VirtualIpPool.TightIsInterval | crates/nexapipe-client/src/virtual_ip.rs:255-264 | with the cursor as far from the first address as there are occupied ones, those are the addresses before it, or all |
| VirtualIpPool.CursorMovedAloneIsExactIff | crates/nexapipe-client/src/virtual_ip.rs:261-272 | after an interruption between moving the cursor and the forward insert the occupied addresses are right behind the cursor only if the pool is full or empty, and those before it only if it is full or has one address |
| VirtualIpPool.TornDomainsDistinct | crates/nexapipe-client/src/virtual_ip.rs:272-282 | at every point of an interrupted allocation the forward map names each domain once |
| VirtualIpPool.RebuildInverts | crates/nexapipe-client/src/virtual_ip.rs:313-319 | rebuilding from a forward map that names each domain once gives mutually inverse maps |
| VirtualIpPool.RecoveryRestoresInv | crates/nexapipe-client/src/virtual_ip.rs:261-319 | wherever an allocation was interrupted, recovery makes the maps inverse and trusts the forward map; the occupied addresses are right behind the cursor again exactly unless only the cursor had moved, in a pool neither full nor empty |
| VirtualIpPool.RecoveryKeepsSurvivors | crates/nexapipe-client/src/virtual_ip.rs:261-319 | every name but the displaced one holds the same address after recovery, and the new name holds its own exactly if the forward insert had happened |
| VirtualIpRuns.RunKeepsInv | crates/nexapipe-client/src/virtual_ip.rs:172-320 | in every state reached with no cursor moved alone, but in a full or an empty pool, the maps are inverse and the occupied addresses right behind the cursor |
| VirtualIpRuns.RunKeepsInverse | crates/nexapipe-client/src/virtual_ip.rs:172-320 | in every reachable state, whatever was interrupted and wherever, the maps are inverse and hold addresses of the pool only |
| VirtualIpRuns.RunKeepsTight | crates/nexapipe-client/src/virtual_ip.rs:255-264 | in every state reached with no cursor moved alone, but in a full pool or one of one address, the occupied addresses are those from the first up to the cursor, or all |
| VirtualIpRuns.CalmRunKeepsStamps | crates/nexapipe-client/src/virtual_ip.rs:190-295 | in every state reached without a recovery the stamps are distinct |
| VirtualIpRuns.RunRecordsExpiry | crates/nexapipe-client/src/virtual_ip.rs:197-206 | every expiry in the pool is that of an answer for that domain given in the run |
| VirtualIpRuns.EarlyMoveNeedsCrowd | crates/nexapipe-client/src/virtual_ip.rs:221-286 | in every run with no cursor moved alone, but in a full or an empty pool, an address moves before its answer expires only if more distinct names than there are addresses were asked about in that TTL window |
| VirtualIpRuns.NoAnswerFalsified | crates/nexapipe-client/src/virtual_ip.rs:50-64 | in every such run with at most as many names per TTL window as addresses, every address handed out still belongs to its name in every state before the answer expires |
| VirtualIpRuns.UnbrokenIffWindowsFit | crates/nexapipe-client/src/virtual_ip.rs:50-64 | in every run without interruptions no address ever changes hands under a live answer exactly when no TTL window sees more distinct names than there are addresses |
| VirtualIpGap.SkipCanFalsify | crates/nexapipe-client/src/virtual_ip.rs:261-272 | from every such run, a cursor moved alone for a new name in a pool neither full nor empty can be followed by allocations that take an address from a live answer, with no window over the bound |
| VirtualIpGap.SkipCostsAnAnswerIff | crates/nexapipe-client/src/virtual_ip.rs:261-272 | after such a run, one more cursor moved alone can be followed by uninterrupted operations that falsify a live answer, with no window over the bound, exactly if the name is new and the pool neither full nor empty |
| VirtualIpGap.ThreeNamesThreeAddresses | crates/nexapipe-client/src/virtual_ip.rs:255-272 | three names in a pool of three addresses, one of them interrupted, take an address from a live answer in a pool that is not full |
| VirtualIpRecency.VictimIsFirst | crates/nexapipe-client/src/virtual_ip.rs:208-238 | the victim is the first expired entry of the recency list, or its head when none has expired, whatever order the map yields |
| VirtualIpRecency.AllocRefines | crates/nexapipe-client/src/virtual_ip.rs:241-286 | an allocation returns the recency list's address and moves or appends the entry at the back |
| VirtualIpRecency.LookupRefines | crates/nexapipe-client/src/virtual_ip.rs:288-295 | a lookup returns the list's name and moves the entry to the back |
| VirtualIpRecency.RunRefinesList | crates/nexapipe-client/src/virtual_ip.rs:172-295 | over every run without a recovery the pool is the recency list |
| VirtualIpRecency.RunAnswersAsList | crates/nexapipe-client/src/virtual_ip.rs:241-295 | after every such run the next address and the next lookup are the list's |
| VirtualIp.Pool.constructor | crates/nexapipe-client/src/virtual_ip.rs:173-182 | a new pool, whatever its bounds, is empty with its cursor at the first address, and satisfies the invariants |
| VirtualIp.Pool.Touch | crates/nexapipe-client/src/virtual_ip.rs:189-195 | advances the clock and stamps the address with it |
| VirtualIp.Pool.Answer | crates/nexapipe-client/src/virtual_ip.rs:197-206 | restarts the hold on the address |
| VirtualIp.Pool.RecyclableAddress | crates/nexapipe-client/src/virtual_ip.rs:221-238 | one pass over the map in any order finds the address to recycle |
| VirtualIp.Pool.Alloc | crates/nexapipe-client/src/virtual_ip.rs:240-286 | performs the specified allocation of the folded name and returns its address |
| VirtualIp.Pool.Lookup | crates/nexapipe-client/src/virtual_ip.rs:288-295 | returns the holder's name and stamps the address, or changes nothing |
| VirtualIp.Pool.RebuildReverse | crates/nexapipe-client/src/virtual_ip.rs:301-319 | the reverse map becomes one collected from the forward map, and the specified one when each domain appears once |
| DnsTable.StoreKeepsOthers | crates/nexapipe/src/dns.rs:517-524 | a store keeps the table within its bound, stores the entry and changes no other |
| DnsTable.StoreLosesAtMostOne | crates/nexapipe/src/dns.rs:517-587 | a store loses at most one unexpired name, only from a full table with nothing expired, and that name has a minimal last-used stamp |
| DnsTable.FullStoreLosesOne | crates/nexapipe/src/dns.rs:570-587 | a store into a full table with nothing expired does lose one, unless the stored name is itself the oldest |
| DnsTable.TableBounded | crates/nexapipe/src/dns.rs:70-75 | over every sequence of stores the table never exceeds its bound |
| DnsTable.DnsCache.Lookup | crates/nexapipe/src/dns.rs:493-503 | a hit is exactly an entry that has not expired, and marks it as just used |
| DnsTable.DnsCache.ByAge | crates/nexapipe/src/dns.rs:579-583 | the names, each once, the ones asked about longest ago first |
| DnsTable.DnsCache.Evict | crates/nexapipe/src/dns.rs:570-587 | expired entries go, and if the table is still full, as many of the least recently used as make room for one |
| DnsTable.DnsCache.StoreEntry | crates/nexapipe/src/dns.rs:517-524 | performs the specified store |
| DnsFlight.FlightTable.Flight | crates/nexapipe/src/dns.rs:526-537 | the name's flight, or a new one distinct from every flight before it |
| DnsFlight.FlightTable.End | crates/nexapipe/src/dns.rs:539-547 | forgets the flight for the name if it is this one, and nothing else |
| DnsRuns.NoFlightLeftBehind | crates/nexapipe/src/dns.rs:341-352 | in every run a flight is in the table only while it has a guard and none of its guards has ended; with no guard left the table is empty |
| DnsRuns.OldGuardSparesNewFlight | crates/nexapipe/src/dns.rs:539-547 | a guard that ends removes its own flight and never a newer one for the same name |
| DnsRuns.JoinedShareOutcome | crates/nexapipe/src/dns.rs:396-410 | in every run all callers that joined a flight and finished got the same outcome |
| DnsRuns.HitsAgreeWithResolver | crates/nexapipe/src/dns.rs:446-515 | in every run a hit is what the resolver said about that name in a call stored less than the positive or negative TTL ago, never a transient failure, and the table is within its bound |
| DnsRuns.CallersAreToldWhatWasSaid | crates/nexapipe/src/dns.rs:386-411 | in every run what a caller is told is what the resolver said about that name in some call |
| DnsMemory.AnswerLastsItsLifetime | crates/nexapipe/src/dns.rs:464-515 | in every run, once something was said about a name and stored, a caller that asks, with nothing stored in between that replaces or pushes out the name, is told just that at once until the positive or negative TTL has passed, and finds nothing from then on |
| DnsMemory.LongestUnusedGoes | crates/nexapipe/src/dns.rs:493-587 | in every run a store pushes out an unexpired name only from a full table with nothing expired, only one, and no other name in the table was last hit or stored earlier |
| DnsCancel.AtMostOneCallPerName | crates/nexapipe/src/dns.rs:37-42 | in every run whose cancellations leave behind no running call and no guarded flight that may start one, at most one resolver call runs per name |
| DnsCancel.NoCallWhileRemembered | crates/nexapipe/src/dns.rs:446-462 | in every run whose cancellations leave behind no guarded flight that may store an answer, no call starts while an unexpired answer is in the table |
| DnsOverlap.CancellationAllowsTwoCalls | crates/nexapipe/src/dns.rs:401-409 | for every name there is a run with one cancellation in which two calls for it run at once |
| DnsOverlap.CancelCanDouble | crates/nexapipe/src/dns.rs:396-411 | from every reachable state, a cancellation that does leave such a call or flight behind can be followed by two calls for the name at once, with nobody else cancelled |
| DnsOverlap.TwoCallsAfterCancelIff | crates/nexapipe/src/dns.rs:37-42 | as long as no such cancellation has happened, one more cancellation can be followed by two calls for a name at once, with nobody else cancelled, exactly if it is one |
| DnsOverlap.CancelCanRestart | crates/nexapipe/src/dns.rs:446-462 | from every reachable state, a cancellation that leaves behind a guarded flight that may store an answer can be followed by a call that starts while an answer for the name is in the table |
| DnsOverlap.RestartAfterCancelIff | crates/nexapipe/src/dns.rs:446-491 | as long as no such cancellation has happened, one more cancellation can be followed by that exactly if it is one |
| DnsOverlap.WaitersMakeHarm | crates/nexapipe/src/dns.rs:400-409 | with two callers waiting for a flight nobody runs yet, cancelling one is harmful in both ways, in the second if any answer is remembered for a while |
| HttpBody.Feed | crates/nexapipe-client/src/http.rs:320-378 | one byte keeps the framing valid: data always has bytes to come, and the held line stays within its limit |
| HttpBody.TakeConcat | crates/nexapipe-client/src/http.rs:309-381 | taking two segments in turn is taking their concatenation |
| HttpBody.ShortTakeIsDone | crates/nexapipe-client/src/http.rs:309-381 | a short take means the chunked body is over |
| HttpBody.ChunkSizeReads | crates/nexapipe-client/src/http.rs:389-401 | every size line of section 7.1 of RFC 9112, its size written in hexadecimal and followed by blanks and an extension, reads as that size |
| HttpBody.ChunkSizeIff | crates/nexapipe-client/src/http.rs:389-401 | a line reads as a size exactly when it is a hexadecimal numeral for it below 2^64, in either case, a plus sign allowed, between white space, then maybe an extension, then the end of the line |
| HttpBody.PlainSizeReads | crates/nexapipe-client/src/http.rs:389-401 | the shortest hexadecimal numeral of any 64-bit number, on a line of its own, reads as that number |
| HttpBody.ChunkedBodyIsExact | crates/nexapipe-client/src/http.rs:308-406 | of any chunked body of section 7.1 of RFC 9112 within the line limits, followed by any bytes, precisely the body is taken and the framing is complete |
| HttpBody.StrictPrefixIsIncomplete | crates/nexapipe-client/src/http.rs:308-387 | no strict prefix of such a body completes it |
| HttpFraming.LooseBodyIsExact | crates/nexapipe-client/src/http.rs:308-387 | of chunks with any readable size line and any bytes up to the line feed after the data, ended by an empty line after a zero size or by framing that cannot be followed, precisely those bytes are taken |
| HttpFraming.FramingIsOverIff | crates/nexapipe-client/src/http.rs:308-406 | the chunked framing is over after some bytes exactly if they start with such a body, and what it has taken is that body |
| HttpBody.UnreadableSizeEndsBody | crates/nexapipe-client/src/http.rs:334-338 | a size line that cannot be read ends the body with that line |
| HttpBody.OverlongSizeEndsBody | crates/nexapipe-client/src/http.rs:339-343 | a size line that outgrows its limit ends the body at the byte that does not fit |
| HttpBody.OverlongTrailerEndsBody | crates/nexapipe-client/src/http.rs:371-375 | a trailer line that outgrows its limit ends the body at the byte that does not fit |
| HttpBody.SegmentsDoNotMatter | crates/nexapipe-client/src/http.rs:241-255 | for any body and any way of cutting the input, the total taken and the final state are those of a single take |
| HttpBody.ShortTakeCompletes | crates/nexapipe-client/src/http.rs:241-264 | a short take implies the body is complete, and a complete body takes nothing more |
| HttpBody.Declared | crates/nexapipe-client/src/http.rs:205-239 | a request has a body of known length exactly when no transfer encoding is named and all of one or more lengths are decimal numerals for that number, blanks around them or not |
| HttpBody.DeclaredLengthIff | crates/nexapipe-client/src/http.rs:222-228 | a value reads as a length exactly when it is a decimal numeral for it below 2^64 between blanks |
| HttpBody.PlainLengthIsSaid | crates/nexapipe-client/src/http.rs:226-228 | the shortest decimal numeral of a number says that number |
| HttpBody.LengthIsExact | crates/nexapipe-client/src/http.rs:241-264 | a body of declared length is the first that many bytes, however they arrive, and complete exactly with the last |
| Bytes.ParseIff | crates/nexapipe-client/src/http.rs:226-401 | digits read as a number exactly when they are written from it by repeated division, zeros or a plus sign allowed in front, below 2^64 |
| Bytes.ParseInvertsDigits | crates/nexapipe-client/src/http.rs:226-401 | every 64-bit number is read back from its shortest decimal and hexadecimal numeral |
| HttpBody.ChunkedReader.TakeBytes | crates/nexapipe-client/src/http.rs:309-381 | the byte loop computes the specified take |
| HttpBody.ChunkedReader.FeedByte | crates/nexapipe-client/src/http.rs:319-378 | one pass of the loop body is the specified transition |
| HttpBody.RequestBody.TakeBytes | crates/nexapipe-client/src/http.rs:241-255 | a request's body takes the specified number of bytes and is left in the specified state |
| TlsSni.HelloReads | crates/nexapipe-proto/src/tls.rs:61-165 | for every ClientHello with a host name, whatever surrounds it and whatever follows the record, the answer is that name if it is presentable and none otherwise |
| TlsSni.SniIff | crates/nexapipe-proto/src/tls.rs:61-165 | the answer is a name exactly when it is 1 to 253 printable bytes and the data starts with a complete ClientHello record whose first host name it is |
| TlsSni.OnlyTheRecordIsRead | crates/nexapipe-proto/src/tls.rs:94-105 | the answer does not depend on any bytes after the record |
| TlsSni.NoAnswerBeforeTheRecordEnds | crates/nexapipe-proto/src/tls.rs:88-92 | there is no answer on any strict prefix of the record |
| TlsSni.ExtractSni | crates/nexapipe-proto/src/tls.rs:82-105 | the cursor-based reader computes the specified answer |
| TlsSni.ReadHello | crates/nexapipe-proto/src/tls.rs:107-127 | the fields before the extensions are passed as specified |
| TlsSni.ReadExtensions | crates/nexapipe-proto/src/tls.rs:127-164 | the loop over the extensions ends and computes the specified answer |
| TlsSni.ReadNameList | crates/nexapipe-proto/src/tls.rs:134-161 | the loop over the name list ends and stops at the first host name |
| TlsSni.Cursor.ReadU8 | crates/nexapipe-proto/src/tls.rs:179-183 | the next byte, or nothing at the end |
| TlsSni.Cursor.ReadU16 | crates/nexapipe-proto/src/tls.rs:185-189 | the next two bytes, most significant first, or nothing |
| Bytes.U16Order | crates/nexapipe-proto/src/tls.rs:185-189 | two-byte numbers are ordered by their first byte and then by their second |
| TlsSni.Cursor.Take | crates/nexapipe-proto/src/tls.rs:191-200 | the next bytes and a cursor past them, or nothing and a cursor left alone |
| FlowTraffic.RunKeepsInv | crates/nexapipe-client/src/traffic.rs:182-337 | at every moment of every interleaving a node's bytes are its flows' bytes plus untracked bytes plus recordings halfway, its active count is its guards entered and not left, ids are distinct, and the registry lists exactly the flows between listing and removal, each under its id |
| FlowTraffic.StepConserves | crates/nexapipe-client/src/traffic.rs:199-215 | every step keeps a node's total equal to that sum, in each direction |
| FlowTraffic.StepKeepsCount | crates/nexapipe-client/src/traffic.rs:115-129 | every step keeps the active count equal to the open guards |
| FlowTraffic.LeaveNeverClamps | crates/nexapipe-client/src/traffic.rs:119-129 | a guard that leaves was counted, so the saturating decrement never clamps |
| FlowTraffic.QuietTotalsAddUp | crates/nexapipe-client/src/traffic.rs:265-277 | with no recording under way a node's total is exactly what its flows moved |
| FlowLedger.NodeTotalsAreRecorded | crates/nexapipe-client/src/traffic.rs:85-103 | at every moment of every interleaving a node's sent bytes are those recorded as sent on its flows, listed or not, and its received bytes those recorded as received |
| FlowLedger.FlowCountsAreRecorded | crates/nexapipe-client/src/flow.rs:149-163 | a listed flow's sent and received counts, with what is under way to it, are the bytes recorded as sent and as received on that very flow |
| FlowLedger.QuietFlowsAreExact | crates/nexapipe-client/src/traffic.rs:199-215 | with nothing under way a flow's two counts are exactly what was recorded on it |
| FlowLedger.ActiveIsOpenedLessDropped | crates/nexapipe-client/src/traffic.rs:115-129 | at every moment of every interleaving a node's active count is the guards opened on it less the guards dropped |
| FlowLedger.RegistryIsWhatWasPut | crates/nexapipe-client/src/flow.rs:256-284 | in every run the registry lists a flow, under its id, exactly from the step that puts it there to the one that takes it off |
| FlowTraffic.IdsAreNeverReused | crates/nexapipe-client/src/flow.rs:243-265 | in every run the id an opening flow takes from the counter is one no flow has had, differs from that of every other opening, and stays that flow's for the rest of the run |
| FlowTraffic.ClosedStaysClosed | crates/nexapipe-client/src/flow.rs:281-284 | a flow that has closed is never open or listed again, nor is any other flow listed under its id |
| FlowRegistry.Registry.Open | crates/nexapipe-client/src/flow.rs:256-279 | a new flow is listed under an id above every id before it |
| FlowRegistry.Registry.Remove | crates/nexapipe-client/src/flow.rs:281-284 | exactly that flow is off the list |
| FlowRegistry.Registry.View | crates/nexapipe-client/src/flow.rs:296-313 | the flows with the lowest ids, in ascending order, as many as the limit allows, each with its node and its two counts as they are now |
| FlowRegistry.Registry.Close | crates/nexapipe-client/src/flow.rs:315-333 | the flow is asked to end exactly if it is listed, and no other flow is affected |
| FlowRegistry.Registry.CloseNode | crates/nexapipe-client/src/flow.rs:335-352 | exactly the node's flows are asked to end, and the count is theirs |
| FlowCancel.RunKeepsInv | crates/nexapipe-client/src/flow.rs:170-190 | in every interleaving a sleeping waiter registered before any notification, and nobody is awake or gone unless the flag is set |
| FlowCancel.NoWaiterBlockedAfterCancel | crates/nexapipe-client/src/flow.rs:165-190 | once a cancel has finished no waiter is blocked |
| FlowCancel.ReturnsOnlyWhenAsked | crates/nexapipe-client/src/flow.rs:170-184 | no waiter returns with the flag unset, and none goes round the loop a second time |
| FlowCancel.FlaggedWaitersReturn | crates/nexapipe-client/src/flow.rs:170-190 | in every run a waiter takes at most two more steps of its own once the flag is set, has returned with the second, and is never blocked in between once a cancel has finished |
| DialBudget.ConnectAddrs | crates/nexapipe/src/backend_conn.rs:187-233 | connects exactly if some address accepts within the share it is given, to that address, after every earlier one refused or did not answer in time; otherwise names every address once, in order, with its refusal, a timeout or not tried, as its dial says |
| DialBudget.FairShareConnects | crates/nexapipe/src/backend_conn.rs:235-246 | with at least the floor for every address, one that would accept within an equal share of the whole budget is enough to connect |
| DialBudget.NotTriedRun | crates/nexapipe/src/backend_conn.rs:200-208 | past the deadline every address left is named and none is dialled |
| DialBudget.EndsByDeadline | crates/nexapipe/src/backend_conn.rs:15-21 | for any budget and any dials the run ends by the deadline |
| DialBudget.SharesNeverShrink | crates/nexapipe/src/backend_conn.rs:235-246 | with at least the floor for every address, of at most 2^32 - 1, shares never shrink along the run and each is at least an equal share of the whole budget |
| DialBudget.EnoughForAll | crates/nexapipe/src/backend_conn.rs:30-35 | for at most 2^32 - 1 addresses, more than the floor for all of them but one is enough for every address to be dialled |
| DialBudget.BlackholesStrandTheLast | crates/nexapipe/src/backend_conn.rs:200-208 | with less than that, black holes leave the last address undialled |
| DialBudget.TooManyStrandTheLast | crates/nexapipe/src/backend_conn.rs:211-245 | with more addresses than 32 bits can count, black holes leave the last address undialled whatever the budget |
| DialBudget.AllSureToBeTriedIff | crates/nexapipe/src/backend_conn.rs:187-246 | every address is sure to be dialled exactly when the budget exceeds the floor times all addresses but one and their count fits in 32 bits |
| L4Preface.Encode | crates/nexapipe-proto/src/preface.rs:147-168 | appends the encoding of a preface with a valid host and a nonzero port, and otherwise says which is wrong and leaves the buffer alone |
| L4Preface.EncodedLayout | crates/nexapipe-proto/src/preface.rs:157-167 | the encoding is the magic, the version, the protocol, the length of the host, the host and the port, most significant byte first |
| L4Preface.EncodableIff | crates/nexapipe-proto/src/preface.rs:147-240 | a preface is encodable exactly with a host of 1 to 255 printable ASCII bytes and a nonzero port |
| L4Preface.DecodeInvertsEncode | crates/nexapipe-proto/src/preface.rs:176-229 | decoding an encoding followed by anything gives the preface, its host with every upper-case ASCII letter in lower case and no other change, and the encoding's length |
| L4Preface.DecodeReadsAnEncoding | crates/nexapipe-proto/src/preface.rs:183-229 | whatever decodes is the encoding of the decoded preface, but for upper-case letters in its host |
| L4Preface.StrictPrefixIsIncomplete | crates/nexapipe-proto/src/preface.rs:178-182 | every strict prefix of an encoding asks for more bytes |
| L4Preface.DecisionIsStable | crates/nexapipe-proto/src/preface.rs:183-229 | a decision survives any bytes that follow |
| L4Preface.DecidedInTime | crates/nexapipe-proto/src/preface.rs:21-23 | a decision is reached within the longest preface's length |
| L4Preface.ReadPreface | crates/nexapipe/src/l4/mod.rs:966-1007 | however the stream is cut, the outcome and the leftover are those of the whole stream, nothing is read once it is decided, and fewer bytes than the longest preface are held before each read |
| L4Udp.EncodeFrame | crates/nexapipe-proto/src/udp.rs:17-25 | appends the frame of a payload that fits a datagram, and otherwise leaves the buffer alone |
| L4Udp.FrameReads | crates/nexapipe-proto/src/udp.rs:67-80 | a frame followed by anything decodes to its payload and leaves the rest |
| L4Udp.FrameLayout | crates/nexapipe-proto/src/udp.rs:5-25 | a frame is the length of its payload, at most 65507, most significant byte first, and then the payload |
| L4Udp.DrainIff | crates/nexapipe/src/l4/mod.rs:775-812 | draining yields the one reading of the bytes as whole frames that fit a datagram, up to a frame not all there or one too large, and says which |
| L4Udp.DecodeIsStable | crates/nexapipe-proto/src/udp.rs:67-80 | a decoded frame survives any bytes that follow |
| L4Udp.DrainConcat | crates/nexapipe/src/l4/mod.rs:775-807 | draining in two goes is draining at once |
| L4Udp.DrainPending | crates/nexapipe/src/l4/mod.rs:775-812 | the inner loop takes every complete frame and keeps the rest |
| L4Udp.Forward | crates/nexapipe/src/l4/mod.rs:765-835 | however the stream is cut exactly its datagrams are sent on, the flow ends early only for a frame no datagram can carry, and the held bytes never outgrow their buffer |
| L4Udp.RoundTrip | crates/nexapipe-proto/src/udp.rs:11-80 | any list of datagrams, encoded and cut up in any way, comes out as the same list |
| L4Tunnel.TunnelReader.ReadStatus | crates/nexapipe-client/src/l4.rs:133-179 | takes the first byte of the stream as the status and keeps every byte that came with it |
| L4Tunnel.TunnelReader.Read | crates/nexapipe-client/src/l4.rs:181-196 | fills the front of the buffer with the next bytes, and reports the end exactly when none are left |
| L4Tunnel.ReadAll | crates/nexapipe-client/src/l4.rs:124-197 | for any chunking and any buffer sizes the reads yield the stream after its status byte, and with room in every buffer as many reads as there are bytes reach its end |
| Balancer.RoundRobin.Next | crates/nexapipe-client/src/lb.rs:57-78 | the loop computes the specified selection and leaves the counter past it |
| Balancer.SelectNoneIff | crates/nexapipe-client/src/lb.rs:57-78 | nothing is selected exactly when nothing is usable, and the counter still moves on once per candidate |
| Balancer.SelectIsNext | crates/nexapipe-client/src/lb.rs:57-78 | a selection is the first usable backend the counter comes to, and leaves the counter one past it |
| Balancer.RotationIsFair | crates/nexapipe-client/src/lb.rs:57-78 | with u usable backends any u consecutive selections return each of them exactly once |
| Balancer.RandomPickIsBijection | crates/nexapipe-client/src/lb.rs:94-113 | ranks below the number of usable backends correspond one to one to the usable backends |
| HostPattern.WildcardMatchesIffUnder | crates/nexapipe-proto/src/host.rs:117-140 | a folded wildcard matches exactly the names whose label list strictly extends its suffix's |
| HostNames.NameMatchesIff | crates/nexapipe-proto/src/host.rs:79-140 | a pattern whose core, without brackets and trailing dots, does not start with a star matches exactly the hosts whose core is the same character by character up to ASCII case |
| HostNames.WildcardMatchesIff | crates/nexapipe-proto/src/host.rs:79-140 | a pattern with core `*.s` matches exactly the hosts whose core ends with a dot and then s, up to ASCII case |
| HostNames.LooseMatchesNothing | crates/nexapipe-proto/src/host.rs:123-140 | a pattern whose core is a star and then anything but a dot matches no host |
| HostNames.StarMatchesAll | crates/nexapipe-proto/src/host.rs:130-132 | the catch-all matches every host |
| HostNames.ListMatchesIff | crates/nexapipe-proto/src/host.rs:225-231 | a list matches exactly when one of its patterns does |
| HostNames.CoreExists | crates/nexapipe-proto/src/host.rs:79-94 | every name is a core, maybe between brackets, and then dots |
| HostNames.AcceptedIff | crates/nexapipe-proto/src/host.rs:142-204 | a pattern without brackets is accepted exactly if it matches some host whose core is not empty and has no dot at either end |
| HostPattern.AcceptedWildcardFolds | crates/nexapipe-proto/src/host.rs:96-115 | an accepted wildcard folds to a wildcard |
| HostPattern.AcceptedWildcardMatchesIff | crates/nexapipe-proto/src/host.rs:214-231 | an accepted bracket-free wildcard matches a bracket-free host exactly when the folded host's labels strictly extend those of the folded suffix |
| HostPattern.OnlyStarFoldsToStar | crates/nexapipe-proto/src/host.rs:96-115 | no pattern but the catch-all folds to the catch-all |
| HostPattern.FoldBracketFree | crates/nexapipe-proto/src/host.rs:79-94 | a name without brackets loses only its trailing dots and its case |
| HostPattern.FoldIgnoresCaseAndDots | crates/nexapipe-proto/src/host.rs:64-94 | trailing dots do not tell hosts apart, nor does case, brackets or not |
| HostPattern.FoldedHost | crates/nexapipe-proto/src/host.rs:79-94 | a folded host never starts with a bracket, and folds to itself unless it ends with a dot |
| HostPattern.RefusedPatternsMatchNothingIff | crates/nexapipe-proto/src/host.rs:142-231 | refused patterns match nothing for a host exactly when its folded form is not empty and has no dot at either end |
| HostPattern.EmptyPatternMatchesEmptyHost | crates/nexapipe-proto/src/host.rs:222-231 | the refused empty pattern does match a host that folds to the empty name |

## Left out

- `IpMapping`'s two pools, its lock and the conversion to addresses: it forwards to one pool or the other, and the pools share nothing.
- Poisoned locks and memory orderings: a critical section and an atomic access are single steps; only the data effect of a recovery is modelled.
- Unicode case in `fold_domain`: lower-casing is over ASCII. Of lower-casing `TrailingDotFoldsAwayIff` uses only that it keeps a longer text longer.
- VirtualIpPool.SameKeyIff: speaks of ASCII case, so of names whose other letters are all in lower case; the program also brings together the cases of other scripts.
- `SystemResolver`, error classification and `resolve_uncached`: the resolver is anything that answers with addresses, no such name, or a failure.
- `OnceCell` and task scheduling: a cell is set once, one caller at a time holds its permit, and a caller may be cancelled at any point before it is done, which is more often than the runtime allows.
- `parse_http_request_legacy`, response parsing and WebSocket detection: text handling that rests on another library.
- The bodies of requests as the `http` crate stores headers: `Declared` is given whether a transfer encoding is named and the raw values of the lengths.
- The start instant and metadata of a listed flow: they are copied and never computed with.
- The client's twin of the server's datagram loop, socket errors and idle timeouts.
- `parse_backend_addr`: splitting of configured addresses, most of it delegated to a URL library.
- Concurrent use of the round-robin counter and its wrap-around.
- `protocol.rs`, `alpn.rs`, `deadline.rs`, `discovery.rs`, `relay.rs`, `stable_ticket.rs`, `virtual_block.rs`: tables, constants and fixed-offset arithmetic that would add only easy members.
- QUIC, sockets, tasks, user interfaces and memory wiping.
