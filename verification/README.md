# Gannet: a verified model

Gannet discovers devices on a network, follows them in a persistent registry and guesses what they are.
This project models its deterministic cores in Dafny and proves what they keep.

| file | models |
|---|---|
| `Addresses.dfy` | IPv4 and MAC addresses and the texts used as registry keys |
| `IdentityStore.dfy`, `StoreLaws.dfy`, `StoreRuns.dfy` | the registry (`upsert`, `get`, `set_tag`), the laws of one call, the laws of whole runs |
| `PassiveListener.dfy`, `ListenerDetails.dfy`, `RawCapture.dfy` | the listening loop on top of the registry, what its events teach the registry, and the raw-capture thread that feeds it |
| `DnsName.dfy`, `DnsQuery.dfy`, `DnsRecords.dfy`, `HostNames.dfy`, `DnsMessage.dfy`, `DnsTruncation.dfy`, `DnsEncoder.dfy` | name decompression, query building, the listener's and the resolver's walks over a response, hostname candidates, message layout, packets that end early, a compressing reference encoder |
| `PortAllocator.dfy`, `ActiveSweep.dfy` | the lock-free port counters and the concurrent sweep, over every interleaving |
| `TcpOptions.dfy`, `OsGuess.dfy` | the two TCP option loops and the scoring of operating systems |
| `Subnets.dfy`, `TagHash.dfy` | 32-bit mask arithmetic and host enumeration, and the key hash |
| `Prelude.dfy`, `Arithmetic.dfy` | order-preserving merging without repetition; remainders |

How the model reads the code:

- The registry is a class whose `records` field is reassigned by its methods; each method is tied to a function of
  the old records (`Upserted`, `Retagged`), and the laws are proved about that function. The search through the
  unordered map may return any match: `Findable` says which answers are possible, `found` is the one that was
  given, and laws hold for every possible `found` unless they say otherwise.
- Clock readings, the vendor table and the tag generator are parameters. So is the conversion of label bytes to
  text (`toText`, a lossy UTF-8 conversion in the code): the DNS results hold for whatever conversion is used.
- The concurrent parts are state machines over atomic steps. A run is any sequence of steps by any threads.
- In name decompression a length byte below 0xC0 is taken at face value, as the code does; section 4.1.4 of
  RFC 1035 reserves 0x40 to 0xBF.
- The listener and the resolver each walk a response with their own loops, their own step for one record and their
  own reaction to an unreadable question (`return` without removing repetitions against `break`) and to an empty
  record count; what they share is reading one name and taking its service type.
- Letter case, UTF-8 validity and the word list of `is_service_label` are parameters (`TextRules`).
- Sighting counts are unbounded numbers; `CountersFit` shows that the 32-bit counters of the code are exact for
  every run of fewer than 2^32 sightings.

Three places where the code does less than the repository's own README promises, each with its exact condition and a
run that reaches it:

- "Tracks devices across IP changes" (README.md:11): a known device that turns up at a new address is followed there
  exactly when nobody else is recorded at it (`FollowedToNewAddress`); `MovedOntoNotFollowed` is a run in which it is
  not. When another MAC is recorded there, that device may be credited instead (`CreditedToOwnMacExactly`), as often as
  a newcomer is seen (`TakenOverCredited`).
- The device's own record, with its tag and count, can be overwritten by a promotion exactly when its MAC and its
  address both have a record (`NeverForgetsExactly`), and is when the search answers with the latter
  (`ForgottenExactly`). The counts of a run add up exactly when that never happens (`AllCountedExactly`);
  `PromotionForgets` is a run in which it does.
- `gannet tag <ip> <tag>` (README.md:30) reaches a record exactly when a device without a MAC holds the address
  (`TagByAddressExactly`), so never after a run in which every sighting carried a MAC, whoever holds the address
  (`HeldAddressCannotTag`).

## Model

| member | source | states |
|---|---|---|
| Prelude.MergeMeaning | src/identity/store.rs:56-63 | merging extends the existing items as a prefix, contains exactly both lists' members, and introduces no repetition |
| Prelude.MergeAppendsMissing | src/identity/store.rs:56-63 | merging appends exactly the first occurrences of the missing items, in their order |
| Prelude.DedupFirstOccurrences | src/discovery/mdns.rs:241-242 | retaining first occurrences selects exactly the positions whose item has not occurred before, in order |
| Addresses.KeysIdentify | src/identity/store.rs:41-48 | MAC keys and IP keys are injective and never collide with each other |
| Addresses.MacKeyReads | src/identity/store.rs:41-44 | a MAC key spells the six bytes in order as twelve lower-case hexadecimal digits |
| Addresses.MacTextReads | src/identity/store.rs:113 | a displayed MAC spells the six bytes in order as upper-case hexadecimal pairs separated by colons |
| Addresses.IpTextReads | src/identity/store.rs:46-48 | the text of an address is its four octets in plain decimal, most significant first, separated by dots |
| Addresses.MacTextInjective | src/identity/store.rs:113 | the displayed text of a MAC determines the MAC |
| IdentityStore.MergeStringVec | src/identity/store.rs:56-63 | the loop computes the merge |
| IdentityStore.Store.Upsert | src/identity/store.rs:90-195 | the new records are those of the landing chosen by a possible search answer, and the returned record is the one stored under its key |
| IdentityStore.Store.Get | src/identity/store.rs:197-205 | lookup by MAC, falling back to the address |
| IdentityStore.Store.SetTag | src/identity/store.rs:211-226 | retags the looked-up record only, and reports whether there was one |
| StoreLaws.FallbackUnreachable | src/identity/store.rs:99-102 | in a valid registry the fallback on the address key never changes the search result |
| StoreLaws.LandingSound | src/identity/store.rs:95-126 | every possible search answer lands on the own record with no other holder, on the IP-keyed record of that address, or on another MAC's record holding it |
| StoreLaws.UpsertKeepsValid | src/identity/store.rs:90-195 | every record stays under its own key, fits its MAC or address, keeps its last address in a repetition-free history, has a tag and a positive count |
| StoreLaws.RetagKeepsValid | src/identity/store.rs:211-226 | retagging keeps the same invariant |
| StoreLaws.MacShownOnce | src/identity/store.rs:112-114 | in a valid registry no two records show the same MAC |
| StoreLaws.CreditedToOwnMacExactly | src/identity/store.rs:97-126 | a sighting is certain to be credited to its own MAC if and only if no other MAC holds the address |
| StoreLaws.FollowedToNewAddress | src/identity/store.rs:95-160 | the own record of a known device moves on to a new address, with its history, tag and one more sighting, if and only if nobody else holds the address; otherwise a holder with a MAC takes the sighting and the own record is unchanged, and a holder without one replaces the own record by its own history |
| StoreLaws.ResultReflectsSighting | src/identity/store.rs:104-194 | in all four outcomes the resulting record extends the one it builds on, or begins a new one, detail by detail: address and address history, times, count, tag, reported or kept vendor, hostname and system, category (a stored one gives way only when unknown), and exactly the stored and the reported services; it shows the device's MAC unless another device absorbed the sighting |
| StoreLaws.LookupFindsResultExactly | src/identity/store.rs:197-205 | looking the device up afterwards finds the returned record if and only if no other device absorbed the sighting |
| StoreLaws.LookupCertainExactly | src/identity/store.rs:97-205 | beforehand: whatever the search answers, the lookup finds the returned record if and only if the device has no MAC or no other MAC holds its address |
| StoreLaws.HistoryGrows | src/identity/store.rs:90-195 | an upsert writes one record, removes one only by promotion, and every record that stays keeps tag, MAC and first sighting, extends addresses and services as prefixes, and moves its category only forward |
| StoreLaws.PromotionCarriesHistory | src/identity/store.rs:104-124 | promotion moves the whole history of the IP-keyed record to the MAC key |
| StoreLaws.ReobservationQuiet | src/identity/store.rs:90-195 | repeating a report changes only last-seen and count when the device has no MAC or at most one other record holds its address |
| StoreLaws.ReobservationQuietExactly | src/identity/store.rs:90-195 | for devices with a MAC this holds for all reports and search orders if and only if at most one other record holds the address |
| StoreLaws.LookupMeaning | src/identity/store.rs:197-226 | a lookup reaches the record showing the MAC when there is one, otherwise the record without a MAC that claims the address, whether or not a MAC was given, and nothing when there is neither |
| StoreLaws.TagThenLookup | src/identity/store.rs:211-226 | tagging stores the tag where the same lookup then finds it, and changes nothing else |
| StoreLaws.TagByAddressExactly | src/cli/commands.rs:219-231 | tagging by address reaches a record if and only if a device without a MAC holds the address |
| StoreRuns.ReachableValid | src/identity/store.rs:90-226 | every registry reached from the empty one by upserts and retags satisfies the invariant |
| StoreRuns.SightingsConserved | src/identity/store.rs:104-195 | live counts plus counts overwritten by promotions equal the number of upserts, over any run |
| StoreRuns.CountersFit | src/identity/store.rs:111-182 | no count exceeds the number of upserts of the run |
| StoreRuns.ForgottenExactly | src/identity/store.rs:112-124 | a sighting forgets earlier ones if and only if the device is recorded under its MAC, its address has a record without a MAC, and the search answers with that record; then the whole count of the own record goes and the other record's tag and count take its place |
| StoreRuns.NeverForgetsExactly | src/identity/store.rs:97-124 | no search order makes a sighting forget earlier ones if and only if MAC and address do not both have a record |
| StoreRuns.AllCountedExactly | src/identity/store.rs:90-195 | the live counts of a run equal its upserts if and only if no upsert of it overwrites a record |
| StoreRuns.PromotionForgets | src/identity/store.rs:112-124 | a three-call run in which promotion overwrites the device's own record and its tag |
| StoreRuns.MacOnlyOneOwner | src/identity/store.rs:95-160 | when every upsert carries a MAC, no two records claim the same address |
| StoreRuns.MacOnlyDeterministic | src/identity/store.rs:95-160 | then the outcome of a run does not depend on map order |
| StoreRuns.MacOnlyLossless | src/identity/store.rs:95-226 | then, retags included, every record stays under its key for ever and only gains history; its tag stays too unless a later call retags |
| StoreRuns.MacOnlyCountsEverything | src/identity/store.rs:95-160 | then the live counts account for every upsert |
| StoreRuns.MacOnlyCannotTagByAddress | src/cli/commands.rs:219-231 | then no address can be used for tagging |
| StoreRuns.MovedOntoNotFollowed | src/identity/store.rs:97-126 | a three-call run in which a known device moves to an address another MAC holds and its own record is left showing the old one |
| StoreRuns.TakenOverCredited | src/identity/store.rs:97-126 | a device that takes over the address of another is never registered however often it is seen: every sighting counts for the other device |
| StoreRuns.HeldAddressCannotTag | src/cli/commands.rs:219-231 | a one-call run after which the device's current address cannot be used to tag it |
| PassiveListener.Listener.OnEntry | src/discovery/passive.rs:615-658 | one address/MAC announcement takes the step of the run model |
| PassiveListener.Listener.OnService | src/discovery/passive.rs:659-687 | one service announcement takes the step of the run model |
| PassiveListener.ListenerMirrorsStore | src/discovery/passive.rs:602-687 | from any valid loaded registry, unless an event first records an address that the loaded record of another device, itself not recorded so far, claims: a recorded MAC has a record with exactly its loaded and its recorded addresses and its loaded count plus its accepted events, and every other record is as loaded |
| PassiveListener.CreditsOwnExactly | src/discovery/passive.rs:602-687 | from any valid loaded registry, every accepted event adds one sighting and its address to the record of its own MAC and changes no other if and only if the run is free of such events |
| PassiveListener.OrderDecides | src/discovery/passive.rs:634-637 | of a loaded device leaving its address and another taking it, the order in which they are announced decides whether the run is free of such events |
| PassiveListener.EmptyStartMirrors | src/discovery/passive.rs:613-687 | from an empty registry, the registry's keys are the recorded MACs, each record's addresses are exactly those recorded for its MAC, and its count is the number of accepted events of that MAC |
| PassiveListener.NeverCreditsAnotherMac | src/discovery/passive.rs:602-687 | in such a run no event ever lands on a record of a different MAC |
| ListenerDetails.ListenerLearns | src/discovery/passive.rs:634-674 | in such a run the record of a MAC has exactly the loaded services and those of the service events about it, the loaded ones in front; the vendor the table gives for the MAC, or the loaded one; the number of its events on top of the loaded count, the last one's address and time, and everything else as loaded or as generated at its first event |
| PassiveListener.FirstMacWins | src/discovery/passive.rs:616-637 | every recorded address carries the first MAC announced for it, and every announced address is recorded |
| PassiveListener.BroadcastSharesOneRecord | src/discovery/passive.rs:302-305 | senders announced under the broadcast MAC all share one record listing every address |
| RawCapture.Sniffer.OnFrame | src/discovery/passive.rs:412-536 | a frame queues exactly its admissible pairs that were not queued before, in order |
| RawCapture.Sniffer.Capture | src/discovery/passive.rs:405-542 | the queue of a whole capture is the first-occurrence list of all admissible pairs |
| RawCapture.QueueExactly | src/discovery/passive.rs:412-535 | a pair is queued if and only if some frame with a proper source MAC shows it: as ARP sender or target, as IPv4 source with the frame's MAC, or as the placeholder with the source MAC of any other frame, with a usable address where there is one |
| RawCapture.QueueOrdered | src/discovery/passive.rs:412-535 | the queue is ordered by the first frame to show a pair, an ARP sender before its target |
| RawCapture.QueueWellformed | src/discovery/passive.rs:418-535 | the queue never repeats a pair, has no nil MAC, and every address is the placeholder or inside the subnet |
| RawCapture.FirstMacDedup | src/discovery/passive.rs:405-535 | dropping repeated pairs keeps the first MAC of every address |
| RawCapture.CaptureToTable | src/discovery/passive.rs:408-637 | fed by capture alone and in order, the listener records exactly the real addresses it has taken from the queue, each inside the subnet and with the MAC shown with it by the first frame to show the address, the sender's before the target's, and never the unspecified address |
| DnsName.DecodeLabel | src/discovery/mdns.rs:55-82 | the loop with its visited set returns a name exactly when the label and pointer walk reaches a zero byte: the walk's labels joined by dots and where reading resumes |
| DnsName.DecodeRules | src/discovery/mdns.rs:59-80 | byte by byte: a zero byte ends a name, a length byte below 192 starts a label, any other and the byte behind it give a fourteen-bit offset, and nothing is read where the packet is too short |
| DnsName.RepeatNeverStops | src/discovery/mdns.rs:61 | a position that comes up twice belongs to a walk that never ends |
| DnsName.RefusedExactly | src/discovery/mdns.rs:59-80 | a name is refused if and only if its walk leaves the packet or goes on for ever |
| DnsName.DecodeInRange | src/discovery/mdns.rs:63-81 | reading moves forward and stays inside the packet |
| DnsName.AppendKeepsName | src/discovery/mdns.rs:55-82 | appended bytes never change a readable name |
| DnsQuery.BuildQuery | src/discovery/mdns.rs:17-53 | header, length-prefixed non-empty labels with lengths cut to eight bits, zero byte, type and class |
| DnsQuery.LabelsSpelled | src/discovery/mdns.rs:24-28 | every label stands behind its length modulo 256 |
| DnsRecords.QueryFields | src/discovery/mdns.rs:17-53 | read back, a built query has its identifier, no flags, one question, no records, its type and class IN |
| DnsQuery.QueryRoundTripExactly | src/discovery/mdns.rs:17-82 | a built query reads back as the name's non-empty labels, ending four bytes before the end, if and only if every label is shorter than 192 bytes |
| DnsQuery.QueryReadsBack | src/discovery/mdns.rs:17-82 | as text: the labels joined by dots |
| DnsQuery.SplitJoin | src/discovery/mdns.rs:81-119 | splitting at dots inverts joining labels without dots |
| DnsRecords.ParseMdnsForServices | src/discovery/passive.rs:198-258 | services of the listener's walk, including its early return |
| DnsRecords.ServiceTypeExactly | src/discovery/mdns.rs:115-131 | a name of labels without dots has the service type x if and only if its first label is x behind one or more underscores, x not empty, and its second is `_tcp` or `_udp` |
| DnsRecords.ServiceTextExactly | src/discovery/passive.rs:180-196 | the same for every text, split at its dots |
| HostNames.RecordHosts | src/discovery/mdns.rs:183-236 | services and hostname candidates of one record: service and instance of a pointer target, host of a service record, owner of an address record, `fn=` and `n=` strings of a text record |
| HostNames.ParseMdnsRecords | src/discovery/mdns.rs:138-245 | candidates and services of the resolver's walk, including truncated packets and unreadable questions |
| HostNames.CleanHostExactly | src/discovery/mdns.rs:201-203 | a host name loses exactly the `.local` suffixes at its end and the dots before them |
| HostNames.LastBestMeaning | src/discovery/mdns.rs:112 | among equal scores the last one is taken |
| HostNames.BestHostnameExactly | src/discovery/mdns.rs:98-113 | the chosen hostname is an eligible candidate that no eligible candidate outscores, and there is none if and only if nobody is eligible |
| HostNames.BestHostnameWins | src/discovery/mdns.rs:98-113 | the chosen hostname is outranked by no qualifying candidate and outranks every new one behind it, capitalised before hyphenated before plain |
| DnsRecords.WalksAgreeExactly | src/discovery/passive.rs:198-258 | for every packet with a header, the resolver's services are the listener's without repetition if and only if a record is announced or no readable question asks for a service |
| DnsRecords.ServicesDistinct | src/discovery/passive.rs:211-257 | the resolver never repeats a service; the listener does not either if and only if every question is readable or the readable ones name different services |
| DnsRecords.ListenerRepeats | src/discovery/passive.rs:211-220 | for every service, a packet asking for it twice before a missing third question makes the listener report it twice |
| DnsRecords.ServiceQueryRecognised | src/discovery/passive.rs:84-220 | the listener reads its own query for `_x._tcp.rest` as exactly the service `x` |
| DnsMessage.LaidRecordsVisited | src/discovery/mdns.rs:164-239 | records laid out per the format, names compressed or not, are visited exactly and in order |
| DnsMessage.LaidMessageServices | src/discovery/mdns.rs:138-245 | from any layout of a message both walks report the first occurrences of the service types of question names, owners and pointer targets |
| DnsMessage.ServicesReportedExactly | src/discovery/mdns.rs:138-245 | from any layout of a message each walk reports a service if and only if a question name, an owner or a pointer target is a service name for it |
| DnsMessage.TextNamesRead | src/discovery/mdns.rs:220-234 | reading text data inverts laying out its strings, whatever is cut off behind them |
| DnsMessage.LaidMessageHosts | src/discovery/mdns.rs:183-236 | from any layout of a message the resolver gathers exactly the candidates its records carry, in order |
| DnsMessage.PointerHosts | src/discovery/mdns.rs:184-197 | a pointer record contributes its target's first label without leading underscores, unless that is empty or a service label |
| DnsMessage.HostHosts | src/discovery/mdns.rs:198-219 | a service record contributes its host and an address record its owner, without trailing `.local` and dots, unless that is empty or a service label |
| DnsMessage.TextHosts | src/discovery/mdns.rs:220-234 | a text record contributes what follows `fn=` or `n=` in its valid strings |
| DnsMessage.OtherHosts | src/discovery/mdns.rs:235 | records of other types contribute no hostname |
| DnsTruncation.NameServicesAppend | src/discovery/mdns.rs:153-176 | services are gathered name by name, in order |
| DnsTruncation.RecordsInOrder | src/discovery/mdns.rs:164-239 | records contribute names and candidates in their order, the owner before the target |
| DnsTruncation.TruncatedMessageRead | src/discovery/mdns.rs:164-181 | when a packet announces more records than it holds, both walks report what precedes its end, the owner of a record cut short included |
| DnsTruncation.TruncatedTextRead | src/discovery/mdns.rs:221-234 | a text record cut off by the end of the packet gives the names in its complete strings |
| DnsTruncation.UnreadableQuestion | src/discovery/passive.rs:211-220 | behind an unreadable question the listener reports the services asked for before it, repetitions included, and the resolver each of them once if records are announced, and no hostname |
| DnsEncoder.EncodedMessageLaid | src/discovery/mdns.rs:138-245 | the compressing reference encoder lays every valid message out as the format prescribes |
| DnsEncoder.WalksInvertEncoder | src/discovery/mdns.rs:138-245 | both walks invert that encoder: services of all names, and candidates of all records |
| PortAllocator.NthPort | src/discovery/sweep.rs:18-29 | under every interleaving the n-th allocation is the range start plus n modulo the range width |
| PortAllocator.PortsInOrder | src/discovery/sweep.rs:18-29 | the sweep's n-th allocation is 51000 plus n modulo 9001, the fingerprinter's 43210 plus n modulo 6791 |
| PortAllocator.PortsRepeatExactly | src/discovery/sweep.rs:18-29 | two allocations coincide if and only if they are a multiple of the width apart |
| PortAllocator.WindowDistinct | src/discovery/sweep.rs:18-29 | any window of the range's width is free of repetition |
| PortAllocator.ExchangeSucceedsExactly | src/discovery/sweep.rs:24-27 | an exchange with a stale value succeeds if and only if the counter has come full circle |
| PortAllocator.FailureMeansProgress | src/discovery/sweep.rs:26 | a failed exchange implies that ports were handed out since this thread last looked, all of them to other threads |
| PortAllocator.FailuresBounded | src/discovery/sweep.rs:22-28 | no thread fails more often than ports are handed to other threads |
| PortAllocator.TwinRangesDisjoint | src/discovery/fingerprint.rs:229-240 | sweep and fingerprinter never hand out the same port |
| ActiveSweep.SweepSafe | src/discovery/sweep.rs:188-205 | at most 256 permits are held and only responding targets are found, in every reachable state |
| ActiveSweep.SweepExact | src/discovery/sweep.rs:207-209 | when all tasks are joined the responding targets are found exactly and the sweep is the only owner left |
| ActiveSweep.SweepNeverStuck | src/discovery/sweep.rs:192-207 | until all tasks are joined some step is possible |
| ActiveSweep.SweepTerminates | src/discovery/sweep.rs:192-207 | every run has at most seven steps per target |
| ActiveSweep.SweepOfSubnet | src/discovery/sweep.rs:162-210 | from subnet to result: exactly the responding hosts that are neither known nor this machine |
| TcpOptions.ParseTcpOptions | src/discovery/fingerprint.rs:55-79 | the kinds of the options of the reference walk |
| TcpOptions.KindsMeaning | src/discovery/fingerprint.rs:69-75 | which option code is reported as which kind |
| TcpOptions.ReadValues | src/discovery/fingerprint.rs:86-107 | the second loop visits the same options and keeps the last long-enough value |
| TcpOptions.ParseStackFingerprint | src/discovery/fingerprint.rs:81-110 | all fields of the fingerprint from the one reference walk |
| TcpOptions.DecodeInvertsEncode | src/discovery/fingerprint.rs:55-79 | reading inverts the encoding of any list of well-formed options |
| TcpOptions.ConcatenationDistributes | src/discovery/fingerprint.rs:58-77 | reading distributes over concatenation behind a consumed part, and ignores everything behind an ended one |
| TcpOptions.TerminatedListRead | src/discovery/fingerprint.rs:60 | whatever follows the end-of-list byte, exactly the list before it is read |
| TcpOptions.LastLongMeaning | src/discovery/fingerprint.rs:97-105 | the reported value is that of the last long-enough option of its kind |
| TcpOptions.MssRead | src/discovery/fingerprint.rs:98-100 | encoded anywhere in a list of options, with no long enough option of its code behind it, a segment size of two bytes, high byte first, reads back as itself |
| TcpOptions.ScaleRead | src/discovery/fingerprint.rs:101-103 | likewise for the window scale of one byte |
| TcpOptions.NoValueExactly | src/discovery/fingerprint.rs:97-105 | no value is reported if and only if no option is long enough to carry it |
| TcpOptions.ValueImpliesKind | src/discovery/fingerprint.rs:82-105 | a reported value implies its kind is listed |
| TcpOptions.NopCountExact | src/discovery/fingerprint.rs:83 | the eight-bit padding count is exact up to 255 option bytes |
| TcpOptions.PaddingCountedExactly | src/discovery/fingerprint.rs:83 | that bound is tight: n paddings are counted as n if and only if n is at most 255 |
| TcpOptions.HeaderNopsExact | src/discovery/fingerprint.rs:201-209 | a header's four-bit data offset leaves room for at most 40 option bytes, so the count is exact for every header |
| OsGuess.GuessOs | src/discovery/fingerprint.rs:112-147 | scoring, stable sorting and taking the first amounts to a plain decision list |
| OsGuess.VerdictExactly | src/discovery/fingerprint.rs:118-143 | for each of the ten answers, exactly the fingerprints that get it |
| OsGuess.FirstIsLeader | src/discovery/fingerprint.rs:145-146 | the first of the stable descending sort is the first of the highest scores |
| OsGuess.StableSortSorts | src/discovery/fingerprint.rs:145 | the sort is descending and keeps the scores |
| OsGuess.UnreachableVerdicts | src/discovery/fingerprint.rs:131-143 | two scored names can never be the answer; there is none exactly for unusual initial TTLs |
| Subnets.InSubnetMeaning | src/discovery/passive.rs:272-275 | the mask test holds if and only if the address lies in the aligned block |
| Subnets.NetworkBaseRounds | src/discovery/survey.rs:443-446 | the network base is the address rounded down to a multiple of 2^(32 - prefix) |
| Subnets.NetworkBaseNests | src/discovery/survey.rs:443-446 | masking with a shorter prefix absorbs masking with a longer one; the base is idempotent |
| Subnets.WideningKeepsMembers | src/discovery/survey.rs:171-174 | membership survives widening the subnet |
| Subnets.MaskRoundTrip | src/discovery/survey.rs:439-446 | counting a netmask's ones gives its prefix back |
| Subnets.SubnetIterExact | src/discovery/arp.rs:21-31 | the list is strictly ascending and holds exactly the subnet's addresses whose last octet is neither 0 nor 255 |
| Subnets.SubnetIterCount | src/discovery/arp.rs:21-31 | up to a /24 it has 254 times 2^(24 - prefix) addresses |
| Subnets.BlockFits | src/discovery/arp.rs:22-25 | adding an offset to the base never overflows 32 bits |
| Subnets.WithoutExact | src/discovery/arp.rs:147-152 | filtering keeps order and exactly the addresses not excluded |
| Subnets.SweepTargetsFilterScan | src/discovery/sweep.rs:174-182 | the sweep's own enumeration equals the scan list without known addresses and this machine |
| Subnets.SweepTargetsExact | src/discovery/sweep.rs:174-182 | the sweep's targets, exactly and strictly ascending |
| TagHash.CommonSuffixNeutral | src/identity/namer.rs:27-31 | a common suffix neither creates nor removes a hash collision |
| TagHash.SingleByteSeparates | src/identity/namer.rs:27-31 | changing any single byte of a key changes its hash |
| TagHash.HashKeyClosed | src/identity/namer.rs:27-31 | the hash is the 64-bit remainder of a polynomial in the multiplier with the seed and the key's bytes as coefficients |

## Left out

- Sockets, packet channels, packet sending and checksums, interface discovery, subprocesses and `/proc` reads: arriving frames, datagrams and probe outcomes are arbitrary inputs.
- Wall-clock deadlines, quiet windows, timeouts and sleeps, and with them the ARP receive loop.
- JSON loading and saving of the registry: the laws of single calls and the listener's runs start from any valid registry, other runs from the empty one.
- UTF-8 decoding, letter case and the word list of `is_service_label`, which are parameters of the DNS results.
- `classify.rs`, the vendor table and the adjective and noun tables of the tag generator; only the hash that seeds a tag is modelled.
- UPnP and HTTP discovery, gateway detection and `adjacent_subnets_from` in `survey.rs`.
- Prefix 0 in the mask code, where the shift by 32 is not defined.
- The retry loop of the port counters appears only as its atomic steps; that a thread gets its turn is not modelled.
- Panics in probe threads and a poisoned lock around the sweep's result set.
- Class and time to live of records, which both walks skip.
