# Verification of the multicast test programs

Dafny models of the parts of the multicast test programs that hold logic: the cut-down PIM daemon `mc_test_igmp`
(intrusive queues, configuration file, virtual interfaces, socket buffers, address arithmetic) and the UDP checksum of
the sender `mcsend1`.

| module | what it models |
|---|---|
| `TailQueue` | TAILQ macros: entries and heads linked by addresses of next-fields, and the layout pun of TAILQ_LAST and TAILQ_PREV |
| `IfList`, `SList` | LIST macros on the list of configured interfaces, its search and its tear-down; SLIST_REMOVE |
| `SimpleQueue`, `XorQueue` | SIMPLEQ and XSIMPLEQ on raw memory of 64-bit words; the masked queue simulates the plain one |
| `Checksum` | `udp_checksum` on machines of either byte order, against RFC 1071 and RFC 768 |
| `BufferSearch` | `k_set_sndbuf` and `k_set_rcvbuf` against a kernel that accepts sizes up to a limit |
| `Words` | `next_word`: a cursor into the line and a shared 42-byte token buffer |
| `Inet` | masks, subnets, dotted quads, decimal scanning |
| `Vif`, `VifConfig` | the `uvifs` array, and how the kernel's interface list fills it |
| `PhyintLines` | the first pass over the configuration file: which interfaces are disabled |
| `PhyintOptions`, `PhyintParser` | the option loop of `parse_phyint`: its meaning over words, and the code with cursor, buffer and look-ahead |
| `VifFile` | the second pass over the whole file and the whole table |
| `VifLife` | starting and stopping vifs, with the kernel's VIFs and memberships, over whole runs |
| `InitVifs` | `init_vifs` from end to end |
| `Seqs` | sequence vocabulary |

Structures that the program changes in place are classes and arrays here, and each method is proved against a
function of the old state; the properties of those functions are lemmas. Invariants are predicates over the real
fields and a ghost sequence that says what the structure holds; that no entry is linked twice, or into two queues, is
derived from the links. What code and specification share, such as the tests of single characters, flags and addresses,
is also stated in plain characters and numbers. A `hide` statement in a proof only keeps it short: it takes definitions
away from the verifier.

## What the code does otherwise than it says

Each of these is a lemma below.

- An option with a value that follows `altnet <net>/<len>` or `scoped <net>/<len>` is lost, because the look-ahead for
  "masklen" leaves its name in the token buffer while the cursor goes back; a `scoped` behind such an altnet makes the
  line fail. A network without a length gets that of the network of its kind before it, and a length above 32 is taken.
  All other lines, and only those, are read turn by turn as intended (`PhyintOptions.TurnsAsIntendedIff`,
  `PhyintOptions.ReadAsIntended`; witnesses `PhyintOptions.AltnetLosesValue`, `PhyintOptions.ScopedLosesValue`,
  `PhyintOptions.AltnetLosesScoped`, `PhyintOptions.AltnetCarriesLength`, `PhyintOptions.ScopedCarriesLength`,
  `PhyintOptions.LongLengthTaken`).
- The two passes over the configuration file can disagree on whether an interface is disabled: because they take
  different lines to be about it (`VifFile.SameLineIff`, `VifFile.OneDisableLine`; witnesses `VifFile.DigitNameMisread`,
  `VifFile.SignedAddressMisread`), or different words on those lines to count (`VifFile.LastLineDecides`; witnesses
  `PhyintOptions.PassesDiffer`, `VifFile.PassesDisagree`). `VifFile.PassesAgreeIff` says exactly when they agree.
- A phyint line for an address that no vif has is accepted in silence: the test for that case stands inside a loop
  whose condition excludes it (`VifFile.RejectedIff`).
- Interfaces without multicast are installed (`VifConfig.MulticastIgnored`, `VifConfig.InstalledIff`).
- On a big-endian machine the checksum of a packet of odd length is wrong unless its last byte is 0, and on any machine
  a computed 0 is not turned into all ones (`Checksum.BigEndianIsRfc768`, `Checksum.TransmittedIff`).
- A number above 255 passes for an octet of an address if it wraps round in 32 bits (`Inet.AcceptedOctets`).
- From a start of 2^k the buffer search can end up to 1023 bytes below the kernel's limit (`BufferSearch.GrantedClose`),
  from others further below (`BufferSearch.LosesMore`), and it does not end at all when 1 byte is asked for and refused
  (`BufferSearch.StuckAtOne`).
- A second start_all before a stop starts every running vif again (`VifLife.ExactlyOnceIff`), and after the first stop
  nothing can be started any more (`VifLife.DownForGood`). The access list of a vif that is down from the start is
  never freed (`VifLife.FreedIff`, `InitVifs.DownScopeLeaks`). Stopping a vif takes the memberships of another one on the
  same interface index with it (`VifLife.StopKeeps`).

## Model

| member | source | states |
|---|---|---|
| `TailQueue.Acyclic` | mc_test_igmp/mc_test_igmp/queue.h:462-531 | in a well-linked tail queue no entry occurs twice; derived from the back links alone, not assumed |
| `TailQueue.Separate` | mc_test_igmp/mc_test_igmp/queue.h:462-531 | two well-linked queues with different heads share no entry |
| `TailQueue.ContentsUnique` | mc_test_igmp/mc_test_igmp/queue.h:407-423 | the memory at a head determines the contents: an entry sequence that fits is the only one that fits |
| `TailQueue.Init` | mc_test_igmp/mc_test_igmp/queue.h:462-465 | an empty, well-linked queue, whatever the head held before |
| `TailQueue.InsertHead` | mc_test_igmp/mc_test_igmp/queue.h:467-475 | the contents become `[elm] + s`, all links right; only head, new entry and old first entry are written |
| `TailQueue.InsertTail` | mc_test_igmp/mc_test_igmp/queue.h:477-482 | the contents become `s + [elm]`; only head, new entry and old last entry are written |
| `TailQueue.InsertAfter` | mc_test_igmp/mc_test_igmp/queue.h:484-492 | the entry goes in right behind `listelm`; the writes are confined to it, its neighbours and the head |
| `TailQueue.InsertBefore` | mc_test_igmp/mc_test_igmp/queue.h:494-499 | the same in front of `listelm`, without being given the head, which is written only for position 0 |
| `TailQueue.Remove` | mc_test_igmp/mc_test_igmp/queue.h:501-510 | exactly that position goes; only the two neighbours and the head are written |
| `TailQueue.Replace` | mc_test_igmp/mc_test_igmp/queue.h:512-522 | that position alone is exchanged |
| `TailQueue.Concat` | mc_test_igmp/mc_test_igmp/queue.h:524-531 | `h1` holds `s1 + s2`, `h2` is empty, both well linked |
| `TailQueue.Last` | mc_test_igmp/mc_test_igmp/queue.h:428-429 | reading the last-link address as a head yields the last entry, or NULL for an empty queue |
| `TailQueue.Prev` | mc_test_igmp/mc_test_igmp/queue.h:431-432 | reading the back link as a head yields the previous entry, or NULL for the first |
| `TailQueue.Foreach` | mc_test_igmp/mc_test_igmp/queue.h:436-439 | the traversal ends after visiting the contents in order |
| `TailQueue.ForeachReverse` | mc_test_igmp/mc_test_igmp/queue.h:448-451 | the traversal ends after visiting exactly the reverse |
| `TailQueue.Step` | mc_test_igmp/mc_test_igmp/queue.h:462-531 | one macro, on any set of queues: every queue stays well linked, and only the named ones change contents |
| `TailQueue.Run` | mc_test_igmp/mc_test_igmp/queue.h:462-531 | any legal run of macros over any number of queues ends in well-linked queues with the contents the run says |
| `IfList.InsertHead` | mc_test_igmp/mc_test_igmp/queue.h:218-223 | the contents become `[elm] + s`, all links right |
| `IfList.InsertAfter` | mc_test_igmp/mc_test_igmp/queue.h:203-209 | the entry goes in right behind `listelm` |
| `IfList.InsertBefore` | mc_test_igmp/mc_test_igmp/queue.h:211-216 | the entry goes in right in front of `listelm` |
| `IfList.Remove` | mc_test_igmp/mc_test_igmp/queue.h:225-232 | exactly that position goes, with neither head nor search; only the two neighbouring links are written |
| `IfList.Replace` | mc_test_igmp/mc_test_igmp/queue.h:234-241 | that position alone is exchanged |
| `IfList.InsertAfterThenRemove` | mc_test_igmp/mc_test_igmp/queue.h:203-232 | removing right after INSERT_AFTER puts back every forward and back link of the list |
| `IfList.InsertBeforeThenRemove` | mc_test_igmp/mc_test_igmp/queue.h:211-232 | removing right after INSERT_BEFORE puts back every forward and back link of the list |
| `SList.RemoveBySearch` | mc_test_igmp/mc_test_igmp/queue.h:147-159 | the linear search ends for any member, and the effect on the sequence is that of LIST_REMOVE |
| `IfList.IfaceFind` | mc_test_igmp/mc_test_igmp/config.cpp:360-373 | the first entry matching the name or the address, or NULL when there is none |
| `IfList.TearIflist` | mc_test_igmp/mc_test_igmp/config.cpp:347-355 | each entry is freed once, in list order, the list ends empty and well linked; freeing scrambles an entry, so no freed link is read |
| `SimpleQueue.InitIsEmpty` | mc_test_igmp/mc_test_igmp/queue.h:282-285 | SIMPLEQ_INIT makes an empty queue of any memory |
| `SimpleQueue.NoCycle` | mc_test_igmp/mc_test_igmp/queue.h:247-279 | a queue that ends in NULL holds no element twice |
| `SimpleQueue.SimpleRefines` | mc_test_igmp/mc_test_igmp/queue.h:287-314 | the stores of each SIMPLEQ macro change the contents as its name says, and keep the last-link address right |
| `SimpleQueue.Perform` | mc_test_igmp/mc_test_igmp/queue.h:287-314 | the macros, run store by store on memory, leave a well-formed queue with the contents the macro names |
| `XorQueue.XPerform` | mc_test_igmp/mc_test_igmp/queue.h:369-401 | each XSIMPLEQ macro does to memory, seen through the mask, exactly what its SIMPLEQ namesake does to plain memory |
| `XorQueue.XRun` | mc_test_igmp/mc_test_igmp/queue.h:363-401 | the same over every legal run from XSIMPLEQ_INIT, for every cookie, including the stored last-link address |
| `XorQueue.XForeach` | mc_test_igmp/mc_test_igmp/queue.h:350-353 | the traversal through the mask ends after visiting the contents in order |
| `XorQueue.MaskedBits` | mc_test_igmp/mc_test_igmp/queue.h:342-343 | a stored link differs from the link in exactly the bits that are set in the cookie |
| `Checksum.UdpChecksum` | basic-tx-rx/mcsend1/mcsend1/mcsend1.cpp:16-53 | equals the complement of the one's complement sum of the host's words; the last loop folds at most twice, and the result is never 0xFFFF |
| `Checksum.Accumulate` | basic-tx-rx/mcsend1/mcsend1/mcsend1.cpp:25-37 | no addition of the first loop wraps the 32-bit accumulator, and folding keeps its value modulo 65535 |
| `Checksum.SixAdds` | basic-tx-rx/mcsend1/mcsend1/mcsend1.cpp:39-46 | nor do the six additions of the pseudo-header |
| `Checksum.UdpValue` | basic-tx-rx/mcsend1/mcsend1/mcsend1.cpp:16-53 | the result is 65535 minus the representative in 1..65535 of the plain total modulo 65535 |
| `Checksum.OnesSumIsNorm` | basic-tx-rx/mcsend1/mcsend1/mcsend1.cpp:25-49 | deferring the carries is right: end-around addition word by word equals the plain sum, reduced once |
| `Checksum.ReceiverCheck` | basic-tx-rx/mcsend1/mcsend1/mcsend1.cpp:23-52 | with the checksum stored in any zero, aligned 16-bit field of the packet, the same computation gives 0 |
| `Checksum.OrderIrrelevant` | basic-tx-rx/mcsend1/mcsend1/mcsend1.cpp:25-46 | permuting the words, or exchanging source and destination, does not change the result |
| `Checksum.SwapOnesSum` | basic-tx-rx/mcsend1/mcsend1/mcsend1.cpp:23-49 | byte order independence: the sum of byte-swapped words is the byte-swapped sum |
| `Checksum.LittleEndianIsRfc768` | basic-tx-rx/mcsend1/mcsend1/mcsend1.cpp:16-53 | on a little-endian machine the result, as stored, is the checksum RFC 768 computes, for every packet |
| `Checksum.BigEndianIsRfc768` | basic-tx-rx/mcsend1/mcsend1/mcsend1.cpp:35-37 | on a big-endian machine it is the computed one if and only if the length is even or the last byte is 0 |
| `Checksum.TransmittedIff` | basic-tx-rx/mcsend1/mcsend1/mcsend1.cpp:48-52 | it is also the one RFC 768 lets be transmitted, where a computed 0 becomes all ones, if and only if the total is no multiple of 65535 |
| `Checksum.ZeroPacket` | basic-tx-rx/mcsend1/mcsend1/mcsend1.cpp:48-52 | a packet for which the code returns 0 where all ones is to be sent |
| `BufferSearch.SetBuf` | mc_test_igmp/mc_test_igmp/mc_test_igmp.cpp:543-617 | the search ends for every start and limit but one (1 byte of a kernel that grants none); it ends on an accepted size; for a start of 2^k it makes at most k + 1 attempts and ends exactly on `Granted(limit)` |
| `BufferSearch.GrantedClose` | mc_test_igmp/mc_test_igmp/mc_test_igmp.cpp:543-617 | `Granted(L) <= L < Granted(L) + 1024`, and the limits for which nothing is lost |
| `BufferSearch.StuckAtOne` | mc_test_igmp/mc_test_igmp/mc_test_igmp.cpp:554-568 | asked for 1 byte of a kernel that grants none, the loop is in the same state after any number of turns |
| `BufferSearch.LosesMore` | mc_test_igmp/mc_test_igmp/mc_test_igmp.cpp:554-568 | from a start that is no power of two the loss can be greater: 1499 bytes of 2999 |
| `Words.Lexer.NextWord` | mc_test_igmp/mc_test_igmp/config.cpp:1913-1945 | the buffer holds the first word of the rest of the line and the cursor stands before the other words; a non-empty word uses up text |
| `Words.Lexer.AllWords` | mc_test_igmp/mc_test_igmp/config.cpp:1913-1945 | calling it until it returns "" ends, and yields the maximal non-blank runs before the first `#`, newline or NUL, lower-cased, cut into pieces of at most 42 |
| `Words.WordsConserve` | mc_test_igmp/mc_test_igmp/config.cpp:1926-1942 | no character is lost or invented: the words glued together are the lower-cased non-blank visible text, and each is a word next_word can return |
| `Words.JoinRoundTrip` | mc_test_igmp/mc_test_igmp/config.cpp:1913-1945 | short lower-case words written with blanks between them are read back unchanged |
| `Words.WordsIdempotent` | mc_test_igmp/mc_test_igmp/config.cpp:1913-1945 | tokenizing the written-out words of any line gives the same words |
| `Words.EndsLine` | mc_test_igmp/mc_test_igmp/config.cpp:1926-1933 | what follows a '#', a newline or a NUL does not matter |
| `Words.Separates` | mc_test_igmp/mc_test_igmp/config.cpp:1928-1933 | the words of two texts with a blank or a tab between them are the words of the one and then those of the other |
| `Words.CaseIrrelevant` | mc_test_igmp/mc_test_igmp/config.cpp:1936-1939 | making letters small does not change the words |
| `Words.WordShape` | mc_test_igmp/mc_test_igmp/config.cpp:1917-1942 | every word has 1 to 42 characters, and no capital letter, blank, tab, newline, '#' or NUL among them |
| `Words.PlainText` | mc_test_igmp/mc_test_igmp/config.cpp:1926-1942 | text without such characters is one word as it stands, or is cut after 42 characters |
| `Inet.ValidMaskIff` | mc_test_igmp/mc_test_igmp/utils.cpp:83-91 | a mask is accepted if and only if it is 2^32 - 2^k for some k in 0..32 |
| `Inet.ValToMaskIff` | mc_test_igmp/mc_test_igmp/config.cpp:122-124 | over the lengths 1..32 VAL_TO_MASK yields, up to byte order, exactly the non-empty contiguous masks |
| `Inet.Domask` | mc_test_igmp/mc_test_igmp/utils.cpp:143-172 | nothing for a mask of 0 and for the mask of the address's class, given as ranges; otherwise the nested bit loops report a hole if and only if inet_valid_mask rejects the mask, and else find the length whose VAL_TO_MASK is the mask |
| `Inet.ValidSubnetIff` | mc_test_igmp/mc_test_igmp/utils.cpp:93-126 | the accepted pairs: 0/0, or class A to C outside 0/8 and 127/8 with a contiguous mask, /8 or longer in class A, and no host bits |
| `Inet.ValueOfDec` | mc_test_igmp/mc_test_igmp/utils.cpp:293-300 | a number printed in decimal has that value |
| `Inet.ParseQuad` | mc_test_igmp/mc_test_igmp/utils.cpp:53-70 | four numerals with dots between them and any text behind: accepted if and only if nothing follows and each stored number fits a byte; then packed in order |
| `Inet.AcceptedOctets` | mc_test_igmp/mc_test_igmp/utils.cpp:60-67 | which numerals pass for octets: those below 2^64 whose value modulo 2^32 is at most 255, and no others |
| `Inet.PrintedOctetIff` | mc_test_igmp/mc_test_igmp/utils.cpp:60-62 | so a number above 255 is refused unless it wraps, as 4294967297 does |
| `Inet.NothingTrails` | mc_test_igmp/mc_test_igmp/utils.cpp:60-62 | on any text at all: what is accepted ends in a digit |
| `Inet.FmtRoundTrip` | mc_test_igmp/mc_test_igmp/utils.cpp:53-70 | printing an address and parsing the text gives it back, and text and NUL fit 19 bytes |
| `Inet.QuadNumber` | mc_test_igmp/mc_test_igmp/utils.cpp:60-69 | the number that four octets stand for, the first octet on top |
| `Inet.NoAddress` | mc_test_igmp/mc_test_igmp/utils.cpp:60-62 | a text that does not end in a digit gives 255.255.255.255 |
| `Inet.PrintedScanned` | mc_test_igmp/mc_test_igmp/config.cpp:741-741 | what `%u` stores for a printed number, with and without a minus sign |
| `Inet.FrontScanned` | mc_test_igmp/mc_test_igmp/config.cpp:954-954 | white space before a number is skipped; text starting otherwise than with a digit or a sign is no number |
| `Inet.ForgemaskIs` | mc_test_igmp/mc_test_igmp/utils.cpp:128-140 | the masks /8, /16 and /24 for addresses below 128.0.0.0, below 192.0.0.0 and above |
| `PhyintLines.DisabledIff` | mc_test_igmp/mc_test_igmp/config.cpp:284-338 | an interface is skipped as disabled if and only if the last phyint line matching its name or address has "disable" as its last enable/disable word |
| `PhyintLines.WantedIff` | mc_test_igmp/mc_test_igmp/config.cpp:360-373 | an interface is asked for if and only if the last phyint line matching its name or address does not disable it |
| `PhyintLines.CountEnabledIs` | mc_test_igmp/mc_test_igmp/config.cpp:328-330 | the count is the number of phyint lines that do not disable |
| `PhyintLines.ReadLine` | mc_test_igmp/mc_test_igmp/config.cpp:285-336 | one line, token by token: whether it is a phyint line, and the entry it makes |
| `PhyintLines.BuildIflist` | mc_test_igmp/mc_test_igmp/config.cpp:274-342 | the list holds the entries of the phyint lines, last line first, and the count is that of the enabled ones |
| `VifConfig.InstallTableOk` | mc_test_igmp/mc_test_igmp/config.cpp:581-612 | over any kernel list with names below IFNAMSIZ: at most MAXVIFS vifs, names distinct, and any two that are not point-to-point differ in (subnet, mask) |
| `VifConfig.Represented` | mc_test_igmp/mc_test_igmp/config.cpp:517-682 | every eligible interface is installed, or an alias of one that is, or the table is full |
| `VifConfig.InstalledAreEligible` | mc_test_igmp/mc_test_igmp/config.cpp:517-682 | conversely every installed vif is the record of an eligible interface |
| `VifConfig.InstallGrows` | mc_test_igmp/mc_test_igmp/config.cpp:608-612 | an installed vif stays in its place as later interfaces are considered |
| `VifConfig.BroadcastAddress` | mc_test_igmp/mc_test_igmp/config.cpp:559-571 | a vif that is neither point-to-point, /31 nor /32 has an address strictly inside a contiguous subnet of at least 4 addresses |
| `VifConfig.PeerOf31` | mc_test_igmp/mc_test_igmp/config.cpp:635-643 | on a /31 the remote address is the other address of the pair, in the same subnet |
| `VifConfig.MulticastIgnored` | mc_test_igmp/mc_test_igmp/config.cpp:517-682 | two kernel lists that differ only in IFF_MULTICAST give the same table, although the comment on the function asks for multicast |
| `VifConfig.InstalledIff` | mc_test_igmp/mc_test_igmp/config.cpp:517-682 | an interface is installed if and only if it is eligible, no vif stands for it already and there is room; otherwise nothing changes |
| `VifConfig.EligibleIff` | mc_test_igmp/mc_test_igmp/config.cpp:521-571 | the interfaces that qualify, in numbers: IPv4, disabled by no line, and either /32, or strictly inside a contiguous proper subnet of at least 4 addresses, or unicast on a point-to-point link or a /31, or with the mask 0.0.0.0 any but the lowest and the highest |
| `VifConfig.LoneInstalledIff` | mc_test_igmp/mc_test_igmp/config.cpp:517-682 | so a lone interface is installed if and only if it is such a one |
| `VifConfig.PairInstalledIff` | mc_test_igmp/mc_test_igmp/config.cpp:581-612 | of two that qualify the second is passed over if and only if it has the first one's name, or neither is point-to-point (nor the first a /31) and both are on one subnet |
| `VifConfig.RequestedIs` | mc_test_igmp/mc_test_igmp/config.cpp:399-426 | the number of interfaces requested is that of IPv4 interfaces with multicast that the last line about them does not disable |
| `VifConfig.SuccessWhen` | mc_test_igmp/mc_test_igmp/config.cpp:502-503 | configuration succeeds whenever each enabled line is the last one about some multicast IPv4 interface |
| `VifConfig.CandidatesAre` | mc_test_igmp/mc_test_igmp/config.cpp:557-557 | what total_interfaces counts in that loop: entries that are not IPv4, and IPv4 ones that no line disables |
| `VifConfig.NewVifFields` | mc_test_igmp/mc_test_igmp/config.cpp:435-472 | broadcast address, remote address and the defaults of a new record |
| `VifConfig.NewVifFlagBits` | mc_test_igmp/mc_test_igmp/config.cpp:631-681 | its flags, bit by bit |
| `VifConfig.NoneRequested` | mc_test_igmp/mc_test_igmp/config.cpp:412-423 | where IFF_MULTICAST does matter: interfaces without it satisfy no request of the file |
| `VifConfig.LongNamesClash` | mc_test_igmp/mc_test_igmp/config.cpp:582-622 | why the names must fit: any two eligible interfaces with longer names that agree in 15 characters are installed under one uv_name, unless their subnets coincide |
| `VifConfig.CompareRequested` | mc_test_igmp/mc_test_igmp/config.cpp:388-429 | counts the multicast IPv4 interfaces whose first matching entry is enabled; looks at none when `num` is 0 |
| `InitVifs.NewVifBacked` | mc_test_igmp/mc_test_igmp/config.cpp:612-681 | the record filled in for an interface has its name, address, subnet, mask and index, is point-to-point for such links and /31, down just when the interface is, not disabled, and has every default in range |
| `VifConfig.ConfigVifsFromKernel` | mc_test_igmp/mc_test_igmp/config.cpp:478-686 | the table filled in place is `Install` of the kernel's list; the entries made of the file's phyint lines are exactly those freed, each once; fails if and only if fewer interfaces are there than enabled lines; the exact value of total_interfaces |
| `VifLife.StartVif` | mc_test_igmp/mc_test_igmp/mc_test_igmp.cpp:299-361 | flags, kernel VIF and both memberships of that vif, nothing of another |
| `VifLife.StopVif` | mc_test_igmp/mc_test_igmp/mc_test_igmp.cpp:368-407 | the same undone, and the nodes of its access list freed in order |
| `VifLife.FreeAcl` | mc_test_igmp/mc_test_igmp/mc_test_igmp.cpp:397-403 | each node is freed once and none is read after it was |
| `VifLife.StartKeeps` | mc_test_igmp/mc_test_igmp/mc_test_igmp.cpp:299-361 | starting a startable vif keeps table and kernel consistent |
| `VifLife.StopKeeps` | mc_test_igmp/mc_test_igmp/mc_test_igmp.cpp:368-407 | stopping any vif, running or not, leaves no stray membership, and the kernel keeps those of all other running vifs if and only if none of them shares the interface index |
| `VifLife.StopUndoesStart` | mc_test_igmp/mc_test_igmp/mc_test_igmp.cpp:305-388 | start then stop leaves the flags of a plain vif as they were, plus VIFF_DOWN |
| `VifLife.StartListIs` | mc_test_igmp/mc_test_igmp/mc_test_igmp.cpp:416-433 | a pass starts each of its vifs that is neither disabled nor down, in ascending order, and no other |
| `VifLife.StartedOnce` | mc_test_igmp/mc_test_igmp/mc_test_igmp.cpp:409-438 | over both passes each vif neither disabled nor down is started exactly once |
| `VifLife.StartAllVifs` | mc_test_igmp/mc_test_igmp/mc_test_igmp.cpp:409-438 | those that are no registers come first; kernel VIFs and memberships are then exactly those of the vifs neither disabled nor down |
| `VifLife.StartedTable` | mc_test_igmp/mc_test_igmp/mc_test_igmp.cpp:305-333 | the table it leaves, in numbers: where none of 0x300 is set, 0x4_0000, 0x8_0000 and 0x400 get set unless 0x4 is; nothing else changes |
| `VifLife.GroupsAre` | mc_test_igmp/mc_test_igmp/mc_test_igmp.cpp:325-328 | the groups of a running vif that is no register: 224.0.0.2 and 224.0.0.22 |
| `VifLife.StopAllVifs` | mc_test_igmp/mc_test_igmp/mc_test_igmp.cpp:444-454 | every vif is down, no VIF and no membership remains, and the access lists of those that were not down are freed |
| `VifLife.StoppedTable` | mc_test_igmp/mc_test_igmp/mc_test_igmp.cpp:388-403 | the table it leaves, in numbers: where 0x100 is not set it gets set, 0x4_0000, 0x8_0000 and 0x400 are cleared and the list is gone; nothing else changes |
| `VifLife.FreedIff` | mc_test_igmp/mc_test_igmp/mc_test_igmp.cpp:449-452 | of each vif's access list exactly the nodes are freed whose vif was not down |
| `VifLife.DownForGood` | mc_test_igmp/mc_test_igmp/mc_test_igmp.cpp:409-454 | once all vifs are down neither function finds anything to do |
| `VifLife.Run` | mc_test_igmp/mc_test_igmp/mc_test_igmp.cpp:409-454 | over every sequence of start_all and stop_all: consistent throughout; a list node is freed, and once, if and only if stop_all is called and its vif is not down from the start; nothing running after the first stop; the exact order of all starts, each vif neither disabled nor down being started once per start_all before the first stop_all and no other vif ever |
| `VifLife.ExactlyOnceIff` | mc_test_igmp/mc_test_igmp/mc_test_igmp.cpp:409-454 | so each of those vifs is started exactly once if and only if there is exactly one such start_all |
| `VifLife.ScanEnabled` | mc_test_igmp/mc_test_igmp/mc_test_igmp.cpp:494-510 | the number of enabled vifs and the first of them, or -1 |
| `VifLife.EnabledBits` | mc_test_igmp/mc_test_igmp/mc_test_igmp.cpp:504-504 | the enabled ones are those with none of 0x305 set |
| `PhyintOptions.OptionsKeep` | mc_test_igmp/mc_test_igmp/config.cpp:804-1013 | for every option string and whatever the undefined masks: threshold and distance in 1..255, metric in 1..1024, dr-priority in 1..4294967294, altnets without host bits and with the right broadcast address, scopes without host bits, other flags untouched |
| `PhyintOptions.FlagOptions` | mc_test_igmp/mc_test_igmp/config.cpp:807-829 | what "disable", "enable", "igmpv2" and "igmpv3" do to the flags, bit by bit |
| `PhyintOptions.ThresholdOption` | mc_test_igmp/mc_test_igmp/config.cpp:948-961 | "threshold" and "ttl-threshold" with a number in 1..255 set the threshold and nothing else |
| `PhyintOptions.DistanceOption` | mc_test_igmp/mc_test_igmp/config.cpp:963-978 | "distance" and "preference" with a number in 1..255 set the local preference and nothing else |
| `PhyintOptions.MetricOption` | mc_test_igmp/mc_test_igmp/config.cpp:980-995 | "metric" with a number in 1..1024 sets the local metric and nothing else |
| `PhyintOptions.PriorityOption` | mc_test_igmp/mc_test_igmp/config.cpp:997-1012 | "dr-priority" with a number in 1..4294967294 sets the priority and nothing else |
| `PhyintOptions.ValuesIgnored` | mc_test_igmp/mc_test_igmp/config.cpp:954-957 | a value that is no number, has something behind it or is out of range is passed over |
| `PhyintOptions.UnknownSkipped` | mc_test_igmp/mc_test_igmp/config.cpp:804-1013 | any word but the twelve option names is passed over |
| `PhyintOptions.AltnetRecord` | mc_test_igmp/mc_test_igmp/config.cpp:838-891 | `altnet a/n` adds the network of n bits with its mask and broadcast address, for a from 1.0.0.0 to 223.255.255.255, and fails for any other |
| `PhyintOptions.AltnetMasklenRecord` | mc_test_igmp/mc_test_igmp/config.cpp:856-866 | so does `altnet a masklen n` |
| `PhyintOptions.ScopedRecord` | mc_test_igmp/mc_test_igmp/config.cpp:894-943 | `scoped g/n` adds the scope of n bits, for g from 224.0.0.0 to 239.255.255.255, and fails for any other |
| `PhyintOptions.ScopedMasklenRecord` | mc_test_igmp/mc_test_igmp/config.cpp:912-921 | so does `scoped g masklen n` |
| `PhyintOptions.LengthCases` | mc_test_igmp/mc_test_igmp/config.cpp:736-748 | the length behind a slash: the number, 16 for something else, the one carried over for nothing |
| `PhyintOptions.TurnsAsIntendedIff` | mc_test_igmp/mc_test_igmp/config.cpp:804-1013 | for every line: the loop takes the turns that are intended, at the same words and adding networks of the same mask lengths, if and only if at no turn an option is hidden by a look-ahead, a mask length carried over to a network without one, or a length above 32 |
| `PhyintOptions.ReadAsIntended` | mc_test_igmp/mc_test_igmp/config.cpp:804-1013 | and every such line sets what its syntax means: each network with its own length, an altnet without one with the vif's mask, a scoped network without one skipped |
| `PhyintOptions.AltnetCarriesLength` | mc_test_igmp/mc_test_igmp/config.cpp:844-881 | a second altnet without a length gets the mask of the first one's length instead of the vif's own |
| `PhyintOptions.ScopedCarriesLength` | mc_test_igmp/mc_test_igmp/config.cpp:900-943 | a second scoped network without a length gets the first one's instead of being skipped |
| `PhyintOptions.LongLengthTaken` | mc_test_igmp/mc_test_igmp/config.cpp:876-884 | a length above 32 is taken, and the mask is what the undefined shift yields |
| `PhyintOptions.AltnetHidesOption` | mc_test_igmp/mc_test_igmp/config.cpp:855-894 | an option with a value right behind an altnet without "masklen" is lost, and its value is then read as an option |
| `PhyintOptions.AltnetLosesValue` | mc_test_igmp/mc_test_igmp/config.cpp:855-961 | what the code and the intended reading make of such a line; with nothing behind and the network as intended, they agree if and only if storing the value would change nothing |
| `PhyintOptions.ScopedHidesOption` | mc_test_igmp/mc_test_igmp/config.cpp:911-961 | the same loss behind a scoped network without "masklen" if its length is not 0; if it is 0, the option is read |
| `PhyintOptions.ScopedLosesValue` | mc_test_igmp/mc_test_igmp/config.cpp:911-961 | the same comparison for it |
| `PhyintOptions.MasklenFormKeepsOption` | mc_test_igmp/mc_test_igmp/config.cpp:855-866 | in the "masklen" form it is read as written |
| `PhyintOptions.ScopedBehindAltnet` | mc_test_igmp/mc_test_igmp/config.cpp:855-908 | a "scoped" right behind such an altnet makes parse_phyint return false, with the altnet added |
| `PhyintOptions.AltnetLosesScoped` | mc_test_igmp/mc_test_igmp/config.cpp:855-908 | at the end of a line that is the intended reading if and only if the word behind is no group and the altnet is as intended |
| `PhyintOptions.TopsDecide` | mc_test_igmp/mc_test_igmp/config.cpp:804-815 | on every line: the disable flag ends as the switch words among those taken for options say |
| `PhyintOptions.TopsAreOptions` | mc_test_igmp/mc_test_igmp/config.cpp:948-1012 | on a line without networks the options are the words that do not stand behind an option with a value |
| `PhyintOptions.PassesDiffer` | mc_test_igmp/mc_test_igmp/config.cpp:948-957 | with other options they need not: "threshold disable" disables for the first pass only |
| `PhyintParser.IfName2Addr` | mc_test_igmp/mc_test_igmp/config.cpp:1900-1911 | the address of the first vif of that name, or 0 |
| `PhyintParser.ParsePrefixLen` | mc_test_igmp/mc_test_igmp/config.cpp:736-748 | the token is cut at its slash, and the length behind it read |
| `PhyintParser.ReadNetwork` | mc_test_igmp/mc_test_igmp/config.cpp:844-870 | address, prefix length, look-ahead for "masklen" and cursor restore together read the words `ReadNet` says, the buffer holding the word looked at last |
| `PhyintParser.AltnetOption` | mc_test_igmp/mc_test_igmp/config.cpp:838-891 | the altnet branch against its meaning over words, for each way it ends |
| `PhyintParser.ScopedOption` | mc_test_igmp/mc_test_igmp/config.cpp:894-946 | the same for the scoped branch; the new list node is in front of the old list |
| `PhyintParser.ParseOptions` | mc_test_igmp/mc_test_igmp/config.cpp:804-1013 | the loop ends on every line despite the cursor restore, and computes `Options` of the words on it; what no option names is unchanged |
| `VifFile.ParsePhyint` | mc_test_igmp/mc_test_igmp/config.cpp:780-1019 | the whole function: only the first vif with the address changes, by its options; a line for no vif's address is accepted in silence |
| `VifFile.NamedLine` | mc_test_igmp/mc_test_igmp/config.cpp:804-815 | a line naming a vif changes that vif alone, by the options on it |
| `VifFile.ValueLines` | mc_test_igmp/mc_test_igmp/config.cpp:948-1012 | in the record: the field that each option with a value sets, the others being as before |
| `VifFile.MatchesIff` | mc_test_igmp/mc_test_igmp/config.cpp:304-307 | what a line's interface word matches in the first pass: a word starting with a digit only the address it spells, if that is neither 0 nor all ones; any other only the name it is |
| `VifFile.ConfigVifsFromFile` | mc_test_igmp/mc_test_igmp/config.cpp:1750-1850 | the file line by line gives `ReadFile` of the table; access lists stay well formed and disjoint |
| `VifFile.ReadFileKeeps` | mc_test_igmp/mc_test_igmp/config.cpp:780-1019 | whatever the file says, all settings of all vifs stay in range, and flags that no option names stay |
| `VifFile.RejectedIff` | mc_test_igmp/mc_test_igmp/config.cpp:786-811 | which lines parse_phyint rejects; a host's address that no vif has is accepted without a change |
| `VifFile.DisabledInTheEnd` | mc_test_igmp/mc_test_igmp/config.cpp:807-815 | over any file, a vif ends up disabled if and only if "disable" is the last enable/disable word among the options on all lines about it taken together |
| `VifFile.PassesAgreeIff` | mc_test_igmp/mc_test_igmp/config.cpp:284-338 | over any file, interface and vif: the first pass skips the interface exactly when the second disables the vif, if and only if two lines say the same: the last one the first pass matches with the interface, by all its words, and the last one about the vif for the second pass that has "enable" or "disable" among its options, by these |
| `VifFile.SameLineIff` | mc_test_igmp/mc_test_igmp/config.cpp:303-307 | a line is about the interface for the one pass and about its vif for the other, or neither, if and only if its interface word is not misread: a word that starts with a digit is an address for the first pass even if it names a vif, any other a name even if it reads as an address |
| `VifFile.SameLinesIff` | mc_test_igmp/mc_test_igmp/config.cpp:303-307 | so both passes take the same lines of a file to be about an interface if and only if none of its interface words is misread |
| `VifFile.LastLineDecides` | mc_test_igmp/mc_test_igmp/config.cpp:284-338 | where they do, agreement is up to the last of those lines: if its options have an enable/disable word, they must come to what all its words come to; otherwise its words must come to what the lines before it do |
| `VifFile.OneDisableLine` | mc_test_igmp/mc_test_igmp/config.cpp:303-319 | on a lone line that disables, the passes agree if and only if its interface word is not misread |
| `VifFile.DigitNameMisread` | mc_test_igmp/mc_test_igmp/config.cpp:304-307 | "3g0", the name of an interface, is misread |
| `VifFile.SignedAddressMisread` | mc_test_igmp/mc_test_igmp/config.cpp:304-307 | so is any host address with a plus sign |
| `VifFile.FlagLineFits` | mc_test_igmp/mc_test_igmp/config.cpp:307-319 | if that line only sets flags it does not fit exactly when it has neither word and the lines before leave the vif disabled |
| `VifFile.PassesDisagree` | mc_test_igmp/mc_test_igmp/config.cpp:533-540 | a file that does not fit: with "disable" on a first line and a second line without it, the first pass installs the interface and the second disables its vif |
| `InitVifs.Installed` | mc_test_igmp/mc_test_igmp/config.cpp:478-686 | right after config_vifs_from_kernel the table obeys its rules, covers the eligible interfaces, and all defaults are in range |
| `InitVifs.Settled` | mc_test_igmp/mc_test_igmp/config.cpp:1750-1850 | config_vifs_from_file keeps all of that |
| `InitVifs.IndexesDiffer` | mc_test_igmp/mc_test_igmp/config.cpp:646-651 | where interfaces of different names have different indexes, no two vifs share one |
| `InitVifs.DownScopeLeaks` | mc_test_igmp/mc_test_igmp/config.cpp:678-681 | an interface that is not up, with one scoped group: its list is not empty and never freed |
| `InitVifs.ScanIsUps` | mc_test_igmp/mc_test_igmp/mc_test_igmp.cpp:494-510 | no vif is a tunnel or a register, so the enabled ones of the scan are those start_all_vifs starts |
| `InitVifs.InitVifs` | mc_test_igmp/mc_test_igmp/mc_test_igmp.cpp:458-524 | end to end, for every kernel list and file: it succeeds whenever each enabled line is the last one about some multicast IPv4 interface; the running vifs are then exactly those of eligible interfaces that are up, unless the options of the file disable them, each started once; kernel VIFs and memberships match; phys_vif is the first of them; settings in range |

## Left out

- Sockets, ioctl, getifaddrs, signals, files and printing: replaced by input sequences (`lines`, `ifas`), a kernel with a
  size limit per buffer, and a kernel that holds VIFs and memberships; calls into it take effect, and calloc succeeds.
- The main programs, mcreceive1, mc_test_join_leave, mc_test_routing and the parsing of set-top box logs.
- `parse_rp_address` and `validate_prefix_len`: the static rendezvous points they fill in are read by nothing modelled here; `ConfigVifsFromFile` passes over those lines.
- SIMPLEQ_CONCAT, and the SLIST macros other than SLIST_REMOVE; the _SAFE iterators other than the one in `tear_iflist`.
- VifConfig.ConfigVifsFromKernel: stops when it fails; the code goes on with the kernel's list that it has just freed (config.cpp:503-517), which C leaves undefined.
- BufferSearch.SetBuf: for starts that are no powers of two it bounds the end point (`limit < bufsize + 2047 + iter`) instead of naming it.
- VifConfig.InstallTableOk: is about interface names below IFNAMSIZ characters, the only ones a kernel has (see `VifConfig.LongNamesClash`).
- Splitting of file lines at the size of the fgets buffer: a line here is what fgets delivered.
- A word of 42 characters leaves the token buffer without a NUL; the model lets the word end with the buffer.
- VAL_TO_MASK for lengths outside 1..32 is an undefined shift in C: the mask it yields is an arbitrary function, `undefined`, of the length.
- scanf's `%u` is strtoul with 64 bits, cut to 32; formats other than those of `inet_parse` and the option values are not modelled.
- The `pa_next` list of additional subnets is a sequence, newest first; its links are never changed or freed.
- uv_genid, timers, neighbour lists and the other fields of struct uvif that none of these functions reads.
- `%u` prefix lengths printed by `domask` are a value (`Suffix`), not text.
- XorQueue.XRun: pointers and cells are 64-bit words in a map; that structures do not overlap is part of `Layout.Valid`, which the C compiler guarantees.
