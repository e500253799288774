# Verified model of iouxx

A Dafny model of the parts of iouxx in which something can go wrong quietly: the text forms of IP addresses, ports and
socket addresses; the liburing version text; the protocol database; the provided-buffer rings and their registry; the
path of an operation from submission to callback; and the time conversions. `dafny verify dfyconfig.toml` checks it.

The main results, each for all inputs or all runs:

- **The IPv6 parser has an exact grammar.** `AddressV6Grammar` writes section 2.2 of RFC 4291 as an abstract syntax with a
  rendering and a denotation. `AddressV6.ParseExact` says that `address_v6::from_string` accepts a text with an address
  exactly when the text renders an accepted form that denotes the address. The grammar is unambiguous, the 45-character
  guard rejects none of it, and the only texts beyond the standard are eight groups followed by "::".
- **The IPv6 formatter is characterised for every specification.** `AddressV6Canonical.FormatExact` says of any combination
  of flags which of the many texts of an address is printed, in terms of the grammar, of zero runs and of address prefixes
  rather than of the formatter's functions. `ToStringExact` is the case of `to_string`: the printed text is the one that
  obeys section 4 of RFC 5952 and has a dotted part where one is recommended. `Rfc5952Exact` says for exactly which
  addresses that is also what section 5 asks for. `AddressV6Spec.FormatWith` goes from the characters of a specification to
  the form of what is printed. `AddressV6Format.RoundTrip` says that every printed text parses back.
- **The unchecked parsers refine the checked ones.** Every `[[assume]]` and `std::unreachable` of the five
  `from_string_uncheck` functions is an assertion here, proved for every text that the checked parser accepts.
- **IPv4 addresses and ports are in bijection with their accepted texts**, and the texts of both kinds of socket have an
  exact grammar.
- **Native buffer rings are freed exactly once**, with the arguments of their setup and before their io_uring is torn down,
  in every run of any number of ring objects through init, register, unregister, exit, reinit, swap and destruction.
  `RegistryEffects` says what each command does in every run, and pairs setups with frees along the trace of native calls.
  Swapping is safe exactly when neither ring has a group.
- **A batch of buffers is inserted as if one by one**, for every number of buffers and wherever the sixteen-bit tail wraps.
- **Each SQE is in exactly one place and its result is fetched at most once**, and a callback gives the operation that
  prepared it the result and flags of the step that completed it (`Callbacks.CallbackExact`).
  `submit_and_wait` is sure to return its own result exactly when the ring was idle; in a run of such calls, that is as
  long as none of them had a submit or wait error.
- **The name index of the protocol database agrees with a linear scan** of the lines, and iteration sees each entry once.

## How it is laid out

| file | models |
|---|---|
| Text, Charconv, ByteOrder, Errors | `std::views::split`, `std::from_chars`, integer formats, byte swaps and bit casts, `std::expected` |
| AddressV4, Port, SocketV4, SocketV6 | `address_v4`, `port`, `socket_v4_info`, `socket_v6_info`: parsers, unchecked parsers, formatters |
| AddressV6Grammar, AddressV6 | the grammar; the parser as a function; the proof that the two agree |
| AddressV6Parser | the checked and unchecked parsers over a fixed array, with the shared counters and the in-place rotate |
| AddressV6Format, AddressV6Formatter | the printed text as a function; the formatter with its flags, scan and output loops |
| AddressV6Canonical, AddressV6Mapped, AddressV6Spec | the exact text for each set of flags, RFC 5952, IPv4-mapped addresses; from specification text to printed form |
| Version, TimeConversion | `version_info`; `to_kernel_timespec`, `to_timespec`, `timeval_optval_base` |
| BufferRing | `buffer_ring` insertion |
| NativeCalls, BufferRegistry, RegistryEffects, RingSwap, RingObjects | the liburing calls and which are allowed; slots, ring lifetimes and runs; the effect of each command; swapped rings; the ring objects step by step |
| Submission, Callbacks, SubmitAndWait | SQEs, CQEs, results and callbacks; callbacks by the steps of a run; `submit_and_wait` and runs of it |
| ProtocolDatabase | `protocol_database` and its iterator |

Code that the source writes as expressions is a function here; loops that update variables are methods, proved equal to a
function whose meaning is then stated in lemmas. The machine's byte order is a parameter `e` of everything that depends on
it. Integers are unbounded except where a width matters, where the wrap-around or the range is written out.

What comes from outside is a parameter: the answers of the kernel and the allocator to `io_uring_queue_init_params`,
`io_uring_get_probe_ring` and `io_uring_setup_buf_ring`; the choice of which SQEs are taken and completed, and when; the
lines that `getprotoent` returns. The kernel is taken to return no buffer-ring address and no io_uring descriptor that is in
use, and to complete each one-shot SQE at most once. A fetched result is a value, and calling it back is up to the user, who
may do so never or repeatedly.

Where the code departs from a standard, from its comments or from what its shape suggests, the code is followed; each case
has its exact condition and a lemma at a real input:

- The parser accepts eight groups and a trailing "::", because the branch for an empty tail has no room check
  (`BeyondTheStandard`, `BeyondTheStandardExample`).
- `to_string` departs from section 5 of RFC 5952: IPv4-translated addresses, and IPv4-compatible ones that use only the last
  sixteen bits, get no dotted part (`Rfc5952Exact`, `TranslatedExample`).
- The comment on comparing a version with text says that malformed text is always newer; it is not newer than the invalid
  version itself (`MalformedIsNewer`, `MalformedExample`). A part may have leading zeros, and zero may have a minus sign
  (`NumberText`).
- The specification parser of `socket_v6_info` reads past the end of its input exactly if that is empty or a single style
  character (`ReadsInsideExact`).
- `ring::swap` exchanges the io_urings but not the slots, which go on pointing to the ring objects that they are in; with a
  group on either side, destroying the rings then frees on the wrong io_uring (`SwapExact`, `SwapExample`).
- Post-increment of the database iterator does not skip unused entries; it agrees with pre-increment exactly when the next
  entry is in use or the table ends (`Iterator.PostIncrement`, `PostIncrementExample`).
- After a failed submission or wait the SQE stays in the ring, and a later `submit_and_wait` may return that operation's
  completion instead of its own (`SyncRunExact`, `FailedSubmitLeavesSqe`).

## Model

| member | source | states |
|---|---|---|
| AddressV4.FromString | include/iouxx/iouops/network/ip.hpp:140-189 | the part loop over the fixed array returns what the parser function returns, including which error |
| AddressV4.FromStringUncheck | include/iouxx/iouops/network/ip.hpp:119-138 | on every accepted text all three assumptions hold, no slot outside the array is written, and the address is the same |
| AddressV4.ParseExact | include/iouxx/iouops/network/ip.hpp:140-189 | a text is accepted with an address iff it is the printed text of that address; parse and print are mutual inverses |
| AddressV4.ParseExample | test/test_ip_utils.cpp:58-58 | "192.168.0.1" is read as 0x0100a8c0 on a little-endian and as 0xc0a80001 on a big-endian machine |
| AddressV4.OctetExact | include/iouxx/iouops/network/ip.hpp:155-182 | a part is accepted with a value iff it is the shortest decimal text of that value |
| AddressV4.OutOfRangeExact | include/iouxx/iouops/network/ip.hpp:151-187 | a rejection is "out of range" iff the first faulty part is three digits above 255 |
| AddressV4.HostOrderText | include/iouxx/iouops/network/ip.hpp:46-58 | on either machine a host-order number passed through `hton` prints its bytes most significant first; the loopback constant prints as 127.0.0.1 |
| ByteOrder.HostHalves | include/iouxx/iouops/network/ip.hpp:339-344 | on either machine the two half words of a network-order word, swapped to host order, pair its bytes high byte first |
| ByteOrder.MemoryOrder | include/iouxx/iouops/network/ip.hpp:46-58 | which byte of a word comes first in memory on either machine, and on which of them `hton` swaps |
| AddressV6.ParseExact | include/iouxx/iouops/network/ip.hpp:306-447 | a text is accepted with an address iff it renders an accepted form that denotes it: head, zeros, tail |
| AddressV6.ParseComplete | include/iouxx/iouops/network/ip.hpp:306-447 | every accepted form, rendered, parses to the address it denotes |
| AddressV6.ParseSound | include/iouxx/iouops/network/ip.hpp:306-447 | every text the parser accepts is the rendering of an accepted form |
| AddressV6.ParseError | include/iouxx/iouops/network/ip.hpp:327-371 | every rejection is reported as an invalid argument, never as out of range |
| AddressV6.RenderInjective | include/iouxx/iouops/network/ip.hpp:308-315 | the grammar is unambiguous: an accepted text has one form |
| AddressV6.BeyondTheStandard | include/iouxx/iouops/network/ip.hpp:405-431 | a text is accepted outside section 2.2 of RFC 4291 iff it is eight groups followed by "::" |
| AddressV6.BeyondTheStandardExample | include/iouxx/iouops/network/ip.hpp:405-409 | eight zero groups followed by "::" are such a text |
| AddressV6Grammar.RenderedLength | include/iouxx/iouops/network/ip.hpp:316-318 | no accepted form is longer than 45 characters, so the guard rejects none |
| AddressV6Grammar.DenoteExact | include/iouxx/iouops/network/ip.hpp:306-447 | the groups of an accepted form by positions: the values of the sections in front of "::" from the first group on, zeros, those behind it up to the last group, an embedded address in octet pairs |
| AddressV6Parser.FromString | include/iouxx/iouops/network/ip.hpp:306-447 | the loops over the array, with counters, flag, rotate and in-place byte swap, return what the parser function returns |
| AddressV6Parser.FromStringUncheck | include/iouxx/iouops/network/ip.hpp:233-304 | on every accepted text no assumption fails, the unreachable branch is not reached, and the address is the same |
| AddressV6Parser.SectionParser.ParseOneSection | include/iouxx/iouops/network/ip.hpp:327-371 | the lambda updates array, count and flag as the section function says, or reports its error |
| AddressV6Parser.SectionParser.ParseOneSectionUncheck | include/iouxx/iouops/network/ip.hpp:242-264 | its assumptions hold whenever the checked lambda succeeds, with the same effect |
| AddressV6Parser.SectionParser.MakeRoom | include/iouxx/iouops/network/ip.hpp:427-435 | rotating the unused zero slots puts the tail at the end behind the zeros |
| AddressV6Parser.HtonInPlace | include/iouxx/iouops/network/ip.hpp:72-78 | the in-place swap converts all eight groups |
| AddressV6Format.RoundTrip | include/iouxx/iouops/network/ip.hpp:934-1142 | every address printed under every combination of flags parses back to itself and is at most 45 characters long |
| AddressV6Format.FormDenotes | include/iouxx/iouops/network/ip.hpp:965-986 | whatever the flags, the written form is one of the standard and denotes the address |
| AddressV6Format.FormatRenders | include/iouxx/iouops/network/ip.hpp:965-1142 | the text, put together colon by colon, is the rendering of that form |
| AddressV6Format.LongestRunExact | include/iouxx/iouops/network/ip.hpp:1058-1077 | the one-pass scan finds the leftmost longest run of zero groups |
| AddressV6Format.V4PartGroups | include/iouxx/iouops/network/ip.hpp:1135-1142 | on either machine the dotted part stands for the last two groups |
| AddressV6Canonical.FormatExact | include/iouxx/iouops/network/ip.hpp:934-1142 | for all flags, a text is the printed one iff its form obeys the specification: zeros, case, dotted part, and "::" for the leftmost longest run |
| AddressV6Canonical.AsksDottedExact | include/iouxx/iouops/network/ip.hpp:949-963 | the dotted part is decided by prefixes: forced or forbidden by a letter, else for IPv4-mapped addresses and IPv4-compatible ones that use more than the last 16 bits |
| AddressV6Canonical.ToStringExact | include/iouxx/iouops/network/ip.hpp:1261-1265 | a text is what `to_string` prints iff it obeys section 4 of RFC 5952 and has a dotted part where one is recommended |
| AddressV6Canonical.Rfc5952Exact | include/iouxx/iouops/network/ip.hpp:1261-1265 | what is printed obeys section 4 of RFC 5952 always and section 5 iff the address is neither IPv4-translated nor ::0.0.x.y above loopback; then it is the only text that obeys both |
| AddressV6Canonical.TranslatedExample | include/iouxx/iouops/network/ip.hpp:949-963 | the IPv4-translated address of 1.2.3.4 prints as "::ffff:0:102:304", against section 5, while the dotted text denotes it too |
| AddressV6Canonical.ToStringCanonical | include/iouxx/iouops/network/ip.hpp:1261-1265 | two accepted texts denote the same address iff their addresses print alike |
| AddressV6Canonical.DoubleColonOnce | include/iouxx/iouops/network/ip.hpp:1055-1133 | "::" occurs in the printed text iff two neighbouring scanned groups are zero, and at most once |
| AddressV6Formatter.Formatter.Parse | include/iouxx/iouops/network/ip.hpp:865-932 | the specification parser accepts exactly the legal texts and sets each flag iff its letter occurs, in either case |
| AddressV6Formatter.SpecOfExact | include/iouxx/iouops/network/ip.hpp:865-932 | each flag is set iff its letter is in the text in either case, and the recommended one also for the empty text |
| AddressV6Formatter.LegalExact | include/iouxx/iouops/network/ip.hpp:865-932 | a specification is legal iff it consists of the twelve characters, no letter twice, r without f, z and m, and m without n |
| AddressV6Spec.PrintedExact | include/iouxx/iouops/network/ip.hpp:865-1142 | for every specification text, a text is the printed one iff its form is as the characters ask: "::" or not by f, four digits or no superfluous zero by z, case by u, dotted part by m, n and r |
| AddressV6Spec.FormatWith | include/iouxx/iouops/network/ip.hpp:865-986 | reading a specification and printing under it: rejected iff the characters are illegal, and otherwise the printed text renders a form of the address that is as the characters ask |
| AddressV6Formatter.Formatter.Format | include/iouxx/iouops/network/ip.hpp:934-986 | the formatter prints the text of the format function for its flags |
| AddressV6Formatter.CompressedIpv6 | include/iouxx/iouops/network/ip.hpp:1055-1133 | the scan and the two output loops write the compressed text |
| AddressV6Mapped.MappedText | include/iouxx/iouops/network/ip.hpp:452-464 | "::ffff:" and an IPv4 text parse to a mapped address that maps back to it and prints as the same text, on either machine |
| AddressV6Mapped.CheckMixedExact | include/iouxx/iouops/network/ip.hpp:949-963 | dotted text is recommended exactly for what "::ffff:d.d.d.d" denotes, and for what "::d.d.d.d" denotes unless only the last 16 bits are in use |
| AddressV6Mapped.MappedExact | include/iouxx/iouops/network/ip.hpp:452-464 | an address is mapped iff it prints as "::ffff:" and an IPv4 text, which is then that of its mapped address |
| Port.ParseExact | include/iouxx/iouops/network/ip.hpp:499-519 | a text is accepted with a port iff it is the printed text of that port |
| Port.FromStringUncheck | include/iouxx/iouops/network/ip.hpp:488-497 | both assumptions hold on every accepted text, with the same result |
| Port.OutOfRangeExact | include/iouxx/iouops/network/ip.hpp:499-519 | a rejection is "out of range" iff the text starts with a number above 65535 without a leading zero, whatever follows |
| Port.OutOfRangeExample | include/iouxx/iouops/network/ip.hpp:499-519 | "70000" and "70000x" are out of range, "07000" is an invalid argument |
| Port.HostOrderText | include/iouxx/iouops/network/ip.hpp:1159-1162 | on either machine a port made from a host-order number prints that number |
| SocketV4.FromString | include/iouxx/iouops/network/ip.hpp:591-632 | the part loop returns what the parser function returns, including which error |
| SocketV4.FromStringUncheck | include/iouxx/iouops/network/ip.hpp:568-589 | although it looks for the other separator first, it agrees with the checked parser on every accepted text |
| SocketV4.ParseExact | include/iouxx/iouops/network/ip.hpp:591-632 | the accepted texts are exactly the printed ones, with either separator |
| SocketV4.NotBoth | include/iouxx/iouops/network/ip.hpp:571-600 | no accepted text contains both separators |
| SocketV4.OutOfRangeExact | include/iouxx/iouops/network/ip.hpp:591-632 | a rejection is "out of range" iff the address is out of range, or it is fine and the port is out of range |
| SocketV6.FromString | include/iouxx/iouops/network/ip.hpp:714-765 | the separator choice and the part loop return what the parser function returns, including which error |
| SocketV6.FromStringUncheck | include/iouxx/iouops/network/ip.hpp:683-712 | the unreachable branch is not reached on any accepted text, and the result is the same |
| SocketV6.ParseExact | include/iouxx/iouops/network/ip.hpp:714-765 | a text is accepted iff it is an accepted address text and the printed port in one of the three styles |
| SocketV6.RoundTrip | include/iouxx/iouops/network/ip.hpp:1229-1248 | every socket in every style under every combination of address flags parses back to itself |
| SocketV6.OutOfRangeExact | include/iouxx/iouops/network/ip.hpp:714-765 | a rejection is "out of range" iff the address is fine and the port is out of range |
| SocketV6.ReadsInsideExact | include/iouxx/iouops/network/ip.hpp:1209-1216 | the specification parser reads past the end of its input iff that is empty, "/" or "#" |
| SocketV6.Formatter.Parse | include/iouxx/iouops/network/ip.hpp:1205-1227 | on every input that it does not read past, with or without a closing brace, an optional style and an optional nested address specification are accepted, exactly, and set style and flags |
| SocketV6.LegalExact | include/iouxx/iouops/network/ip.hpp:1205-1227 | the legal specifications are nothing, "/" or "#", each alone or with a colon and a legal address specification behind it |
| SocketV6.StyleExact | include/iouxx/iouops/network/ip.hpp:1229-1248 | what each of them prints: the address in brackets, a colon and the port, or the address, the style character and the port, with the address in the recommended or the specified form |
| SocketV6.Formatter.Format | include/iouxx/iouops/network/ip.hpp:1229-1248 | the formatter prints address and port in its style |
| Version.FromString | include/iouxx/iouringxx.hpp:688-715 | the loop over the parts returns what the parser function returns |
| Version.ParseExact | include/iouxx/iouringxx.hpp:688-715 | two in-range numbers joined by one dot are read as that version; every other text is the invalid version |
| Version.RoundTrip | include/iouxx/iouringxx.hpp:1421-1428 | every version with non-negative parts is read back from its text |
| Version.LessExact | include/iouxx/iouringxx.hpp:717-720 | versions are ordered by the major part first: as the numbers that the two parts form |
| Version.CompareText | include/iouxx/iouringxx.hpp:726-731 | comparing a version with the text of another compares the two versions |
| Version.MalformedIsNewer | include/iouxx/iouringxx.hpp:726-731 | malformed text compares as newer than a version iff that version is not the invalid one, and never as older |
| Version.MalformedExample | include/iouxx/iouringxx.hpp:726-731 | "x" is malformed and not newer than the invalid version |
| TimeConversion.TimespecRoundTrip | include/iouxx/util/utility.hpp:45-59 | for every 64-bit count, splitting into seconds and nanoseconds of one sign and joining is the identity, nothing overflows, and the clock's splitting agrees |
| TimeConversion.TimespecUnique | include/iouxx/clock.hpp:58-73 | joining and splitting is the identity on split values whose parts agree in sign |
| TimeConversion.MicrosTruncate | include/iouxx/iouops/network/sockcmd.hpp:121-133 | truncating seconds and rest apart is truncating the whole count to microseconds toward zero |
| TimeConversion.TimevalOption.Option | include/iouxx/iouops/network/sockcmd.hpp:120-133 | the stored seconds and microseconds, of one sign, are the count truncated to microseconds |
| BufferRing.Ring.InsertRange | include/iouxx/iouringxx.hpp:1050-1067 | one batch leaves entries and tail as inserting each buffer in turn, for every list and every tail; the tail moves by their number modulo 65536 |
| BufferRing.Ring.InsertOne | include/iouxx/iouringxx.hpp:1041-1048 | one buffer goes to the masked tail and the tail moves by one, modulo 16 bits |
| BufferRing.OffsetMatches | include/iouxx/iouringxx.hpp:1057-1062 | the entry at a growing offset from the old tail is the entry at the tail that single inserts would have reached |
| BufferRing.BatchFillsInOrder | include/iouxx/iouringxx.hpp:1050-1067 | a batch that fits occupies the entries behind the tail in order and touches no other |
| BufferRing.WrapKeepsPlace | include/iouxx/iouringxx.hpp:1045-1047 | wrapping a position at 16 bits does not change its entry in a ring of a power of two |
| BufferRing.MaskIsPlace | include/iouxx/iouringxx.hpp:1045-1046 | masking bitwise with the entries less one takes the remainder |
| BufferRegistry.RunInv | include/iouxx/iouringxx.hpp:781-791 | in every state of every run of any number of rings every native call was allowed, the open io_urings are those of the valid rings, and the live native rings are exactly the slots in use, each pointing to its own ring under its own index |
| RegistryEffects.RunSteps | include/iouxx/iouringxx.hpp:659-791 | in every run every command has its effect: exit, reinit and destruction remove the io_uring and its native rings, unregister exactly the one of that identifier, register adds one, init opens one iff it succeeds, swap exchanges the io_urings; other rings stay as they are |
| RegistryEffects.StepExact | include/iouxx/iouringxx.hpp:659-791 | the same for every single step from a state that satisfies the invariant; calls are only added to the trace |
| RegistryEffects.AdmissibleExact | include/iouxx/iouringxx.hpp:1127-1155 | exit and destruction are always possible, every 16-bit identifier is in the table, registering needs a valid ring, swapping two rings without groups |
| RegistryEffects.AdmissibleInit | include/iouxx/iouringxx.hpp:1290-1306 | init is for rings that are not valid, reinit for all |
| BufferRegistry.DestructorFreesAll | include/iouxx/iouringxx.hpp:665-665 | destroying all rings, in any order and at any point of any run, leaves nothing live or open, with as many frees as setups |
| RegistryEffects.EachFreedOnce | include/iouxx/iouringxx.hpp:1031-1035 | after the destructors of all rings, setups and frees are in bijection along the trace: same arguments, nothing else about that ring in between, io_uring not torn down in between |
| NativeCalls.SetupsMinusFrees | include/iouxx/iouringxx.hpp:1031-1035 | in every allowed trace, setups less frees is the number of live native rings |
| NativeCalls.ReplayExact | include/iouxx/iouringxx.hpp:1031-1035 | replaying succeeds iff each call is allowed by the positions of the calls before it, and gives what they left open and live |
| NativeCalls.FreedOnce | include/iouxx/iouringxx.hpp:1031-1035 | in every allowed trace each free belongs to one setup; if nothing is left live, each setup has one free |
| BufferRegistry.RegisteredInv | include/iouxx/iouringxx.hpp:1127-1139 | registering adds exactly the new native ring, or nothing when the slot is in use or the setup fails |
| BufferRegistry.UnregisteredInv | include/iouxx/iouringxx.hpp:1141-1146 | unregistering frees exactly the native ring of that io_uring and index |
| BufferRegistry.ExitedInv | include/iouxx/iouringxx.hpp:781-791 | exit frees every native ring of its io_uring, each allowed, tears the io_uring down, and touches no other ring |
| BufferRegistry.InitedInv | include/iouxx/iouringxx.hpp:1290-1306 | init opens an io_uring and keeps it open only if the probe succeeds |
| BufferRegistry.DestroyedInv | include/iouxx/iouringxx.hpp:665-665 | the destructor does what exit does: no slot is left in use when the table dies |
| BufferRegistry.SwappedInv | include/iouxx/iouringxx.hpp:661-663 | swapping keeps the invariant iff the rings are one or neither has a group |
| RingSwap.SwapExact | include/iouxx/iouringxx.hpp:661-663 | after a swap, destroying all rings in any order makes only allowed calls and leaves nothing behind iff neither ring had a group; otherwise some call is not allowed |
| RingSwap.SwapExample | include/iouxx/iouringxx.hpp:661-663 | a reachable pair of rings, one with a group: without the swap the destructors are fine, with it they make a call that is not allowed, in either order |
| RingObjects.Rings.MoveAssign | include/iouxx/iouringxx.hpp:1012-1029 | move, swap field by field and destruction of the temporary: the target takes over, pointer included, what it held is freed, the source keeps its pointer only |
| RingObjects.Rings.Destroy | include/iouxx/iouringxx.hpp:1031-1035 | a slot in use is freed on the io_uring that it points to, with its own entries and identifier; an empty one not at all |
| RingObjects.Rings.RegisterBufferGroup | include/iouxx/iouringxx.hpp:1127-1139 | succeeds iff the slot was empty and the setup succeeds, with the effect of the registering function |
| RingObjects.Rings.UnregisterBufferGroup | include/iouxx/iouringxx.hpp:1141-1146 | has the effect of the unregistering function |
| RingObjects.Rings.FindBufferGroup | include/iouxx/iouringxx.hpp:1148-1155 | finds a native ring iff it is live, was set up on the io_uring of this ring and has this identifier; at most one is |
| RingObjects.Rings.ExitRing | include/iouxx/iouringxx.hpp:781-791 | destroys the slots one after the other, renews the table, then tears the io_uring down |
| RingObjects.Rings.DestroyRing | include/iouxx/iouringxx.hpp:665-665 | is exit, followed by the destruction of the slots that are left |
| RingObjects.Rings.DoInit | include/iouxx/iouringxx.hpp:1290-1306 | succeeds iff queue and probe do, with the effect of the initialising function |
| RingObjects.Rings.ReinitRing | include/iouxx/iouringxx.hpp:759-763 | is exit followed by init |
| RingObjects.Rings.SwapRings | include/iouxx/iouringxx.hpp:661-663 | exchanges the io_urings of two ring objects and nothing else |
| ProtocolDatabase.Database.Load | include/iouxx/iouops/network/socket.hpp:337-382 | loading fails iff some number is outside 0 to 511, and otherwise table, index and total agree with a linear scan of the lines |
| ProtocolDatabase.Database.IndexEntry | include/iouxx/iouops/network/socket.hpp:374-380 | a name already indexed keeps its number; exactly the names the line carries are added |
| ProtocolDatabase.Database.FillEntry | include/iouxx/iouops/network/socket.hpp:356-373 | the entry describes the line: its name or none, its non-empty aliases in order, its number |
| ProtocolDatabase.Database.Get | include/iouxx/iouops/network/socket.hpp:242-249 | a name gives the entry that describes the earliest line carrying it among lines with a new number, or the unknown entry; known iff contained |
| ProtocolDatabase.Database.GetNumber | include/iouxx/iouops/network/socket.hpp:251-270 | a number gives the entry that describes its first line, or the unknown entry; known iff some line has it |
| ProtocolDatabase.EntryOfExact | include/iouxx/iouops/network/socket.hpp:356-373 | exactly one entry describes a line: its number, its name or none, and its non-empty aliases at increasing positions |
| ProtocolDatabase.NamesFound | include/iouxx/iouops/network/socket.hpp:374-380 | a name found leads to an entry that has it as name or alias, and every name and alias of every known entry is found |
| ProtocolDatabase.ByNameExact | include/iouxx/iouops/network/socket.hpp:345-381 | the reference scan finds the earliest line that counts |
| ProtocolDatabase.Iterator.Next | include/iouxx/iouops/network/socket.hpp:290-294 | pre-increment moves to the next known entry or the end |
| ProtocolDatabase.Iterator.PostIncrement | include/iouxx/iouops/network/socket.hpp:296-300 | post-increment moves by one, and agrees with pre-increment iff that entry is known or the end |
| ProtocolDatabase.PostIncrementExample | include/iouxx/iouops/network/socket.hpp:296-300 | with entries 0 and 2 only, post-increment from 0 stops at the unknown entry 1 and pre-increment at 2 |
| ProtocolDatabase.VisitsExact | include/iouxx/iouops/network/socket.hpp:290-294 | pre-increment visits the known entries in increasing order, each once, and no other |
| ProtocolDatabase.Traverse | include/iouxx/iouops/network/socket.hpp:321-334 | a loop from begin to end takes size() steps and sees exactly the known entries, in order of number |
| Submission.RunInv | include/iouxx/iouringxx.hpp:859-900 | after every run the tickets in the four places are exactly those issued, each with its operation; completions are fetched in order; callbacks hand over what was fetched |
| Submission.ExactlyOnePlace | include/iouxx/iouringxx.hpp:254-282 | every SQE taken is in exactly one of queued, in flight, completed, fetched |
| Submission.CallbacksAreFaithful | include/iouxx/iouringxx.hpp:510-531 | each callback goes to the operation that prepared the SQE with its completion's result and flags; two callbacks concern one SQE iff the user called the same result twice |
| Callbacks.CallbackExact | include/iouxx/iouringxx.hpp:510-531 | over the steps alone: each callback hands over the ticket, operation, result and flags of the earlier completion step that its result comes from |
| Callbacks.RunExact | include/iouxx/iouringxx.hpp:254-282 | after every run, issued operations, queue, flight, completions and callbacks are those that the list of steps amounts to, in order |
| Submission.QueueBound | include/iouxx/iouringxx.hpp:254-261 | in every run no more SQEs are queued than the submission queue holds |
| SubmitAndWait.IdleCall | include/iouxx/iouringxx.hpp:269-282 | from an idle ring, whatever the kernel does, a call that returns a result returns its own and leaves the ring idle |
| SubmitAndWait.CallExact | include/iouxx/iouringxx.hpp:269-282 | what every kind of call, errors included, leaves issued, queued, in flight, completed, fetched and called |
| SubmitAndWait.ResultExact | include/iouxx/iouringxx.hpp:269-282 | an operation holds the result of its last callback, or none |
| SubmitAndWait.CallPending | include/iouxx/iouringxx.hpp:269-282 | a submit or wait error leaves one more SQE unanswered; every other call leaves as many as before |
| SubmitAndWait.OwnResultExact | include/iouxx/iouringxx.hpp:269-282 | the call is sure that any result it returns is its own iff the ring is idle before it, or the queue is full so that it returns none |
| SubmitAndWait.SyncRunIsRun | include/iouxx/iouringxx.hpp:269-282 | a run of such calls, errors included, is a run of the steps |
| SubmitAndWait.SyncRunExact | include/iouxx/iouringxx.hpp:269-282 | at every point of every such run the next call is sure of its own result iff no earlier one had a submit or wait error, or the queue is full |
| SubmitAndWait.SyncRunOwnResults | include/iouxx/iouringxx.hpp:269-282 | every call that returns a result before the first such error returns its own |
| SubmitAndWait.FailedSubmitLeavesSqe | include/iouxx/iouringxx.hpp:859-869 | a failed submission leaves the SQE queued, and a later call may return its completion instead of its own |
| Text.JoinCut | include/iouxx/iouops/network/ip.hpp:373-376 | joining the pieces of a split with the delimiter gives the text back |
| Text.CutExact | include/iouxx/iouops/network/ip.hpp:373-376 | the pieces of a split are the only list that joins to the text with every delimiter leftmost |
| Charconv.DigitsValue | include/iouxx/iouops/network/ip.hpp:825-826 | printed digits read back as the number, without superfluous zeros |
| Charconv.DigitsByText | include/iouxx/iouops/network/ip.hpp:173-173 | the sixteen digits in either case, by their text, and no other character |
| Charconv.ValueByPlaces | include/iouxx/iouops/network/ip.hpp:173-173 | the value of a digit string by places |

## Left out

- The operation wrappers (files, directories, poll, futex, cancel, timeout, connection, send and receive): they forward
  fields to liburing and decode one result each.
- Multishot and zero-copy completions: their order is a matter of the kernel.
- Coroutine awaiters: they use the same submission path as the other operations.
- Ring options, feature flags, NAPI, worker affinity, registered buffers and files, and the flag passed by `inc_consume`:
  values handed to the kernel unchanged.
- `ring::stop` and the probe handle: they have no effect on the buffer groups.
- Handles to buffer groups that outlive their group.
- The out-of-memory path of `insert_range`, which returns before anything is written.
- Conversions to and from `sockaddr`, `in_addr` and `in6_addr`, which copy bytes.
- The formatter specifications of `address_v4`, `port`, `socket_v4_info` and `version_info`: at most one character.
- `SocketV6.Formatter.Parse`: says nothing of the three inputs that the code reads past the end of (`ReadsInsideExact`),
  because the result is then undefined.
- `ProtocolDatabase.Database.Load`: is a method of an empty database rather than a constructor, because the constructor may
  throw; nothing is said of the object when it does.
