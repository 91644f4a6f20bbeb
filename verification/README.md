# Verification of the address library, the response queue, the unit pool and the task loop

This project models four parts of the bot and of the `cpp-sc2` library it is built on, and proves
what they promise.

**The IPv6/IPv4 address library** (`cpp-sc2/contrib/ipv6-parse`). The reader is a state machine that
consumes a text character by character, fills in an address structure in place and opens up the `::`
abbreviation at the end. The printer finds the leftmost longest run of zero components and moves a
write pointer through a caller's buffer. The header promises that an address can be printed and read
back; `RoundTrip.RoundTripExactly` says for which of all possible addresses that is true, and
`RoundTrip.CommandLine` says what the command-line tool reports as a consequence.

**The response queue** (`sc2_connection.cc`). Websocket threads push responses and one thread
receives them. The mutex is released between the wait and the pop, and a timeout clears the queue
without it. The interleavings are a state machine over atomic steps.

**The unit pool** (`sc2_unit.cc`). A block allocator that gives every tag a slot that never moves.
Each run is described from its sequence of calls alone.

**The task loop** (`RESOURCE_BOT::step`) over a priority queue ordered by `Task::operator<`.

## How the files fit together

| files | content |
|---|---|
| `Options`, `Text` | optional values; digits, positional numbers, 32-bit wrap-around, bitwise or |
| `Address` | the address structure, its flag word, `ipv6_compare` |
| `ReaderSpec`, `Reader`, `ReaderFacts` | the reader as a function on values, with the pending token as text; the reader as an object with positions, proved to do the same; its invariant and diagnostics |
| `Forms`, `FormReading`, `Acceptance`, `Rejection` | the text forms and what they denote; the reader accepts them; buffers, rejected masks, the RFC's own forms; texts that are never accepted |
| `Counting`, `Diagnosis`, `Leniency` | exactly which texts of a given shape are accepted; which diagnostic each kind of mistake is reported with; what is accepted beyond the standard |
| `PrinterSpec`, `Printer`, `Canonical` | the printed text; the printer over a buffer, proved to write it; its canonical form |
| `RoundTrip` | which addresses survive printing and reading; the command-line tool |
| `Handoff`, `Connection` | the interleaved steps; the queue object, whose history is always one of the schedules |
| `PoolSpec`, `PoolFacts`, `UnitPool` | runs of the pool and what they mean; the proofs; the pool object |
| `TaskQueue`, `Scheduler` | the heap and its order; the task loop |

## Conventions

- A result that overflows a 32-bit signed accumulator wraps around. C leaves that undefined; it can
  only happen for tokens of eight or more hexadecimal or ten or more decimal digits.
- The flag word is kept bit by bit. `IPV6_FLAG_HAS_MASK` and `IPV6_FLAG_IPV4_EMBED` are one bit, as in
  the header.
- Diagnostics are the sequence of events passed to the callback.
- A clear or an emptiness check of the response queue without the mutex is one atomic step.
- Whatever the game or another agent answers while a task is handled is an arbitrary function of the
  task and of its place in the loop.
- Pushes of other threads that come in while a Receive waits, or after its wait while the mutex is free,
  are arguments of the method; every finer interleaving is a schedule of `Handoff`.

## Where the code and its documentation differ

- "Two way functionality" (`ipv6.h:25`) fails for the addresses that are not `Restorable`: a masked
  address whose first six components are zero and whose seventh is not (its text is `::` and a dotted
  quad, which is read as an IPv4 address; `0::1.2.3.4` produces one, see `ComparisonCanFail`), a mask above 128, an IPv4 address without the embedding
  bit, with a mask or with other components set, and an IPv4 address with a port whose text is cut by
  the 16-byte token buffer.
- A dotted quad directly after `::`, as in `::1.2.3.4`, is the form of RFC 4291 that lands in the wrong
  components (`QuadAfterGapIsMisplaced`); `RfcComponentsExactly` says which texts get the RFC's
  components: all others, and a quad of zeros.
- The range checks of groups and octets have no lower bound, so an accumulator that has wrapped to a
  negative number is accepted (`GroupAcceptance`, `DecimalAcceptance`); `80000000::` is accepted as the
  address of zeros (`WideGroupCanBeAccepted`).
- `ipv6_compare` is documented to return -1, 0 or 1 and returns differences; for flag words or masks
  2^31 apart it is not antisymmetric (`CompareAntisymmetricExactly`).
- `PollResponse` is documented to return true if and only if a response is queued. It reads the flag
  without the mutex, and `FlagAgreesExactly` says in which reachable states that fails. It returns
  false with a response queued exactly while a push is between its two writes, which needs no timeout
  (`PollCanMissAResponse`), and true with nothing queued exactly after a clear that threw responses
  away, until the next push (`TimeoutCanLeaveTheFlagSet`), or while a pop is about to clear the flag.
- The comment about keeping enough resources in the task loop does not hold for a building order at a
  food cap of 200 (`BudgetIsExceededExactly`, `BudgetCanBeExceeded`).

## Model

| member | source | states |
|---|---|---|
| RoundTrip.RoundTripExactly | cpp-sc2/contrib/ipv6-parse/ipv6.h:25 | for every value of every field of an address: printing, parsing and comparing gives 0 if and only if the address is restorable |
| RoundTrip.PrintAndParse | cpp-sc2/contrib/ipv6-parse/cmdline.c:58-72 | for every address, printing into a buffer of IPV6_STRING_SIZE characters, parsing the buffer and comparing finds no difference exactly for restorable addresses |
| RoundTrip.CommandLine | cpp-sc2/contrib/ipv6-parse/cmdline.c:51-77 | the tool exits with 2 exactly for rejected texts, with 0 exactly when the parsed address is restorable, otherwise with 5; printing and the second parse never fail |
| RoundTrip.ComparisonCanFail | cpp-sc2/contrib/ipv6-parse/cmdline.c:72-77 | 0::1.2.3.4 is accepted and not restorable, so the tool exits with 5 |
| RoundTrip.RoundTripOfForm | cpp-sc2/contrib/ipv6-parse/ipv6.c:855-964 | plain, ported and masked addresses read back equal unless unknown flag bits are set or only a dotted quad is printed |
| RoundTrip.FormDenotesComponents | cpp-sc2/contrib/ipv6-parse/ipv6.c:886-944 | the groups, the abbreviation and the quad that are printed denote exactly the eight components |
| RoundTrip.QuadOnlyExactly | cpp-sc2/contrib/ipv6-parse/ipv6.c:891-927 | a masked address is printed as "::" and a quad exactly when its first six components are zero and the seventh is not |
| RoundTrip.QuadOnlyComesBackMisplaced | cpp-sc2/contrib/ipv6-parse/ipv6.c:446-470 | what that family reads back as: the two low components first, marked as IPv4 |
| RoundTrip.LargeMaskRejected | cpp-sc2/contrib/ipv6-parse/ipv6.c:946-952 | a printed mask above 128, up to 32 bits, is not accepted again |
| RoundTrip.CompatReadBack | cpp-sc2/contrib/ipv6-parse/ipv6.c:831-853 | what the 15 characters left of an IPv4 address and port parse to, and when the port survives |
| RoundTrip.RoundTripOfCompat | cpp-sc2/contrib/ipv6-parse/ipv6.c:827-853 | the IPv4 round trip, exactly |
| RoundTrip.CutPort | cpp-sc2/contrib/ipv6-parse/ipv6.c:834-839 | a port cut short denotes another number, except the empty rest of port 0 |
| RoundTrip.PrintedTellsApart | cpp-sc2/contrib/ipv6-parse/ipv6.h:175-177 | addresses that compare equal print alike, and among restorable ones only those |
| RoundTrip.ProducedReadsBack | cpp-sc2/contrib/ipv6-parse/cmdline.c:58-67 | whatever a parse produced prints as text that parses |
| FormReading.FormsAreAccepted | cpp-sc2/contrib/ipv6-parse/ipv6.c:362-784 | every well-formed text, with "::", quad, prefix length and bracketed port in any combination, parses without a diagnostic to the address it denotes |
| FormReading.ReadGroupsAndColons | cpp-sc2/contrib/ipv6-parse/ipv6.c:428-444 | groups followed by colons are stored one after the other, however many |
| FormReading.ReadQuad | cpp-sc2/contrib/ipv6-parse/ipv6.c:446-470 | four octets reserve two components and pack into them |
| FormReading.ReadGap | cpp-sc2/contrib/ipv6-parse/ipv6.c:490-504 | "::" marks the run after the groups already stored |
| FormReading.ReadSuffix | cpp-sc2/contrib/ipv6-parse/ipv6.c:560-618 | prefix length and port are stored after any complete address part |
| FormReading.ExpandOpensTheGap | cpp-sc2/contrib/ipv6-parse/ipv6.c:759-781 | left and right components end up around the zeros |
| Acceptance.RfcFormsAreAccepted | cpp-sc2/contrib/ipv6-parse/ipv6.h:15-21 | every form of section 2.2 of RFC 4291, except a quad with no group before it, is accepted from a buffer as left, zeros, right and packed quad |
| Acceptance.QuadAfterGapIsMisplaced | cpp-sc2/contrib/ipv6-parse/ipv6.c:457-460 | a quad directly after "::", with or without mask and port, lands in the first two components where the RFC has the last two |
| Acceptance.RfcComponentsExactly | cpp-sc2/contrib/ipv6-parse/ipv6.c:744-781 | of all well-formed texts with "::", exactly those with a group before the quad, without a quad, or with a quad of zeros get the components that the RFC gives them |
| Acceptance.QuadAndPortAccepted | cpp-sc2/contrib/ipv6-parse/ipv6.c:429-435 | a.b.c.d:port is accepted, with an empty port read as 0 |
| Acceptance.OutOfRangeMaskRejected | cpp-sc2/contrib/ipv6-parse/ipv6.c:332-342 | a mask whose 32-bit value is not in 0..128 makes an otherwise well-formed text unacceptable |
| Rejection.OutOfRangeMaskRejected | cpp-sc2/contrib/ipv6-parse/ipv6.c:332-342 | the same for any text: whatever stands before the slash (without an interface name) and after the digits |
| Acceptance.ParsedFromBuffer | cpp-sc2/contrib/ipv6-parse/ipv6.c:624-657 | whatever follows a text in its buffer, verdict, address and diagnostics are those of the text, accepted or not, with its length given or a terminator after it |
| Acceptance.InputSize | cpp-sc2/contrib/ipv6-parse/ipv6.c:636-646 | an empty input and one of more than 66 characters are rejected without touching the output; otherwise the text decides |
| Counting.ShapesAcceptedExactly | cpp-sc2/contrib/ipv6-parse/ipv6.c:362-784 | any text made of groups, "::", octets, a prefix length and a port, any number of them with any number of digits, is accepted if and only if every number is in range as a 32-bit value, there are four octets or none, and the components are eight, or up to eight around "::", or a quad alone |
| Counting.CountGroups | cpp-sc2/contrib/ipv6-parse/ipv6.c:265-285 | reading groups succeeds exactly if they fit in eight and are in range |
| Counting.CountOctets | cpp-sc2/contrib/ipv6-parse/ipv6.c:288-320 | the same for octets and four |
| Diagnosis.GroupsByCount | cpp-sc2/contrib/ipv6-parse/ipv6.c:749-757 | groups in range are accepted exactly if they are eight; any other number, none included, is reported once as a bad component count |
| Diagnosis.OctetsByCount | cpp-sc2/contrib/ipv6-parse/ipv6.c:728-735 | dotted octets are accepted exactly if they are four; two, three, or more than four are reported once as a bad octet count |
| Diagnosis.GroupOutOfRangeReported | cpp-sc2/contrib/ipv6-parse/ipv6.c:275-278 | a group out of range after groups in range is the one diagnostic, whatever follows |
| Diagnosis.OctetOutOfRangeReported | cpp-sc2/contrib/ipv6-parse/ipv6.c:298-301 | the same for octets |
| Diagnosis.MaskOutOfRangeReported | cpp-sc2/contrib/ipv6-parse/ipv6.c:332-342 | a prefix length out of range after a well-formed address is the one diagnostic |
| Diagnosis.PortOutOfRangeReported | cpp-sc2/contrib/ipv6-parse/ipv6.c:345-355 | a port out of range after a bracketed address is the one diagnostic |
| Diagnosis.AfterPortReported | cpp-sc2/contrib/ipv6-parse/ipv6.c:604-616 | after a port anything but digits and blanks is reported as invalid input |
| Diagnosis.GroupAfterQuadReported | cpp-sc2/contrib/ipv6-parse/ipv6.c:436-443 | a colon after a quad that follows a group is reported as such |
| Diagnosis.QuadTooLateReported | cpp-sc2/contrib/ipv6-parse/ipv6.c:446-460 | a quad after seven or eight groups is reported as lacking room |
| Diagnosis.TripleColonReported | cpp-sc2/contrib/ipv6-parse/ipv6.c:492-498 | a third colon in a row is reported as an invalid abbreviation |
| Diagnosis.BracketsReported | cpp-sc2/contrib/ipv6-parse/ipv6.c:382-390 | where brackets are reported |
| Leniency.BlanksBefore | cpp-sc2/contrib/ipv6-parse/ipv6.c:402-403 | blanks before any text change nothing |
| Leniency.BlanksAfter | cpp-sc2/contrib/ipv6-parse/ipv6.c:724-725 | blanks after any text change neither the verdict nor the accepted address |
| Leniency.BlanksBetween | cpp-sc2/contrib/ipv6-parse/ipv6.c:423-426 | in the middle of any text all four blanks, and any number of them, are the same |
| Leniency.BlanksBeforePort | cpp-sc2/contrib/ipv6-parse/ipv6.c:589-596 | blanks between the closing bracket and the colon of a port change nothing |
| Leniency.OpeningBracketIsIgnored | cpp-sc2/contrib/ipv6-parse/ipv6.c:382-387 | an opening bracket before any text without another one changes nothing, closed or not |
| Leniency.LeadingColonIsIgnored | cpp-sc2/contrib/ipv6-parse/ipv6.c:393-395 | a single colon before any text that begins with a digit changes nothing |
| Leniency.TrailingColonIsIgnored | cpp-sc2/contrib/ipv6-parse/ipv6.c:428-444 | a single colon after any text of groups that ends in a digit changes nothing |
| Leniency.NamedFormsAreAccepted | cpp-sc2/contrib/ipv6-parse/ipv6.c:543-558 | every well-formed text can have an interface name after its address or mask and denotes the same address |
| Leniency.NameIsIgnored | cpp-sc2/contrib/ipv6-parse/ipv6.c:543-558 | in any text, a name where one can stand is read over |
| Rejection.SecondAbbreviationRejected | cpp-sc2/contrib/ipv6-parse/ipv6.c:490-504 | no text without an interface name in which "::" stands at two places, overlapping ones included, is accepted |
| Rejection.SecondBracketRejected | cpp-sc2/contrib/ipv6-parse/ipv6.c:382-387 | no text without an interface name that holds two opening brackets is accepted |
| Rejection.ForeignCharacterRejected | cpp-sc2/contrib/ipv6-parse/ipv6.c:709-718 | one character other than the 22 digits and ":", ".", "/", "%", "[", "]", blank, tab, newline and return makes any text unacceptable, and is the one diagnostic if nothing before it was wrong |
| Rejection.DeadEndRejected | cpp-sc2/contrib/ipv6-parse/ipv6.c:405-408 | pairs of characters that no accepted text without an interface name contains: a dot without a digit before it, a bracket after a digit or a mark, and what cannot follow a slash or a closing bracket |
| Reader.FromStrDiag | cpp-sc2/contrib/ipv6-parse/ipv6.c:624-784 | the object-based parser returns the verdict, address and diagnostics of the specification and never reads past the terminator or the given length plus one |
| Reader.AddressReader.Transition | cpp-sc2/contrib/ipv6-parse/ipv6.c:362-621 | one event changes the object as the specification says, and the token ends at the next character |
| Reader.AddressReader.FromAddrComponent | cpp-sc2/contrib/ipv6-parse/ipv6.c:411-488 | the same for the component state |
| Reader.AddressReader.ReadDecimalToken | cpp-sc2/contrib/ipv6-parse/ipv6.c:198-224 | the loop computes the positional value modulo 2^32 as a signed number; "Invalid token" is unreachable |
| Reader.AddressReader.ReadHexadecimalToken | cpp-sc2/contrib/ipv6-parse/ipv6.c:227-261 | the same for hexadecimal tokens |
| Reader.AddressReader.ParseV6Component | cpp-sc2/contrib/ipv6-parse/ipv6.c:265-285 | a group is stored at the next component, or reported |
| Reader.AddressReader.ParseV4Component | cpp-sc2/contrib/ipv6-parse/ipv6.c:288-320 | an octet is or-ed into its half of a reserved component, or reported |
| Reader.AddressReader.ParseCidr | cpp-sc2/contrib/ipv6-parse/ipv6.c:332-342 | the mask is stored and flagged, or reported |
| Reader.AddressReader.ParsePort | cpp-sc2/contrib/ipv6-parse/ipv6.c:345-355 | the port is stored and flagged, or reported |
| Reader.AddressReader.ReadText | cpp-sc2/contrib/ipv6-parse/ipv6.c:657-722 | the character loop is the run over the text up to the first error |
| Reader.AddressReader.Conclude | cpp-sc2/contrib/ipv6-parse/ipv6.c:724-783 | the end of the text, as specified |
| Reader.AddressReader.ExpandZerorun | cpp-sc2/contrib/ipv6-parse/ipv6.c:759-781 | the three copies open the gap in place |
| ReaderFacts.ReaderInvariant | cpp-sc2/contrib/ipv6-parse/ipv6.c:362-621 | after every prefix of every text: counters agree, unwritten components are zero, tokens hold only digits of their kind, at most two diagnostics |
| ReaderFacts.ParseComponentKeeps | cpp-sc2/contrib/ipv6-parse/ipv6.c:265-329 | storing a group or octet keeps the invariant, also when a check fails |
| ReaderFacts.ConcludeFacts | cpp-sc2/contrib/ipv6-parse/ipv6.c:762-781 | both rejections of the expansion are unreachable and its copies do not overlap |
| ReaderFacts.VerdictMatchesDiagnostics | cpp-sc2/contrib/ipv6-parse/ipv6.h:151-178 | a parse succeeds if and only if the callback was never called, and otherwise it was called once or twice |
| ReaderFacts.TwoDiagnosticsAreReachable | cpp-sc2/contrib/ipv6-parse/ipv6.c:728-735 | 1.2.a is reported twice |
| ReaderFacts.GroupAcceptance | cpp-sc2/contrib/ipv6-parse/ipv6.c:265-285 | for tokens of any length: when a group is accepted and what is stored; up to seven digits, exactly the values up to 0xffff |
| ReaderFacts.DecimalAcceptance | cpp-sc2/contrib/ipv6-parse/ipv6.c:288-355 | for tokens of any length: when an octet, mask or port is accepted and what each stores; an octet out of range is or-ed in as its two low bytes |
| Acceptance.WideGroupCanBeAccepted | cpp-sc2/contrib/ipv6-parse/ipv6.c:275-280 | the text 80000000:: is accepted as the address of zeros |
| Text.WrapAccumulate | cpp-sc2/contrib/ipv6-parse/ipv6.c:207-213 | wrapping at every digit equals wrapping once |
| Text.BitOrOctet | cpp-sc2/contrib/ipv6-parse/ipv6.c:308-315 | or-ing an octet into a clear low byte adds it |
| Text.NumeralDenotes | cpp-sc2/contrib/ipv6-parse/ipv6.c:903-907 | a printed number is lower case, has no leading zero and denotes the number |
| Address.CompareAddresses | cpp-sc2/contrib/ipv6-parse/ipv6.c:968-1005 | the method returns the first nonzero difference |
| Address.CompareZero | cpp-sc2/contrib/ipv6-parse/ipv6.c:968-1005 | it returns 0 if and only if components, flags and the flagged fields agree, for any flag words |
| Address.CompareIsLexicographic | cpp-sc2/contrib/ipv6-parse/ipv6.c:974-1002 | its sign is a lexicographic order of a key |
| Address.CompareIsPreorder | cpp-sc2/contrib/ipv6-parse/ipv6.h:197-205 | sign-antisymmetric and transitive for flags and masks below 2^31 |
| Address.CompareAntisymmetricExactly | cpp-sc2/contrib/ipv6-parse/ipv6.c:983-1001 | for all flag words and masks: antisymmetric exactly when nothing is 2^31 apart |
| Address.CompareCanFailAntisymmetry | cpp-sc2/contrib/ipv6-parse/ipv6.c:983 | two addresses each of which compares below the other |
| Printer.ToStr | cpp-sc2/contrib/ipv6-parse/ipv6.c:811-965 | for every buffer size: exactly when NULL is returned, what the buffer holds, and that nothing outside the size is written |
| Printer.WriteComponents | cpp-sc2/contrib/ipv6-parse/ipv6.c:886-944 | the component loop writes the address part, or gives up exactly when it does not fit |
| Printer.WriteItem | cpp-sc2/contrib/ipv6-parse/ipv6.c:887-943 | one iteration: group, quad or abbreviation |
| Printer.WriteSuffix | cpp-sc2/contrib/ipv6-parse/ipv6.c:946-962 | mask and port, cut at the end of the buffer |
| Printer.WriteCompat | cpp-sc2/contrib/ipv6-parse/ipv6.c:831-853 | the IPv4 text, cut at the end of the buffer |
| Printer.FindLongestSpan | cpp-sc2/contrib/ipv6-parse/ipv6.c:858-879 | the span scan finds the leftmost longest run of zeros |
| Printer.EmitIsBody | cpp-sc2/contrib/ipv6-parse/ipv6.c:886-944 | what the loop writes is the text form of the address |
| Printer.PrintedLength | cpp-sc2/contrib/ipv6-parse/ipv6.c:34-35 | at most 64 characters for any port and any 32-bit mask |
| Printer.StringSizeSuffices | cpp-sc2/contrib/ipv6-parse/ipv6.c:34-35 | a buffer of IPV6_STRING_SIZE bytes always gets the whole text |
| Printer.FitsBounds | cpp-sc2/contrib/ipv6-parse/ipv6.c:816-853 | a buffer of three characters more than the text always suffices, four are always needed, and are enough for an IPv4 address |
| PrinterSpec.LongestRunIsLongest | cpp-sc2/contrib/ipv6-parse/ipv6.c:855-879 | the chosen run is a longest one and the leftmost of those |
| PrinterSpec.LongestRunIsUnique | cpp-sc2/contrib/ipv6-parse/ipv6.c:855-879 | there is no other choice |
| Canonical.PrintedIsCanonical | cpp-sc2/contrib/ipv6-parse/ipv6.h:184-188 | sections 4.1 to 4.3 of RFC 5952 for plain addresses: lower case, minimal groups, "::" exactly once, at the leftmost longest run, only for two zeros or more |
| Canonical.PlainText | cpp-sc2/contrib/ipv6-parse/ipv6.c:881-960 | the printed text spelled out, with brackets exactly for a port |
| Handoff.FifoOverAllSchedules | cpp-sc2/src/sc2api/sc2_connection.cc:161-207 | over all interleavings the responses handed over are an in-order, duplicate-free subsequence of those pushed, all are accounted for, and without a timeout none is skipped |
| Handoff.ReceiveIsAlwaysFilled | cpp-sc2/src/sc2api/sc2_connection.cc:170-177 | a Receive gives up only with nothing queued, and one that found a response returns one, the oldest, although the mutex is released before the pop |
| Handoff.ClearTakesOnlyLateResponses | cpp-sc2/src/sc2api/sc2_connection.cc:179-182 | from the schedule: what a timeout throws away is exactly what was pushed after that Receive had missed |
| Handoff.DeadlineWithAResponse | cpp-sc2/src/sc2api/sc2_connection.cc:170-177 | a schedule in which the deadline passes after a push, and the response is received |
| Handoff.FlagAgreesExactly | cpp-sc2/src/sc2api/sc2_connection.cc:226-228 | in every reachable state: the flag misses a queued response exactly between the two writes of a push, and is set with nothing queued exactly after a clear that threw responses away, until the next push, or just before a pop clears it |
| Handoff.PollByReceiver | cpp-sc2/include/sc2api/sc2_connection.h:69-71 | a poll by the receiving thread, whatever the others do: when it is right, and that without a timeout it can only be wrong between the two writes of a push |
| Handoff.PollCanMissAResponse | cpp-sc2/src/sc2api/sc2_connection.cc:192-197 | a schedule without a timeout in which a poll misses a queued response |
| Handoff.FlagAgreesWithQueue | cpp-sc2/src/sc2api/sc2_connection.cc:192-207 | with the mutex free a queued response sets the flag; the converse fails exactly after a clear that threw responses away, until the next push |
| Handoff.StaleExactly | cpp-sc2/src/sc2api/sc2_connection.cc:179-182 | "a clear threw responses away and nothing was pushed since", from the schedule alone |
| Handoff.TimeoutCanLeaveTheFlagSet | cpp-sc2/src/sc2api/sc2_connection.cc:179-182 | a schedule that ends with the flag set and nothing queued |
| Handoff.StepKeepsFifo | cpp-sc2/src/sc2api/sc2_connection.cc:192-207 | every atomic step keeps the queue a suffix of what was pushed and the hand-over in order |
| Handoff.StepKeepsAgreement | cpp-sc2/src/sc2api/sc2_connection.cc:192-207 | every atomic step keeps flag and queue related |
| Connection.ResponseQueue.PushResponse | cpp-sc2/src/sc2api/sc2_connection.cc:192-197 | wherever the receiver is, appends, sets the flag, and is the schedule of its four steps |
| Connection.ResponseQueue.PopResponse | cpp-sc2/src/sc2api/sc2_connection.cc:199-207 | takes the oldest response, or leaves the argument alone |
| Connection.ResponseQueue.Receive | cpp-sc2/src/sc2api/sc2_connection.cc:161-190 | with pushes coming in during and after the wait: fills in the oldest response and leaves the others, or times out and throws away what came after |
| Connection.ResponseQueue.PollResponse | cpp-sc2/src/sc2api/sc2_connection.cc:226-228 | at any moment of any history, exactly when the answer differs from whether a response is queued |
| PoolFacts.AllocationIsABijection | cpp-sc2/src/sc2api/sc2_unit.cc:13-50 | after any run the k-th tag created has the k-th slot, slots are distinct and in bounds, and the index and block count follow from the number of tags |
| PoolFacts.SlotsAreStable | cpp-sc2/src/sc2api/sc2_unit.cc:13-37 | a tag's slot never changes |
| PoolFacts.ExistingAndDead | cpp-sc2/src/sc2api/sc2_unit.cc:52-76 | the existing index holds exactly the tags created and neither killed nor cleared since; a slot is dead exactly when its tag was killed, also after being created again |
| PoolFacts.NewlyCreatedList | cpp-sc2/include/sc2api/sc2_unit.h:232-240 | the newly-created list is the slots first created in this frame, in order |
| PoolFacts.AnnouncedOncePerRun | cpp-sc2/src/sc2api/sc2_unit.cc:13-32 | a tag is announced exactly when its slot is allocated |
| PoolFacts.EventsOfTheFrame | cpp-sc2/include/sc2api/sc2_unit.h:241-247 | after any run the other event lists hold exactly what was reported since the last clear, in order, and the idled set only own units |
| UnitPool.Pool.CreateUnit | cpp-sc2/src/sc2api/sc2_unit.cc:13-32 | returns the tag's slot, a new one exactly for a new tag |
| UnitPool.Pool.GetUnit | cpp-sc2/src/sc2api/sc2_unit.cc:34-37 | finds exactly the tags ever created |
| UnitPool.Pool.GetExistingUnit | cpp-sc2/src/sc2api/sc2_unit.cc:39-42 | finds exactly the existing tags |
| UnitPool.Pool.IncrementIndex | cpp-sc2/src/sc2api/sc2_unit.cc:44-50 | the number of slots handed out, block times 1000 plus index, grows by one and the index stays below 1000 |
| UnitPool.Pool.MarkDead | cpp-sc2/src/sc2api/sc2_unit.cc:52-60 | kills the unit and takes the tag out of the existing index only |
| UnitPool.Pool.ClearExisting | cpp-sc2/src/sc2api/sc2_unit.cc:69-76 | forgets the existing units and all five event lists, keeps the slots |
| UnitPool.Pool.UnitExists | cpp-sc2/src/sc2api/sc2_unit.cc:78-80 | true exactly for existing tags |
| TaskQueue.PrecedesExactly | Task.hpp:202-205 | the order spelled out: higher priority first, and at equal priority resource, defence, scout, attack |
| TaskQueue.LessIsStrictWeakOrder | Task.hpp:202-205 | irreflexive, asymmetric, transitive, with incomparability exactly for equal priority and source |
| TaskQueue.FrontIsMaximum | threadsafe_priority_queue.h:39-46 | the front of a heap is a maximum |
| TaskQueue.PriorityQueue.Push | threadsafe_priority_queue.h:29-37 | adds the task and keeps the heap |
| TaskQueue.PriorityQueue.Pop | threadsafe_priority_queue.h:39-46 | removes a task of the highest priority and, among those, of the agent that stands first |
| TaskQueue.PriorityQueue.Remove | threadsafe_priority_queue.h:58-64 | removes the first task with the same action, priority and position, if any, and rebuilds the heap |
| TaskQueue.PriorityQueue.MakeHeap | threadsafe_priority_queue.h:62 | any container becomes a heap with the same contents |
| Scheduler.ResourceAgentLoop.Step | RESOURCE_BOT.cpp:42-243 | the loop ends, with the queue empty or stopped by a task; what it popped, gave as orders and left satisfies the conservation, order and accounting of the rows below |
| Scheduler.ResourceAgentLoop.Perform | RESOURCE_BOT.cpp:56-241 | exactly when an order is given, when a task goes back to the queue and when it stops the loop; what else enters the queue; and that only orders to train or build are paid, training in full |
| Scheduler.StepConserves | RESOURCE_BOT.cpp:54-84 | the queue ends as what was there and what came in, less what was popped, plus at most the last task; a task above an earlier one came in after that one was popped; at most one iteration per queued task and one more per transfer to the scout agent |
| Scheduler.OrderWithoutArrivals | Task.hpp:202-205 | if nothing comes in: no task is popped or left behind after one of lower priority, nor, at equal priority, after one of an agent that stands later; and there are at most as many iterations as tasks queued |
| Scheduler.PopsAreBounded | SCOUT_BOT.cpp:68-83 | only handing a command center to the scout agent brings in a task, one each, always a training task of that agent with priority 7, which brings in no other |
| Scheduler.BudgetIsKept | RESOURCE_BOT.cpp:49-51 | below a food cap of 200 the training and building orders of a step cost at most what was read at its start; training food stays within what was free; at most one building order |
| Scheduler.BudgetIsExceededExactly | RESOURCE_BOT.cpp:75-94 | it is exceeded exactly by a last building order at a food cap of 200 or more that costs more than was read at the start less the orders given since |
| Scheduler.BudgetCanBeExceeded | RESOURCE_BOT.cpp:75-94 | a building that costs 100 is ordered with no minerals |
| Scheduler.OrderGivenExactly | RESOURCE_BOT.cpp:56-241 | in terms of the amounts read and the orders so far: the last task popped adds its own order exactly if what it needs is there, its action is one the agent performs, and what that action checks suffices |
| Scheduler.PutBackExactly | RESOURCE_BOT.cpp:72-84 | in terms of the amounts read at the start and the orders given since: exactly when the last task popped goes back to the queue |
| Scheduler.StopsExactly | RESOURCE_BOT.cpp:53-56 | the loop is ended exactly by a task put back, a building order or a transfer of the agent's own |

## Left out

- Interface names: the text after `%` is consumed as the code does, but the iface fields of the structure are never set or printed by the code and are not modelled.
- NULL pointers as input, output or buffer arguments, and the message and position passed to the diagnostic callback.
- Trace output and the choice of snprintf; number formatting is modelled by digit functions with the 16-byte truncation.
- STATE_ZERORUN and IPV6_DIAG_TRAILING_ZEROES, which the code never uses.
- Data races in the C++ sense on the response queue, lost wake-ups, waiting times, the timeout callback and the websocket itself.
- Connect, Send and Disconnect, protobuf parsing, and all generated code.
- The fields of a unit other than is_alive, and the writes of is_alive outside the pool.
- UnitPool.ForEachExistingUnit: a traversal of the existing index, whose contents are stated instead.
- The standard library's heap algorithms are modelled as sift-up, sift-down and make-heap; how they order equal tasks is unspecified, as there.
- The mutex of the task queue: one thread runs the task loop.
- In the task loop, buildStructure, getSCV, unit look-ups and costs are arbitrary answers, the several commands of one task count as one order, and so does handing a unit over to another agent. The queue of the scout agent is not modelled.
- The food cost and the food counter are exact: the source computes them in single precision, which rounds when the counter is above 2^24, that is when more food is used than the cap allows and the unsigned difference has wrapped.
- A food counter that a building order makes negative, which C leaves undefined, is wrapped; the loop ends with that order.
- Bot strategy, base management, building placement, the database wrapper and argument parsing.
