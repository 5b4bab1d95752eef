# Qv2ray: version numbers, latency tests and helper algorithms

A Dafny model of three parts of Qv2ray, with proofs about every input and every run.

**Version numbers** (`Decimal`, `Dotted`, `Regex`, `Grammar`, `Semver`, `SemverRoundTrip`, `Lexicographic`,
`SemverOrder`, `SemverBump`). The vendored `semver::version` parses a text with a regular expression, validates it,
prints it, compares versions in stages and bumps one of their numbers. `Regex` gives regular expressions their usual
meaning and `Grammar` writes the expressions of the source in it; the deterministic recogniser the model computes with
is proved to find exactly what the expression matches and captures. On top of that stand: which texts are accepted and
which exception the others meet, parse and print as inverses, the comparison as a strict total order and as the
precedence of section 11 of Semantic Versioning 2.0.0, and `bump` as the least greater vector of its kind.

**Latency tests** (`Probes`, `Latency`, `TCPing`, `PingRuns`, `LatencyQueue`, `LatencyThread`, `RealPing`). A TCP test
is a lookup followed by probes, each ended by one error or one connection, possibly inside the launch loop; a proxy test
holds a timer and sockets in the loop and counts what curl reports done. The objects
`TCPing`, `LatencyThread` and `RealPing` have the fields and loops of the source; their methods are proved to compute
the functions of `Latency`, `LatencyQueue` and `RealPings`. `PingRuns` and `LatencyQueue` are state machines whose steps
the environment takes in any order and with any data, so what is proved of them holds over all interleavings.

**Helpers** (`Utf8`, `Base64`, `Base64Text`, `Helpers`, `NamedMaps`, `EnumMap`). URL-safe base64 from text to text, with
the UTF-8 conversions of `QString` before encoding and behind decoding; byte sizes for people, as far as the two printed
decimals; the search for a free file name; and the JSON form of a map keyed by an enumeration.

`dafny verify dfyconfig.toml` checks the project. C++ integers are unbounded in the model except where the width is
written out: `unsigned int` release numbers (`U32`, narrowed with `Narrow`, wrapping in `Bump`), `unsigned long` as 64
bits (`ULONG_MAX`), and `int` keys of an enumeration. Exceptions are the `Err` case of a `Result`.

## Where the code and its documentation differ

The model follows the code.

- `version::operator==` (3rdparty/libsemver/version.cpp:259-262) ignores the metadata; version.hpp:222-230 says that all
  components are compared. `EqualUpToMetadata` says exactly when the two agree.
- `bump` (version.cpp:214-218) sets the last number it adds to 1, and extends when the index equals the size;
  version.hpp:188-198 says that the added components are 0 and speaks of a greater index.
- `check_identifier` (version.cpp:326-335) refuses the lone identifier `0`, which section 9 of Semantic Versioning 2.0.0
  allows. `GapToStandard` says exactly which texts of the standard's form are refused.
- The code throws `std::out_of_range` besides `std::invalid_argument`, from `std::stoul` on numbers beyond
  `unsigned long`. `ErrorsAreExact` says exactly when.

Properties a reader might expect that the code does not have. Each has an exact condition and an input or a run at which
it fails.

| property | holds if and only if | fails, for example |
|---|---|---|
| every text of the standard's form parses | `SemverRoundTrip.GapToStandard` | `LoneZeroIsRefused`, `HugeNumberIsOutOfRange` |
| parse then print is the identity | `SemverRoundTrip.ParseThenPrint` | `NarrowedToZero`, `WideNumberIsNarrowed` |
| equal versions are equal in every part | `SemverOrder.EqualUpToMetadata` | `EqualVersionsThatDiffer` |
| a bumped version is greater | `SemverBump.BumpIsGreater`, `BumpIsLeast` | `WrappedBumpIsLess` |
| a usable address is used | `Latency.MissedExactly`, `PingRuns.LookupTarget` | `ProbesWithoutAddress` |
| a completion of a TCP test names the number of probes wanted | `PingRuns.ReportedTotalCount` | `OneProbeReportsNone`, `FailedLookupNamesNone` |
| a completion of a proxy test does | never, `RealPings.ProxyNamesNone` | every completion of a proxied test |
| a dispatched request has reported when the loop closes | `LatencyQueue.ClosedHasReported` | `LookupCanBeDropped` |
| nothing is left in the queue of a closed loop | `LatencyQueue.NothingStranded` | `LatePushIsStranded` |
| a stopped loop can close | `LatencyQueue.StoppedLoopCanClose` | `UnproxiedNeverCloses` |
| a repeated report of a proxy test repeats the one before | `RealPings.RepeatedReport` | `SecondReportIsWrong` |
| decoding what was encoded gives the text back | `Base64Texts.TextDecodesBack` | `NulTextIsCut` |
| encoding what was decoded gives the text back | `Base64Texts.EncodesBack`, `EncodesBackPadded` | `NotUtf8IsReplaced`, `NulIsCut`, `StrayBitsAreDropped` |
| writing what was loaded gives the object back | `EnumMaps.WritesBackWhatWasRead` | `LeadingZeroKeyIsLost` |
| a byte size has a unit | `Helpers.FormatBytes` | every size from 10^15 on |
| a byte size is printed as less than 1000 of its unit | `Helpers.SizeReadsThousand` | `NotQuiteAMegabyte` |

## Model

| member | source | states |
|---|---|---|
| Regex.DottedList | 3rdparty/libsemver/version.cpp:83-84 | an expression of the shape e(\.e)* matches a text exactly when e matches every piece between dots, for any e that matches no dot |
| Regex.DottedListOfTwo | 3rdparty/libsemver/version.cpp:121 | e(\.e)+ matches exactly the same with two pieces or more |
| Grammar.IdentifierListRegex | 3rdparty/libsemver/version.cpp:338-348 | the prerelease and metadata patterns match exactly the dotted lists of non-empty legal identifiers |
| Grammar.ReleaseRegex | 3rdparty/libsemver/version.cpp:121 | the release pattern matches exactly two or more dot-joined numbers without leading zeros |
| Grammar.RecogniseIsGrammar | 3rdparty/libsemver/version.cpp:140-146 | cutting at the first plus and the first hyphen succeeds exactly on the language of the whole regular expression |
| Grammar.RecogniseIsCapture | 3rdparty/libsemver/version.cpp:122-149 | the groups found that way are exactly those the expression captures |
| Grammar.CapturesUnique | 3rdparty/libsemver/version.cpp:140-149 | no text can be captured in two ways |
| Grammar.RecogniseAssembled | 3rdparty/libsemver/version.cpp:129-149 | well-formed groups put together with their marks are found again |
| Semver.ParseVersion | 3rdparty/libsemver/version.cpp:296-306 | the token loop reads every maximal digit run, left to right, narrowed to unsigned int, or throws at the first one beyond unsigned long |
| Semver.CheckIdentifier | 3rdparty/libsemver/version.cpp:321-336 | empty exactly for the empty text, leading zeroes exactly for digits only behind a zero, else accepted |
| Semver.ParsePrerelease | 3rdparty/libsemver/version.cpp:308-319 | the loop over tokens gives all components, or the first exception in order |
| Semver.NewVersion | 3rdparty/libsemver/version.cpp:152-168 | the checks of the constructor, in their order, and the version they let through |
| Semver.FromString | 3rdparty/libsemver/version.cpp:112-150 | parsing is recognising, then reading the numbers, then constructing |
| Semver.Str | 3rdparty/libsemver/version.cpp:170-193 | the printing loop gives the numbers joined with dots and the two optional parts behind their marks |
| SemverRoundTrip.ComponentsExact | 3rdparty/libsemver/version.cpp:308-336 | a list of legal identifiers gives components exactly when none is digits-only with a leading 0 or beyond unsigned long, and which |
| SemverRoundTrip.ConstructedExact | 3rdparty/libsemver/version.cpp:152-168 | the constructor accepts exactly these arguments and builds exactly this version |
| SemverRoundTrip.DigitRunsAreElements | 3rdparty/libsemver/version.cpp:298-303 | tokenising a release by digit runs is splitting it at its dots |
| SemverRoundTrip.NumbersExact | 3rdparty/libsemver/version.cpp:296-306 | the numbers are read exactly when all fit unsigned long, and are then each taken modulo 2^32 |
| SemverRoundTrip.ParsedForm | 3rdparty/libsemver/version.cpp:112-150 | for a recognised text: exactly when it parses, and each field of the version |
| SemverRoundTrip.SpelledParses | 3rdparty/libsemver/version.cpp:112-150 | a text spelled by lists of numbers and identifiers parses to the version of these lists |
| SemverRoundTrip.AcceptanceIsExact | 3rdparty/libsemver/version.cpp:121-149 | a text is accepted if and only if such lists spell it |
| SemverRoundTrip.ReleaseNumberRange | 3rdparty/libsemver/version.cpp:296-306 | for every n, the text n.0 is accepted if and only if n < 18446744073709551616, and gives the numbers n modulo 4294967296 and 0 |
| SemverRoundTrip.PrereleaseNumberRange | 3rdparty/libsemver/version.cpp:86-91 | for every n > 0, the text 1.0-n is accepted if and only if n < 18446744073709551616, and its one component has the value n |
| SemverRoundTrip.GapToStandard | 3rdparty/libsemver/version.cpp:326-335 | a text of the standard's form is refused if and only if a number exceeds unsigned long or an identifier is the lone 0 |
| SemverRoundTrip.LoneZeroIsRefused | 3rdparty/libsemver/version.cpp:321-336 | 1.0-0 is in the language of the regular expression and of section 9, and is refused |
| SemverRoundTrip.ComponentsFault | 3rdparty/libsemver/version.cpp:314-318 | an exception is thrown if and only if it is that of the first faulty identifier |
| SemverRoundTrip.ConstructorErrors | 3rdparty/libsemver/version.cpp:152-168 | which exception the constructor throws, for all arguments: both directions |
| SemverRoundTrip.ErrorsAreExact | 3rdparty/libsemver/version.cpp:145-149 | which exception from_string throws, for every text: both directions |
| SemverRoundTrip.PrintThenParse | 3rdparty/libsemver/version.cpp:112-193 | for every version the constructor accepts, parsing its print gives it back in every field |
| SemverRoundTrip.ParsedIsValid | 3rdparty/libsemver/version.cpp:148-149 | what is parsed could have been constructed |
| SemverRoundTrip.ParseThenPrint | 3rdparty/libsemver/version.cpp:303 | printing what was parsed gives the text back if and only if every release number is below 2^32 |
| SemverRoundTrip.WideNumberIsNarrowed | 3rdparty/libsemver/version.cpp:303 | every text n.0 with 2^32 <= n <= 2^64-1 is accepted and printed with n modulo 2^32 |
| SemverRoundTrip.NarrowedToZero | 3rdparty/libsemver/version.cpp:303 | 4294967296.0 is accepted and printed as 0.0 |
| SemverRoundTrip.HugeNumberIsOutOfRange | 3rdparty/libsemver/version.cpp:303 | every text n.0 with n beyond unsigned long is in the language of the regular expression and throws out_of_range |
| SemverRoundTrip.PrintIsNormalForm | 3rdparty/libsemver/version.cpp:170-193 | parse, print, parse equals parse, whatever was narrowed |
| Lexicographic.LexIsFirstDifference | 3rdparty/libsemver/version.cpp:267-280 | comparing vectors from the left finds the first difference, for every strict total element order |
| SemverOrder.ComponentTies | 3rdparty/libsemver/version.cpp:98-105 | two components are unordered if and only if they are the same text or numbers of the same value |
| SemverOrder.LeadingZeroWouldTie | 3rdparty/libsemver/version.cpp:326-335 | without the ban on leading zeros 01 and 1 would differ with neither less |
| SemverOrder.ComponentOrder | 3rdparty/libsemver/version.cpp:98-105 | the order of accepted components is strict and total |
| SemverOrder.ComponentsDetermineText | 3rdparty/libsemver/version.cpp:273-280 | equal component lists come from equal prerelease texts |
| SemverOrder.LessIrreflexive | 3rdparty/libsemver/version.cpp:264-281 | no version is less than itself |
| SemverOrder.LessTrichotomy | 3rdparty/libsemver/version.cpp:259-281 | of less, equal and greater exactly one holds |
| SemverOrder.LessTransitive | 3rdparty/libsemver/version.cpp:264-281 | less is transitive |
| SemverOrder.EqualUpToMetadata | 3rdparty/libsemver/version.cpp:259-262 | equal means equal in all but the metadata, so equal in everything exactly when the metadata agree |
| SemverOrder.EqualVersionsThatDiffer | 3rdparty/libsemver/version.cpp:259-262 | 1.0+x and 1.0+y compare equal and are different |
| SemverOrder.NumeralsCompareAsText | 3rdparty/libsemver/version.cpp:100-101 | comparing values is comparing lengths and then texts, for numerals without leading zeros |
| SemverOrder.ComponentLessIsPrecedence | 3rdparty/libsemver/version.cpp:98-105 | component order is section 11's: numbers by value and below the others, the others by the codes of their characters |
| SemverOrder.TextualOrder | 3rdparty/libsemver/version.cpp:102-103 | of two identifiers that are not numeric the first is less if and only if, behind a common beginning, it ends or has the character with the lesser code |
| SemverOrder.NumericOrder | 3rdparty/libsemver/version.cpp:100-104 | two numeric identifiers compare by value; a numeric one is less than one that is not |
| SemverOrder.LessIsPrecedence | 3rdparty/libsemver/version.cpp:264-281 | the staged comparison is section 11's precedence over two or more numbers, both directions |
| SemverBump.Bump | 3rdparty/libsemver/version.cpp:210-227 | the two loops give the bumped vector, with the increment modulo 2^32, and construct it |
| SemverBump.BumpSucceeds | 3rdparty/libsemver/version.cpp:210-227 | bumping an accepted version never throws and keeps all but the numbers |
| SemverBump.BumpedNumberAt | 3rdparty/libsemver/version.cpp:288-294 | seen through get_version: unchanged before the index, one more at it, zero behind it |
| SemverBump.BumpedLength | 3rdparty/libsemver/version.cpp:214-224 | the bumped vector has the length of the original, or index + 1 if that is more |
| SemverBump.BumpAbsorbs | 3rdparty/libsemver/version.cpp:210-227 | for j < i, bump(i) then bump(j) reads like bump(j) at every index |
| SemverBump.BumpIsGreater | 3rdparty/libsemver/version.cpp:210-227 | the vector is greater if and only if the increment does not wrap, and less if and only if it does |
| SemverBump.WrappedBumpIsLess | 3rdparty/libsemver/version.cpp:219-224 | 4294967295.0 bumped at index 0 is 0.0, which is less |
| SemverBump.NothingBetween | 3rdparty/libsemver/version.cpp:210-227 | no vector of that length whose first index+1 numbers exceed the original is less |
| SemverBump.BumpIsLeast | 3rdparty/libsemver/version.cpp:210-227 | bump gives the least such vector if and only if the increment does not wrap |
| SemverBump.BumpedVersionIsGreater | 3rdparty/libsemver/version.cpp:210-227 | the same over whole versions and operator< |
| Probes.EveryProbeCounts | src/components/latency/TCPing.cpp:73-92 | failures, successes and open probes add up to all probes |
| Probes.EndCounts | src/components/latency/TCPing.cpp:73-92 | an ending moves one probe from the open ones to one of the two counts |
| Probes.EndTimes | src/components/latency/TCPing.cpp:81-88 | a time enters sum, minimum and maximum by one update each, in whatever order the probes end |
| Probes.BestAndWorst | src/components/latency/TCPing.cpp:87-88 | best and worst bound every successful time and are reached, or are the starting value |
| Probes.MeanBetween | src/components/latency/TCPing.cpp:58-63 | the truncated mean lies between best and worst, for all times and starting values |
| Latency.ChosenExactly | src/components/latency/DNSBase.hpp:73-112 | by position in the list: the stored address is that of the first IPv4 entry, or without one that of an IPv6 head, and no other |
| Latency.MissedExactly | src/components/latency/DNSBase.hpp:91-108 | a usable entry is missed if and only if no entry is IPv4, the head is of another family, and an IPv6 entry comes behind it |
| Latency.InetFamiliesSuffice | src/components/latency/DNSBase.hpp:73-112 | from a list of IPv4 and IPv6 entries only, an address is chosen if and only if the list is not empty |
| Latency.FirstInetExactly | src/components/latency/DNSBase.hpp:76-90 | the walk over the list stops at the first IPv4 entry |
| TCPings.TCPing.OnEvent | src/components/latency/TCPing.cpp:73-92 | an event on a handle without listeners changes nothing, any other ends its probe |
| TCPings.TCPing.LaunchProbes | src/components/latency/TCPing.cpp:67-95 | the launch loop, with events raised inside connect, is the recursive launch |
| TCPings.TCPing.Start | src/components/latency/TCPing.cpp:39-52 | start resets the data, stores a literal address and probes it at once, or looks the name up with no family chosen |
| TCPings.TCPing.GetAddrInfoRes | src/components/latency/DNSBase.hpp:73-112 | zero exactly for a non-empty list; the family and address stored are the chosen ones, else unchanged |
| TCPings.TCPing.ResumeLookup | src/components/latency/DNSBase.hpp:36-72 | the resumed coroutine: report, or probe the chosen address, which is stored before the probes; nothing when it does not wait |
| PingRuns.EndedReports | src/components/latency/TCPing.cpp:56-92 | ending a probe reports exactly when it was the last one, with the right verdict |
| PingRuns.LaunchedSettles | src/components/latency/TCPing.cpp:67-95 | the launch loop ends in a settled state, whatever is raised inside it |
| PingRuns.NextSettles | src/components/latency/TCPing.cpp:39-95 | every step of the environment keeps the invariant of a test |
| PingRuns.LookupDecides | src/components/latency/DNSBase.hpp:45-71 | a lookup ends unresolved exactly on an error or an empty list, and in probing otherwise |
| PingRuns.LookupTarget | src/components/latency/DNSBase.hpp:45-69 | the probes of a name go to the chosen address, and are launched with the family -1 if none is chosen; when that misses a usable entry |
| PingRuns.TargetIsKept | src/components/latency/TCPing.cpp:67-95 | no event changes the address once the probes are launched |
| PingRuns.ProbesWithoutAddress | src/components/latency/DNSBase.hpp:91-108 | a run in which the lookup offers an IPv6 address and the probe has none |
| PingRuns.StartDecides | src/components/latency/TCPing.cpp:45-51 | a literal address is probed, and the probes go there; a name is looked up |
| PingRuns.RunSettles | src/components/latency/TCPing.cpp:39-95 | the invariant holds after every sequence of steps, from any uninitialised counts |
| PingRuns.ProbesAreConserved | src/components/latency/TCPing.cpp:67-95 | in every run failedCount + successCount + open probes = probes launched = totalCount |
| PingRuns.ReportedExactlyOnce | src/components/latency/TCPing.cpp:56-95 | in every run at most one completion; one if and only if the lookup failed, or probes were wanted and none is open |
| PingRuns.ReportIsTheMean | src/components/latency/TCPing.cpp:56-92 | in every run the completion has the counts; its average q of n successes with sum t satisfies n*q <= t < n*q + n (for t < 0, n*q - n < t <= n*q) and lies between best and worst; without a success it is the error value, with the message of the probe that failed last |
| PingRuns.ReportOfFailedLookup | src/components/latency/DNSBase.hpp:47-65 | in every run whose lookup failed the one completion has the request id, the error value and the message |
| PingRuns.EndsWithFirstEvent | src/components/latency/TCPing.cpp:73-92 | a probe ends with the first event offered to it, whatever comes for the others in between |
| PingRuns.LaunchedProbes | src/components/latency/TCPing.cpp:67-95 | each launched probe is ended by its own event inside connect or is open |
| PingRuns.ReportedTotalCount | src/components/latency/TCPing.cpp:41-69 | in every run, a completion names the number of probes wanted if and only if some probe was still open when its connect returned, or the lookup failed and none was wanted; otherwise one too few, or none after a failed lookup |
| PingRuns.LaunchReports | src/components/latency/TCPing.cpp:67-95 | the launch loop itself reports if and only if every probe ended inside its connect |
| PingRuns.OneProbeReportsNone | src/components/latency/TCPing.cpp:64-69 | a run of one probe whose completion names none |
| PingRuns.RunNames | src/components/latency/TCPing.cpp:67-95 | the count named, as an invariant of every run, from what was raised inside the launch loop |
| PingRuns.FailedLookupNamesNone | src/components/latency/DNSBase.hpp:58-65 | a run whose lookup fails: the completion names no probe, whatever the number wanted |
| PingRuns.ScheduleDecides | src/components/latency/TCPing.cpp:67-95 | what becomes of each probe, for every mixture of events inside and after the loop |
| PingRuns.ScheduleIrrelevant | src/components/latency/TCPing.cpp:56-95 | two schedules that end every probe alike report equally often and with the same figures |
| LatencyQueue.RequestsAreConserved | src/components/latency/LatencyTestThread.cpp:21-104 | in every run accepted = dispatched ++ discarded ++ queued, in order, batches unsplit, discards only after a stop |
| LatencyQueue.AlwaysConserved | src/components/latency/LatencyTestThread.cpp:21-104 | the cut points between the three parts fall between batches, after every sequence of actions |
| LatencyQueue.ActedConserves | src/components/latency/LatencyTestThread.cpp:34-104 | every action keeps that, moves the cuts forward only, and never the first one after a stop |
| LatencyQueue.TickedConserves | src/components/latency/LatencyTestThread.cpp:34-90 | one tick moves the whole queue to the dispatched or to the discarded requests |
| LatencyQueue.AppendedConserves | src/components/latency/LatencyTestThread.cpp:94-104 | one locked append adds its batch behind everything else |
| LatencyQueue.StopIsPermanent | src/components/latency/LatencyTestThread.hpp:21-24 | after a stop isStop stays set and nothing more is dispatched, whatever happens |
| LatencyQueue.AlwaysGood | src/components/latency/LatencyTestThread.cpp:57-89 | in every run there is one settled test for each dispatched TCP and proxy request, in order |
| LatencyQueue.ClosedHasReported | src/components/latency/LatencyTestThread.cpp:35-56 | once the loop has closed no probe is open; a dispatched TCP request has reported once, except exactly those still looking up or wanting no probe; every dispatched proxy request has reported |
| LatencyQueue.TickClosesExactly | src/components/latency/LatencyTestThread.cpp:39-55 | a stopped tick closes the loop if and only if no ICMP handle, no probe, and no timer and no socket of a proxy test is open |
| LatencyQueue.SocketKeepsOpen | src/components/latency/LatencyTestThread.cpp:39-55 | the loop stays open while curl watches a socket after a callback |
| LatencyQueue.LookupCanBeDropped | src/components/latency/LatencyTestThread.cpp:39-48 | a concrete run in which a dispatched request never reports, since a lookup is no handle |
| LatencyQueue.NothingStranded | src/components/latency/LatencyTestThread.cpp:94-104 | for a closed loop with an empty queue: no sequence of actions ever puts a request into the queue, if and only if every push in flight has nothing to append |
| LatencyQueue.LatePushIsStranded | src/components/latency/LatencyTestThread.cpp:96-98 | a push that read isStop before the stop and appends after the close is accepted, stays queued in every continuation that does not start the thread again, is discarded by the first tick of one that does, and is never dispatched |
| LatencyQueue.RestartDiscards | src/components/latency/LatencyTest.cpp:23-28 | a thread started again is still stopped: its first tick discards what is queued |
| LatencyQueue.StoppedLoopCanClose | src/components/latency/LatencyTestThread.cpp:35-56 | an unclosed stopped loop can be closed by events of its own tests and ticks if and only if no ICMP handle is open and no proxy test is stuck |
| LatencyQueue.ClosingRun | src/components/latency/LatencyTestThread.cpp:35-56 | such a run, with one step for each open probe and active easy handle and one tick |
| LatencyQueue.StuckNeverCloses | src/components/latency/LatencyTestThread.cpp:39-48 | with a stuck proxy test the loop is open after every sequence of actions |
| LatencyQueue.UnproxiedNeverCloses | src/components/latency/RealPing.cpp:204-211 | after dispatching one proxy request without an inbound proxy, or for no probes, the loop never closes, whatever happens |
| LatencyQueue.ForeignNeverCloses | src/components/latency/LatencyTestThread.cpp:39-48 | with an ICMP handle that is not closed the loop never closes |
| LatencyThreads.LatencyThread.PushRequest | src/components/latency/LatencyTestThread.cpp:21-28 | unless stopped, the queue grows by one request with the id, the host and port of the connection, the count and the method asked for; uninterrupted, it is the check and the append of the machine |
| LatencyThreads.LatencyThread.PushRequests | src/components/latency/LatencyTestThread.cpp:94-104 | unless stopped, the queue grows by one such request for each id, in order; uninterrupted, it is the check and the append of the machine |
| LatencyThreads.RequestsBehind | src/components/latency/LatencyTestThread.cpp:99-103 | field by field, what each queued request holds |
| LatencyThreads.LatencyThread.CountHandles | src/components/latency/LatencyTestThread.cpp:39-47 | the walk counts the timer, every open probe, the timers and sockets of the proxy tests, and the ICMP handles |
| LatencyThreads.LatencyThread.StartTesters | src/components/latency/LatencyTestThread.cpp:63-87 | one new started tester for each queued TCP and proxy request, in order |
| LatencyThreads.LatencyThread.Dispatch | src/components/latency/LatencyTestThread.cpp:57-89 | the running tick is the machine's |
| LatencyThreads.LatencyThread.OnTimer | src/components/latency/LatencyTestThread.cpp:34-90 | the timer callback is the machine's tick |
| RealPings.RealPing.CheckMultiInfo | src/components/latency/RealPing.cpp:26-59 | the drain loop counts every finished handle and no other message |
| RealPings.RealPing.Start | src/components/latency/RealPing.cpp:204-246 | without a proxy the test fails at once and its timer stays open; otherwise all handles are added |
| RealPings.DrainedKeeps | src/components/latency/RealPing.cpp:26-59 | draining keeps counters and handles in step, and changes nothing once no handle is active |
| RealPings.CalledBackKeeps | src/components/latency/RealPing.cpp:96-119 | each callback keeps the invariant, reports exactly when it finds the test complete, and closes the timer with that |
| RealPings.CallsSettle | src/components/latency/RealPing.cpp:225-230 | the invariant after every sequence of timer and poll callbacks, however they group the messages |
| RealPings.BatchesAreConserved | src/components/latency/RealPing.cpp:26-59 | in every sequence of callbacks successes + failures + active handles = handles added; the first report comes exactly when none is active, closes the timer, and its average q of n successes with sum t satisfies n*q <= t < n*q + n (for t < 0, n*q - n < t <= n*q), or is the error value; every report has the request id |
| RealPings.EveryMessageCounts | src/components/latency/RealPing.cpp:32-58 | a DONE message drained by any callback decides its handle, with its time if it succeeded, for good |
| RealPings.UnproxiedReport | src/components/latency/RealPing.cpp:206-211 | after a start without a proxy there is one completion, for ever the only one, with the request id, the error value and no message |
| RealPings.ProxyNamesNone | src/components/latency/RealPing.cpp:204-216 | no completion of a proxied test names the number of probes wanted: it names zero; without a proxy the count is not initialised |
| RealPings.EveryLaterCallbackReports | src/components/latency/RealPing.cpp:247-258 | after the first report the timer calls back no more, and every poll callback that still comes reports again |
| RealPings.RepeatedReport | src/components/latency/RealPing.cpp:249-255 | a further report repeats the one before if and only if at most one handle succeeded or the average is zero |
| RealPings.SecondReportIsWrong | src/components/latency/RealPing.cpp:249-255 | a concrete run that reports the mean 15 and then 7 |
| RealPings.StuckExactly | src/components/latency/RealPing.cpp:204-246 | after every sequence of callbacks the timer is open with no easy handle if and only if there was no proxy or no probe was wanted |
| RealPings.FinishedHoldsNothing | src/components/latency/RealPing.cpp:249-257 | any other test whose easy handles have all finished holds no handle |
| Base64.BytesOfSextets | src/utils/QvHelpers.cpp:124-134 | splitting bytes into sextets and draining them through a bit buffer loses nothing |
| Base64.SextetsOfBytes | src/utils/QvHelpers.cpp:124-134 | the converse, for sextets without stray bits |
| Base64.ForeignIsSkipped | src/utils/QvHelpers.cpp:124-128 | a character outside both alphabets, such as a line break, is skipped wherever it stands |
| Base64.AlphabetTable | src/utils/QvHelpers.cpp:124-134 | the 64 characters of the alphabet by their codes, in both directions |
| Utf8.HeadIsCharacter | src/utils/QvHelpers.cpp:127 | the arithmetic checks of the decoder (overlong, surrogate, range) accept exactly the byte syntax of section 4 of RFC 3629 |
| Utf8.BadByteIsReplaced | src/utils/QvHelpers.cpp:127 | behind well-formed bytes, a byte that begins no character alone becomes U+FFFD, and decoding goes on with the next |
| Utf8.LoneSurrogateIsQuestionMark | src/utils/QvHelpers.cpp:133 | a lone surrogate becomes the byte 0x3F |
| Utf8.UpToNulExactly | src/utils/QvHelpers.cpp:127 | with Qt 5, the bytes kept are those before the first NUL |
| Utf8.BytesSurviveExactly | src/utils/QvHelpers.cpp:127 | a byte array made a QString and bytes again is the same if and only if it is well-formed UTF-8, does not begin with a byte order mark and, with Qt 5, holds no NUL |
| Utf8.UnitsSurviveExactly | src/utils/QvHelpers.cpp:133 | a QString made UTF-8 and a QString again is the same if and only if its surrogates are paired, it does not begin with a byte order mark and, with Qt 5, it holds no NUL |
| Base64Texts.SafeBase64Encode | src/utils/QvHelpers.cpp:131-144 | the conversion, the replacements and the trimming loop give the encoding |
| Base64Texts.TrimEquals | src/utils/QvHelpers.cpp:137-143 | the loop cuts off exactly the equals signs at the end |
| Base64Texts.TextDecodesBack | src/utils/QvHelpers.cpp:124-144 | decoding the encoding, trimmed or not, gives the text back if and only if the text survives as UTF-8 in the sense above |
| Base64Texts.EncodesBack | src/utils/QvHelpers.cpp:124-144 | encoding the decoding, trimmed, gives the text back if and only if it is over the URL-safe alphabet, of a possible length, without stray bits, and its bytes survive as a QString |
| Base64Texts.EncodesBackPadded | src/utils/QvHelpers.cpp:124-136 | the same untrimmed: the equals signs at the end must also complete the length to a multiple of four and be fewer than four |
| Base64Texts.NotUtf8IsReplaced | src/utils/QvHelpers.cpp:124-144 | _w meets every condition but that of its bytes, and comes back as 77-9 |
| Base64Texts.NulIsCut | src/utils/QvHelpers.cpp:124-144 | AA comes back empty with Qt 5 |
| Base64Texts.NulIsKept | src/utils/QvHelpers.cpp:124-144 | AA comes back with Qt 6 |
| Base64Texts.NulTextIsCut | src/utils/QvHelpers.cpp:124-144 | with Qt 5 no text that holds a NUL comes back |
| Base64Texts.StrayBitsAreDropped | src/utils/QvHelpers.cpp:124-144 | Zh comes back as Zg |
| Base64.TrimmedForm | src/utils/QvHelpers.cpp:137-143 | the trimmed form is over the URL-safe alphabet, without padding, and ceil(4n/3) long |
| Helpers.FormatBytes | src/utils/QvHelpers.cpp:175-188 | 1000^i <= b < 1000^(i+1); the value before rounding is b/1000^i cut to thousandths; the unit is B, KB, MB, GB or TB by i, and there is one if and only if b < 10^15 |
| Helpers.ShortfallOfTruncation | src/utils/QvHelpers.cpp:182-184 | how far dividing a truncated quotient by 1000 falls short of the exact quotient |
| Helpers.PrintsNearest | src/utils/QvHelpers.cpp:183-187 | going through the nearest double, what is printed with two decimals is a nearest hundredth to the exact thousandths; only a tie can go either way |
| Helpers.MantissaIsNearest | src/utils/QvHelpers.cpp:183-184 | the division by 1000.0 as a 53-bit number, with none nearer |
| Helpers.SizeReadsThousand | src/utils/QvHelpers.cpp:175-188 | in every unit from KB to TB the printed number reaches 1000.00 if and only if b >= 999995 * 1000^(i-1), the tie included |
| Helpers.NotQuiteAMegabyte | src/utils/QvHelpers.cpp:175-188 | 999999 bytes read 1000.00 KB |
| Helpers.DeducePossibleFileName | src/utils/QvHelpers.cpp:205-229 | the result is the name, an underscore and the least number from 1 on whose file does not exist, found within one probe more than there are files |
| Helpers.FullNameInjective | src/utils/QvHelpers.cpp:217-222 | different suffixes are different files |
| EnumMaps.EnumMap.LoadJson | src/base/models/QvSafeType.hpp:60-70 | the loop, with its insertion of defaults, collects exactly the decoded values under the keys read, blanks and signs included |
| EnumMaps.EnumMap.FromJson | src/base/models/QvSafeType.hpp:71-76 | a new map, loaded |
| EnumMaps.EnumMap.ToJson | src/base/models/QvSafeType.hpp:77-85 | the map under the texts of its keys, encoded |
| EnumMaps.EnumMap.Written | src/base/models/QvSafeType.hpp:79-83 | the loop writes every listed entry under the text of its key, and no two collide |
| EnumMaps.KeyTextForm | src/base/models/QvSafeType.hpp:82 | a key's text is a dollar sign, a minus sign for a negative key, and its size without leading zeros |
| EnumMaps.KeyReadsBack | src/base/models/QvSafeType.hpp:67 | stripping the prefix and reading the decimal gives the key back, negatives included |
| EnumMaps.ToIntOfDigits | src/base/models/QvSafeType.hpp:67 | digits read as their value up to 2147483647, and beyond as 0 |
| EnumMaps.ToIntOfSigned | src/base/models/QvSafeType.hpp:67 | with a sign likewise, down to -2147483648 |
| EnumMaps.ToIntOfOthers | src/base/models/QvSafeType.hpp:67 | leading blanks do not matter, and any other text reads as 0 |
| EnumMaps.TrailingBlank | src/base/models/QvSafeType.hpp:67 | nor do trailing blanks |
| EnumMaps.WithoutConcat | src/base/models/QvSafeType.hpp:67 | removing the prefix character acts on every part of the text alike |
| EnumMaps.WithoutAny | src/base/models/QvSafeType.hpp:67 | and leaves none |
| EnumMaps.LoadedEntry | src/base/models/QvSafeType.hpp:65-69 | the entry of every key after loading any object: the last text that reads as the key decides, and a text without its prefix gives the default value |
| EnumMaps.CanonicalKeyExactly | src/base/models/QvSafeType.hpp:67-82 | a text is written as it was read if and only if it is a dollar sign and a canonical decimal up to 2^31-1, or a dollar sign, a minus sign and a positive one up to 2^31 |
| EnumMaps.ReadsBackWhatWasWritten | src/base/models/QvSafeType.hpp:59-85 | loading what was written gives the map back, in every order of the keys |
| EnumMaps.WritesBackWhatWasRead | src/base/models/QvSafeType.hpp:59-85 | writing what was loaded gives the object back if and only if every key is canonical and every value survives its codec |
| EnumMaps.LeadingZeroKeyIsLost | src/base/models/QvSafeType.hpp:59-85 | no object with the key $01 comes back |
| NamedMaps.RenamedCollected | src/base/models/QvSafeType.hpp:65-69 | collecting under names, in any order, and then renaming gives the data back |
| NamedMaps.CollectedRenamed | src/base/models/QvSafeType.hpp:65-69 | renaming and then collecting gives the map back |

## Left out

- libuv, uvw, curl, Qt, sockets and clocks: they are the environment. Events, times, messages, lookup results and what
  is raised inside a call are parameters or steps that may come in any order.
- What the environment promises (`RealPings.Allowed`): curl reports a handle done at most once, watches no socket when
  none is active, and calls back only for handles that were added; a closed timer does not fire. Nothing is assumed of
  the TCP events: one on a handle whose listeners were cleared, and a second event of a lookup, reach no callback. A
  handle taken from the loop is counted until it is closed; uvw itself is not part of this model.
- The value 99999 of `LATENCY_TEST_VALUE_ERROR` (src/base/models/QvConfigIdentifier.hpp:90): it is a parameter,
  `errorValue`, and every claim holds for all its values.
- Overflow of the counters, of the time sums and of the file-name suffix: these are unbounded integers.
- `unsigned long` of 32 bits, as on Windows: it is taken as 64 bits.
- `std::isdigit` on negative characters and locales: digits are `0` to `9`.
- Atomicity: one timer callback and one locked append are single steps. Reading `isStop` is a step of its own, as it
  is outside the lock; the unlocked access to the queue in the stopped branch is taken as atomic.
- RealPings.EveryLaterCallbackReports: no exactly-once claim is made for `RealPing`, because the code does not guard a
  second notification; what the repeated report holds is stated instead.
- RealPings.RealPing.Start: the curl options and `getProxyAddress` are not modelled; `handle_socket` and
  `start_timeout` only through the callbacks they lead to and the number of sockets watched.
- LatencyThreads.LatencyThread.StartTesters: ICMP tests are not objects of the model; their open handles are a number
  that the environment sets, so no claim depends on when they close.
- LatencyThreads.LatencyThread.Dispatch: as for `StartTesters`.
- LatencyThreads.LatencyThread.OnTimer: as for `StartTesters`.
- LatencyThreads.LatencyThread.CountHandles: as for `StartTesters`.
- Waiting: `StopAllLatencyTest` blocks until the loop has closed, so the model starts the thread again only then.
- `ICMPPing`, in both its versions: platform calls.
- `prerelease_comp` is filled in place by a private method in the source; a version is a value here, since all its
  public methods are const.
- `strip_prerelease`, `strip_metadata`, the getters, `operator>` and the fixed-index bumps: one-line members.
- Qt itself: a `QString` is its UTF-16 code units. Its base64 is that of sections 4 and 5 of RFC 4648 with a decoder
  that skips foreign characters; its UTF-8 is that of RFC 3629, where a byte that begins no character becomes U+FFFD,
  a lone surrogate becomes a question mark and a leading byte order mark is skipped. That a byte array is read up to
  its first NUL only is true of Qt 5 and false of Qt 6, and so a parameter, `nulEnds`.
- `Base64Encode` and `Base64Decode`: call chains of the same codec.
- Helpers.FormatBytes: plain bytes are exact for sizes a `double` holds exactly. Which way a tie is printed depends on
  the C library and is left open, but for the one tie at 999.995, which the double decides. Beyond the table the
  source reads past its end, which the model shows as a missing unit.
- Helpers.DeducePossibleFileName: the directory does not change during the search, and making the directory is left
  out.
- EnumMaps.EnumMap.LoadJson: the JSON library is a codec of single values with a default; `toInt` is that of the C
  locale.
- Address families: `ProbesWithoutAddress` needs an entry that is neither IPv4 nor IPv6; the call passes no hints, and
  ordinary resolvers return none. `InetFamiliesSuffice` says that otherwise every non-empty list has a chosen address.
- The IPv4, IPv6 and port expressions, the settings and object models, `CoreUtils`, the user interface and
  translations: no algorithm of their own, or unseen libraries.
