# zeroserve: a verified model

zeroserve is an HTTPS server written in Rust that runs user scripts as eBPF programs, with an SDK in C for
writing them. This project models the parts of it whose correctness is not visible from one function at a
time, and proves what they promise. Everything is stated for all inputs, all runs or all interleavings.

**eBPF folding** (`ElfFormat`, `Relocations`, `Text`, `TextFolding`, `EbpfSteps`, `FoldDriver`, `FoldExample`). A pass
over an object file appends `.text` to each script section and turns relocated calls into pc-relative ones. Which sections
those are is stated on the bytes of the file: every code section whose name begins with `zeroserve.`. The
closing theorems read the written file back and show that every run of the original program is a run of the
program in the file, with the same effects; under the condition that no instruction runs off its section
there are no other runs. `FoldExample` builds an object file that meets all the conditions and folds it.

**Glob matching** (`GlobTokens`, `GlobSyntax`, `SdkGlob`, `FileGlob`). Two independent matchers are compared with one
declarative meaning: an assignment of path pieces to pattern tokens. `GlobSyntax` gives that meaning from the
characters of the pattern alone, with a grammar both programs are proved to read. The greedy matcher of the SDK, which
only ever goes back to the last star, is proved complete, and it terminates by a lexicographic measure. The memoised
matcher of the file server is proved equal to its meaning, and the two agree wherever they can be compared.

**Protocols** (`TlsDrain`, `RateLimit`, `JsonHandles`, `Reload`, `Handoff`). Each is a state machine over its atomic
steps, with theorems about every run. The objects of the source are classes whose methods are proved against
the step functions: a call that is not interrupted takes the object from one state of the protocol to the state its
steps lead to. A reload waits for its canary in the middle, so its two stretches, `Reload.BeginReload` and
`Reload.DecideReload`, are each proved so.

**The request path** (`Headers`, `PathNormal`, `ClientHello`, `Ja4`, `Ja4Text`, `ProxyBody`, `Ranges`, `CivilDate`).
Loops over mutable state become methods with invariants, proved against specifications given independently of the
loop: the replay of a change log, the path components that survive, the wire form of a message, the bytes a range
selects, the Gregorian calendar.

`Bytes` and `Segments` hold little-endian numbers, division facts, and splitting on slashes.

Outside effects are parameters: clocks, the results of reads, writes and compilations, the order in which a hash
map is walked, the allocator's choice of addresses, and SHA-256 are all arbitrary. Where a property turns out not
to hold in general, there is a concrete example and the exact condition:

- A timed-out reload is documented to leave the previous configuration in place (`src/reload.rs:47-49`). The
  canary worker may still finish compiling, and then runs a generation nothing else has: `Reload.LateCanary`. It
  does so exactly when it finishes compiling it, before or after the timeout: `Reload.GivenUpRunsIff`.
- A flush future that is dropped in the middle of a socket write leaves the in-flight flag set for good:
  `TlsDrain.AbandonedDrainExample`. The drain is stalled exactly when some flush was dropped that way:
  `TlsDrain.StalledIff`. Bytes are lost exactly when a failed or dropped write had bytes left:
  `TlsDrain.NothingLostIff`.
- A value the script cannot read is forwarded although the script does not see it: `Headers.UnreadableExample`. What
  is forwarded under a name other than `host` is what the script sees exactly when all original values of the name
  were readable or some edit dropped them: `Headers.ForwardedIff`.
- Two `host` values that a script rewrites are forwarded as one: `Headers.HostExample`. What is forwarded as `host` is
  what the script sees exactly when that is at most one value or no edit dropped any: `Headers.HostForwardedIff`.
- Of several original values of a name, a script that asks for the header gets the last alone:
  `Headers.JoinedExample`. It gets all values with commas between them exactly when there was at most one original
  value or some edit dropped them: `Headers.JoinedIff`.
- A client is to be kept only if its body was read out. The 502 for an exchange that failed before a response started
  keeps it with its body unread: `ProxyBody.UnsentHeadExample`, `ProxyBody.LostUploadExample`. It is the only such
  case, and always one when the request head cannot be sent: `ProxyBody.Exchange.HandleProxy`. With a backend that
  stays silent a part of the body is left exactly when the first write that fails is not that of the last chunk:
  `ProxyBody.UnreadIff`.
- The rewriter ignores the addend of a call to a function with a symbol of its own: `EbpfSteps.AddendExample`. It
  agrees with a linker exactly on conventional calls: `EbpfSteps.LinkedIff`.
- A relocation table is written with 16-byte entries whatever its header says: `Relocations.WideEntryExample`. It
  reads back exactly when its entries have that size or it is empty: `Relocations.ReadsBackIff`.
- The path `/.` has another directory hint when it is normalised again: `PathNormal.RootHintExample`. The hint is kept
  exactly unless the path leads to the root without a slash at its end: `PathNormal.HintKeptIff`.
- A message body can be mistaken for a framed handshake message: `Ja4.MisfireExample`. It is so exactly in the case of
  `Ja4.StripMisfiresIff`.
- The largest body limit never trips, because the sum saturates: `ProxyBody.LargestLimitExample`. Any other limit trips
  exactly when it is exceeded: `ProxyBody.AddLimited`.
- The bucket limit of the rate limiter can be exceeded by one less than the number of threads, and no more:
  `RateLimit.OvershootBound`, `RateLimit.OvershootReached`.
- A suffix range of zero bytes is answered with an empty 206 in the form that follows Go: `Ranges.EmptySuffixExample`.
  A range is empty exactly for such a suffix, or for a suffix of an empty file: `Ranges.PartIsExact`.
- The year 10000 is written as 0000: `CivilDate.Year10000Example`. The date digits show the year exactly for timestamps
  below 253402300800000: `CivilDate.YearReadableIff`.

## Model

| member | source | states |
|---|---|---|
| `GlobTokens.MatchesIffConsumes` | sdk/zeroserve_caddy.h:144-165 | the recursive meaning of a token list holds exactly when some assignment of pieces to tokens, slash-free for stars and one byte otherwise, makes up the whole path |
| `GlobSyntax.PiecesRead` | src/caddy_file.rs:116-208 | the tokens of the text of any pieces are those pieces: `*`, `?`, plain and escaped bytes, and classes with single members, ranges and negation |
| `GlobSyntax.MalformedIff` | src/caddy_file.rs:166-208 | a pattern is malformed exactly when no pieces spell it |
| `GlobSyntax.TokensMean` | sdk/zeroserve_caddy.h:206-297 | the tokens of any pattern mean what its characters mean: it is the text of some pieces, and the path can be shared out among them |
| `GlobSyntax.CaseIsIrrelevant` | sdk/zeroserve_caddy.h:206-245 | whether letters of the path are capital or small does not change the SDK's answer |
| `GlobSyntax.PlainAccepts` | sdk/zeroserve_caddy.h:206-245 | a pattern without special characters accepts itself, in the SDK with any letter capital or small |
| `SdkGlob.ClassMatchFold` | sdk/zeroserve_caddy.h:259-297 | a bracket class consumes up to its closing bracket and matches when some term takes the folded byte, negation included; an unclosed class consumes nothing and fails |
| `SdkGlob.PathTokenMatchFold` | sdk/zeroserve_caddy.h:206-245 | advances both cursors exactly when the token at the pattern cursor takes the path byte, and otherwise neither |
| `SdkGlob.LaterStarSuffices` | sdk/zeroserve_caddy.h:144-165 | the exchange argument: once a later star is reached, giving more to an earlier star gains nothing |
| `SdkGlob.GlobFold` | sdk/zeroserve_caddy.h:144-165 | the greedy loop accepts exactly the paths some assignment consumes, in tokens and in the characters of the pattern; sound, complete and terminating |
| `FileGlob.GlobClassMatch` | src/caddy_file.rs:166-197 | the class loop agrees with the class's terms and with the index after it, or reports a malformed class |
| `FileGlob.GlobMatchInner` | src/caddy_file.rs:116-164 | with any sound memo table the answer is the unmemoised one, the table stays sound and loses nothing |
| `FileGlob.GlobMatch` | src/caddy_file.rs:109-114 | the matcher accepts exactly the values some assignment consumes, in tokens and in the characters of the pattern |
| `FileGlob.PathGlobMatch` | src/caddy_file.rs:99-107 | a path matches exactly when it has as many components as the pattern and each matches |
| `FileGlob.SlashSplits` | src/caddy_file.rs:99-107 | a literal slash in the pattern splits a match in two at the first slash of the path |
| `FileGlob.AgreesWithSdk` | src/caddy_file.rs:99-208 | on lower-case ASCII with plain slashes the component-wise meaning is the SDK's meaning |
| `FileGlob.BothGlobs` | src/caddy_file.rs:99-107 | on such input the two programs give the same answer |
| `Bytes.FromLEIs` | src/tinycc.rs:567-601 | what a field of two, four or eight bytes is worth, low byte first |
| `Text.Utf8Iff` | src/tinycc.rs:559-565 | well-formed bytes are exactly the UTF-8 forms of texts without surrogates |
| `Text.CStrIff` | src/tinycc.rs:559-565 | a string is read exactly when its bytes stand there with a NUL behind them and are UTF-8 |
| `ElfFormat.HeaderRoundTrip` | src/tinycc.rs:341-368 | a section header reads back to the fields it was written from |
| `ElfFormat.HeaderFields` | src/tinycc.rs:341-368 | where each field of a section header stands, byte by byte |
| `ElfFormat.ParseSections` | src/tinycc.rs:341-381 | succeeds exactly when every entry and its data lie in the file, and gives them in order |
| `ElfFormat.AlignVec` | src/tinycc.rs:549-557 | pads with zeros to a multiple, keeping what was there |
| `ElfFormat.PlaceSections` | src/tinycc.rs:512-547 | lays out section data in order, aligned, disjoint and in bounds |
| `ElfFormat.RebuildElf` | src/tinycc.rs:512-547 | succeeds exactly when the file fits; parsing the result gives back every section with file bytes, and the file header is kept but for the table pointer |
| `Relocations.ParseRels` | src/tinycc.rs:414-431 | reads whole entries at the entry size, or refuses one that is too small |
| `Relocations.WriteRels` | src/tinycc.rs:503-510 | writes the entries' encodings one after another |
| `Relocations.ParseInvertsWrite` | src/tinycc.rs:414-431 | reading written relocations gives them back |
| `Relocations.WriteInvertsParse` | src/tinycc.rs:503-510 | writing read relocations gives the bytes back |
| `Relocations.ReadsBackIff` | src/tinycc.rs:503-510 | with another entry size a written table reads back exactly when the size is 16 or the table is empty |
| `Relocations.WideEntryExample` | src/tinycc.rs:503-510 | a table of one entry that reads back empty under an entry size of 24 |
| `Relocations.PruneInvalidCallRelocs` | src/tinycc.rs:433-454 | fails exactly when a call relocation has no instruction in the section, and otherwise leaves the pruned list |
| `Relocations.PrunedIsClean` | src/tinycc.rs:433-454 | after pruning every call relocation is on a call instruction, no two on the same one |
| `Relocations.PruneIdempotent` | src/tinycc.rs:433-454 | pruning twice is pruning once |
| `Relocations.PruneKeepsPlain` | src/tinycc.rs:433-454 | all other relocations stay, in order |
| `Relocations.PruneKeepsFirstCall` | src/tinycc.rs:433-454 | the first relocation of each call instruction stays |
| `TextFolding.TextCallIff` | src/tinycc.rs:456-467 | a call into `.text` is a relocation of type 10 against a symbol defined there or named so, byte by byte |
| `TextFolding.RewriteLocalCall` | src/tinycc.rs:469-501 | patches one call in place, or fails and changes nothing |
| `TextFolding.RewriteCalls` | src/tinycc.rs:299-332 | rewrites every call into `.text` and collects the other relocations in order |
| `TextFolding.ShiftRels` | src/tinycc.rs:314-325 | moves relocations by a distance, or fails when one does not fit |
| `TextFolding.FoldSection` | src/tinycc.rs:299-332 | folds one section as the specification says, errors included |
| `EbpfSteps.PlainInsnKept` | src/tinycc.rs:277-333 | an instruction that is no call into `.text` keeps its bytes and its relocations at its new place |
| `EbpfSteps.CallRewritten` | src/tinycc.rs:456-501 | a call into `.text` becomes a pc-relative call to the moved function |
| `EbpfSteps.SameAction` | src/tinycc.rs:277-333 | every instruction does the same thing at the moved place |
| `EbpfSteps.StepsArePreserved` | src/tinycc.rs:277-333 | every step of the unfolded program is a step of the folded section with the same effect |
| `EbpfSteps.RunsArePreserved` | src/tinycc.rs:277-333 | every run is a run of the folded section |
| `EbpfSteps.NoOtherSteps` | src/tinycc.rs:277-333 | if nothing runs off its section, the folded section has no further steps |
| `EbpfSteps.NoOtherRuns` | src/tinycc.rs:277-333 | and no further runs |
| `EbpfSteps.FoldSucceedsIff` | src/tinycc.rs:299-332 | folding a well-formed program succeeds exactly when the moved offsets fit 64 bits and the call distances 32 |
| `EbpfSteps.LinkedIff` | src/tinycc.rs:469-501 | the rewriter resolves a call as symbol plus addend would exactly when the call is conventional: for a symbol in `.text`, when it has no place or no addend |
| `EbpfSteps.AddendExample` | src/tinycc.rs:469-501 | a call it resolves otherwise |
| `EbpfSteps.LinkedRunsArePreserved` | src/tinycc.rs:277-333 | every run of the program as a linker reads its calls is a run of the folded section, for conventional calls |
| `EbpfSteps.LinkedNoOtherRuns` | src/tinycc.rs:277-333 | and every run of the folded section is such a run, if nothing runs off its section |
| `EbpfSteps.CallerFolds` | src/tinycc.rs:299-332 | a program with a call into `.text` that meets all the conditions above |
| `FoldDriver.FoldOneTarget` | src/tinycc.rs:277-333 | folds one target section and its relocation section |
| `FoldDriver.FoldAllTargets` | src/tinycc.rs:277-333 | does so for all targets in order |
| `FoldDriver.FoldTargetFrame` | src/tinycc.rs:277-333 | folding a target touches nothing but it and its relocation section |
| `FoldDriver.FoldAllAt` | src/tinycc.rs:277-333 | what folding all targets leaves at one of them is what folding it alone does |
| `FoldDriver.PlanSelects` | src/tinycc.rs:241-275 | the pass takes the first `.text`, the first symbol table with its strings and symbols, and as targets exactly the code sections whose name begins with `zeroserve.` |
| `FoldDriver.NoPlan` | src/tinycc.rs:241-259 | it takes nothing only if there is no usable `.text`, no symbol table or no strings for it |
| `FoldDriver.UnchangedTargets` | src/tinycc.rs:277-338 | when nothing changed, each target with relocations calls into `.text` without whole instructions, or does not and needs no pruning |
| `FoldDriver.FoldAllFails` | src/tinycc.rs:277-332 | the pass over the targets fails exactly when one of them cannot be folded on its own |
| `FoldDriver.FoldTextSubprograms` | src/tinycc.rs:218-339 | a written file holds the folded sections, with the first `.text`, the first symbol table and exactly the script sections as targets; without one there was no usable `.text` or symbols, or every script section stays as it is for a stated reason; an error names what failed |
| `FoldDriver.EveryScriptIsFolded` | src/tinycc.rs:263-339 | every script section of the file that calls into `.text` with whole instructions is folded in the written file |
| `FoldDriver.OtherScriptIsPruned` | src/tinycc.rs:285-297 | every other script section keeps its code, and its table the relocations that survive pruning |
| `FoldDriver.WrittenTargetIsFolded` | src/tinycc.rs:218-339 | a target read back from the written file has the folded bytes, and is the folded program exactly when its relocation table has 16-byte entries or is empty |
| `FoldDriver.ReservedIsEmptied` | src/tinycc.rs:512-519 | whatever stood at index 0 of the section table reads back without bytes |
| `FoldDriver.WrittenFileRunsTheSame` | src/tinycc.rs:218-339 | every run of the original program is a run of the program in the written file, whenever its relocation table reads back |
| `FoldDriver.WrittenFileHasNoOtherRuns` | src/tinycc.rs:218-339 | every run of the program in the written file is then a run of the original, if nothing runs off its section |
| `FoldExample.BuildAndFold` | src/tinycc.rs:218-339 | a concrete object file is folded and meets the conditions of both theorems |
| `TlsDrain.BoringStream.Read` | src/boringtls.rs:131-143 | gives the oldest unread bytes, and asks to come back exactly when there are none |
| `TlsDrain.BoringStream.Write` | src/boringtls.rs:145-149 | queues at the end |
| `TlsDrain.BoringStream.FillInbound` | src/boringtls.rs:985-1007 | adds a chunk behind the unread bytes, whatever was compacted away |
| `TlsDrain.BoringStream.FlushStart` | src/boringtls.rs:954-981 | a flush up to its first await takes the whole queue, unless one is in flight |
| `TlsDrain.BoringStream.FlushContinue` | src/boringtls.rs:954-981 | after a write it goes on with what was queued meanwhile, or clears the flag |
| `TlsDrain.InvKept` | src/boringtls.rs:954-981 | every step of either half keeps the invariant |
| `TlsDrain.DrainIsFaithful` | src/boringtls.rs:954-981 | in every interleaving socket, transit and queue make up all bytes ever queued, in order; one write at most is in flight; what a successful flush was called for is sent when the flag is clear |
| `TlsDrain.ClearedMeansDrained` | src/boringtls.rs:954-981 | when the flag clears everything queued so far is on the socket |
| `TlsDrain.StalledIff` | src/boringtls.rs:954-981 | in every run, failed writes included, the flag is set with nobody draining exactly when some flush was abandoned |
| `TlsDrain.AbandonedDrainStalls` | src/boringtls.rs:954-981 | from the first abandoned flush of a run on the socket never changes |
| `TlsDrain.NothingLostIff` | src/boringtls.rs:954-981 | in every run the bytes add up, in order, exactly when no failed or abandoned write had bytes left |
| `TlsDrain.AbandonedDrainExample` | src/boringtls.rs:954-981 | such a run, with a later flush that returns Ok |
| `RateLimit.RateLimitManager.Check` | src/ratelimit.rs:70-129 | changes the table and decides as the step function |
| `RateLimit.RateLimitManager.CleanupExpired` | src/ratelimit.rs:133-145 | removes exactly the buckets of past hours |
| `RateLimit.SecondReadingIrrelevant` | src/ratelimit.rs:70-129 | the second clock reading inside a check has no influence |
| `RateLimit.CheckKeeps` | src/ratelimit.rs:70-129 | a check keeps bucket counters equal to the log's windows and decides as the log does |
| `RateLimit.CleanupKeeps` | src/ratelimit.rs:133-145 | a sweep forgets nothing of the current hour |
| `RateLimit.DecidesLikeTheLog` | src/ratelimit.rs:70-145 | every decision of every run is that of a complete log of allowed requests, but for the full table |
| `RateLimit.AllowedIff` | src/ratelimit.rs:112-130 | every check in every run is allowed exactly when the requests let through in its second, minute and hour are fewer than each limit that is set, and otherwise refused for the shortest window used up |
| `RateLimit.FillsUp` | src/ratelimit.rs:112-130 | a window can be filled up to its limit |
| `RateLimit.SweptIff` | src/ratelimit.rs:133-145 | in every run a sweep leaves exactly the keys that were checked in the current hour |
| `RateLimit.NoWindowExceeds` | src/ratelimit.rs:70-145 | no aligned second, minute or hour ever exceeds a fixed limit |
| `RateLimit.OvershootBound` | src/ratelimit.rs:87-96 | N racing threads leave at most the limit plus N - 1 buckets |
| `RateLimit.OvershootReached` | src/ratelimit.rs:87-96 | and that many are reached |
| `CivilDate.CivilIsExact` | plugins/io.su3.aws-sigv4.c:86-104 | the date is a date of the calendar and its day number is the input |
| `CivilDate.CivilInverts` | plugins/io.su3.aws-sigv4.c:86-104 | every date since 1970 is found again from its day number |
| `CivilDate.NextDayNumber` | plugins/io.su3.aws-sigv4.c:86-104 | the day after a date has the next day number |
| `CivilDate.CivilIsTheCalendar` | plugins/io.su3.aws-sigv4.c:86-104 | the date of day n is the one n days after 1 January 1970 in the Gregorian calendar |
| `CivilDate.NothingWraps` | plugins/io.su3.aws-sigv4.c:86-104 | for every 64-bit timestamp no intermediate value underflows or overflows |
| `CivilDate.StampIsExact` | plugins/io.su3.aws-sigv4.c:86-93 | date, hour, minute and second say the second of the timestamp |
| `CivilDate.Write2` | plugins/io.su3.aws-sigv4.c:74-77 | stores two decimal digits and nothing else |
| `CivilDate.Write4` | plugins/io.su3.aws-sigv4.c:79-84 | stores four decimal digits and nothing else |
| `CivilDate.AwsDate` | plugins/io.su3.aws-sigv4.c:86-115 | the text reads back to the fields, and the year to itself exactly for timestamps before the year 10000 |
| `CivilDate.YearBound` | plugins/io.su3.aws-sigv4.c:86-104 | the year is at most 9999 exactly for timestamps below 253402300800000 |
| `CivilDate.YearReadableIff` | plugins/io.su3.aws-sigv4.c:79-84 | the written year reads back exactly for those |
| `CivilDate.Year10000Example` | plugins/io.su3.aws-sigv4.c:79-84 | the first moment of the year 10000 is written with the year 0000 |
| `JsonHandles.PassingHandlesAreRight` | src/json.rs:17-103 | in every run a handle that passes the epoch test leads to the live value it was made for, although addresses are reused |
| `JsonHandles.RefusedForever` | src/json.rs:82-102 | a handle passes later exactly when it passed and no modification through another handle began since |
| `JsonHandles.CloneIsACopy` | src/json.rs:3-8 | a clone passes later exactly when its original passed when it was made and no modification through another handle began since |
| `JsonHandles.ReadersSeeOneTree` | src/json.rs:42-80 | as long as a reader is active the tree does not change |
| `JsonHandles.DereferencesAreLive` | src/json.rs:42-102 | no step goes through a dangling address |
| `JsonHandles.JsonRef.Root` | src/json.rs:33-40 | a passing handle to the root; in the protocol, the root step |
| `JsonHandles.JsonRef.Get` | src/json.rs:42-64 | refused exactly on an old epoch; otherwise a handle to the very value the mapper chose, valid when that is inside the value it was given; in the protocol, a reader's beginning and end |
| `JsonHandles.JsonRef.View` | src/json.rs:66-80 | refused exactly on an old epoch; otherwise the view of the value, and nothing changes; in the protocol, a reader's beginning and end |
| `JsonHandles.JsonRef.Modify` | src/json.rs:82-102 | writes at the handle's value only, keeps this handle usable and makes every other handle on the tree refused; in the protocol, a modification's beginning, write and end |
| `Reload.StepKeeps` | src/reload.rs:284-331 | every step of coordinator, canary and workers keeps the invariant |
| `Reload.OnlyCanaryApproved` | src/reload.rs:284-331 | another worker runs only a generation that the canary compiled, then was accepted in time, then committed, in this order |
| `Reload.NeverBackwards` | src/reload.rs:311-331 | no worker and no shared asset returns to an older generation |
| `Reload.GivenUpStaysOut` | src/reload.rs:295-309 | a reload that was given up commits nothing and reaches no other worker, whatever reply comes later |
| `Reload.RefusedIsNowhere` | src/reload.rs:301-304 | a generation the canary could not compile is in no shared asset and on no worker, ever |
| `Reload.GivenUpRunsIff` | src/reload.rs:305-308 | a given-up generation runs on the canary exactly when a compilation of it there succeeds, before or after it was given up, and on nobody else |
| `Reload.LateCanary` | src/reload.rs:305-308 | a run in which it does |
| `Reload.RolledOut` | src/reload.rs:326-331 | a worker with nothing left to do runs the committed site, unless compiling it failed there |
| `Reload.PerformReload` | src/reload.rs:238-349 | commits and notifies everybody exactly on an acknowledged canary, and otherwise touches only the canary's queue |
| `Reload.BeginReload` | src/reload.rs:284-297 | puts the canary's request on its channel exactly as the protocol's first step does |
| `Reload.DecideReload` | src/reload.rs:298-331 | on each verdict leads to the state the protocol's steps lead to: accept, three stores, a request per other worker and the end, or a rejection or a timeout that changes nothing |
| `Reload.DecisionSteps` | src/reload.rs:298-331 | those steps are possible for every state with that verdict, and where they lead |
| `Reload.ScriptRuntime.ReloadLoop` | src/reload.rs:357-376 | ends as the protocol's worker does that takes, compiles and answers each request, on the last one that compiled, and answers each request that asks for it |
| `Reload.WorkedInstalls` | src/reload.rs:357-376 | a worker that works off its queue ends on the last request that compiled, or on what it had |
| `Handoff.RoundRobin` | src/handoff.rs:63-64 | for any accepting workers and up to 2^64 connections the assignments to two workers differ by at most one |
| `Handoff.ExactlyOnePlace` | src/handoff.rs:57-115 | every connection is at all times in exactly one place |
| `Handoff.ClosedOnlyThen` | src/handoff.rs:73-85 | a connection is closed only when taking it over or back fails or its worker ended |
| `Handoff.Group.Route` | src/handoff.rs:63-85 | serves here, queues at the drawn worker, or takes back from a worker that is gone; in the protocol, a draw and a placing |
| `Handoff.Group.Adopt` | src/server.rs:240-261 | takes the oldest connection of the channel; in the protocol, an adoption |
| `Handoff.Group.Exit` | src/handoff.rs:73-75 | a worker that ends takes its channel with it; in the protocol, an exit |
| `Headers.ApplyScriptRequest` | src/server.rs:4194-4251 | the loop is the replay of the change log |
| `Headers.RemoveMatching` | src/server.rs:4234-4244 | removes exactly the names the pattern matches |
| `Headers.ReadEntries` | src/server.rs:4113-4123 | the script sees the readable values of each name, in order |
| `Headers.LowerIs` | src/script.rs:717 | lower case, letter by letter |
| `Headers.TrimIs` | src/script.rs:713 | trimming takes white space off both ends and stops there |
| `Headers.PatternIff` | src/script.rs:1037-1049 | what each form of a pattern matches: a name that contains, ends with, begins with or is the text |
| `Headers.ScriptRequest.constructor` | src/server.rs:4103-4192 | the view agrees with the empty log |
| `Headers.ScriptRequest.Header` | src/script.rs:566-573 | what a script gets for a header after any edits: the last value of `host`, and else all values with commas between, apart from the original ones before the last |
| `Headers.JoinedIff` | src/script.rs:751-772 | it is all values exactly when there was at most one original value or some edit dropped them |
| `Headers.JoinedExample` | src/server.rs:4113-4123 | two original values of which a script gets the second alone |
| `Headers.ScriptRequest.SetHeader` | src/script.rs:712-738 | sets or removes one name, refuses invalid input, and keeps view and log in step |
| `Headers.ScriptRequest.AppendHeader` | src/script.rs:740-773 | appends one value, and keeps view and log in step, `host` included |
| `Headers.ScriptRequest.DeleteHeaderPattern` | src/script.rs:775-793 | removes exactly the matching names, and keeps view and log in step |
| `Headers.ScriptRequest.ReplaceHeader` | src/script.rs:795-911 | rewrites the chosen names' values in any order, and keeps view and log in step |
| `Headers.ScriptRequest.ReplaceOne` | src/script.rs:818-850 | rewrites one name through a removal and appends |
| `Headers.RewrittenAt` | src/script.rs:828-834 | each value is rewritten in its place, and dropped if a header value may not hold the result |
| `Headers.AgreeChange` | src/server.rs:4208-4249 | one more log entry keeps view and replay in agreement when the view changes as the entry says |
| `Headers.HostChange` | src/server.rs:4208-4249 | the same for `host`, of which the last value counts once an edit has dropped the values there were |
| `Headers.Forward` | src/server.rs:4194-4251 | after any edits what is forwarded is, for each name but `host`, what the script sees exactly when the originals were readable or dropped, and for `host` exactly when that is at most one value or none were dropped, and otherwise its last value |
| `Headers.ReplayShape` | src/server.rs:4208-4249 | a log that drops a name leaves what it appends to it since; any other log adds to the original values |
| `Headers.ForwardedIff` | src/server.rs:4113-4123 | what is forwarded under a name is what the script sees exactly when all its original values were readable or some edit dropped them |
| `Headers.UnreadableExample` | src/server.rs:4113-4118 | an original value that is forwarded and not seen |
| `Headers.HostForwardedIff` | src/script.rs:751-759 | what is forwarded as `host` is what the script sees exactly when that is at most one value or no edit dropped any |
| `Headers.HostExample` | src/script.rs:835-841 | two rewritten `host` values of which one is forwarded |
| `PathNormal.PercentDecode` | src/site.rs:404-422 | the loop is the recursive decoding |
| `PathNormal.DecodeIff` | src/site.rs:404-422 | decoding succeeds exactly on texts that write each byte as itself or as a percent sign and two digits, high digit first, and gives those bytes |
| `PathNormal.HexIff` | src/site.rs:424-431 | a byte is a digit exactly when it stands among them, and its value is its place there |
| `PathNormal.NormalizeRequestPath` | src/site.rs:343-379 | the loop with two stacks computes the specification |
| `PathNormal.WalkIff` | src/site.rs:349-371 | the walk succeeds exactly when no part is bad and no prefix climbs above the root, and keeps exactly the parts no later `..` undoes |
| `PathNormal.AcceptedIff` | src/site.rs:343-379 | the same for whole paths |
| `PathNormal.NormalizeIsKept` | src/site.rs:342-379 | the encoded view is what the parts of the path leave |
| `PathNormal.DotIsNothing` | src/site.rs:348-355 | an empty part or a dot, however written, makes no difference |
| `PathNormal.DotsCancel` | src/site.rs:356-360 | two dots take away the name before them |
| `PathNormal.DotsAboveRoot` | src/site.rs:356-360 | a path that climbs above the root is refused |
| `PathNormal.BadPartFails` | src/site.rs:351-369 | so is one with a part that does not decode, or not to text without a slash |
| `PathNormal.NamesStay` | src/site.rs:367-371 | names stay as they are |
| `PathNormal.ViewsCorrespond` | src/site.rs:372-378 | both views have the same number of components; decoded ones are plain and are the decodings of the encoded ones |
| `PathNormal.NormalizeAgain` | src/site.rs:325-379 | normalising either encoded path gives the same two views |
| `PathNormal.HintKeptIff` | src/site.rs:334-340 | and the same hint exactly unless the path leads to the root without a slash at its end |
| `PathNormal.RootHintExample` | src/site.rs:334-340 | the path `/.` has no hint, and has one when normalised again |
| `ClientHello.ParseOfEncode` | src/ja4.rs:120-159 | parsing the wire form gives the message back |
| `ClientHello.EncodeOfParse` | src/ja4.rs:120-159 | whatever parses is the wire form of the result |
| `ClientHello.ParseIff` | src/ja4.rs:120-159 | the parser accepts exactly the wire forms |
| `Ja4Text.WireForm` | src/ja4.rs:120-159 | the bytes of a message in order |
| `Ja4Text.ExtensionBytes` | src/ja4.rs:169-186 | the bytes of an extension |
| `ClientHello.Reader.ReadU8` | src/ja4.rs:329-333 | takes one byte off the front, or nothing at the end |
| `ClientHello.Reader.ReadU16` | src/ja4.rs:335-338 | takes two bytes off the front as a big-endian number |
| `ClientHello.Reader.ReadBytes` | src/ja4.rs:340-347 | takes a run of bytes off the front, or nothing when there are fewer |
| `ClientHello.ParseExtensions` | src/ja4.rs:169-186 | the loop reads the extension list |
| `ClientHello.ParseClientHello` | src/ja4.rs:120-159 | the program parses as the specification |
| `Ja4.SortedUnique` | src/ja4.rs:249-253 | sorting forgets the order and nothing else |
| `Ja4.FieldsReadBack` | src/ja4.rs:17-79 | version, server name, counts and protocol can be read off the fingerprint |
| `Ja4Text.HashedTexts` | src/ja4.rs:17-79 | the fingerprint of the wire form of a message, with the texts that are hashed: the sorted cipher suites; the sorted extension types without server name and protocol, then the signature algorithms in their order |
| `Ja4Text.BackSpelled` | src/ja4.rs:50-74 | the same for any parsed message |
| `Ja4Text.FrontSpelled` | src/ja4.rs:21-48 | the first ten characters, from the lists in the message |
| `Ja4Text.ListSpells` | src/ja4.rs:249-261 | numbers are written as four small hexadecimal digits with commas between |
| `Ja4Text.SignaturesOf` | src/ja4.rs:200-218 | the signature algorithms of an extension are those of its list, without reserved ones, in order |
| `Ja4Text.VersionsOf` | src/ja4.rs:188-198 | the version of a list of supported ones is the largest that is not reserved |
| `Ja4Text.AlpnOf` | src/ja4.rs:220-240 | the marker of a protocol list: the first and last character of its first protocol, or one hexadecimal digit of each |
| `Ja4Text.VersionNames` | src/ja4.rs:292-305 | the name of each version |
| `Ja4Text.GreaseIff` | src/ja4.rs:311-314 | the reserved values are the sixteen of section 2 of RFC 8701 |
| `Ja4Text.RealSplits` | src/ja4.rs:28-33 | filtering drops the reserved values and keeps the order of the others |
| `Ja4.SameFingerprintOf` | src/ja4.rs:17-79 | the fingerprint depends on the version and, without order, on the values that are not reserved |
| `Ja4.OrderAndGreaseAreIrrelevant` | src/ja4.rs:17-79 | two wire forms that differ in order and reserved values have the same fingerprint |
| `Ja4.FramingIsIrrelevant` | src/ja4.rs:161-167 | so have a message with and without its handshake header |
| `Ja4.StripMisfiresIff` | src/ja4.rs:161-167 | when a body is mistaken for a framed message |
| `Ja4.MisfireExample` | src/ja4.rs:161-167 | a message of 38 bytes that is |
| `ProxyBody.AddLimited` | src/server.rs:5994-6007 | the saturating sum and exactly when the limit trips |
| `ProxyBody.LargestLimitExample` | src/server.rs:5994-6007 | one byte over the largest limit passes |
| `ProxyBody.Exchange.TakeBufferedFinal` | src/server.rs:5936-5962 | gives the first final head received, drops interim ones before it and counts them up to sixteen; fails only if none is due or too many interim ones are before it |
| `ProxyBody.Exchange.PollEarly` | src/server.rs:5905-5932 | gives the backend's first final head exactly when it is there, without waiting, and loses no head otherwise |
| `ProxyBody.Exchange.Salvage` | src/server.rs:5971-5992 | gives the next final head, and only if it is an error; finds an error that is there within its eight looks |
| `ProxyBody.Exchange.NextFinalResponse` | src/http/h1.rs:772-784 | gives the backend's first final head exactly when it comes before anything malformed, a failed read or the end, with fewer than sixteen interim ones in front |
| `ProxyBody.Exchange.WatchBackend` | src/server.rs:6239-6251 | an error head that is there ends the upload, any other one stays pending and is looked for only once |
| `ProxyBody.Exchange.SendPiece` | src/server.rs:6255-6268 | a piece is sent whole, or a beginning of it and the upload is over |
| `ProxyBody.Exchange.ForwardItem` | src/server.rs:6234-6269 | one item is counted and forwarded, and what has been sent stays a prefix within the limit |
| `ProxyBody.Exchange.ForwardItems` | src/server.rs:6234-6269 | the loop over the items: all of the body is sent, or it stops for a stated reason |
| `ProxyBody.Exchange.ForwardRequestBody` | src/server.rs:6209-6288 | the backend receives a prefix of the body within the limit, all of it on completion; only an error status ends it early; if nothing goes wrong it is completed, or ended early by the error that is due; an error that is there ends it; a body over its limit is refused; with a silent backend, what a failed upload leaves unread |
| `ProxyBody.Exchange.DrainPayload` | src/server.rs:2858-2866 | a drain ends with the body read out or with a failed read |
| `ProxyBody.Exchange.DrainUntil` | src/server.rs:5405-5415 | a drain that ends in time has done so; without read failures the body is then read out |
| `ProxyBody.Exchange.Answer` | src/server.rs:5310-5502 | a final response is passed on with one head, or to the hooks with none |
| `ProxyBody.Exchange.Conclude` | src/server.rs:5205-5502 | what each outcome of the upload makes the client get |
| `ProxyBody.Exchange.ProxyOverConnection` | src/server.rs:5196-5502 | at most one final head is started towards the client on every path, failures included: the backend's first final one, or an error right after a pending one, or a 413 for a body over the limit; none on a failure marked as without response; the backend is reused only after a full send, and the client kept only when its body was read out or a read failed |
| `ProxyBody.Exchange.HandleProxy` | src/server.rs:1349-1643 | with the 502 for failed exchanges the client gets exactly one final head, or none when the hooks take over; a client is kept with its body unread exactly on the 502, as always when the request head cannot be sent; with a silent backend, how much is unread; an exchange in which nothing goes wrong gives the client the backend's first final head, keeps the client and reuses the backend |
| `ProxyBody.UnreadIff` | src/server.rs:6234-6269 | with a silent backend some of the body is left exactly when the first failing write is not that of the last chunk |
| `ProxyBody.UnsentHeadExample` | src/server.rs:5191-5195 | a client that is kept after a 502 with its body unread, because the request head was not sent |
| `ProxyBody.LostUploadExample` | src/server.rs:5242-5244 | the same, because the backend went away in the middle of the upload |
| `Ranges.StaticRangeIsExact` | src/server.rs:3773-3838 | a 206 is exactly the selected bytes, not empty, with matching headers; a 416 exactly when nothing is selected |
| `Ranges.ParseOfDecimal` | src/server.rs:3798-3820 | numbers are read exactly up to 64 bits |
| `Ranges.FieldsOf` | src/server.rs:3921-3923 | reading a list with separators gives its parts back |
| `Ranges.StaticReads` | src/server.rs:3789-3826 | the three forms of a static range with printed numbers |
| `Ranges.PartIsExact` | src/server.rs:3929-3967 | an element's range is exactly the selected bytes, and when it is empty |
| `Ranges.CaddyReads` | src/server.rs:3929-3967 | the three forms of a list element with printed numbers |
| `Ranges.EmptySuffixExample` | src/server.rs:3929-3967 | the last no bytes of a file of five |
| `Ranges.ParsePart` | src/server.rs:3921-3967 | one element of the list as specified |
| `Ranges.ParseByteRangeSpec` | src/server.rs:3918-3973 | invalid exactly with a bad element, no overlap exactly when all ranges are beyond the end, otherwise the ranges in order |
| `Ranges.ApplyCaddyRange` | src/server.rs:3983-4049 | when the answer is partial, whole or unsatisfiable, and that a partial one is exactly the selected bytes |
| `Ranges.StreamRange` | src/shared.rs:135-164 | for every pattern of short reads and failing writes a finished copy is the exact slice and a failed one a beginning of it |
| `Ranges.SendStream.SendData` | src/server.rs:2822-2856 | for every pattern of window sizes the pieces make up the data and only the last may end the stream |
| `Ranges.SendStream.StreamTarEntry` | src/server.rs:3426-3453 | the frames make up the exact slice and the last one ends the stream, or a beginning of it and none does |
| `Ranges.SendStream.SendStatic` | src/server.rs:3312-3351 | for every length a response ends its stream exactly once, on its last frame |

## Left out

- A panic and an error return are one outcome in the object file model.
- Sizes of object sections without file bytes are not kept by the rebuild, so only sections with file bytes read back.
- FoldDriver.WrittenTargetIsFolded: a target or relocation table at index 0, the reserved entry of the section table, is not covered; the rebuild empties it, as ReservedIsEmptied says.
- FoldDriver.FoldTextSubprograms: takes files of at most 2^63 - 1 bytes, the largest a vector can hold.
- The glob fast paths (`sdk/zeroserve_caddy.h:129-142`) let a star cross a slash on purpose and are not modelled.
- A socket write that is dropped in the middle is taken to put nothing more on the wire in `TlsDrain`.
- BoringSSL itself, the handshake drivers and the relay prelude (`src/boringtls.rs:647-660`).
- RateLimit.DecidesLikeTheLog: takes each check as one step under a clock that does not go back; skew between threads is not modelled, and counters do not wrap.
- The 64-bit epoch of JSON handles is unbounded here, and a panic ends the run.
- JsonHandles.JsonRef.Get: a handle on a static value outside the tree, the only other thing a mapper can return, is made but not followed further.
- Loading sites from disk and compiling scripts are single steps that succeed or fail in `Reload`.
- `replace_header` and `replace_header_regex` differ only in the replacement, which is a parameter of `Headers.ScriptRequest.ReplaceHeader`.
- The limit on the number of entries in a header map is not modelled.
- Ja4.SameFingerprintOf: asks for distinct extension types, since the first extension of a type decides.
- ProxyBody.Exchange.HandleProxy: error routes, which answer a failure otherwise, and the interrupt that may end an exchange at any wait (`src/server.rs:1354-1376`) are not modelled.
- ProxyBody.Exchange.Salvage: what arrives after a pending response is read as heads, as the code reads it (`src/server.rs:5978-5985`, `6246-6250`); that the bytes belong to that response's body is not modelled.
- ProxyBody.Exchange.ProxyOverConnection: covers exchanges whose body is forwarded; a GET or HEAD answered on the raw path keeps the client without a drain.
- The HTTP/2 form of body forwarding follows the same loop and would add only easy members.
- Response bodies, compression, WebSocket tunnels and response headers of the proxy; hooks only as a change of status or a takeover.
- Conditional requests, entity tags and `If-Range` dates; the range functions start where they have been decided.
- The tar file cache.
- Connection pooling and hang-up watching depend on what the operating system reports.
- CLI, configuration, packing, logging, listeners, ACME, OIDC, certificates and DNS.
