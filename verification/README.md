# Iago in Dafny

A Dafny 4.11 model of the core of iago, a Go library that runs tasks on groups of hosts over SSH, with proofs of what
that core promises. `dafny verify dfyconfig.toml` checks everything.

## How the model is built

**Concurrency.** Each concurrent component is a transition system: a state, a set of labels, `Enabled` and `Apply`.
Every goroutine step is a label of its own, and any enabled label may fire, so a run is an arbitrary interleaving.
`Runs` holds the three inductions every component uses (an invariant of all runs, a bound on the length of all runs,
reachability) and what their termination measures share. Theorems about a component quantify over its reachable states or over its runs. The methods `RunPool`,
`Execute` and `Run` are the Go loops under a schedule chosen arbitrarily at every turn; their termination measure and
their `NextEnabled` function are the proofs that nothing hangs.

| module | what it models |
| --- | --- |
| `Runs`, `Wrappers`, `Conns` | transition systems and their runs; Option and Result; connections and errors |
| `WorkerPool` | the goroutines of `dialAll`: scheduler, jobs and abort channels, workers |
| `DialOutcome` | what `collect`, `firstDialError` and `allFailedError` make of the result slots |
| `FailFastExact` | exactly when FailFast reports the earliest failing alias |
| `GroupDialer` | the class `groupDialer`, and `NewSSHGroup`, with a ledger of every connection |
| `GroupClose` | `Group.Close` |
| `FanIn`, `GroupRun`, `ShellApply` | one fan-in machine; `Group.Run`, `Collect`, `Errors`; `Shell.Apply` |
| `FileTree`, `TreeCopy` | source trees and destination file systems; `copyDir`, `copyFile`, `totalSize`, `copyAction`, `DownloadDir` |
| `ParallelCopy` | downloads from several hosts to one destination at the same time |
| `TargetPath` | where `copyAction` puts a download, and when downloads from several hosts collide |
| `Selections` | what it means to choose from a list in order |
| `Text`, `Decimal` | the string functions and the decimal notation the host specs use |
| `HostRange`, `HostSpec` | the host range expression, `expandHostToken`, `splitHostSpec`, `hostAliases`, `ParseHosts` |
| `KnownHosts` | `knownHostAlgorithms` |
| `ShellQuote` | `Quote` and `pathTest` against a POSIX shell lexer |
| `KeepAlive` | `startKeepAlive` and `keepAliveLoop` |

**The network** is `GroupDialer.Net`: the ProxyJump value of an alias, the outcome of the k-th jump dial, and the outcome
of dialing alias number i through a jump. The outcome belongs to the index, not to the alias, so two dials of one alias
may end differently. A nil map in Go is `map[]` here, a nil error is `None` or `[]`. The ledger fields of the class
(`jumpDials`, `obtained`, `closed`) are ghost; they record every dial, every connection and every close.

**Paths** at the destination are lists of components. `TargetPath` joins host names onto them as the code does: cleaned
for a directory, appended raw for a file. A target that is not a valid path in the sense of `fs.ValidPath` is refused, as
io/fs asks of every file system.

**File systems.** A faulty `FileSys` may fail at any operation, in the middle of `MkdirAll` or of a write too; one that
is not faulty fails only when a node is in the way. `copyDir` is proved for both. Reads come in arbitrary chunks. A ghost
log records the operations a copy makes; `ParallelCopy` interleaves such logs.

**The shell** is the lexer fragment of IEEE Std 1003.1-2017, Shell & Utilities, that quoting needs: section 2.2.1
(escape character), section 2.2.2 (single-quotes) and section 2.3 (token recognition). It refuses a line with anything
unquoted that could start an operator, an expansion, a pattern or a comment.

## Where the code does less than its comments say

- `dialAll` says that FailFast returns the earliest failing alias's dial error (ssh.go:310-313). `dialErrs` is keyed by
  alias, so when an alias is repeated and dials overlap, a later failure of the alias replaces the earlier error.
  `RepeatedAliasCounterexample` is the smallest case, and `FailFastExact` proves that the statement holds for every
  network and schedule if and only if no alias is repeated or `DialConcurrency` is below 2. It also holds whenever two
  dials of the same alias end alike (`FailFastReportsFirstFailure`).
- `Download` says that results from several hosts do not collide (fs.go:147-148), and fs.go:256-258 that a subdirectory
  per host ensures it. The host's name is joined as a path, so names with slashes or dots can collide: `a/b` lands inside
  the directory of `a`, `./a` on it, and the names `""` and `.` on the destination itself (`CollidingNames`).
  `TargetsApartExact` gives the condition on two names under which they never collide, for all destinations, files and
  directories alike. For names that are single path components, being distinct is enough, except that a directory and a
  file downloaded to `.` also collide if the names are `..x` and `x` (`ComponentNamesApart`).
- `NewSSHGroup` says that at most one TCP connection is made to each jump host (ssh.go:197-199). Connections are shared
  per ProxyJump spec, compared as strings, so two Host aliases of one machine, such as `jump` and `jump.example.com` with
  the same HostName and Port, give two connections (`TwoNamesCounterexample`). `OneDialPerJumpHost` proves that each
  address is dialed at most once if and only if no two specs in use have the same address.
- `Collect` keys results by host name (iago.go:204-207), so of two succeeding hosts of one name only one result is left
  (`SameNameCounterexample`). Results and errors add up to the number of hosts, whatever the tasks do, if and only if the
  host names are distinct (`CollectCountsByName`); for given task outcomes, if and only if no two succeeding hosts share a
  name (`CollectCountsExact`).
- `expandHostToken` with `hi` equal to the largest int: `i <= hi` cannot become false (`LoopEndsUnlessMaxInt`; `MaxIntIsAccepted` is such a token), so the
  call never returns a slice. The model gives this case its own outcome, `NoReturn`, and `Hangs` for `ParseHosts`.
- `expandHostToken` with a zero-padded bound of more than 1,000,000 characters: fmt refuses such a width, prints
  `%!(BADWIDTH)` and pads nothing (`WideBoundCounterexample`). `DigitPartExact` shows that the digit parts are numbers of
  the common width exactly when the width is within that limit; `OrderedExact` says when their string order is numeric.

## Model

| member | source | states |
|---|---|---|
| WorkerPool.StepKeepsInv | ssh.go:324-351 | Every step of scheduler or worker keeps the pool's invariant: slots below `next` hold their own outcome or are in flight with exactly one worker, abort means a recorded failure, stopping early means abort, and the ledger of hosts matches the slots. |
| WorkerPool.NextEnabled | ssh.go:329-351 | Until `wg.Wait` has returned some goroutine can move; with all workers gone and aliases left, abort is closed. |
| WorkerPool.PoolTerminates | ssh.go:329-351 | Every run under every schedule has at most 3n + W + 3 steps, with no fairness assumption. |
| WorkerPool.PoolNeverDeadlocks | ssh.go:329-351 | A run that cannot go on has passed `wg.Wait` with every worker gone. |
| WorkerPool.NothingHappensTwice | ssh.go:327-337 | In every reachable state each alias was dialed at most once, each slot written at most once, no host obtained twice, no job held by two workers, and abort closed at most once. |
| WorkerPool.OneFailurePerWorker | ssh.go:333-338 | Under FailFast a worker that records a failure takes no further job, so no two failures have the same writer. |
| WorkerPool.SelectIsFree | ssh.go:344-348 | With abort closed and an idle worker left, `select` may still deliver the next alias, or stop. |
| WorkerPool.PoolFinishes | ssh.go:324-352 | A finished pool delivered a prefix of the aliases, dialed each of them once, left the rest untouched, and skipped a rest only under FailFast after a failure within the prefix. |
| WorkerPool.RunPool | ssh.go:324-351 | The goroutines under an arbitrary schedule always end in a finished run. |
| WorkerPool.PoolRefinesSequential | ssh.go:324-352 | Without FailFast the results are those of the sequential loop, for any number of workers and every interleaving. |
| WorkerPool.SoloPoolRefinesSequential | ssh.go:316-319 | With one worker FailFast contacts no alias after the first failing one, although `select` may still take the jobs branch. |
| DialOutcome.HostsAreOrdered | ssh.go:374-379 | `hosts` are exactly the connected aliases, in alias order. |
| DialOutcome.HostsAreTheLedger | ssh.go:374-387 | `collect` keeps every Host the pool obtained, dials in flight at abort included, and nothing else. |
| DialOutcome.ErrsAreLastFailures | ssh.go:380-385 | `dialErrs` has exactly the aliases with a failed dial, each with the error of its last failed dial. |
| DialOutcome.FirstDialErrorIsFirst | ssh.go:391-398 | `firstDialError` is nil iff no alias has an entry, else the entry of the first alias that has one. |
| DialOutcome.AllFailedErrorMeans | ssh.go:402-413 | Once every alias was dialed, `allFailedError` is nil iff some alias connected, else it names every alias in order with the error of its last dial. |
| DialOutcome.FailFastNilMeansAllDialed | ssh.go:354-359 | No silent skipping: under FailFast `dialAll` returns nil iff every dial succeeds, and then the hosts are those of all aliases in order, repeated aliases included. |
| DialOutcome.KeepGoingOutcome | ssh.go:310-314 | Without FailFast every alias is dialed and `dialAll` fails iff all of them failed. |
| DialOutcome.FailFastReportsFirstFailure | ssh.go:310-314 | In every run with any number of workers FailFast reports the earliest failing alias, if dials of the same alias end alike. |
| DialOutcome.SoloReportsFirstFailure | ssh.go:316-319 | A single worker reports it without that assumption. |
| DialOutcome.FailFastErrorIsAFailure | ssh.go:391-398 | However aliases repeat and whatever the schedule, an error under FailFast is the outcome of some alias's dial. |
| DialOutcome.PoolDeliversPrefix | ssh.go:329-351 | Under FailFast the slots of every finished run are those of a prefix of the aliases, cut short only after a failure within it, and with one worker right after the first. |
| FailFastExact.InFlightAtMost | ssh.go:449-454 | At most max(1, concurrency) dials are in flight at any time, and never more than there are aliases. |
| FailFastExact.InFlightReached | ssh.go:449-454 | That many can be: exactly min(concurrency, aliases), or one if concurrency is below 2; and any of them may end first. |
| FailFastExact.RepeatedAliasCounterexample | ssh.go:380-398 | With aliases a, a and two workers some run reports the second error instead of the first. |
| FailFastExact.FailFastExact | ssh.go:310-319 | FailFast reports the earliest failing alias for every network and every schedule iff no alias is repeated or dialing is sequential. |
| GroupDialer.SpecsInOrderMeans | ssh.go:261-272 | The specs dialed are exactly those that some alias names, without repeats. |
| GroupDialer.SpecsDialed | ssh.go:261-272 | A spec is dialed iff it is the ProxyJump of some alias and neither empty nor `none`. |
| GroupDialer.FirstJumpFailureIsFirst | ssh.go:274-277 | The jump error reported under FailFast is that of the first failing dial in order of first use. |
| GroupDialer.OneDialPerJumpHost | ssh.go:261-284 | Each jump address is dialed at most once iff no two specs in use have the same address. |
| GroupDialer.TwoNamesCounterexample | ssh.go:261-284 | Two specs with one address are dialed separately. |
| GroupDialer.JumpForIsPrepared | ssh.go:290-308 | After `prepareJumps` the "was not prepared" branch is dead, and all aliases with one spec get the one client or the one error of that spec's only dial. |
| GroupDialer.PreparedMeans | ssh.go:290-308 | Once the jumps are prepared, every alias's dial ends as the network alone determines: through the client, or with the error, of the only dial of its spec. |
| GroupDialer.NetOutcomeMeans | ssh.go:290-308 | An alias whose ProxyJump is empty or `none` is dialed directly, one whose ProxyJump cannot be read fails, any other goes through the only dial of its spec or fails with its error. |
| GroupDialer.GroupDialer.EstablishJump | ssh.go:273-281 | A new spec is dialed once and recorded as a client or as an error, never both; FailFast records no error. |
| GroupDialer.GroupDialer.PrepareJumps | ssh.go:261-284 | Specs are dialed at most once each in order of first use; on success every spec in use is recorded, on a FailFast error the first failing dial was the last one. |
| GroupDialer.GroupDialer.Collect | ssh.go:374-387 | The loop leaves the hosts and the errors the specification functions give. |
| GroupDialer.GroupDialer.FirstError | ssh.go:391-398 | The loop returns the first recorded error in alias order. |
| GroupDialer.GroupDialer.CombinedError | ssh.go:402-413 | The loop returns the combined error, or nil if a host connected or nothing failed. |
| GroupDialer.GroupDialer.DialAll | ssh.go:320-360 | The dialer's hosts, errors and ledger are those of some finished run of the pool, and the error returned is the one its slots determine. |
| GroupDialer.GroupDialer.Connect | ssh.go:214-219 | The two phases together, in terms of the network alone: without FailFast hosts, errors and result are those of the sequential loop, and it fails iff no alias connects; with it the error is nil iff every jump and every alias connects, a failed jump was the last dial of all, and otherwise hosts, dial errors and result are exactly those of some prefix of the aliases, cut short only after a failure within it (sequentially, right after the first). The error is then that of an alias that failed, namely of the earliest one if dialing is sequential or dials of the same alias end alike. Unless a FailFast jump failed, every spec in use is recorded with the outcome of its one dial. Everything obtained is owned once. |
| GroupDialer.GroupDialer.MakeGroup | ssh.go:418-428 | The group gets the hosts in order and each jump client once: exactly what was obtained. |
| GroupDialer.GroupDialer.CloseOnError | ssh.go:432-442 | On an error everything obtained is closed exactly once, hosts before jump clients; without one nothing is closed. |
| GroupDialer.NewSSHGroup | ssh.go:211-220 | On an error no group is returned and every connection obtained, those in flight at abort too, has been closed exactly once; on success none is closed and the group owns exactly all of them. What was obtained, the error and the dial errors are what the network gave the jumps and the aliases dialed, as for `Connect`. |
| GroupClose.CloseIsOrdered | iago.go:233-247 | In every interleaving each host is closed once, all before any shared resource, those in order; the joined error does not depend on the interleaving. |
| GroupClose.CloseReturns | iago.go:233-247 | The error joins exactly the failed closes, hosts in host order and then the shared resources, each as often as it occurred; nil iff every close succeeded. |
| GroupClose.EveryOrderIsPossible | iago.go:231-240 | Hosts are closed concurrently: any order of any of them can happen. |
| GroupClose.NextEnabled | iago.go:233-247 | Until everything is closed some goroutine can move. |
| GroupClose.CloseTerminates | iago.go:233-247 | Every run of Close is bounded, and one that cannot go on has closed everything. |
| GroupClose.EverythingClosedOnce | iago.go:229-247 | What NewSSHGroup obtained and handed over is closed exactly once, every host before any jump client. |
| FanIn.NobodyLeftBehind | iago.go:189-201 | When main returns, each sender has worked once, has been received from once and has exited. |
| FanIn.FanInTerminates | iago.go:189-201 | Every run has at most 3n + 2 steps, and one that cannot go on has returned. |
| FanIn.Execute | iago.go:189-201 | Under an arbitrary schedule the fan-in ends complete. |
| FanIn.GatheredCount | iago.go:196-201 | In every order of reception main gets each value exactly as often as there are senders that send it. |
| FanIn.EveryOrderIsPossible | iago.go:189-201 | All senders can be at work at once, and can end and be received from in any two orders. |
| GroupRun.HandledOncePerFailure | iago.go:189-201 | In every interleaving the handler gets each error exactly as often as there are hosts that failed with it, with that host's name in it. |
| GroupRun.HandledNothing | iago.go:196-201 | It is not called at all iff every task succeeds. |
| GroupRun.CollectIsExact | iago.go:216-225 | With distinct names the map holds each succeeding host's own value under its name and nothing else. |
| GroupRun.StoredIsLast | iago.go:216-225 | Under a shared name the value kept is that of the host whose task ended last. |
| GroupRun.CollectCountsExact | iago.go:204-227 | For given task outcomes, results and errors add up to the number of hosts iff no two succeeding hosts share a name. |
| GroupRun.CollectCountsByName | iago.go:204-227 | They add up for all task outcomes and all interleavings iff the host names are distinct. |
| GroupRun.SameNameCounterexample | iago.go:216-225 | Of two succeeding hosts of one name only one result is left, and no error says so. |
| GroupRun.Run | iago.go:185-202 | Under any schedule every task runs once, the shared map is the one the order of task ends gives, the handler got the errors the order of receptions gives. |
| GroupRun.Collect | iago.go:208-227 | The keys are the names of the succeeding hosts; the error is nil iff every task succeeded and otherwise joins each error as often as hosts failed with it. |
| ShellApply.StartPipes | cmd.go:49-77 | Set-up stops at the first pipe that cannot be made; exactly the goroutines before it were started. |
| ShellApply.StartedMeans | cmd.go:49-77 | The copies started are those of the requested streams before the first pipe that cannot be made, whose error is the one reported. |
| ShellApply.Drain | cmd.go:42-47 | One reception per goroutine started, in any order; each copy error is returned exactly as often as it occurred. |
| ShellApply.ApplyShell | cmd.go:33-85 | NewCommand's error alone if it fails; otherwise the errors of the copies started, each as often as it occurred, with the one of the failed pipe or, if there is none, the command's unless it is EOF. Nil iff all of that succeeded. |
| TreeCopy.TotalSize | fs.go:198-221 | The sum of the sizes of all files below the directory; on a read fault a partial sum, never more. Without faults it fails iff the directory cannot be listed. |
| TreeCopy.CopyChunk | fs.go:325-331 | Each read is reported before it is written; a failed write leaves a prefix of the file. |
| TreeCopy.CopyBytes | fs.go:312-317 | For every chunking the bytes arrive in order and the progress calls add up to them. |
| TreeCopy.CopyFile | fs.go:294-318 | Success leaves exactly the source's bytes at dest; failure leaves the old node or a prefix; without faults it fails only for a missing parent or a directory in the way. |
| TreeCopy.CopyEntries | fs.go:281-291 | The loop overlays entry after entry and stops at the first failure. |
| TreeCopy.CopyDir | fs.go:270-292 | Success: the destination is the old one overlaid with the source tree re-rooted at dest, and every byte was reported. Failure: only ancestors of dest, source directories and prefixes of source files have appeared. Without faults it succeeds iff src is a directory and nothing at the destination is in the way. |
| TreeCopy.OverlayMeansCompatible | fs.go:276-290 | A complete copy met no node of another kind. |
| TreeCopy.DownloadDir | fs.go:178-196 | A successful Apply leaves the overlay at dest and its progress calls add up to what Size returns; without faults it succeeds iff the source is a directory and nothing is in the way. |
| TreeCopy.CopyAction | fs.go:230-268 | Upload leaves the overlay at dest. Download leaves it below dest under the host's name for a directory, at dest with the host's name behind a dot for a file, and generally where `TargetPath` joins the name; a name that gives no valid path changes nothing. Without faults it succeeds iff there is a valid path with nothing in the way, and for a file its directory is there. |
| TargetPath.TargetsApartExact | fs.go:255-266 | Downloads from two hosts get places of which neither contains the other, for every destination, files and directories mixed, iff the names meet a condition that can be checked before. |
| TargetPath.ComponentNamesApart | fs.go:255-266 | For names that are single components, exactly when two given downloads collide. |
| TargetPath.SlashDescends | fs.go:258 | Joining `a/b` is joining `a` and then `b`. |
| TargetPath.ParentTargets | fs.go:258 | The name `..` leads to the parent of the destination, and from the root nowhere. |
| TargetPath.CollidingNames | fs.go:255-259 | The names `a/b`, `./a`, `.` and the empty name lead into the directory of `a`, onto it, or onto the destination itself. |
| TargetPath.CollidingExamples | fs.go:146-150 | Each of them collides with `a`. |
| TreeCopy.ApartCopiesCommute | fs.go:146-150 | Such downloads do not disturb each other, in either order. |
| ParallelCopy.SoloCopy | fs.go:270-318 | The operations a copy logs, made one by one, all work if nothing is in the way, and leave the overlay. |
| ParallelCopy.NobodyIsInTheWay | fs.go:146-153 | With any number of copies to places that are apart, in every interleaving of their single operations, the next operation of each copy works. |
| ParallelCopy.FinishedIsComplete | fs.go:146-153 | In every interleaving a copy that has finished is complete and stays so, whatever the others do and even if they fail half-way. |
| ParallelCopy.NothingElseChanges | fs.go:270-292 | In every reachable state only the places of the copies and the way there have changed. |
| ParallelCopy.FailureIsPossible | fs.go:294-318 | Any copy may fail at any point, with any beginning of the chunk it is writing already there. |
| ParallelCopy.CopiesTerminate | fs.go:270-318 | Every run is bounded, and one that cannot go on has finished every copy that did not fail. |
| ParallelCopy.DownloadsAreApart | fs.go:255-266 | Downloads from any number of hosts whose names satisfy the condition pairwise have places that are apart. |
| ParallelCopy.GroupDownloadsComplete | fs.go:146-153 | Download on a group of hosts whose names satisfy the condition pairwise: whatever the interleaving and whoever else fails, every download that has finished is complete. |
| HostRange.ReadsMeans | ssh_config.go:375 | What a token must look like to be read as a range. |
| HostRange.HostRangeREIsGreedy | ssh_config.go:375 | The expression matches every token that can be read as a range and takes the longest prefix. |
| HostRange.BracketFreeReadingIsUnique | ssh_config.go:447-451 | A token with a reading that passes the bracket check has no other reading. |
| HostRange.GreedyChoiceIsHarmless | ssh_config.go:447-451 | The bracket check passes for the match chosen iff it would pass for some reading. |
| HostRange.ExpandHostToken | ssh_config.go:447-475 | An error iff there is a second bracket, a bound beyond 64 bits or lo above hi; no result iff hi is the largest int; else the aliases of lo to hi in order, each the prefix, the digits of its number and the suffix. |
| HostRange.AcceptedMeans | ssh_config.go:449-462 | The checks, in terms of the characters and the bounds. |
| HostRange.AliasExact | ssh_config.go:463-473 | An alias is determined by its parts: the prefix, digits that read back as the number, as wide as the longer bound if a bound has a zero in front and without superfluous zeros otherwise, the suffix. |
| HostRange.UnpaddedRange | ssh_config.go:463-472 | If no bound has a zero in front nothing is padded, and the ends are the bounds as written. |
| HostRange.PaddedRange | ssh_config.go:463-470 | If a bound has a zero in front every number is as wide as the longer bound. |
| HostRange.DocumentedRange | ssh_config.go:380-382 | `bb[1-30]` begins with `bb1` and ends with `bb30`. |
| HostRange.LoopEndsUnlessMaxInt | ssh_config.go:467 | On 64-bit ints the loop runs hi - lo + 1 rounds, or forever iff hi is the largest int. |
| HostRange.MaxIntIsAccepted | ssh_config.go:447-462 | A token with the largest int for both bounds passes all checks and reaches that loop. |
| HostRange.DigitPartMeans | ssh_config.go:463-472 | Within fmt's width limit the digits of each alias read back as its number, and with a zero-padded bound are exactly as wide as the wider bound. |
| HostRange.DigitPartExact | ssh_config.go:463-472 | They are digits, and of that width, iff the width is within the limit. |
| HostRange.WideBoundCounterexample | ssh_config.go:463-470 | With a bound of 1,000,001 characters fmt prints a complaint and the unpadded number. |
| HostRange.PaddedPartsAreOrdered | ssh_config.go:463-470 | Zero-padded digit parts within the limit are ordered as strings exactly as their numbers are. |
| HostRange.OrderedExact | ssh_config.go:463-472 | Over a whole range string order is numeric order iff the parts are padded, or the two ends have equally many digits anyway. |
| HostRange.ExpansionIsTheRange | ssh_config.go:466-474 | The aliases are pairwise distinct, and x is one of them iff it is the alias of some number from lo to hi. |
| HostRange.EndsAreTheBounds | ssh_config.go:463-472 | The first and the last digit part are the literal bounds, padded with zeros to the common width if either bound is. |
| HostSpec.SplitHostSpec | ssh_config.go:431-440 | Returns the trimmed non-empty parts, each without commas. |
| HostSpec.TokensAreTheParts | ssh_config.go:431-440 | The tokens are the trimmed parts between the commas, in order, without those that are only white space. |
| HostSpec.TokensOfJoin | ssh_config.go:429-440 | Splitting a comma-joined spec gives the tokens of the first part and then those of the second. |
| HostSpec.TokensRoundTrip | ssh_config.go:429-440 | Tokens joined by commas split into the same tokens. |
| HostSpec.HostAliases | ssh_config.go:481-499 | The nested loop returns the matches of all stanzas in order, or the error of the first alias the matcher rejects the pattern on. |
| HostSpec.MatchingMeans | ssh_config.go:477-499 | It succeeds iff the matcher takes the pattern for every non-wildcard alias, and then x is returned iff it is such an alias and matches. |
| HostSpec.MatchingSelects | ssh_config.go:477-499 | The aliases returned are exactly the matching ones, in config order, repeats included. |
| HostSpec.WildcardMeans | ssh_config.go:486-488 | Aliases with one of the characters `*?![]` are skipped. |
| HostSpec.ParseHosts | ssh_config.go:391-427 | Returns the tokens' outcomes in sequence; the config is read once if a glob token is reached and never otherwise. |
| HostSpec.LiteralNames | ssh_config.go:422-424 | Tokens without `*`, `?` and `[` come back verbatim and in order. |
| HostSpec.RangeToken | ssh_config.go:397-402 | A token with one numeric range stands for its aliases, or for an error if the bounds are reversed or too large. |
| HostSpec.DoubleBracketToken | ssh_config.go:447-451 | One that can be read as a range but has another bracket is an error. |
| HostSpec.GlobToken | ssh_config.go:403-421 | Any other token with `*`, `?` or `[` stands for the config's matching aliases in order, or for an error of the config or the pattern. |
| HostSpec.ParseIsHomomorphic | ssh_config.go:377-427 | The outcome of a comma-joined spec is that of the first part followed by that of the second, errors included. |
| HostSpec.ConfigUnusedWithoutGlob | ssh_config.go:380-390 | Without a glob token the outcome does not depend on the config at all. |
| KnownHosts.ScanEntry | ssh_config.go:310-322 | The loop with its early break adds the key type iff some host pattern matches and the type is new. |
| KnownHosts.KnownHostAlgorithms | ssh_config.go:274-326 | The scan returns the deduplicated key types of the matching lines of all readable files. |
| KnownHosts.EntryFieldsMean | ssh_config.go:297-307 | A line is an entry iff it has at least three words and does not begin with `#` or `@`; its fields are its words. |
| KnownHosts.LineTypesMean | ssh_config.go:297-322 | It counts for the address iff one of its comma-separated patterns is the normalised address or a hash of it. |
| KnownHosts.OrdinaryEntryCounts | ssh_config.go:297-322 | A line of patterns, key type and key in any readable file puts the key type into the result if the normalised address is one of the patterns. |
| KnownHosts.OtherLinesDoNot | ssh_config.go:297-307 | Blank lines, comments, markers and lines of fewer than three words record nothing. |
| KnownHosts.NoAlgorithmsWithoutChecking | ssh_config.go:274-286 | Without host key checking, known_hosts files or an address there is no restriction. |
| KnownHosts.AlgorithmsAreTheRecorded | ssh_config.go:259-269 | Exactly the key types of the entries for the address on the lines of the readable files, each once, in order of the first file and line that records it. |
| ShellQuote.QuoteIsLiteral | cmd.go:102-108 | Wherever an unquoted shell lexer meets Quote(s), it reads s literally and comes out unquoted. |
| ShellQuote.QuoteRoundTrip | cmd.go:102-108 | The shell reads Quote(s) as the single word s, for every string. |
| ShellQuote.QuoteIsInjective | cmd.go:106-108 | Different strings have different quotes. |
| ShellQuote.CommandLineRoundTrip | cmd.go:102-108 | Any list of arguments, quoted and joined by spaces, comes back from the shell as it was. |
| ShellQuote.PathTestIsThreeWords | cmd.go:137-138 | The command is exactly the words test, flag and path, whatever the path holds. |
| ShellQuote.PathTest | cmd.go:137-146 | True iff the command succeeds; an error iff it ends with anything but success or exit status 1. |
| KeepAlive.KeepAliveIsSafe | ssh.go:135-170 | All pings but the last succeeded; the loop is dying or dead iff a ping failed; onDead is called once if set and the loop is dead, else never; done is closed exactly once if stop was called, however often, and else never. |
| KeepAlive.TickPings | ssh.go:160-168 | Whenever the loop waits a tick leads to a ping, and the loop waits again iff it succeeds. |
| KeepAlive.FailureCallsOnDead | ssh.go:162-167 | A failed ping leads to the return, with one call of onDead on the way if it is set. |
| KeepAlive.StopEndsTheLoop | ssh.go:139-170 | After a call of stop the loop can return from wherever it stands, however a ping in flight ends, without another tick; silently unless a ping has failed. |
| KeepAlive.NothingAfterReturn | ssh.go:156-170 | In every run, once the loop has returned, no ping ever follows and onDead is not called again. |

## Left out

- Real SSH, SFTP, agents, DNS, key verification and the hash of hashed known_hosts entries: outcome functions and predicates stand for them.
- Sockets inside a failing `newHostFromClient` (ssh.go:94-106): ownership is stated for Hosts and jump clients.
- `sshCmd.RunContext` and `Execute`: their helper goroutines are not modelled; `ShellApply` takes the command's error as an input.
- Errors of closing pipes in `Shell.Apply`: they go to a shadowed variable (cmd.go:50-54) and are not reported.
- `resolveSSHConfigFile` and `ParseSSHConfig`: `NewSSHGroup` starts from a parsed config, `ParseHosts` takes the parsed stanzas or a failure.
- The mutexes of `Collect` and `Errors`: storing a value and appending an error are single steps.
- Panicking tasks and handlers, task timeouts, logging and error texts.
- Symlinks, permissions, a source tree that changes during the copy, and a destination inside the source.
- `fs.Sub` and `fs.DirFS` (the wrfs package is not part of this model): source and destination are given as file systems; the destination's root exists and is a directory.
- `FileSys.MkdirAll`, `FileSys.Create` and `FileSys.Append` model the wrfs operations as the POSIX ones behave; each directory is checked and made in one step.
- Destinations that are not valid io/fs paths themselves (such as `../x`, which `NewPath` accepts), and Windows paths.
- CopyFile: does not model concurrent SFTP writes (ssh.go:91), because their order is up to the library; after a failed upload a file may have holes instead of being a prefix, as `FileSys.Append` has it.
- A nil `ProgressFunc`: `TreeCopy.CopyAction` passes a Progress nobody reads.
- TotalSize: does not model the wrap-around of a 64-bit sum, because no file system holds that many bytes.
- ExpandHostToken: does not model the memory limit of `make`, because the range sizes it refuses depend on the machine.
- Strings are sequences of characters, so ill-formed UTF-8 in specs and known_hosts files is not modelled.
- `Path`, `Perm`, group options, variables and `fetchEnv`: they would only add easy members.
