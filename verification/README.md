# Citeck launcher: verified models of its algorithms

The launcher is a daemon, a CLI and a client that run the Citeck platform in containers. This project models
the parts of it that are algorithms of their own, and proves what they are for:

- **Bundle versions** (`Text`, `Ordering`, `BundleKey`, `BundleOrder`, `BundleScopes`, `BundleSelection`,
  `VersionText`). The
  recursive parser of keys such as `archive/2025.5-RC1.1` computes a meaning that is defined without it; the
  comparator is a total preorder on all strings whose ties are exactly the keys with one meaning; the latest bundle is
  a maximum for every walk order and every sort; and it is said when text order agrees with it.
- **Log stripping** (`AnsiText`, `AnsiBytes`, `FlushWriter`). A grammar of control sequences with unique readings; the
  byte loop computes the reading; chunk boundaries do not show; and, at the level of slices that share arrays, the
  stream comes out right exactly when nobody writes to the carried bytes.
- **Event-stream framing** (`SseFraming`, `SseMessages`). Every chunking delivers the events of the one cutting of the
  stream.
- **Rate limiting** (`RateLimiter`, `RateFairness`). Eviction cannot be observed as long as the clock does not step
  back by more than 149.5 seconds, and that bound is exact; any window of any run is bounded from above, and from below
  for a client that keeps asking; tokens are conserved, and a refusal leaves no trace.
- **Secret redaction** (`SecretRedactor`). A harvested value is never left exactly when it cannot be formed with the
  help of the placeholder, whatever the other values; without such values the rest of the text is untouched, and
  longest first keeps long values whole.
- **The cloud config server** (`CloudConfigLifecycle`, `CloudConfigCalls`, `CloudConfigFlattening`, `CloudConfigKeys`,
  `CloudConfigNames`). Start, Stop and the exit of Serve over every interleaving; flattening for every order in which
  Go may walk its maps, and exactly which names collide.
- **Bounded stores** (`EventRing`, `SessionTable`). Each refines a plain history: of events, and of mints.
- **Change detection** (`OrderedMap`, `HashInput`, `HashSections`). Two definitions have one hash input exactly when
  they describe the same deployment.
- **The upgrade picker** (`PickerTabs`), **pull periods** (`PullPeriod`, `PeriodSpelling`) and **shell quoting**
  (`ShellQuote`).

A specification is a function or a predicate, the loops of the source are methods and classes proved against it, and
the results are lemmas about it. What a specification is written with (ranges of bytes, units, words, bounds) is
itself pinned by lemmas that spell out bytes and numbers. A Go string is a `string` with one character per byte. What
the library promises is stated where it is used: `Text` has the string operations, `Ordering` the sorts.

`dafny verify dfyconfig.toml` checks everything.

Where the code and its own comments disagree, the model follows the code. These are the places, each with a lemma
or a method that exhibits it:

- A release ties with a version whose suffix is a lone separator (`2025.12-`), so it does not outrank it
  (`BundleOrder.ReleaseOutranksPreRelease`).
- The picker marks `2025.9` as the latest of `2025.9` and `2025.10` (`PickerTabs.LatestByText`); it is right where
  the widths agree (`PickerTabs.LatestOfTwo`, `PickerTabs.LatestIsRight`, `PickerTabs.MarkIsRightIff`). It shows a
  repository twice that is configured twice (`PickerTabs.TabsConserve`).
- A writer that is handed every chunk in the same buffer loses the sequence it carried
  (`FlushWriter.ReusedBuffer`).
- `REDACTED` can be harvested as a secret and survives redaction (`SecretRedactor.HarvestableClash`).
- `started` can hold while nothing listens, and a Start then does nothing: between the return of a failed Serve and
  its hook (`CloudConfigLifecycle.StartOnDeadServer`; `CloudConfigLifecycle.NoopIsRight` says exactly when).
- A Start right after a Stop can find the port taken by the instance that is being shut down
  (`CloudConfigLifecycle.StartAfterStopMayFail`), even after the Stop has returned
  (`CloudConfigLifecycle.StopReturnsBeforeRelease`); `CloudConfigLifecycle.RestartBinds` says exactly when.
- A pull period above 9223372036 seconds is accepted with a wrong, possibly negative, duration
  (`PullPeriod.RightIffItFits`, `PullPeriod.AcceptedButNegative`, `PullPeriod.AcceptedButShort`).
- A client that has seen the largest event number is told to resynchronize (`EventRing.UpToDateButWrapped`).

## Model

| member | source | states |
|---|---|---|
| BundleKey.SplitSuffixGroups | internal/bundle/resolver.go:1548-1564 | The groups concatenate to the suffix, each is non-empty and all numeric or all not, and neighbours differ in kind |
| BundleKey.GroupingUnique | internal/bundle/resolver.go:1545-1564 | A suffix has only one such grouping |
| BundleKey.ParseScope | internal/bundle/resolver.go:1486-1494 | The scope is the non-empty segments, in order |
| BundleKey.ParseVersion | internal/bundle/resolver.go:1511-1520 | The numbers that fit 64 bits among the dotted parts, in order, without trailing zeros |
| BundleKey.ParseSuffix | internal/bundle/resolver.go:1522-1532 | Each group becomes what it stands for; numeric groups through the key parser itself |
| BundleKey.ParseBundleKey | internal/bundle/resolver.go:1481-1535 | The recursive parser terminates on every string and yields the meaning, which is defined without recursion on keys |
| BundleKey.NumericIsFlat | internal/bundle/resolver.go:1525-1528 | A numeric group parses to a key with neither scope nor suffix |
| BundleKey.NumericGroupsAreShorter | internal/bundle/resolver.go:1501-1527 | Every numeric group is strictly shorter than the key it comes from, so the recursion ends |
| BundleOrder.CompareVersionsIsOrder | internal/bundle/resolver.go:1452-1471 | The comparison is a total preorder on all strings; a tie means equal parsed keys, and the other way round |
| BundleOrder.SuffixesTransitive | internal/bundle/resolver.go:1615-1665 | The mutually recursive comparison of suffix lists is transitive, and a tie of the ends ties both steps |
| BundleOrder.VersionsTie | internal/bundle/resolver.go:1458-1471 | Two strings tie exactly when they parse to the same key |
| BundleOrder.ReleaseOutranksPreRelease | internal/bundle/resolver.go:1456-1470 | A version with a suffix ranks below the version without it, except for a lone separator, which ties |
| BundleOrder.SuffixesDecide | internal/bundle/resolver.go:1458-1471 | Pre-releases of one version compare by what follows the separator and by nothing else |
| BundleOrder.PreReleasesRank | internal/bundle/resolver.go:1545-1665 | Tags rank in dictionary order first; with one tag, the bare one is highest and numbers compare as versions, so rc2 is below rc10 |
| BundleOrder.NumberOutranksTag | internal/bundle/resolver.go:1658-1663 | A pre-release that is only a number ranks above every tagged one |
| BundleOrder.TrailingZeroIgnored | internal/bundle/resolver.go:1455-1520 | Any numeric version ties with itself followed by `.0` |
| BundleOrder.UnscopedOutranksScoped | internal/bundle/resolver.go:1486-1494 | A key in a scope ranks below every unscoped key, whatever the versions, unless the scope is nothing but slashes, which do not count |
| BundleOrder.OuterOutranksInner | internal/bundle/resolver.go:1593-1607 | Of two scopes one of which contains the other, the outer one ranks above, whatever the versions |
| BundleScopes.SiblingsCompareByName | internal/bundle/resolver.go:1462-1598 | Keys in two different scopes of one name each compare as these names do as text, whatever the versions |
| BundleScopes.InnerSiblingsCompareByName | internal/bundle/resolver.go:1486-1598 | So do keys in two different scopes below any common outer scope |
| BundleScopes.SameScopeCompares | internal/bundle/resolver.go:1458-1471 | Inside one scope, of any text, keys compare as the versions alone do |
| BundleScopes.ScopeOutranksInner | internal/bundle/resolver.go:1593-1607 | A key in a scope ranks above every key in a scope inside that one |
| BundleScopes.ExtraSlashIgnored | internal/bundle/resolver.go:1486-1494 | A slash too many, in front or inside, makes no scope |
| BundleScopes.SeparatorMayBeLeftOut | internal/bundle/resolver.go:1496-1509 | Between a version and a letter the separator makes no difference |
| BundleScopes.SeparatorsAreOne | internal/bundle/resolver.go:1496-1509 | Every byte but a letter, digit, dot or slash separates, and all of them mean the same |
| BundleScopes.UnusablePartIgnored | internal/bundle/resolver.go:1511-1516 | A part that is empty or above 9223372036854775807 does not count |
| BundleScopes.LongerOutranks | internal/bundle/resolver.go:1572-1590 | One more number other than zero makes a version the higher one |
| Ordering.ComparesBytes | internal/bundle/resolver.go:1593-1599 | Text compares by its first differing byte, by number, and a prefix comes first |
| BundleOrder.LastPartIsNumeric | internal/bundle/resolver.go:1511-1520 | Versions that differ in the last part alone compare by its number, zero and zeros in front included |
| BundleOrder.NumericVersions | internal/bundle/resolver.go:1458-1471 | Bare versions compare by their numbers from the left, longer above its prefix |
| BundleOrder.TextOrderDisagrees | internal/cli/upgrade.go:109-111 | For every version prefix, text order and bundle order rank the parts 9 and 10 oppositely |
| VersionText.LastPartAgrees | internal/cli/upgrade.go:250-252 | For last parts as usually written, text order is version order exactly where they are equally wide or the shorter one is smaller as text, and the opposite elsewhere |
| VersionText.FirstPartDecides | internal/cli/upgrade.go:250-252 | Plain versions compare as text by the first part that differs, and as versions by the widths of these parts first |
| VersionText.FirstPartsDecide | internal/cli/upgrade.go:250-252 | Of two plain versions the larger text is no lower a version exactly where the widths of the first differing parts agree, or one is a prefix of the other |
| VersionText.SameShapeAgrees | internal/cli/upgrade.go:250-252 | Bare versions with equally many parts of equal widths compare as text exactly as versions |
| BundleOrder.CompareStringSlices | internal/bundle/resolver.go:1593-1613 | The early-return loop is lexicographic order by bytes with the given preference for short or long |
| BundleOrder.CompareIntSlices | internal/bundle/resolver.go:1568-1590 | The early-return loop is lexicographic order by numbers with the given preference for short or long |
| BundleOrder.CompareSuffixParts | internal/bundle/resolver.go:1617-1642 | The loop over parts computes the recursive order on suffixes that is proved a preorder |
| BundleOrder.CompareSuffixPart | internal/bundle/resolver.go:1644-1665 | Names among each other, numbers among each other, and a number above a name |
| BundleOrder.CompareBundleVersions | internal/bundle/resolver.go:1458-1471 | Parsing and comparing as the source does computes the preorder on strings |
| BundleSelection.ListBundleVersions | internal/bundle/resolver.go:1396-1419 | The list is a permutation of the keys whose last path segment starts with a digit, in descending order, and empty for a missing directory |
| BundleSelection.FindLatestBundle | internal/bundle/resolver.go:1421-1450 | Fails exactly when no key has a last path segment that starts with a digit, and otherwise yields the first of the highest such keys |
| BundleSelection.AcceptedIff | internal/bundle/resolver.go:1249-1251 | A key is accepted exactly when the byte behind its last slash, or its first byte if it has none, is a digit |
| BundleSelection.ScopeDoesNotMatter | internal/bundle/resolver.go:1402-1411 | A scope in front changes nothing about that; the empty name is refused |
| BundleSelection.LatestIsHeadOfList | internal/bundle/resolver.go:1396-1450 | For every walk and every sort, the latest bundle ties with the first of the list |
| BundleSelection.LatestOfAnyOrder | internal/bundle/resolver.go:1433-1445 | Walking the same keys in another order yields a key with the same meaning |
| AnsiText.StripReads | internal/daemon/routes_apps.go:148-195 | Every byte string has a reading as tokens and an unfinished rest, and the stripper shows those tokens |
| AnsiText.ReadingUnique | internal/daemon/routes_apps.go:148-155 | The grammar of control sequences is unambiguous |
| AnsiText.StripIsReading | internal/daemon/routes_apps.go:148-195 | However a string is read by the grammar, the stripper shows exactly that and carries exactly that rest |
| AnsiText.StripBytes | internal/daemon/routes_apps.go:156-195 | The byte loop returns what the grammar shows and where the unfinished rest begins |
| AnsiText.StripAppend | internal/daemon/routes_apps.go:156-195 | Stripping two strings joined is stripping the first, then its rest joined with the second |
| AnsiText.ChunkInvariance | internal/daemon/routes_apps.go:136-195 | For every way of cutting a stream into writes, output and carry are those of one call on the whole |
| AnsiText.StripRest | internal/daemon/routes_apps.go:166-179 | The carry is empty or a proper prefix of a control sequence, and it is the end of the input |
| AnsiText.ShownIsClean | internal/daemon/routes_apps.go:162-194 | The output has neither ESC nor tab |
| AnsiText.StripIsIdempotent | internal/daemon/routes_apps.go:156-195 | Stripping the output again changes nothing and carries nothing |
| AnsiText.StripAgreesWithRegex | internal/daemon/routes_apps.go:888-894 | The streaming stripper and the regular expression agree exactly on the logs in which every ESC begins a match |
| AnsiBytes.SequenceVanishes | internal/daemon/routes_apps.go:174-183 | ESC, `[`, any bytes of 0x20-0x3f and one of 0x40-0x7e leave nothing, and what follows is stripped by itself |
| AnsiBytes.BrokenSequence | internal/daemon/routes_apps.go:174-185 | If a byte of neither range comes first, only the ESC goes |
| AnsiBytes.StrayEscape | internal/daemon/routes_apps.go:170-173 | An ESC before any other byte than `[` goes alone |
| AnsiBytes.UnfinishedIsCarried | internal/daemon/routes_apps.go:167-180 | What may still become a sequence shows nothing and is carried whole |
| AnsiBytes.TabIsFourSpaces | internal/daemon/routes_apps.go:186-188 | A tab (0x09) shows as four spaces (0x20) |
| AnsiBytes.OthersAreShown | internal/daemon/routes_apps.go:189-192 | Every other byte shows as itself |
| AnsiBytes.MatchIs | internal/daemon/routes_apps.go:888 | Behind ESC `[` and digits or `;` the expression matches exactly when a letter follows |
| AnsiBytes.MatchesGo | internal/daemon/routes_apps.go:888-892 | What matches is removed, and what follows is treated by itself |
| AnsiBytes.NoMatch | internal/daemon/routes_apps.go:888 | Nothing matches that does not start with ESC `[` |
| AnsiBytes.OthersStay | internal/daemon/routes_apps.go:888-893 | Where nothing matches, the first byte stays, or becomes four spaces if it is a tab |
| FlushWriter.Append | internal/daemon/routes_apps.go:157-159 | Prepending the carry writes over the bytes after it when its array has room, and copies otherwise |
| FlushWriter.StripSlice | internal/daemon/routes_apps.go:156-195 | On slices: cleaned text and leftover of carry and chunk, and whose array the leftover is a window of |
| FlushWriter.FlushWriter.Write | internal/daemon/routes_apps.go:136-146 | Returned length and error, what was sent and what is carried; if the carry was left alone, everything sent is the stripped stream |
| FlushWriter.WriteOwned | internal/daemon/routes_apps.go:136-146 | With every chunk in an array of its own, with or without room behind it, the bytes sent are those of the stripped stream up to the first chunk that the response writer refuses |
| FlushWriter.ReusedBuffer | internal/daemon/routes_apps.go:128-159 | With one buffer for two frames, the text sent differs from the stripped stream |
| FlushWriter.CarryMustBeIntact | internal/daemon/routes_apps.go:128-138 | Changed carried bytes show the same for all next chunks exactly when they were not changed |
| SseFraming.CutIsCutting | internal/client/client.go:440-446 | Frames, separators and rest rebuild the bytes read, and each separator is the leftmost after its frame |
| SseFraming.CuttingUnique | internal/client/client.go:440-446 | There is only one such cutting of a stream |
| SseFraming.CutAppend | internal/client/client.go:438-446 | Cutting two chunks joined is cutting the first, then its rest joined with the second |
| SseFraming.ChunkInvariance | internal/client/client.go:433-467 | For every chunking, the frames and the buffer are those of the whole stream, and rebuild it |
| SseFraming.EventStream.Receive | internal/client/client.go:436-463 | After each read, the events delivered are exactly those of the complete frames so far, and a proper prefix of them if cancelled |
| SseMessages.MessageEnds | internal/client/client.go:440-446 | Two line feeds end a message that has no blank line, and what follows is cut by itself |
| SseMessages.LineByLine | internal/client/client.go:449 | The events of a message are those of its lines in order |
| SseMessages.OneLine | internal/client/client.go:450-453 | A line is an event exactly when it starts with `data: ` and the rest decodes |
| SseMessages.PayloadArrives | internal/client/client.go:440-457 | A payload sent in a message of one line is the next event |
| RateLimiter.Limiter.Handle | internal/daemon/middleware.go:182-212 | The critical section answers as the run of all requests says, and keeps the table that run says |
| RateLimiter.Limiter.EvictWhenCrowded | internal/daemon/middleware.go:185-192 | Above a thousand entries, those idle for over five minutes go, and only those |
| RateLimiter.Limiter.Evict | internal/daemon/middleware.go:187-191 | Deleting while walking the map removes exactly the idle entries, in any order |
| RateLimiter.TableTracks | internal/daemon/middleware.go:176-212 | After every run, the table has an IP's bucket, or the IP went idle long enough to be dropped |
| RateLimiter.EvictionUnobservable | internal/daemon/middleware.go:176-212 | Each request is answered as by a bucket of its own IP that is never evicted and sees no other IP |
| RateLimiter.LagBoundIsExact | internal/daemon/middleware.go:182-192 | The clock may step back by some lag in all runs without eviction showing exactly up to 149.5 seconds |
| RateLimiter.LagBeyondBound | internal/daemon/middleware.go:182-198 | Past the bound there is a run in which the evicted IP is accepted and its own bucket refuses |
| RateLimiter.TokensInRange | internal/daemon/middleware.go:199-211 | Never above the rate, and never further below zero than the clock stepped back |
| RateLimiter.FullAgain | internal/daemon/middleware.go:199-204 | One second after its latest request every bucket is full |
| RateLimiter.BurstIsServed | internal/daemon/middleware.go:199-211 | Of a burst at one instant after an idle second exactly the first rps are accepted, at one token each |
| RateLimiter.TableInRange | internal/daemon/middleware.go:176-212 | With a nondecreasing clock every bucket in the table has between zero and rate tokens |
| RateLimiter.WindowBound | internal/daemon/middleware.go:176-212 | Over any run, evictions included, an IP's accepted requests in [t1, t2] number at most rps + rps (t2 - t1) |
| RateFairness.RefusalCostsNothing | internal/daemon/middleware.go:199-209 | A refused request leaves what the bucket holds at every later time as it was |
| RateFairness.RefusedDoesNotMatter | internal/daemon/middleware.go:199-209 | All later requests are answered, and the bucket left, as if the refused one had not been made |
| RateFairness.RefusedLeavesNoTrace | internal/daemon/middleware.go:176-212 | The same for the limiter: a refused request changes the answer to no later one, of any IP, evictions included |
| RateFairness.TokensAreConserved | internal/daemon/middleware.go:199-211 | A full bucket and what has refilled since is what accepted requests took, what did not fit, and what is left |
| RateFairness.SteadyClientIsServed | internal/daemon/middleware.go:176-212 | Whoever asks at least every 1/rps seconds is let through in any stretch of time for all but one of the requests the rate allows; at one per second, where a wait may overfill the bucket, less what that costs |
| RateFairness.SteadyClientGetsTheRate | internal/daemon/middleware.go:176-212 | From two per second on, accepted requests of such a client lie between rps t - 1 and rps t + rps |
| RateFairness.HalfSecondsApart | internal/daemon/middleware.go:199-211 | At one per second, of requests at 0, 0.5 and 1 exactly the second is refused |
| SecretRedactor.Redactor.AddValue | internal/cli/dump_redact.go:59-68 | The trimmed value is added exactly when it looks like a secret and is not there yet |
| SecretRedactor.LikelyIff | internal/cli/dump_redact.go:195-207 | Harvested is every value of six bytes or more without blank, tab or line end, except four words in any case |
| Text.TrimmedIs | internal/cli/dump_redact.go:60 | Trimming takes the bytes 0x09-0x0d and 0x20 off both ends and stops at any other |
| Text.CaseBytes | internal/cli/dump_redact.go:202 | Case is that of the ASCII letters |
| SecretRedactor.Redactor.Finalize | internal/cli/dump_redact.go:83-87 | A permutation of the values, longest first |
| SecretRedactor.Redactor.Redact | internal/cli/dump_redact.go:90-99 | One greedy replacement per value; no harvested value that does not clash is left, and nothing that contains one, whichever other values clash |
| SecretRedactor.ReplaceBeside | internal/cli/dump_redact.go:94-97 | Replacing a value that does not clash never reaches across a placeholder |
| SecretRedactor.RedactionIsConservative | internal/cli/dump_redact.go:89-99 | Input and output share their gaps, no gap holds a harvested value, and each placeholder stands where one harvested value stood |
| SecretRedactor.RedactionIsComplete | internal/cli/dump_redact.go:89-99 | A harvested value that does not clash occurs in no output, whatever the input, the order and the other values |
| SecretRedactor.ReplaceKeepsFree | internal/cli/dump_redact.go:94-97 | Replacing any value, a clashing one too, never forms a value that does not clash |
| SecretRedactor.NothingAroundIsLeft | internal/cli/dump_redact.go:81-99 | A longer value that contains a harvested one is not left either, even if it clashes itself |
| SecretRedactor.CompleteIffNoClash | internal/cli/dump_redact.go:26-99 | A value is removed from every input in every list that has it exactly when it does not agree with the placeholder on any overlap |
| SecretRedactor.OrdinaryValuesDoNotClash | internal/cli/dump_redact.go:26-31 | A value without `*` that is no part of the word REDACTED does not clash |
| SecretRedactor.LongestFirst | internal/cli/dump_redact.go:81-99 | Wherever a harvested value stands in the input, a hidden value at least as long overlaps it; with no clash, what is hidden is what the output replaces; with any values, the bytes of the occurrence stand together nowhere in the output |
| SecretRedactor.RedactTracedIs | internal/cli/dump_redact.go:90-99 | Tracing each byte to its position in the input does not change what the redactor returns |
| SecretRedactor.OccurrencesAreBroken | internal/cli/dump_redact.go:81-99 | In every list, clashing values or not, no occurrence of a harvested value in the input reaches the output with its bytes still together |
| SecretRedactor.HarvestableClash | internal/cli/dump_redact.go:195-207 | The word REDACTED passes as a secret and survives its own redaction |
| CloudConfigLifecycle.KeepsInv | internal/daemon/cloudconfig.go:99-194 | Every step of every caller and every Serve goroutine keeps the invariant of lock, server, instances and port |
| CloudConfigLifecycle.EveryState | internal/daemon/cloudconfig.go:99-194 | Every state of every interleaving satisfies it |
| CloudConfigLifecycle.StartedIffServer | internal/daemon/cloudconfig.go:24-26 | Whenever the lock is free, started holds exactly when there is a server |
| CloudConfigLifecycle.StartedIsBound | internal/daemon/cloudconfig.go:25 | While the server counts as started its listener is bound, except exactly from the return of its Serve to the end of the hook |
| CloudConfigLifecycle.NoopIsRight | internal/daemon/cloudconfig.go:102-104 | A Start that does nothing finds the port bound exactly when Serve of the server it relies on has not returned |
| CloudConfigLifecycle.StartOnDeadServer | internal/daemon/cloudconfig.go:150-165 | Between the return of Serve and its hook, a Start does nothing and nothing listens |
| CloudConfigLifecycle.TakenDownOnce | internal/daemon/cloudconfig.go:175-194 | No instance is shut down twice, and no Stop takes a missing server |
| CloudConfigLifecycle.OnlyOwnersClear | internal/daemon/cloudconfig.go:154-165 | Only a Stop that takes it, the Start that built it, or its own Serve removes a server; a stale goroutine leaves a newer one alone |
| CloudConfigLifecycle.PortFollowsServer | internal/daemon/cloudconfig.go:171-194 | At rest, the port is held by the current server, and free if there is none |
| CloudConfigLifecycle.PortFreeIff | internal/daemon/cloudconfig.go:171-194 | While the server is stopped and the lock free, the port is free exactly under that condition |
| CloudConfigLifecycle.RestartBinds | internal/daemon/cloudconfig.go:96-145 | A Start that finds the server stopped can bind exactly when no Stop still holds a live instance and none that was shut down is yet to serve; at rest it can |
| CloudConfigLifecycle.StopReleasesPort | internal/daemon/cloudconfig.go:186-193 | A Stop that returns has released the port exactly when the goroutine of its instance had come to serve before Shutdown |
| CloudConfigLifecycle.StoppedHoldsUntilServed | internal/daemon/cloudconfig.go:148-150 | An instance that was shut down holds the port exactly until its goroutine comes to serve, and that step frees it |
| CloudConfigLifecycle.StartAfterStopMayFail | internal/daemon/cloudconfig.go:140-191 | Between the two phases of a Stop, a Start can be forced to fail: one of the two ways in the condition |
| CloudConfigLifecycle.StopReturnsBeforeRelease | internal/daemon/cloudconfig.go:147-193 | The other way: every Stop has returned and nobody is in Start or Stop, yet the port is taken |
| CloudConfigCalls.CallersGoOn | internal/daemon/cloudconfig.go:99-195 | In every reachable state, a thread inside Start or Stop can take its next step |
| CloudConfigCalls.ServersGoOn | internal/daemon/cloudconfig.go:147-165 | So can the goroutine of an instance, except that its hook waits for the lock |
| CloudConfigCalls.LockHolderGoesOn | internal/daemon/cloudconfig.go:99-195 | Whoever holds the lock can go on, so nobody waits for it for good |
| CloudConfigCalls.StartIsIdempotent | internal/daemon/cloudconfig.go:96-104 | A Start of a started server changes nothing |
| CloudConfigCalls.StopIsIdempotent | internal/daemon/cloudconfig.go:170-180 | A Stop of a stopped server changes nothing |
| CloudConfigCalls.StartBringsUp | internal/daemon/cloudconfig.go:99-168 | A Start that finds the server stopped and the port free leaves a new instance that alone listens |
| CloudConfigCalls.StartFails | internal/daemon/cloudconfig.go:140-144 | A Start that cannot bind leaves everything as it was |
| CloudConfigCalls.OnlyServerListens | internal/daemon/cloudconfig.go:140-145 | While a server counts as started, no other instance listens |
| CloudConfigCalls.StopTakesDown | internal/daemon/cloudconfig.go:174-195 | A Stop of a started server shuts that instance down, once, and frees the port unless its goroutine has yet to serve |
| CloudConfigCalls.HookClears | internal/daemon/cloudconfig.go:153-165 | The hook clears its own server and leaves any other alone |
| CloudConfigCalls.DeadServerRestarts | internal/daemon/cloudconfig.go:153-156 | After the hook of a server that died, a Start brings up a new one |
| CloudConfigFlattening.Flatten | internal/daemon/cloudconfig.go:59-94 | For every walk order the result map gains the flat keys, each with one of the values written to it, and nothing else changes |
| CloudConfigFlattening.FlattenValue | internal/daemon/cloudconfig.go:69-92 | Scalars, maps of either kind and lists each contribute exactly their pairs |
| CloudConfigFlattening.FlattenItems | internal/daemon/cloudconfig.go:86-88 | Wrapping each item in a one-entry map contributes the pairs of the whole list |
| CloudConfigFlattening.ListIsNumbered | internal/daemon/cloudconfig.go:82-89 | List items stand at path[0], path[1] and so on; an empty list is the empty text at the path |
| CloudConfigFlattening.EntriesAreDotted | internal/daemon/cloudconfig.go:61-67 | Entries of a map stand at path.key, bracketed ones at path[key] |
| CloudConfigFlattening.TopEntriesStandAlone | internal/daemon/cloudconfig.go:60-62 | At the top, or below a blank path, they stand at their keys |
| CloudConfigKeys.PairsAreLeaves | internal/daemon/cloudconfig.go:59-94 | A pair is written exactly where a leaf's path leads to its key; an empty list is a leaf, an empty map has none |
| CloudConfigKeys.KeyIsBaseAndTail | internal/daemon/cloudconfig.go:61-88 | A flat key is the base followed by `.name` for each field and `[i]` for each item of the path |
| CloudConfigKeys.TailInjective | internal/daemon/cloudconfig.go:61-68 | Below a name, two clean paths that are written alike are the same path |
| CloudConfigKeys.KeysDistinct | internal/daemon/cloudconfig.go:61-68 | Distinct clean paths have distinct flat keys |
| CloudConfigKeys.FlatteningIsFlat | internal/daemon/cloudconfig.go:59-94 | With clean keys every walk stores each leaf at its key and nothing else |
| CloudConfigKeys.OrderDoesNotShow | internal/daemon/cloudconfig.go:60-94 | With clean keys all walk orders store the same map |
| CloudConfigKeys.OneEntryPerLeaf | internal/daemon/cloudconfig.go:59-94 | With clean keys there are as many entries as leaves |
| CloudConfigKeys.DottedKeysCollide | internal/daemon/cloudconfig.go:62-68 | For all clean names m and n, the key m.n collides with n below m: a leaf is lost and the walk order shows |
| CloudConfigKeys.BracketedKeysCollide | internal/daemon/cloudconfig.go:63-88 | A key that ends in `[0]` collides with the first item of a list in the same way |
| CloudConfigKeys.BlankKeysCollide | internal/daemon/cloudconfig.go:62-68 | Below a blank key, names collide with the same names outside it |
| CloudConfigNames.PathTextIff | internal/daemon/cloudconfig.go:61-88 | A text is the flat key of some clean path exactly when it reads as names behind dots and canonical numbers in brackets |
| CloudConfigNames.NameCollidesIff | internal/daemon/cloudconfig.go:61-68 | A name collides with a clean path other than itself exactly when it is not clean and reads as a path |
| CloudConfigNames.ItoaOfDecimal | internal/daemon/cloudconfig.go:87 | An item number is written in one way only |
| CloudConfigKeys.CloudConfigStore.UpdateConfig | internal/daemon/cloudconfig.go:40-54 | All apps are replaced, each flattened on its own; an empty secret keeps the old one; the version counts up in 64 bits |
| EventRing.Ring.Push | internal/daemon/eventring.go:36-45 | The ring goes on holding the last events of the whole history, in order |
| EventRing.Ring.Len | internal/daemon/eventring.go:50-57 | The number of events held |
| EventRing.Ring.Since | internal/daemon/eventring.go:63-92 | With increasing numbers, ok means all events ever pushed after the given one, in order; with consecutive ones, it is said exactly when none was missed |
| EventRing.RecentIsEnough | internal/daemon/eventring.go:79-91 | If the oldest event held is at most n + 1, none after n has been overwritten |
| EventRing.NewerIsSuffix | internal/daemon/eventring.go:84-91 | With increasing numbers, the events after n are the end of the history, from the first number above n on |
| EventRing.ResyncOnlyWhenOverwritten | internal/daemon/eventring.go:59-82 | With consecutive numbers, no resync is asked for exactly when no event after n was overwritten or came before the history began |
| EventRing.UpToDateButWrapped | internal/daemon/eventring.go:79-82 | At the largest number the sum wraps, and an up-to-date client is sent to resync |
| SessionTable.ApiAuth.ValidSession | internal/daemon/apiauth.go:86-98 | True exactly when the id is kept and has not expired; with increasing mint times, exactly when it is one of the last hundred minted, a day ago or less |
| SessionTable.ApiAuth.CreateSession | internal/daemon/apiauth.go:103-127 | Whatever the clock, the table goes on holding the newest mint and the ninety-nine latest before it, in at most a hundred entries, exactly when there is room or some entry expires within two lifetimes of the clock; otherwise it has a hundred and one |
| SessionTable.ApiAuth.MakeRoom | internal/daemon/apiauth.go:111-124 | Pruning and evicting leave the unexpired entries, less one with the smallest expiry if these are a hundred and the search finds one |
| SessionTable.ApiAuth.Prune | internal/daemon/apiauth.go:111-115 | Exactly the expired entries go, in any order |
| SessionTable.ApiAuth.Oldest | internal/daemon/apiauth.go:117-122 | The search finds an entry with the smallest expiry exactly when some entry expires within two lifetimes of the clock |
| SessionTable.RoomHolds | internal/daemon/apiauth.go:111-124 | After pruning by any clock and evicting, the unexpired entries are those of the ninety-nine latest mints |
| SessionTable.LatestOfAll | internal/daemon/apiauth.go:116-124 | Of what is kept, the ninety-nine latest are the ninety-nine latest of all mints ever |
| SessionTable.KeptIsLast | internal/daemon/apiauth.go:100-127 | With increasing mint times, what is kept is the last hundred mints |
| SessionTable.KeptUnique | internal/daemon/apiauth.go:116-124 | If no two mints have one time, the history fixes what is kept |
| OrderedMap.Map.Get | internal/appdef/orderedmap.go:51-58 | The value of the first entry with the key, or absent |
| OrderedMap.Map.Has | internal/appdef/orderedmap.go:61-64 | Whether there is an entry with the key |
| OrderedMap.Map.Set | internal/appdef/orderedmap.go:67-75 | The first match changes in place or an entry is appended, and distinct keys stay distinct |
| OrderedMap.UpdatedLookup | internal/appdef/orderedmap.go:51-75 | After Set a key has the new value and every other key its old one |
| OrderedMap.UpdatedKeys | internal/appdef/orderedmap.go:66-75 | Set keeps the order of the keys, a new one last |
| HashInput.GetHashInput | internal/appdef/appdef.go:182-229 | The builder writes the tagged lines that the specification lists, in order |
| HashSections.HashTextIsSections | internal/appdef/appdef.go:182-229 | The text is thirteen sections with these words in this order, for any sorted arrangement of keys, ports and dependencies |
| HashInput.WriteEnv | internal/appdef/appdef.go:194-202 | One line per entry in key order, with the value that the map looks up |
| HashInput.WriteHead | internal/appdef/appdef.go:183-191 | The scalar lines, with a digest line only when there is a digest |
| HashInput.TextInjective | internal/appdef/appdef.go:183-228 | Without line feeds in the fields, the text determines the sequence of tagged lines |
| HashInput.HashIffSameDeployment | internal/appdef/appdef.go:182-229 | For clean definitions: equal text exactly when environment, multisets of ports and dependencies, and all other hashed fields agree, commands up to the join by spaces |
| HashInput.SameDeploymentSameHash | internal/appdef/appdef.go:192-218 | Reordering environment, ports or dependencies never changes the text, whatever the fields hold |
| HashInput.SameEnvIsSameMap | internal/appdef/appdef.go:192-202 | With distinct keys, the compared environments are equal as maps |
| HashInput.ReorderedEnv | internal/appdef/appdef.go:192-202 | A reordered environment with distinct keys counts as the same |
| HashInput.WordsDoNotShow | internal/appdef/appdef.go:189 | For every definition and any two words, a command of both has the same text as the one word they make with a space |
| HashInput.LineFeedHidesChange | internal/appdef/appdef.go:208-210 | For every definition, a volume with a line feed can pass for two volumes, and the change does not show |
| HashInput.EqualsSignHidesChange | internal/appdef/appdef.go:199-202 | For every definition, a key with an `=` can pass for a shorter key, and the change does not show |
| PickerTabs.BuildPickerTabs | internal/cli/upgrade.go:215-273 | Grouping, ordering and sorting in place, even of a group that is sorted twice, yields the specified tabs |
| PickerTabs.GroupByRepo | internal/cli/upgrade.go:216-223 | Each group is its repository's versions in order, and the ids come in first-seen order |
| PickerTabs.FirstSeenOrder | internal/cli/upgrade.go:217-223 | The ids are in the order of each repository's first version |
| PickerTabs.OrderIds | internal/cli/upgrade.go:225-241 | Configured repositories with versions in configuration order, then the others in first-seen order |
| PickerTabs.TabIdsAre | internal/cli/upgrade.go:225-241 | Every repository with versions has a tab, and a second one only for a second configuration entry |
| PickerTabs.ConfiguredFirst | internal/cli/upgrade.go:225-241 | Configured repositories come first, in configuration order, and none of the others is configured |
| PickerTabs.OthersInOrder | internal/cli/upgrade.go:236-241 | The others come in the order of their first versions |
| PickerTabs.TabsAreNamed | internal/cli/upgrade.go:228-271 | A tab is named as the last configuration entry of its repository says, or by the id if that is empty or there is none |
| PickerTabs.TabShows | internal/cli/upgrade.go:249-261 | A tab is a stable sort of its repository's versions, newest text first, and marks the first one Latest and no other |
| PickerTabs.TabsNotEmpty | internal/cli/upgrade.go:244-261 | Every tab has a Latest |
| PickerTabs.TabsConserve | internal/cli/upgrade.go:211-273 | The tabs show every version as often as given exactly when no repository with versions is configured twice |
| PickerTabs.LatestByText | internal/cli/upgrade.go:249-260 | Of the parts 9 and 10 of any version the picker marks 9, the lower one in bundle order |
| PickerTabs.LatestOfTwo | internal/cli/upgrade.go:249-260 | Of two versions that differ in the last part, the higher one is marked exactly where the widths agree |
| PickerTabs.LatestIsRight | internal/cli/upgrade.go:249-261 | In a tab of bare versions of one shape, the version marked Latest is the one that counts as the latest bundle among them |
| PickerTabs.MarkIsRightIff | internal/cli/upgrade.go:249-261 | In a tab of plain versions the mark is right, and ties with the latest bundle, exactly when it agrees in width with every other key at the first differing part |
| PullPeriod.ParseISOComponents | internal/bundle/duration.go:85-107 | Accepts exactly what denotes a number, and returns that number modulo 2^64 |
| PullPeriod.DenotedIsSpelled | internal/bundle/duration.go:83-107 | Whatever is accepted is a run of digits-and-unit components with their total |
| PullPeriod.SpelledIsDenoted | internal/bundle/duration.go:83-107 | Every such run is accepted with its total |
| PullPeriod.DenotedConcat | internal/bundle/duration.go:83-107 | Two runs written one after the other denote the sum |
| PullPeriod.ParseISO8601Duration | internal/bundle/duration.go:49-81 | Date part, time part and sign as denoted, modulo 2^64; the parts may not both be missing |
| PullPeriod.ISOSpelledIsDenoted | internal/bundle/duration.go:46-81 | Every sign, date part and time part written out is accepted with the signed total |
| PullPeriod.ISODenotedIsSpelled | internal/bundle/duration.go:46-81 | Nothing else is accepted: whatever is, can be spelled that way |
| PullPeriod.ParsePullPeriod | internal/bundle/duration.go:18-44 | Which form a text is read as, when it is refused, and what is returned |
| PullPeriod.RightIffItFits | internal/bundle/duration.go:17-36 | A bare number is judged right exactly up to 9223372036; an accepted period is the denoted one exactly when that fits 64 bits; one that fits is accepted exactly when it is positive |
| PullPeriod.AcceptedButNegative | internal/bundle/duration.go:25-30 | The number 9223372037 is accepted with a negative duration |
| PullPeriod.AcceptedButShort | internal/bundle/duration.go:31-34 | An ISO duration of 5124096 hours is accepted as less than half an hour |
| PeriodSpelling.UnitsAre | internal/bundle/duration.go:62-70 | D is 86400, H 3600, M 60 and S 1 seconds, and no other unit is known |
| PeriodSpelling.DurationDenotes | internal/bundle/duration.go:46-81 | PdDThHmMsS denotes (((24 d + h) 60 + m) 60 + s) 10^9, with a minus sign its negative |
| PeriodSpelling.DurationIsAccepted | internal/bundle/duration.go:31-36 | In any case it is accepted, unless it is zero, and returned as that number when it fits |
| PeriodSpelling.NegativeIsRefused | internal/bundle/duration.go:32-37 | With a minus sign it is refused |
| PeriodSpelling.NumberIsSeconds | internal/bundle/duration.go:23-30 | A bare number n denotes n 10^9 and is accepted as that up to 9223372036, unless it is zero |
| PeriodSpelling.SignedNumbers | internal/bundle/duration.go:25 | A number may have a sign, and is none when it does not fit 64 bits |
| PeriodSpelling.NegativeNumberIsRefused | internal/bundle/duration.go:26-28 | A number below zero is refused |
| PeriodSpelling.HalfAnHour | internal/bundle/duration.go:14 | PT30M is half an hour, in small letters too |
| PeriodSpelling.SqueezedIs | internal/bundle/duration.go:19 | What is read is the text without white space around it and without spaces inside |
| ShellQuote.QuotingRoundTrips | internal/appfiles/keycloak_init.go:43-54 | Read as a shell word, the quoted text is the original, with nothing outside quotes but escaped quotes |
| ShellQuote.QuotingInjective | internal/appfiles/keycloak_init.go:52-54 | Distinct strings are quoted differently |
| ShellQuote.QuotedWhole | internal/appfiles/keycloak_init.go:43-54 | Text without a quote stands between two quotes as it is, the empty text too |
| ShellQuote.QuotedInParts | internal/appfiles/keycloak_init.go:45-54 | A quote is written as the four bytes that close, escape and reopen, and what follows is quoted by itself |

## Left out

- Bytes and Unicode: `Text.TrimSpace`, `Text.ToLower` and `Text.ToUpper` act on ASCII alone; Go's also trim non-ASCII
  white space and map letters such as the long s, which then reach the secret filter and the duration parser.
- Library code: sorting is modelled by its promise (insertion sort stands in for it), `strings`, `strconv` and
  `regexp` operations by what they return; `time.ParseDuration`, JSON and YAML decoding are parameters or absent.
- SecretRedactor.LongestFirst: for lists in which some value clashes it says of the output that no occurrence in the
  input is left whole, not which placeholders are shown, because a later replacement may then cut one up.
- PullPeriod.ParsePullPeriod: says nothing about Go's own duration form beyond passing it on, because that parser is
  a parameter.
- Directory walks: a finite sequence of keys in walk order; file errors other than a missing directory are absent.
- Floating point: token counts and times are reals, so rounding in the rate limiter is not modelled.
- Clocks, randomness and networks: times and fresh session ids are arguments, `RemoteAddr` parsing is absent, and
  whether a response writer or a channel takes what it is given is an argument.
- SessionTable.ApiAuth.CreateSession: once the table has outgrown its bound, because a mint's clock was a day or more
  behind those of all others, nothing is said of later operations.
- SessionTable.ApiAuth.ValidSession: assumes that its clock, read under the lock, is not behind any that was read
  before.
- CloudConfigLifecycle.TakenDownOnce: that at most one listener is open is the promise of the system that binds the
  port, and part of how the steps are defined.
- CloudConfigLifecycle.KeepsInv: the protocol is modelled on values, one step at a time, so that threads can
  interleave; update in place of the server's fields is not captured, and a Shutdown is one step, without the wait for
  open connections and its five-second limit.
- The cloud config handler: requests, property sources and JSON output.
- FlushWriter.FlushWriter.Write: the copier that calls it, `stdcopy`, is not part of this model, so whether it
  reuses a buffer while bytes are carried is not decided here.
- SseFraming.EventStream.Receive: reads `data: ` lines ended by line feeds only, as the client does; the other fields
  and line ends of the WHATWG HTML standard are absent.
- Which environment keys mark secrets: the harvesting of containers, stores and tokens, and its regular expression.
- HashInput.GetHashInput: SHA-256 of the text, and the fields that the source does not hash (of init containers all
  but the image).
- The ordered map's JSON and YAML forms, and constructing it from a plain map: decoding, or easy.
- The rest of the picker: prompts, hints and the choice of a target.
- ShellQuote.QuotingRoundTrips: a NUL byte, which the comment of the source counts in, cannot be in a shell word.
- Namespaces, workspaces, Docker, TLS, HTTP handlers, storage and the user interface: process plumbing, or code whose
  state is elsewhere.
