# brewmble: a verified model

brewmble keeps machines up to date: a daemon on every machine offers upgrades
and reboots over TLS, and a command-line client finds the daemons, remembers
them in profiles, pins their certificates on first use and asks them for status.
This project models the parts of both programs where something can go wrong
between operations, and proves what they keep.

`dafny verify dfyconfig.toml` checks everything.

## What is modelled

| file | part of the system |
|---|---|
| `Registry.dfy`, `MergeStability.dfy` | a profile's node list and merging discovered daemons into it |
| `Fingerprint.dfy`, `Pins.dfy` | the colon-hex form of a digest, the pin check, storing learned pins |
| `Lookup.dfy`, `Sanitize.dfy` | names typed by a user; the filter displayed names pass |
| `Commands.dfy` | whole runs: each command loads the file, works in memory and may save |
| `ConfigObject.dfy` | the same operations on mutable objects, proved against those meanings |
| `UpgradeProtocol.dfy`, `UpgradeHistory.dfy`, `AppStateObject.dfy` | the daemon's concurrent upgrade and reboot protocol, and its port hunt |
| `StatusFanOut.dfy` | the concurrent workers of `status` |
| `Address.dfy`, `AddressReading.dfy` | target text to URL and back to host and port |
| `PackageListing.dfy` | reading what apt and Homebrew print |
| `RefreshCache.dfy` | the time-to-live of the package index, with and without overlapping calls |
| `Credentials.dfy`, `KeyStoreObject.dfy` | the cluster CA, leaf certificates and the legacy migration, on stores that can fail |
| `PairIntegrity.dfy` | whether a stored certificate and its key belong together, over runs of all of these |

Concurrent parts are step relations: a run is any sequence of events each of
which was possible in its turn, and the results hold for all runs. Operations
that change objects in place are methods whose postconditions equate the new
state with a function of the old one; the lemmas are about these functions.

The environment enters as parameters: the answer of a daemon to a pin check or a
query, the outcome of a save or a store operation, the pair a CA generation
yields, the times a call reads off the clock, how the platform reads IPv6 text.

## Where a promise holds only under a condition

In these places the code does not do what one would hope on every input. The
model keeps the code as it is and proves the exact condition.

- A repeated merge is idle exactly when the discovered list does not contradict
  itself (`MergeStableIffConsistent`). One identifier at two addresses, or one
  address under two identifiers, makes the list report an update again; discovery
  removes only repeated service names, so such a list can come up.
- Pins set on entry are safe in a round of checks exactly when no unpinned node
  of the list shares its address with a pinned node that comes first
  (`PinsStickyIffUnshadowed`): what is learned is stored by address only.
- A shutdown waits for the upgrade that is open exactly when the flag is clear or
  the handler that last won the exchange is also the last to have stored
  (`ShutdownWaitsForOpenIff`). A handler that has not stored yet
  (`UnstoredUpgradeIsLost`) and one that stores late (`LateStoreLosesTheUpgrade`)
  both make it stop while an upgrade is open.
- The upgrading flag can never clear again exactly when an abort hit a task that
  had not run yet (`FlagStuckIff`); `FlagCanStick` gives such a run.
- `addr:port` with one colon in `addr` loses its port exactly when the whole is
  itself an IPv6 address (`ResolveIpv6WithPort`), and a bare IPv6 address is
  taken apart exactly when its last group can pass for a port (`BareIpv6`).
- Resolving a URL again changes nothing exactly when there was something besides
  slashes, perhaps after a scheme, to resolve (`ResolveTwiceIff`).
- Listed names resolve back exactly when nodes shown under one name are equal
  (`ListingResolvesBackIff`).
- A migration loses a credential exactly when the legacy entry is deleted and
  the write that follows fails (`MigrationConservesIff`). The project's README
  promises re-storing without that reservation.
- A stored certificate and the key beside it, the CA's or the client's, can come
  from different generations: `CallMixesIff` says exactly when one call leaves
  them so, and `PairMixedIff` when a whole run does. A migration can do it and
  still report the CA ready (`ReadyMixedIff`, `ReadyCanBeMixed`).
- A re-pin reaches the node that was named exactly when that node is the first at
  its address (`RepinReachesNamedIff`).
- The bound on refreshes holds over every stretch of a run exactly when no refresh
  succeeds within the time to live of one its call did not know of
  (`BoundedIffNeverHasty`); two overlapping calls can refresh at once
  (`OverlapBreaksSpacing`), others do no harm (`OverlapMayBeFine`).

## Model

| member | source | states |
|---|---|---|
| Registry.MergeOneWrites | cli/src/main.rs:207-252 | a discovered daemon is taken for the first node with its identifier, else the first at its address; only that node is written, to the daemon's name and address, keeping its pin if it does not move; one taken for none is appended |
| Registry.MergeWrites | cli/src/main.rs:199-255 | over a whole list a node stays as it was unless a daemon was taken for it, and then has name and address of the last that was |
| Registry.MergeAppends | cli/src/main.rs:244-251 | the list grows by just the daemons taken for none |
| Registry.MergeOneFrame | cli/src/main.rs:207-252 | merging one daemon drops and moves no node, keeps names distinct, and lets a pin survive only at its index with its address |
| Registry.MergeFrame | cli/src/main.rs:199-255 | the same for a whole list, and a false flag means the profile is unchanged |
| Registry.PinLostIffMoved | cli/src/main.rs:227-237 | a pin is cleared by a merge exactly when some step moves its node, even if the node ends where it began; otherwise it is the old pin |
| MergeStability.MergeSettlesAll | cli/src/main.rs:207-252 | after merging a consistent list the first node with each identifier has its address and the first node at each address without identifier is unnamed |
| MergeStability.NotUpdatedIffSettled | cli/src/main.rs:200-254 | the merge returns false exactly when the profile already says all of that |
| MergeStability.ContradictionNeverSettles | cli/src/main.rs:210-223 | a contradictory list merged into an empty profile still reports an update when merged again |
| MergeStability.MergeStableIffConsistent | cli/src/main.rs:199-255 | a second merge of the same list changes nothing and returns false, for every starting profile, exactly when the list is consistent |
| MergeStability.DistinctIsConsistent | cli/src/main.rs:207-223 | a list whose addresses are distinct and whose non-empty identifiers are distinct is consistent |
| Fingerprint.DigestShape | cli/src/pin.rs:222-228 | the text of n bytes has 3n - 1 characters, colons at every third place only, and no capital letter |
| Fingerprint.ReadBackDigest | cli/src/pin.rs:222-228 | the text, in any ASCII case, reads back as its bytes |
| Fingerprint.SameTextSameDigest | cli/src/ca.rs:404-409 | two digests have equal texts, up to ASCII case, exactly when they are equal; the CA listing and the pin check use the one form |
| Fingerprint.EqIgnoreAsciiCaseIff | cli/src/pin.rs:251 | two texts are equal up to ASCII case exactly if they are letter by letter the same or the same letter in two cases |
| Pins.CheckPinMeans | cli/src/pin.rs:240-265 | a contact that fails is an error with its cause; else an unpinned node learns what was shown, and a pinned one is matched exactly by its pin in any ASCII case, or else mismatched with the pin expected and what was shown observed |
| Pins.MatchedIffSameDigest | cli/src/pin.rs:240-265 | a pin stored in that form is matched exactly by a certificate with the same digest |
| Pins.FetchFingerprint | cli/src/pin.rs:131-140 | addresses are tried in order, the first success decides, else the last error stands |
| Pins.ValidatePointwise | cli/src/main.rs:162-179 | a round of checks changes only pins, only of the first node at an address, to the last fingerprint learned there; nothing learned, nothing changed |
| Pins.LastLearnedMeans | cli/src/main.rs:162-179 | what was learned last for an address is the answer to the last check of an unpinned listed node there that was answered |
| Pins.UnshadowedKeepsPins | cli/src/main.rs:162-179 | without a shadowed pin every pin set on entry is kept and only unpinned nodes are written |
| Pins.PinsStickyIffUnshadowed | cli/src/main.rs:153-179 | no answers of the daemons can change a pin set on entry exactly when no unpinned listed node shares its address with a pinned node before it |
| Pins.SnapshotOfDistinctIsUnshadowed | cli/src/main.rs:1578-1616 | with distinct addresses a snapshot of the profile, repeats allowed, is never shadowed |
| Lookup.ResolveAnswers | cli/src/main.rs:1931-1958 | without requests a lookup answers all nodes; else it fails exactly when some request is no display name, naming the first such request, and otherwise each request gets the first node shown under it |
| Lookup.ListingResolvesBackIff | cli/src/main.rs:2039-2044 | the full listing resolves back to the profile, in order, exactly when nodes shown under one name are equal |
| Sanitize.SanitizeDisplay | cli/src/sanitize.rs:1-8 | the result has no control characters, every other character as often as before, and clean text is unchanged |
| Sanitize.SanitizeConcat | cli/src/sanitize.rs:1-8 | sanitizing works piece by piece, so order is kept |
| Sanitize.CleanNodeId | cli/src/main.rs:1472-1474 | one leading `id=` is stripped and nothing else |
| Commands.LoadedIsNormal | cli/src/main.rs:112-145 | a loaded configuration has no legacy list, an existing active profile and clean names |
| Commands.LoadOfNormal | cli/src/main.rs:112-151 | loading what was saved changes nothing |
| Commands.LoadConservesNodes | cli/src/main.rs:119-142 | loading keeps every node in place but for its sanitized name, the legacy list after the old default nodes, adds no other profile, and is idempotent through save and load |
| Commands.LoadedNode | cli/src/main.rs:128-135 | a loaded node has its address and pin, and its name without control characters |
| Commands.LoadedFromNothing | cli/src/main.rs:112-115 | without a file there is the default profile, active and empty |
| Commands.RunKeepsNormal | cli/src/main.rs:483-532 | every command keeps the active profile present, names clean and the default profile; one that asks for no save, re-pinning aside, leaves memory unchanged |
| Commands.RunsStayNormal | cli/src/main.rs:483-532 | the same over whole runs with failing saves; the file is untouched or loads as it was saved |
| Commands.SavedAsInMemory | cli/src/main.rs:147-151 | what a save that goes through leaves in the file loads as what the command left in memory; without it the file stays |
| Commands.ProfilesStay | cli/src/main.rs:483-532 | only creating adds a profile and only deleting removes one; other profiles than the active one keep their nodes, and only switching changes which one is active |
| Commands.ProfileCommandsDo | cli/src/main.rs:498-532 | when switching, creating and deleting succeed, and that they then do just that and else change and save nothing |
| Commands.WhichSucceed | cli/src/main.rs:1942-1976 | re-pinning succeeds exactly with a node of that name and an answer, an action on nodes exactly if all its names are display names |
| Commands.DiscoverMerges | cli/src/main.rs:726-734 | discovery merges the found daemons, identifiers stripped of `id=` and then sanitized, into the active profile and saves exactly if some step changed it |
| Commands.PinListMeans | cli/src/main.rs:1519-1524 | `version` and an action without names check all nodes of the active profile in order, one with names those it names, or none if one is unknown |
| Commands.LearnedIsStored | cli/src/main.rs:153-179 | `version`, `status` and actions on nodes give the first node at an address the fingerprint that the last unpinned node checked there was shown, change nothing else, and save exactly if something was shown |
| Commands.LearnedIsSaved | cli/src/main.rs:1609-1616 | and so it is in the file after a save that goes through |
| Commands.RunPins | cli/src/main.rs:1522-1530 | one command, successful or not, leaves in memory only pins it found with their address or observed at their address |
| Commands.ObservedWasShown | cli/src/main.rs:153-179 | what counts as learned was the answer of a daemon asked at just that address |
| Commands.PinProvenance | cli/src/main.rs:153-179 | after any run, with any failures, a stored fingerprint was in the first file with its address or was learned at exactly that address |
| Commands.PinsLostOnlyBy | cli/src/main.rs:1962-2007 | a command can drop or replace a pin only by re-pinning that node, moving it in a merge, deleting its profile or checking a shadowing node |
| Commands.PinSurvivesRun | cli/src/main.rs:162-179 | over any run a pin stays with its node unless a command of that kind occurs |
| Commands.DistinctPinSurvivesRun | cli/src/main.rs:162-179 | if every command finds the active addresses distinct, a pin stays until its node is re-pinned or moved or its profile deleted |
| Commands.RepinnedIsOneWrite | cli/src/main.rs:1975-2000 | the two clearing writes and the final one of a re-pin come to one write to one node |
| Commands.RepinEffect | cli/src/main.rs:1962-2007 | a re-pin changes the file only if the daemon answered and the save went through, and then one pin only; a failed one leaves the file as it was |
| Commands.RepinReachesNamedIff | cli/src/main.rs:1962-2007 | a successful re-pin gives the named node the new pin if it is the first at its address and leaves it as it was if not |
| Commands.PinListIsSnapshot | cli/src/main.rs:1578-1613 | the nodes whose pins a command checks come from the active profile |
| Commands.StatusChecksWhatItContacts | cli/src/main.rs:1585-1613 | `status` checks the pins of exactly the profile's nodes at the addresses it starts with, and which these are |
| Commands.StatusStartsWith | cli/src/main.rs:1585-1599 | `status` starts with the addresses of the nodes its targets call by name or address, with a target itself if it calls none, or without targets with all of the profile's unless it is to discover them |
| Commands.StatusListKeepsOrder | cli/src/main.rs:1601-1613 | the checked nodes are those of the profile at these addresses, in its order |
| Commands.DiscoverAgainIsIdle | cli/src/main.rs:726-734 | discovering the same consistent daemons again leaves the file as it is, through save and load |
| Commands.ProfileRoundTrips | cli/src/main.rs:498-532 | creating and deleting a profile undo each other, and so do switching to one and back |
| ConfigObject.Config.Normalise | cli/src/main.rs:119-142 | the loading loops over profiles and nodes yield the loaded configuration |
| ConfigObject.Config.MergeNodes | cli/src/main.rs:199-255 | the merging loop yields the merged profile, leaves other profiles alone and returns whether a step changed something |
| ConfigObject.Config.MergeEntry | cli/src/main.rs:207-252 | one daemon: match by name, then by address, else append; address change clears the pin; the flag tells whether the profile changed |
| ConfigObject.Config.UpdateNodeFingerprint | cli/src/main.rs:153-160 | the first node of the active profile at the address gets the pin |
| ConfigObject.Config.ValidateAndUpdatePins | cli/src/main.rs:162-179 | the loop of checks stores what was learned and returns whether anything was |
| ConfigObject.Config.ResolveProfileNodes | cli/src/main.rs:1931-1959 | the lookup loop yields the resolved nodes or the first unknown request |
| ConfigObject.RunRepin | cli/src/main.rs:1962-2008 | clear, ask, store and save, with memory, file and answer as the run model says; a match is impossible after clearing |
| ConfigObject.RunProfile | cli/src/main.rs:483-532 | switching, creating and deleting profiles, with memory, file and answer as the run model says |
| ConfigObject.RunDiscover | cli/src/main.rs:726-734 | merging what was discovered and saving, with memory, file and answer as the run model says |
| ConfigObject.RunVersion | cli/src/main.rs:1513-1560 | the pin checks of `version`, likewise |
| ConfigObject.RunStatus | cli/src/main.rs:1578-1616 | the loops over targets and nodes of `status` and its pin checks, likewise |
| ConfigObject.RunNode | cli/src/main.rs:2029-2049 | the lookup and the pin checks of an action on nodes, likewise |
| UpgradeProtocol.RunsKeepInv | daemon/src/main.rs:451-525 | tickets belong to the handlers that won them, only the newest can be open, and notes of flag checks are true, in every reachable state |
| UpgradeProtocol.AtMostOneUpgrade | daemon/src/main.rs:177-189 | at most one accepted upgrade is open, the flag is set exactly when one is, and its handler holds the token exactly until the task exists |
| UpgradeProtocol.ClaimsAreConserved | daemon/src/main.rs:491-513 | successful exchanges equal ended upgrades plus one if the flag is set, in every run |
| UpgradeProtocol.AnswersAreHonest | daemon/src/main.rs:491-525 | each "triggered" answer has its own exchange, won by the handler that answers |
| UpgradeHistory.HandlersAreExplained | daemon/src/main.rs:451-525 | in every run a request is answered only by what became of that request: a dry run by a dry run, "already upgrading" after an exchange that failed while an upgrade was open, "triggered" after one that won while none was and a stored handle |
| UpgradeHistory.RebootAnswersFollowTheCheck | daemon/src/main.rs:588-617 | a reboot is triggered or forbidden only to a handler that looked at the flag when no accepted upgrade was open, and locked only to one that looked when one was |
| UpgradeHistory.CanBeAnswered | daemon/src/main.rs:451-525 | from every reachable state but a draining shutdown every request can be answered by steps of its own handler |
| UpgradeHistory.TasksAreExplained | daemon/src/main.rs:505-513 | every task was spawned by the winner of its ticket, then guarded, begun and ended as it did, or aborted with its guard or before there was one, in this order |
| UpgradeHistory.PhaseIsExplained | daemon/src/main.rs:360-373 | a shutdown that found a handle waits for it until that is drained or given up; one that found none stops at once |
| UpgradeHistory.OrdinaryShutdown | daemon/src/main.rs:360-373 | some run ends with an upgrade done and drained after its request was answered |
| UpgradeProtocol.ExchangesAreHonest | daemon/src/main.rs:491-503 | the exchange succeeds only when no accepted upgrade is open and fails only when one is |
| UpgradeProtocol.SettingsAreRespected | daemon/src/main.rs:455-466 | without a package manager requests are only refused and nothing is accepted; reboots are triggered or forbidden as configured |
| UpgradeProtocol.FlagStuckIff | daemon/src/main.rs:360-373 | the flag stays set however a run goes on exactly when the run aborted a task that had not run yet; otherwise what is open can still end |
| UpgradeProtocol.FlagCanStick | daemon/src/main.rs:505-513 | a shutdown right after an accepted request can leave the flag set for good |
| UpgradeProtocol.DryRunsAreInvisible | daemon/src/main.rs:468-489 | striking all dry runs from a run leaves flag, tickets, tasks, handle and phase as they were |
| UpgradeProtocol.TracksIffNeverOverwrites | daemon/src/main.rs:515-517 | while serving, the slot names the newest of the upgrades whose handles were stored, all along a run, exactly when no handle is stored after that of a newer upgrade |
| UpgradeProtocol.OrderlyRunsTrack | daemon/src/main.rs:505-517 | it does so in every run in which handles are stored before the next exchange succeeds |
| UpgradeProtocol.ShutdownWaitsForOpenIff | daemon/src/main.rs:360-373 | a shutdown of any serving run waits for whatever is open exactly when the flag is clear or the last to win the exchange is the last to have stored its handle |
| UpgradeProtocol.OrderlyShutdownWaits | daemon/src/main.rs:505-517 | so it does in runs in which handles are stored before the next exchange succeeds, once the newest is stored |
| UpgradeProtocol.ShutdownLeavesNothingOpenIff | daemon/src/main.rs:360-373 | when such a shutdown has stopped waiting, however the run went on, all upgrades accepted before it are over exactly unless its abort hit a task that had not run yet |
| UpgradeProtocol.UnstoredUpgradeIsLost | daemon/src/main.rs:505-517 | a run without late stores in which shutdown finds no handle and stops while an upgrade is open |
| UpgradeProtocol.LateStoreLosesTheUpgrade | daemon/src/main.rs:505-517 | a run with a late store in which shutdown waits for an upgrade that is over while a newer one is open |
| AppStateObject.AppState.CompareExchange | daemon/src/main.rs:491-503 | the atomic exchange is a step of the protocol and wins exactly when no accepted upgrade is open |
| AppStateObject.AppState.SpawnTask | daemon/src/main.rs:505-513 | spawning the task is a step of the protocol |
| AppStateObject.AppState.NewGuard | daemon/src/main.rs:177-183 | making the guard is a step of the protocol that finds the flag set |
| AppStateObject.AppState.StoreHandle | daemon/src/main.rs:515-517 | storing the handle is a step of the protocol |
| AppStateObject.AppState.CheckNotUpgrading | daemon/src/main.rs:588-595 | the reboot handler's check is a step of the protocol and is clear exactly when no accepted upgrade is open |
| AppStateObject.AppState.DropGuard | daemon/src/main.rs:185-189 | dropping the guard is a step of the protocol after which nothing is open |
| AppStateObject.AppState.TakeHandle | daemon/src/main.rs:360-363 | taking the handle at shutdown is a step of the protocol |
| AppStateObject.HuntPort | daemon/src/main.rs:255-274 | the first free port from 4712 on is found, or none up to 65535 is free |
| StatusFanOut.ProgressIsBounded | cli/src/main.rs:1675-1726 | progress never exceeds its length and is full exactly when every worker is done |
| StatusFanOut.OneReportPerAddress | cli/src/main.rs:1675-1726 | at the end there is one report for each distinct address, under the winning target's name, the failure flag is up exactly if a report failed, none is both failed and outdated, and progress is full |
| StatusFanOut.ReportsSayWhatWasFound | cli/src/main.rs:1696-1722 | every report says what its own worker's query found |
| StatusFanOut.EveryTargetGetsAWorker | cli/src/main.rs:1676-1688 | every target received is given to a worker, in order |
| StatusFanOut.CanComplete | cli/src/main.rs:1675-1726 | every run can be continued to its completion: no worker waits for another |
| Address.ResolveIpv6WithPort | cli/src/main.rs:1885-1926 | for an unbracketed address with colons, `addr:port` becomes `https://[addr]:port` exactly if there are two colons or the whole is no IPv6 address |
| Address.Ipv6RoundTrip | cli/src/pin.rs:93-98 | with two colons or more, the URL reads back as the address and port, for every port |
| Address.ResolveBracketed | cli/src/main.rs:1890-1922 | `[addr]:port` keeps its brackets and port; IPv6 text in it is printed as the platform prints it |
| Address.TrimEnd | cli/src/main.rs:1888-1889 | exactly the trailing characters are cut off, here slashes of a URL |
| Address.HostRoundTrip | cli/src/pin.rs:202-220 | a host without colon, slash or bracket and a port resolve to a URL that reads back as both |
| Address.ResolvePlainHost | cli/src/main.rs:1885-1926 | such a host, IPv4 or not, keeps its text in the URL |
| Address.PrintIpv4IsText | cli/src/main.rs:1890-1894 | an IPv4 text is its own print |
| Address.BareIpv6 | cli/src/main.rs:1895-1909 | a bare IPv6 address becomes `https://[addr]` exactly when its last group cannot pass for a port |
| Address.LastGroupTakenForPort | cli/src/main.rs:1901-1906 | otherwise the last group is taken for the port |
| Address.BareIpv6Mistaken | cli/src/main.rs:1896-1906 | for instance in 2001:db8::1 |
| AddressReading.ResolveScheme | cli/src/main.rs:1888-1889 | a target with a scheme is kept but for the slashes at its end |
| AddressReading.ResolveTwiceIff | cli/src/main.rs:1885-1929 | resolving a resolved URL again changes nothing exactly if there was something but slashes to resolve |
| AddressReading.HostWithoutPort | cli/src/main.rs:1926-1928 | a host without port, slashes after it or not, becomes `https://host`, which reads back with port 443 |
| AddressReading.HostPortSlashes | cli/src/main.rs:1926-1928 | slashes after a port are cut off |
| AddressReading.ResolvePaddedV4 | cli/src/main.rs:1890-1894 | the port of an IPv4 address loses its leading zeros |
| AddressReading.ResolveAnyPort | cli/src/main.rs:1912-1925 | that of a host name is kept as written, whatever its digits |
| AddressReading.Ipv4Iff | cli/src/main.rs:1890-1894 | IPv4 texts are exactly the prints of four numbers up to 255 |
| AddressReading.PortTexts | cli/src/pin.rs:213-219 | a text is read as a port exactly if it is the print of one up to 65535, perhaps after a plus sign and zeros |
| AddressReading.BareIpv6ReadsBack | cli/src/pin.rs:207-215 | a bracketed address without port reads back with port 443 |
| AddressReading.ReadMeans | cli/src/pin.rs:202-220 | what is read is what the URL says: a host in brackets or without colon, and the port after it or 443 |
| AddressReading.OnlyHttpsIsRead | cli/src/pin.rs:203-205 | exactly the URLs of another scheme are refused for that |
| AddressReading.BadBracketsIff | cli/src/pin.rs:207-212 | an opened bracket is refused exactly if nothing closes it before a colon or at the end |
| PackageListing.ParseJoined | daemon/src/package_manager/apt.rs:148-153 | parsing distributes over joining two outputs with a newline |
| PackageListing.ListingRoundTrip | daemon/src/package_manager/apt.rs:148-153 | printing upgrades, with any text after the name such as old and new versions, among any other lines and parsing yields their packages in order |
| PackageListing.LinesReadBack | daemon/src/package_manager/brew.rs:136-140 | lines read back without their ends, of either kind, the last one ended or not |
| PackageListing.OutdatedRoundTrip | daemon/src/package_manager/brew.rs:136-140 | Homebrew's listing reads back, empty lines left out |
| RefreshCache.RefreshesAreSpaced | daemon/src/package_manager/apt.rs:91-129 | in every run stamps never decrease, a refresh is at least the time to live after each refresh its call knew of, and a skip follows a success younger than that |
| RefreshCache.StampsAreDoneTimes | daemon/src/package_manager/apt.rs:101-122 | in every run the stamps are the times of the refreshes that succeeded, and only of those |
| RefreshCache.CallsAreExplained | daemon/src/package_manager/apt.rs:91-129 | a call ends once, with a success or a failure, and only after its check; a skipped one has no refresh |
| RefreshCache.BoundedIffNeverHasty | daemon/src/package_manager/apt.rs:91-129 | in every run, overlapping calls included, n successive refreshes span at least n - 1 times the time to live over every stretch exactly when none succeeds too soon after one its call did not know of |
| RefreshCache.InformedRefreshBound | daemon/src/package_manager/apt.rs:91-129 | so the bound holds if every refresh that succeeds knew of the one before it |
| RefreshCache.SequentialRefreshBound | daemon/src/package_manager/apt.rs:91-129 | calls that do not overlap know that, and obey the bound |
| RefreshCache.OverlapBreaksSpacing | daemon/src/package_manager/brew.rs:92-121 | overlapping calls can refresh at once |
| RefreshCache.OverlapMayBeFine | daemon/src/package_manager/brew.rs:92-121 | overlapping alone breaks nothing |
| RefreshCache.PackageIndex.GetUpdates | daemon/src/package_manager/apt.rs:91-157 | one call: refresh only when due, stamp only on success, answer what apt's or Homebrew's listing says, or which step failed |
| RefreshCache.PackageIndex.RefreshBound | daemon/src/package_manager/brew.rs:92-121 | the bound as an invariant of the object |
| RefreshCache.RunBrew | daemon/src/package_manager/brew.rs:37-49 | the first of three paths that starts answers, else the last error stands |
| PairIntegrity.CallMixesIff | cli/src/main.rs:553-567 | from any stores, a call to ensure, issue, init or migrate leaves a certificate with the key of another generation exactly when a new certificate is stored beside an old key (after a CA was half deleted, or for a client), a migration brings together what does not belong together, or they were so before and are neither deleted nor both replaced |
| PairIntegrity.PairMixedIff | cli/src/ca.rs:296-327 | over any run of these calls the stored pair, of the CA or of the client, is mixed at the end exactly when it was so at first or some call mixed it, and none has ended that since |
| PairIntegrity.CarefulRunsStaySound | cli/src/ca.rs:296-327 | from a sound store, the empty one included, whatever fails, the pair is of one generation after every run without migrations or a forced deletion that spares the key |
| PairIntegrity.CompletePairStays | cli/src/ca.rs:296-327 | once complete, the pair changes only by a forced re-creation, not by migrations either |
| PairIntegrity.ReadyMixedIff | cli/src/ca.rs:131-143 | a migration that reports the CA ready leaves a mixed pair exactly when the values in effect for the two accounts did not belong together |
| PairIntegrity.ReadyCanBeMixed | cli/src/ca.rs:149-193 | a CA creation that stores its certificate only, then a migration that finds an old key, reports ready with a mixed pair |
| Credentials.EnsureAnswersStored | cli/src/ca.rs:296-307 | an answered CA is the stored one, and there is an answer exactly when nothing needed failed |
| Credentials.EnsureStores | cli/src/ca.rs:296-307 | entries change only by a pair generated because a half was missing, the certificate first and the key only after it |
| Credentials.InitRefusesIff | cli/src/main.rs:556-558 | `ca init` without `--force` refuses exactly if a certificate is there and readable, and then changes nothing |
| Credentials.ForcedInitRenews | cli/src/main.rs:559-563 | with it both entries are deleted as far as possible, and a pair is generated and answered if nothing fails |
| Credentials.IssueLeafStores | cli/src/ca.rs:313-327 | a client certificate answered is stored with its key, a daemon's leaves the stored one alone, and certificate and key part exactly if only the last write fails |
| Credentials.IssueLeafWrites | cli/src/ca.rs:313-327 | the CA is as ensuring leaves it; a client's certificate and then its key are stored, a daemon's not; the answer is the leaf or the first thing that failed |
| Credentials.MigrationMoves | cli/src/ca.rs:162-193 | an account missing in the new store moves there from the legacy one, deleted first and written after; nothing else changes, in a dry run nothing at all |
| Credentials.MigrationReports | cli/src/ca.rs:162-193 | when each status is reported, and which step a failure names |
| Credentials.MigratePointwise | cli/src/ca.rs:149-160 | accounts are migrated independently |
| Credentials.MigrationConservesIff | cli/src/ca.rs:162-193 | every effective value is kept exactly when no account is caught between deletion and writing; the new store is never overwritten |
| Credentials.MigrationSettles | cli/src/ca.rs:149-193 | if nothing fails the dry run writes nothing and reports the same, and a second run reports what was migrated as present, the rest as before, and writes nothing |
| Credentials.CaReadyMeans | cli/src/ca.rs:131-143 | a report that is ready means both CA entries are stored; if nothing fails it is ready exactly when both were found without conflict |
| KeyStoreObject.EnsureCaWithStore | cli/src/ca.rs:296-307 | the steps on the store yield the entries and the answer of the model |
| KeyStoreObject.InitCaWithStore | cli/src/main.rs:553-567 | likewise for creating the CA, forced or not |
| KeyStoreObject.IssueLeafWithStore | cli/src/ca.rs:313-327 | likewise for issuing a leaf certificate |
| KeyStoreObject.MigrateOne | cli/src/ca.rs:162-193 | likewise for one account |
| KeyStoreObject.MigrateCaWithStores | cli/src/ca.rs:149-160 | likewise for the loop over the accounts |

## Left out

- TLS, certificates, SHA-256: digests are byte sequences, a CA generation an
  arbitrary pair, a contacted daemon an arbitrary answer.
- mDNS, HTTP, routing, YAML, the keyring, subprocesses and the editor: their
  results are parameters. Saving and loading YAML is the identity, and a file
  that cannot be parsed ends the client before any command.
- Failing to build the HTTP client ends `version`, `status` and `node` early.
  `version` builds it first, so its file stays as it is; `status` and `node`
  build it after the checked pins are saved, so theirs is as modelled.
- Edits of the file by hand or through `profile edit` during a run: they start a
  new run with the edited file.
- Reading IPv6 text: how the platform reads it is a parameter. Only its having
  two colons and no bracket is used (section 2.2 of RFC 4291), and only where a
  member says so.
- PairIntegrity.CallMixesIff: assumes that a generated certificate is in no known
  pair and a generated key is not the stored one; so does PairMixedIff.
- PairMixedIff: edits of the keyring by other programs start a new run.
- A poisoned lock around the upgrade handle, which would skip storing it, and
  the cancellation of a waiting dry run.
- What a package manager goes on doing after its task was aborted: the flag tells
  about accepted upgrades, and an aborted one is over, although the command it
  started on another thread runs on.
- That a reboot never overlaps an upgrade: the flag is checked once, before any
  delay, and only the moment of the check is claimed.
- The shared certificate slot of the fetching threads and their timeouts:
  trying the addresses is modelled as a sequence of independent answers.
- The validation of the daemon's own configuration, progress display, tables and
  argument parsing: each claim is settled by one branch.
- Fairness and liveness: runs may stop anywhere.
