# nsl, modelled and proved in Dafny

`nsl` gives local development servers stable names: a command line tool registers routes (hostname, path prefix, port)
in one shared `routes.json`, and a proxy forwards each request to the route it fits. This project models the parts of it
that have to be right for that to work, and proves what they promise, over all inputs and all runs:

- the route registry (`Routes`), the lock that is a directory (`LockDirectory`), and the protocol by which any number of
  processes edit the registry under it (`LockProtocol`);
- path prefixes (`PathPrefix`), hostnames across domain suffixes (`HostNames`), the choice of a route (`Routing`), and
  the way from a typed name to printed addresses and back to the route (`Naming`, `Reachability`, `Labels`);
- printers against the readers of other programs: the shell command line (`ShellWords`), the raw upgrade request
  (`UpgradeRequest`), the block inside the hosts file (`HostsFile`); and a reader fed in pieces (`UpgradeReader`);
- the startup of the proxy by any number of commands (`StartupLock`), its route cache among writers (`RoutePoller`), its
  hop counter (`HopGuard`), its certificate cache (`SniCache`), the static server's redirects as a browser resolves them
  (`Redirects`), and the termination of a process tree (`ProcessTree`).

Each module models one component, in the form its code has: loops and updates are methods and classes, proved against
functions whose properties are then lemmas. `Text` holds the string operations they share. `dafny verify
dfyconfig.toml` checks everything.

## How to read the model

- Strings are sequences of characters; where the code measures bytes, so does the model (`Text.Utf8Len`), and the bytes
  of a network stream are numbers below 256. Upgrade requests are text because every part of them is.
- What the program cannot know is a parameter: which processes are alive at each look, whether a kill succeeds, what
  creating the lock directory answers, what a handshake finds on disk, in which pieces bytes arrive. Unicode
  lower-casing, the label hash and UTF-8 validity are parameters too; the laws assumed of lower-casing are
  the predicates `Naming.AddsOnlySmallLetters`, `Reachability.KeepsDnsText` and `Labels.LowersAscii`.
- `routes.json` is absent, unreadable, or a list of records, and is read whole. Failures to create the state directory
  count as an error of the lock attempt. Removing the lock directory works.
- The lock protocols are step machines with a clock: between any two steps of one process others may run, the clock may
  advance, processes may die. A look at the lock's age and its removal are two steps, and dropping the guard removes
  whatever directory is there by then, as in the code. What the two protocols share is one machine (`LockDirectory`), of
  which every run of either is proved to be a run.
- A client is taken to send the authority of an address as it was printed.

## Where the code does something else than promised

Each is a theorem below, with the exact condition under which the promise holds.

- *A lock is broken after ten seconds whether or not its holder still lives* (crates/nsl/src/routes.rs:279-287), and a
  holder then removes the lock of another when it leaves (303-306). Mutual exclusion under cover of the lock lasts through
  exactly those runs in which no held lock is broken. Two things let that happen: a holder that stays inside for too long
  (`StaleBreakLosesUpdate` loses a committed route that way), and a holder that crashes, after which two breakers can
  collide without anybody ever staying too long (`CrashLetsTwoIn`). Without either, no lock goes stale (`FreshExactly`).
- *A prefix that ends in two slashes is normalized only halfway* (crates/nsl/src/routes.rs:62-72), so it can enter the
  registry beside a route with the same key. A live record is then safe exactly if the first live one with its key
  belongs to the same process.
- *Hosts are stripped of the first configured domain that fits* (crates/nsl/src/proxy/handler.rs:48-58), so cross-domain
  matching is by name alone, and every printed address leads back to its route, exactly when no domain is a dot-suffix of
  another. With "localhost" and "dev.localhost", which a configured "dev.localhost" gives
  (crates/nsl/src/config/mod.rs:306-312), the second address printed for any plain name but "dev" leads nowhere.
- *The hop limit does not work* (crates/nsl/src/proxy/handler.rs:143,169-170). README.md:443 of the repository promises
  a 508 page once the count exceeds the limit. The new count is appended after the old one and the first one is read, so
  the count stays 1 and, for a client that sends none of its own, a loop is never detected under the default limit of 5.
  With the count replaced it would be.
- *A response head may be longer than the limit of 65536 bytes*, depending on how it is cut
  (crates/nsl/src/proxy/websocket.rs:200-209): up to 65537 bytes it is always read, above 69632 never, and in between
  the pieces decide.
- *A line of the hosts file that ends in two carriage returns loses one of them at every pass*
  (crates/nsl/src/hosts/mod.rs:37,51,116), so an earlier sync leaves a trace when a line that is not blank follows, as in
  "x\r\r\ny". Ordinary CRLF line ends are harmless. An unclosed block swallows the rest of the file (45-49).
- *Hyphens, letters, colons and equals signs are not quoted* (crates/nsl/src/run/mod.rs:94-96), so a first argument without
  anything to quote is not always run: `sh -c` takes a line that begins with a hyphen for options (33-39, 290-296), the
  shell takes a reserved word or an assignment for syntax, and for "function", "select", a name followed by a colon and
  words like "a-b=c" the standard leaves open what happens.
- *A redirect to the slashed form of a directory is meant to stay right under a mount*
  (crates/nsl/src/serve/mod.rs:265-289). It does unless the address carries a query, which is then taken for the last
  segment or the other way round, or the directory's name has a colon in it.
- *The poller watches the file and not the processes* (crates/nsl/src/proxy/server.rs:89-98), so the route of a process
  that has died is still served until the next write.
- *Certificates for `x-key` are stored where `x` keeps its key* (crates/nsl/src/certs/sni.rs:118-119).

## Model

| member | source | states |
|---|---|---|
| `Routes.NormalizePathPrefix` | crates/nsl/src/routes.rs:62-72 | the in-place edits amount to `Normalize`, whose laws are the rows below and in `PathPrefix` |
| `Routes.NormalizeIdempotentExactly` | crates/nsl/src/routes.rs:60-72 | normalizing again changes nothing, except exactly for inputs that end in two slashes and are not just "//" |
| `Routes.NormalizeMeans` | crates/nsl/src/routes.rs:60-72 | a body without slashes at its ends is written with the first and without the last slash, whichever of the two it came with |
| `Routes.LiveOnlyMembers` | crates/nsl/src/routes.rs:113-118 | loading keeps exactly the records of live processes and static ones, in file order |
| `Routes.RetainMembers` | crates/nsl/src/routes.rs:193-195 | an edit's filter drops exactly the records it is meant to and keeps the order of the others |
| `Routes.TransactKeepsTheRest` | crates/nsl/src/routes.rs:160-206 | a committed operation keeps, in order, exactly the live records under other keys, and an added record comes last |
| `Routes.TransactKeepsKeysUniqueExactly` | crates/nsl/src/routes.rs:193-204 | keys stay unique, unless a half-normalized added prefix meets a kept record with the key it will be read under |
| `Routes.LiveRouteKeptUnlessDisplaced` | crates/nsl/src/routes.rs:162-204 | a live route that holds its key loses it exactly to its own process, a forced add or a matching removal; else the whole record still holds it |
| `Routes.SecureExactly` | crates/nsl/src/routes.rs:162-195 | over all operations: a live record is safe from everybody not entitled to it if and only if the first live record with its key belongs to the same process |
| `Routes.HalfNormalizedAddIsInsecure` | crates/nsl/src/routes.rs:62-72 | an add of "/api//" to a registry of normalized records leaves its own record unsafe |
| `Routes.CleanupSparesReplacement` | crates/nsl/src/routes.rs:235-260 | exit cleanup removes a record exactly if it is under the cleaned name and belongs to the exiting process, so never its replacement |
| `Routes.RouteStore.constructor` | crates/nsl/src/routes.rs:82-90 | a store starts on the file as it is, having signalled nobody |
| `Routes.RouteStore.AcquireLock` | crates/nsl/src/routes.rs:269-295 | the retry loop succeeds exactly if an attempt creates the directory and all before it found one; `LockFailed` exactly if all twenty found one |
| `Routes.RouteStore.LoadRoutes` | crates/nsl/src/routes.rs:105-119 | a missing file is an empty list, an unreadable one an error, and the filtering loop keeps what `LiveOnlyMembers` describes |
| `Routes.RouteStore.SaveRoutes` | crates/nsl/src/routes.rs:262-267 | the file then holds exactly the given list; if the write fails that is reported, and the file holds whatever was left |
| `Routes.RouteStore.AddRouteWithOwner` | crates/nsl/src/routes.rs:145-208 | result, file and killed owner are those of one transaction under the lock; every failure but that of the write leaves the file unchanged, and at most the owner of the conflicting live route is signalled |
| `Routes.UncontestedAddRegisters` | crates/nsl/src/routes.rs:162-207 | an add whose key no living process of anybody else holds reports success, leaves its record last with all that was asked for, and signals nobody |
| `Routes.ContestedAddExactly` | crates/nsl/src/routes.rs:162-207 | against the living process of somebody else it goes through if and only if it is forced and the record is static, or names an owner and the kill worked; otherwise the error says why and the file stays; the owner is signalled if and only if it is forced |
| `Routes.DisplacedExactly` | crates/nsl/src/routes.rs:162-195 | so a living dynamic route is gone from the file if and only if the add was forced, the record names an owner, that owner was signalled and the kill worked |
| `Routes.SignalledOnlyIfForced` | crates/nsl/src/routes.rs:167-190 | nobody is signalled without force, nor anybody but the owner of a living dynamic record of another process |
| `Routes.NothingTouched` | crates/nsl/src/routes.rs:157-160 | without the lock, or on an unreadable file, an operation fails, leaves the file as it is and signals nobody |
| `Routes.RouteStore.RemoveRoute` | crates/nsl/src/routes.rs:215-233 | the same for a removal by hostname, with or without prefix |
| `Routes.RouteStore.RemoveRouteForPid` | crates/nsl/src/routes.rs:235-260 | the same for the removal of one process's records |
| `Routes.RemovalTakesExactly` | crates/nsl/src/routes.rs:215-260 | of the living records a removal leaves exactly those of other hostnames, with a prefix those under others too, and in a cleanup those of other processes |
| `LockDirectory.StepKeepsLockInvExactly` | crates/nsl/src/routes.rs:269-306 | of all steps, crashes and breaker races included, exactly the removal of a lock somebody is inside of ends the discipline: one inside at most, and under cover of the directory |
| `LockDirectory.DisciplineKeptExactly` | crates/nsl/src/routes.rs:269-306 | the discipline holds in every state of a run if and only if no held lock is broken in it |
| `LockDirectory.NeverStaleIsSafe` | crates/nsl/src/routes.rs:279-287 | if the directory never gets older than the threshold, no run contains such a removal |
| `LockDirectory.NeverStaleExactly` | crates/nsl/src/routes.rs:279-306 | as long as nobody crashes inside, it never does if and only if everybody leaves in time |
| `LockDirectory.CrashLetsTwoIn` | crates/nsl/src/routes.rs:279-287 | for every threshold there is a run, without any hold that is too long, in which the lock of a crashed process lets two others in |
| `LockProtocol.RunRefines` | crates/nsl/src/routes.rs:145-307 | every run of the registry protocol is a run of the lock directory's machine, state by state |
| `LockProtocol.MutualExclusionExactly` | crates/nsl/src/routes.rs:269-306 | so from the start the discipline lasts through exactly the runs in which no held lock is broken |
| `LockProtocol.StepKeepsFileInv` | crates/nsl/src/routes.rs:145-260 | every step keeps: the file is the replay of the commits in lock order, and whoever is inside has a snapshot that still describes it |
| `LockProtocol.Serializable` | crates/nsl/src/routes.rs:145-308 | in every run without such a removal: at most one process inside, and the file equals the initial one with the committed operations applied whole, one after another in lock order |
| `LockProtocol.FreshExactly` | crates/nsl/src/routes.rs:279-306 | without a crash inside, the lock stays fresh if and only if everybody leaves within ten seconds |
| `LockProtocol.SerializableWhileFresh` | crates/nsl/src/routes.rs:145-308 | the two together, from the start: no update is lost while no lock goes stale |
| `LockProtocol.FailuresWriteNothing` | crates/nsl/src/routes.rs:157-191 | an operation that leaves the lock or has finished has written, under the lock it held, exactly if it reports success; one that never got the lock reports a failure |
| `LockProtocol.ReachBothInside` | crates/nsl/src/routes.rs:279-287 | a run in which a suspended holder's lock is taken for stale and two processes are inside |
| `LockProtocol.StaleBreakLosesUpdate` | crates/nsl/src/routes.rs:279-306 | from an initial state a run exists in which a committed route is wiped out and the file is no replay of the commits |
| `LockProtocol.StepKeepsProtected` | crates/nsl/src/routes.rs:162-206 | no step but a save by an entitled operation takes a live route's key away |
| `LockProtocol.OwnerKeepsRoute` | crates/nsl/src/routes.rs:162-260 | ownership over whole runs: port, flags and key stay while the process lives and nobody entitled saves |
| `LockProtocol.SaveProtectsExactly` | crates/nsl/src/routes.rs:193-206 | the save of an add starts that protection, unless exactly when another kept record comes first under the key of the added one |
| `LockProtocol.AddedRouteStays` | crates/nsl/src/routes.rs:145-260 | from an initial state: a route added under a prefix that does not end in two slashes stays, from its save on, as long as its process lives and nobody entitled saves |
| `LockProtocol.SecureRouteStays` | crates/nsl/src/routes.rs:162-260 | ownership over whole runs for every record that `Routes.SecureExactly` proves safe, also behind one of its own process, if in addition no dead process with its key comes back |
| `PathPrefix.NormalizedShape` | crates/nsl/src/routes.rs:60-72 | normalized prefixes are exactly those that start with a slash and, unless "/", do not end in one |
| `PathPrefix.MatchesBySegments` | crates/nsl/src/proxy/mod.rs:69-78 | the root matches everything, and any other prefix exactly if its segments are the first segments of the path |
| `PathPrefix.MatchingPrefixesNest` | crates/nsl/src/proxy/mod.rs:69-78 | of two normalized prefixes that match one path, the longer is matched by the shorter |
| `PathPrefix.StripIsInvertible` | crates/nsl/src/proxy/mod.rs:82-92 | prefix and stripped path put together are the original path; only the bare prefix becomes "/" |
| `PathPrefix.StripComposes` | crates/nsl/src/proxy/mod.rs:69-92 | matching and stripping one prefix and then another is matching and stripping their concatenation |
| `PathPrefix.ForwardedTargetFaithful` | crates/nsl/src/proxy/handler.rs:104-118 | the upstream reads back the query unchanged and a path from which the original is rebuilt |
| `HostNames.FindDomainSuffix` | crates/nsl/src/proxy/handler.rs:48-58 | the loop answers with the first domain that fits |
| `HostNames.StripsItsDomain` | crates/nsl/src/proxy/handler.rs:48-58 | with suffix-free domains a host under a domain is stripped of that domain, wherever it stands in the list |
| `HostNames.MatchesByName` | crates/nsl/src/proxy/handler.rs:63-79 | with suffix-free domains two hosts match exactly if the names in front of their domains do, whichever the domains |
| `HostNames.OtherHostsMatchExactly` | crates/nsl/src/proxy/handler.rs:63-79 | when one of two hosts is not under a domain, only the same host and its subdomains match |
| `HostNames.InterchangeableExactly` | crates/nsl/src/proxy/handler.rs:48-79 | that law holds for all names and domains if and only if the domains are suffix-free |
| `HostNames.MatchesIsPreorder` | crates/nsl/src/proxy/handler.rs:63-79 | matching is reflexive and transitive on hosts under the configured domains |
| `Routing.FindRoute` | crates/nsl/src/proxy/handler.rs:83-96 | `None` exactly if nothing matches; otherwise the first of the routes with the longest prefix among all that match |
| `Routing.BestIsFirstLongest` | crates/nsl/src/proxy/handler.rs:89-95 | filtering and stable sorting pick that route, by induction over the list |
| `Routing.SortIsStable` | crates/nsl/src/proxy/handler.rs:94 | the sort orders by length and leaves the records of each length untouched, in order |
| `Routing.OrderIrrelevantExactly` | crates/nsl/src/proxy/handler.rs:83-96 | the answer survives every reordering of the list if and only if all longest matches are one record |
| `Routing.OneHostOrderIrrelevant` | crates/nsl/src/proxy/handler.rs:83-96 | with unique keys and normalized prefixes, order does not matter among the routes of one hostname |
| `Naming.NamePathShape` | crates/nsl/src/utils/mod.rs:87-101 | whatever was typed, the name holds no colon and the path starts with a slash |
| `Naming.TypedPathIsKept` | crates/nsl/src/utils/mod.rs:87-101 | what is typed in front of the first colon is the name, what is typed behind it the path with one slash in front, however many were typed; blanks around it do not matter |
| `Naming.TypedNameIsKept` | crates/nsl/src/utils/mod.rs:99 | without a colon it is all name, under the root |
| `Naming.PrefixIsWhatIsLeft` | crates/nsl/src/utils/mod.rs:164-171 | a hostname is cut in front of a domain it ends in, and kept whole if it ends in none |
| `Naming.ParsedHostnameIsRegistrable` | crates/nsl/src/utils/mod.rs:108-171 | an accepted hostname is a non-empty name without doubled dots under a configured domain, and that name is what addresses are built from |
| `Naming.ParsedHostnameIsPlain` | crates/nsl/src/utils/mod.rs:109-133 | an accepted hostname holds no slash and no colon |
| `Naming.HostSurvivesTheAddress` | crates/nsl/src/config/mod.rs:108-116 | the proxy reads the host back out of any printed address, with or without port |
| `Naming.DisplayIsLastLongest` | crates/nsl/src/utils/mod.rs:221-230 | the display entry is the last of those with the longest suffix that covers the host, and none exactly if none does |
| `Naming.PrintedAddressSays` | crates/nsl/src/utils/mod.rs:201-218 | a client that reads the address comes to the proxy's own scheme and port, or to those of that entry |
| `Naming.PrintedHost` | crates/nsl/src/utils/mod.rs:201-230 | the same whichever display entry applies and whether or not the port is the standard one |
| `Naming.MatchesOwnPrefix` | crates/nsl/src/proxy/mod.rs:69-78 | the path a route was registered with matches the prefix that is stored for it |
| `Naming.PrintedAddressMatches` | crates/nsl/src/utils/mod.rs:87-218 | under every configured domain, the host of a printed address matches the hostname it was printed for |
| `Naming.AddedRouteReachable` | crates/nsl/src/proxy/handler.rs:83-96 | after a successful add, a matching host with the route's path finds a route at least as specific |
| `Naming.PrintedAddressReaches` | crates/nsl/src/utils/mod.rs:87-218 | end to end, for everything that can be typed: each address printed for an added route makes the proxy find a route at least as specific |
| `Naming.PrintedAddressReachesThisRoute` | crates/nsl/src/proxy/handler.rs:83-96 | it finds this very route if no other registered hostname matches and the kept prefixes are normalized |
| `Reachability.ParsedIsAccepted` | crates/nsl/src/utils/mod.rs:108-158 | whatever is typed, an accepted hostname passes the checks that `AllMatchExactly` quantifies over |
| `Reachability.AddressIsTypedHost` | crates/nsl/src/utils/mod.rs:109-116 | a pasted address is read as its host, whatever the scheme and the path |
| `Reachability.TypedNameIsQualified` | crates/nsl/src/utils/mod.rs:122-133 | a plain name is put under the first domain, and one under a configured domain stays |
| `Reachability.DomainIsNoName` | crates/nsl/src/utils/mod.rs:138-148 | a domain alone is refused as empty |
| `Reachability.DoubledDotsRefused` | crates/nsl/src/utils/mod.rs:150-155 | a name with two dots in a row is refused, and named |
| `Reachability.AllMatchExactly` | crates/nsl/src/utils/mod.rs:108-194 | for domains without doubled dots: the host printed under every domain matches every accepted hostname if and only if no domain is a dot-suffix of another |
| `Reachability.AddressesLeadBackExactly` | crates/nsl/src/utils/mod.rs:87-230 | the same from the keyboard to the route: with domains in lower-case ASCII, every address printed for whatever is typed makes the proxy find the route if and only if the domains are suffix-free |
| `Reachability.SubdomainUnreachableExactly` | crates/nsl/src/config/mod.rs:306-312 | with the domains `f` and `x.f` in this order, a name without dots is reachable under `x.f` if and only if `x` ends in it |
| `Labels.SanitizedIsLabel` | crates/nsl/src/utils/mod.rs:29-72 | every name becomes a lower-case label of at most 63 letters, digits and single inner hyphens, or nothing |
| `Labels.SanitizeFixesExactlyLabels` | crates/nsl/src/utils/mod.rs:29-72 | exactly such texts are left alone |
| `Labels.SanitizeIsIdempotent` | crates/nsl/src/utils/mod.rs:29-72 | sanitizing twice is sanitizing once, also when the label was cut and hashed |
| `Labels.SanitizedSpellsRuns` | crates/nsl/src/utils/mod.rs:30-71 | the label spells the letter and digit runs of the lower-cased name; if too long, its first 56 characters without final hyphens, a hyphen and six hexadecimal digits that read as the low 24 bits of the hash |
| `ShellWords.ShellReadsBackArguments` | crates/nsl/src/run/mod.rs:49-100 | a POSIX shell (sections 2.2.1, 2.2.2 and 2.3 of the Shell Command Language) that is given the line to execute splits it into exactly the arguments and sees no unquoted special character |
| `ShellWords.OptionsExactly` | crates/nsl/src/run/mod.rs:33-39 | it is given the line, rather than taking it for options, if and only if the first argument does not begin with a hyphen or needs quoting |
| `ShellWords.FirstArgumentIsRunExactly` | crates/nsl/src/run/mod.rs:90-100 | by the text of the first argument alone, and for a quoted one always the last, exactly when the line is taken for options, the argument for syntax, when that is open (sections 2.4 and 2.10.2), and when it is bound to be run |
| `ShellWords.AssignmentIsNotRun` | crates/nsl/src/run/mod.rs:94-97 | "A=b" is an assignment and not run |
| `ShellWords.NameColonIsUnspecified` | crates/nsl/src/run/mod.rs:94-97 | what "build:" does is open |
| `ShellWords.UnnamedAssignmentIsUnspecified` | crates/nsl/src/run/mod.rs:94-97 | so is what "a-b=c" does |
| `ShellWords.HyphenIsOptions` | crates/nsl/src/run/mod.rs:290-296 | a line that begins with "-x" is not read at all |
| `UpgradeReader.ParseStable` | crates/nsl/src/proxy/websocket.rs:104-116 | once the blank line is there, more bytes change nothing about status and head length |
| `UpgradeReader.ParseOfPrefix` | crates/nsl/src/proxy/websocket.rs:104-116 | a prefix of the stream parses exactly if it holds the whole head, and then like the stream |
| `UpgradeReader.PrintedHeadIsRead` | crates/nsl/src/proxy/websocket.rs:104-116 | for every version, code below 65536, reason phrase or none, and header lines: the printed head, with any bytes behind it, is read as its code and its length |
| `UpgradeReader.OtherHeadIsRefused` | crates/nsl/src/proxy/websocket.rs:108-114 | a head is not read whose first line is no UTF-8, holds no space, or has no such number in its second field |
| `UpgradeReader.ReadHead` | crates/nsl/src/proxy/websocket.rs:178-210 | the loop recognises a head exactly if the reads accept one; it is the stream's own; head and extra bytes together are all bytes read; never more than 65536 + 4096 are held |
| `UpgradeReader.RecognisedIsTheStreams` | crates/nsl/src/proxy/websocket.rs:200-202 | what is recognised in a part is what the whole stream says |
| `UpgradeReader.AcceptedExactly` | crates/nsl/src/proxy/websocket.rs:200-209 | a head is recognised if and only if at most 65536 bytes had arrived before the read that completes it |
| `UpgradeReader.HeadLimits` | crates/nsl/src/proxy/websocket.rs:178-210 | for every cut into reads: heads of up to 65537 bytes are always recognised, longer than 69632 never, nor is an unreadable one |
| `UpgradeReader.BetweenTheLimitsTheCutDecides` | crates/nsl/src/proxy/websocket.rs:180-209 | every stream with a head between those lengths is recognised in full buffers and refused byte by byte |
| `UpgradeReader.HeadsOfEveryLength` | crates/nsl/src/proxy/websocket.rs:104-116 | there are readable heads of every length from 12 bytes on, so also between the limits |
| `UpgradeReader.SomeHeadDependsOnTheCut` | crates/nsl/src/proxy/websocket.rs:180-209 | one of 65538 bytes is an answer that passes or fails by how it arrives |
| `UpgradeRequest.BuildRawUpgradeRequest` | crates/nsl/src/proxy/websocket.rs:47-99 | the pieces pushed one after another are the request the next rows are about |
| `UpgradeRequest.PushCopied` | crates/nsl/src/proxy/websocket.rs:59-72 | the copying loop appends exactly the fields that are not skipped, in order |
| `UpgradeRequest.PushAdded` | crates/nsl/src/proxy/websocket.rs:74-96 | then follow the replaced host, each forwarding field the client lacks, and the two of its own |
| `UpgradeRequest.SanitizeIsOneLine` | crates/nsl/src/proxy/websocket.rs:69 | a sent value has no line break, and one that had none is unchanged |
| `UpgradeRequest.SanitizeDropsOnlyBreaks` | crates/nsl/src/proxy/websocket.rs:69 | wherever line breaks stand in a value, exactly they go |
| `UpgradeRequest.RequestLineIsRead` | crates/nsl/src/proxy/websocket.rs:57 | cut at its spaces, the first line is the client's method, the target and the version |
| `UpgradeRequest.AllFieldsSent` | crates/nsl/src/proxy/websocket.rs:59-96 | for every name: the client's fields in order, unless it begins with a colon or is the replaced host, and behind them what the proxy adds under that name |
| `UpgradeRequest.RecipientReadsSentFields` | crates/nsl/src/proxy/websocket.rs:57-98 | a recipient that cuts lines at CRLF and fields at the first colon and space reads the request line and exactly those fields, in order, and no body |
| `UpgradeRequest.HeadEndsOnce` | crates/nsl/src/proxy/websocket.rs:57-98 | the blank line occurs exactly at the end |
| `UpgradeRequest.OriginReplaced` | crates/nsl/src/proxy/websocket.rs:64-76 | with `change_origin` there is one host field, the target's, whatever the client sent |
| `UpgradeRequest.OriginKept` | crates/nsl/src/proxy/websocket.rs:64-76 | without it, the client's own host fields |
| `HostsFile.ExtractManagedBlock` | crates/nsl/src/hosts/mod.rs:11-30 | the loop yields the lines of the first closed block, as `ReadBackExactly` needs them |
| `HostsFile.FirstClosedBlock` | crates/nsl/src/hosts/mod.rs:11-30 | in any file that is what stands between the first start marker and the next end marker; an end marker before every start closes an empty block |
| `HostsFile.UnclosedIsNoBlock` | crates/nsl/src/hosts/mod.rs:28-29 | without an end marker there is none |
| `HostsFile.RemoveBlockFrom` | crates/nsl/src/hosts/mod.rs:33-56 | the loop yields the cleaned text that the next rows describe |
| `HostsFile.LineKeptExactly` | crates/nsl/src/hosts/mod.rs:37-49 | a line is kept exactly if it is no marker and no block is open before it, for stray, repeated and unclosed markers |
| `HostsFile.RemoveBlockIdempotentExactly` | crates/nsl/src/hosts/mod.rs:33-56 | removing twice is removing once if and only if no kept line that is written with a newline itself ends in a carriage return |
| `HostsFile.PlainLineEndsAreHarmless` | crates/nsl/src/hosts/mod.rs:33-125 | where every carriage return stands before a newline, removing is idempotent and the last sync wins, for any lists |
| `HostsFile.DoubledCrLeavesATrace` | crates/nsl/src/hosts/mod.rs:103-125 | for "x\r\r\ny" neither holds, whatever is synced |
| `HostsFile.BuildBlockOf` | crates/nsl/src/hosts/mod.rs:59-71 | the loop prints the markers with one entry a hostname between them, in order |
| `HostsFile.ReadBackExactly` | crates/nsl/src/hosts/mod.rs:82-122 | for every content: reading back after a sync returns the list if and only if all hostnames are non-empty words |
| `HostsFile.SecondWordIsHost` | crates/nsl/src/hosts/mod.rs:87-94 | of any line of a block the second word is the hostname if the first is the address, whatever follows; other lines are passed over |
| `HostsFile.BaseOfSync` | crates/nsl/src/hosts/mod.rs:110-122 | a sync of any one-line names leaves, in front of its block, the earlier front with CRLFs turned into newlines |
| `HostsFile.LastSyncWinsExactly` | crates/nsl/src/hosts/mod.rs:103-125 | syncing two lists is syncing the last, whatever one-line names the first holds, if and only if no kept line that itself ends in a carriage return is followed by one that is not blank |
| `HostsFile.UnmanagedLinesExactly` | crates/nsl/src/hosts/mod.rs:110-122 | the lines outside the block are exactly the kept ones, in their places, but for carriage returns at their ends, blanks at the end of the last and blank lines after it |
| `HostsFile.UnmanagedLinesPreserved` | crates/nsl/src/hosts/mod.rs:110-122 | for every list, the empty one included, each kept line stays in place up to blanks at its end |
| `HostsFile.CleanLeavesNothingManaged` | crates/nsl/src/hosts/mod.rs:128-141 | after a clean there is nothing left to read back |
| `HostsFile.CleanKeepsOtherLines` | crates/nsl/src/hosts/mod.rs:128-141 | every other line stays in place up to blanks at its end, and a file without a block is not touched |
| `RoutePoller.CachePoller.constructor` | crates/nsl/src/proxy/server.rs:84-133 | the cache starts with what the file loads to, or empty |
| `RoutePoller.CachePoller.Poll` | crates/nsl/src/proxy/server.rs:86-100 | a round reloads exactly if the modification time differs, and remembers the time seen before the reload |
| `RoutePoller.StepsAreOnePoll` | crates/nsl/src/proxy/server.rs:89-98 | the machine's look and reload, with any writes in between, are one such round |
| `RoutePoller.RunKeepsCoherent` | crates/nsl/src/proxy/server.rs:81-102 | over every run with fresh modification times and a quiet start, whatever processes each load sees, the cache is a load of a version at least as new as the remembered time |
| `RoutePoller.OneRoundCatchesUp` | crates/nsl/src/proxy/server.rs:81-102 | once the writes stop, one round leaves the cache as a load of the current file: one of now if a change was pending, else the one it had |
| `RoutePoller.RoundIsFreshExactly` | crates/nsl/src/proxy/server.rs:89-98 | that is what loading now would give if and only if a change was pending or every process of a record is as alive as it was at that load |
| `RoutePoller.MissedWriteExactly` | crates/nsl/src/proxy/server.rs:84-133 | a write between the first load and the first look is never noticed by any number of rounds, unless both versions load alike |
| `HopGuard.CopyHeaders` | crates/nsl/src/proxy/handler.rs:136-144 | the copying loop amounts to the filter that `AllValuesArrive` describes name by name |
| `HopGuard.BuildForwardedHeaders` | crates/nsl/src/proxy/handler.rs:131-173 | the builder's steps amount to the header list the next rows are about |
| `HopGuard.AllValuesArrive` | crates/nsl/src/proxy/handler.rs:131-173 | for every name: all the client's values arrive in order, unless it begins with a colon or is the replaced host, and behind them what the proxy adds under that name |
| `HopGuard.UpstreamsHost` | crates/nsl/src/proxy/handler.rs:140-148 | the host is the target's address alone under `change_origin`, and otherwise exactly what the client sent |
| `HopGuard.NoColonArrives` | crates/nsl/src/proxy/handler.rs:137-139 | nothing arrives under a name with a leading colon |
| `HopGuard.FirstCountIsRead` | crates/nsl/src/proxy/handler.rs:34-40 | the count that is read is the number in the first header of its name, and 0 if there is none or it is no number of 32 bits |
| `HopGuard.UpstreamReads` | crates/nsl/src/proxy/handler.rs:131-173 | of any name the upstream reads the client's first header if it was copied, otherwise what the proxy supplies |
| `HopGuard.NextProxyReads` | crates/nsl/src/proxy/handler.rs:34-40 | a count that is already there stays the one that is read |
| `HopGuard.NoHopOverflow` | crates/nsl/src/proxy/handler.rs:169-195 | along a chain of any length no count that is sent passes the limit of one byte, so the 32-bit sum never overflows |
| `HopGuard.LoopDetectedExactly` | crates/nsl/src/proxy/handler.rs:193-201 | a chain of any length is cut exactly if the client sent a high enough count, or it sent none and the limit is 0, or 1 with a second stop |
| `HopGuard.ReplacingCountCutsLoops` | crates/nsl/src/proxy/handler.rs:169-170 | were the count replaced, a chain would be cut exactly if it has more stops than hops remain |
| `ProcessTree.CollectDescendants` | crates/nsl/src/platform/windows.rs:180-187 | on an acyclic snapshot the recursion ends, and what it pushes is what the next rows describe |
| `ProcessTree.DescentEndsExactly` | crates/nsl/src/platform/windows.rs:180-187 | the recursion ends, for some depth of calls, if and only if no chain of parents from the root loops |
| `ProcessTree.CycleMeansUnboundedDescent` | crates/nsl/src/platform/windows.rs:180-187 | with a loop there are chains of any length, along each of which the recursion goes down |
| `ProcessTree.CollectedExactly` | crates/nsl/src/platform/windows.rs:180-187 | exactly the strict descendants are collected |
| `ProcessTree.AncestorsFirst` | crates/nsl/src/platform/windows.rs:180-187 | every process is collected before its own descendants |
| `ProcessTree.CollectedOnce` | crates/nsl/src/platform/windows.rs:180-187 | with unique process ids nothing is collected twice |
| `ProcessTree.TerminateProcessTree` | crates/nsl/src/platform/windows.rs:142-152 | the collected processes in reverse and then the root are asked to stop, whether or not single stops work; only the root counts for the result |
| `ProcessTree.ChildrenStopBeforeParents` | crates/nsl/src/platform/windows.rs:142-152 | that order holds the root and exactly its descendants, each once, every process after all its descendants, the root last |
| `StartupLock.RunRefines` | crates/nsl/src/proxy/daemon.rs:49-77 | every run of the startup protocol is a run of the lock directory's machine, with its own limits |
| `StartupLock.MutualExclusionExactly` | crates/nsl/src/proxy/daemon.rs:27-77 | from the start the lock's discipline lasts through exactly the runs in which no held startup lock is broken, which includes all in which none gets older than fifteen seconds |
| `StartupLock.StepKeepsSpawnInv` | crates/nsl/src/proxy/daemon.rs:152-171 | every step keeps the account: each setback excuses one spawn, and a proxy that answers or is waited for one more |
| `StartupLock.SpawnsAccounted` | crates/nsl/src/proxy/daemon.rs:49-171 | the account holds over every safe run of any number of commands |
| `StartupLock.AtMostOneSpawner` | crates/nsl/src/proxy/daemon.rs:148-171 | from the start, spawned proxies are at most one more than proxies stopped and waits lost, and none if one was running throughout |
| `StartupLock.ReportsAddUp` | crates/nsl/src/proxy/daemon.rs:148-171 | every spawn ends in one report of having started the proxy, in a lost wait, or is still waited for; so at most one more command is told that it started the proxy than proxies were stopped, and until one is, success means that a proxy answers |
| `StartupLock.StaleBreakSpawnsTwice` | crates/nsl/src/proxy/daemon.rs:62-66 | with a suspended lock holder there is a run with two spawns and no setback |
| `Redirects.Response.RelativizeLocation` | crates/nsl/src/serve/mod.rs:271-289 | the header of an absolute redirect becomes the reference the next rows resolve; any other stays |
| `Redirects.ListingRedirectsAlike` | crates/nsl/src/serve/mod.rs:244-247 | the listing's redirect is the same reference |
| `Redirects.DotSegmentsShorten` | crates/nsl/src/serve/mod.rs:265-270 | the client's removal of dot segments (section 5.2.4 of RFC 3986) leaves an absolute path alone exactly if it has none |
| `Redirects.SlashRedirectExactly` | crates/nsl/src/serve/mod.rs:265-289 | without a query, below any mount, the client ends up at its address with a slash if and only if the address has no dot segments and its last one does not read like a scheme |
| `Redirects.QueryIsMistaken` | crates/nsl/src/serve/mod.rs:271-282 | with a query kept in the redirect it never does |
| `Redirects.MountedRedirectExactly` | crates/nsl/src/serve/mod.rs:265-289 | the same through the proxy: for a request on a stripping route, whatever its prefix and query |
| `SniCache.ValidNamesExactly` | crates/nsl/src/certs/sni.rs:32-45 | valid are exactly the names of 1 to 253 letters, digits, hyphens and dots without two dots in a row |
| `SniCache.StemInjective` | crates/nsl/src/certs/sni.rs:18-45 | different hostnames get different file stems |
| `SniCache.FilesDisjointExactly` | crates/nsl/src/certs/sni.rs:116-119 | two valid hostnames share no file if and only if neither is the other followed by "-key" |
| `SniCache.SniCertResolver.constructor` | crates/nsl/src/certs/sni.rs:78-85 | a resolver starts with an empty cache |
| `SniCache.SniCertResolver.ResolveForHostname` | crates/nsl/src/certs/sni.rs:90-150 | answer and cache are those of `Resolve`; a poisoned cache gives the default key and stays as it is |
| `SniCache.AnsweredExactly` | crates/nsl/src/certs/sni.rs:90-150 | over every run: invalid names and "localhost" get the default key, a valid name what the cache holds for it from then on, and where that is nothing the key on disk before a generated one before the default; with a key at hand that happens only when the cache is full |
| `SniCache.CacheHoldsFirstKeys` | crates/nsl/src/certs/sni.rs:90-150 | over every run: at most 1000 entries, only valid names, each the first key its own hostname got |
| `SniCache.CachedKeyIsFinal` | crates/nsl/src/certs/sni.rs:111-150 | a cached key never changes and is what every later handshake for its name gets |

## Left out

- Sockets, TLS, the HTTP library, copying bytes in both directions, signals and daemonizing: foreign behaviour. A read
  error of the upgrade reader ends it like a closed connection and is not told apart from one.
- JSON, TOML and PEM encoding, certificate generation, trust stores: library work. A read that meets a half-written file
  is an unreadable file.
- LockProtocol.Serializable: is about runs in which no write fails; a failing one can leave anything in the file
  (`Routes.WriteAnswer`).
- Reachability.AllMatchExactly: says nothing of domains that start with a dot or hold two in a row, unless they are
  suffix-free (`Naming.PrintedAddressMatches`). Reachability.AddressesLeadBackExactly says nothing of others than
  lower-case ASCII ones beyond that.
- HostsFile.LastSyncWinsExactly: hostnames that hold a newline are left out here and in the rows about the other lines,
  since their parts are lines of their own.
- `find_free_port` and `replace_port_placeholders`: easy companions of what is here.
- The file service of the static server, including whether it keeps a query in its redirect: both are covered. A proxy
  that runs but does not answer a look within its time counts as not answering.
- The Windows variant of the shell quoting, since `cmd` has no rules to check it against.
- Request matching that does not depend on the model: `is_upgrade_request`, the status pages, the parsing of a refused
  upgrade's header lines.
- Command line, display, configuration merging, framework detection, the npm wrapper: each field on its own, or heuristics.
- The effect of a kill on other processes, and the reuse of process ids.
- Clients that lower-case the host of an address: with domains configured in lower case they send the same.
- ShellWords.FirstArgumentIsRunExactly: the shell's further command search (builtins, functions, PATH) is not modelled.
- ProcessTree.TerminateProcessTree: requires an acyclic snapshot, because otherwise the code does not return
  (`DescentEndsExactly`).
- Routing.OneHostOrderIrrelevant: needs normalized prefixes; the registry stores others only for prefixes that end in two slashes.
