# Verified model of the go-link shortener

This project models the link store of the shortener (its two tables, the alias graph that alias
rows draw on them, the request handlers that change them), the LRU cache in front of the store, the
batched use counter behind it, import and export, and five self-contained algorithms: search
queries, paging, placeholder rewriting, the static-domain check for templates and the
forwarded-address scan. `dafny verify dfyconfig.toml` checks everything.

How the files fit together:

- `LinkStore` holds the tables as values and says what each repository operation does to them;
  `LinkRepo` is the repository as a class, each method proved against that; `Effects` says the same
  once more, column by column, of the tables before and after, and proves that the two agree.
- `AliasGraph` defines flatness (one hop is always enough), the chain an alias stands for, and proves
  what `resolveAliasTarget` decides and what `SetAlias` does to the graph. `Handlers` gives every
  request that changes links as a step on the tables; `Invariants` proves what steps and whole runs
  keep, and exactly when they do not; `Writes` says of every request what it leaves in every column
  and how it is refused. `Validate` has the name and target rules.
- `LinkCache` is the caching repository, as a class and as a refinement of the bare one over any
  history with any evictions; `Staleness` puts several replicas with expiring caches in real time.
- `UseCounter` is the counting protocol as interleaved steps, and the same code as a class;
  `Redirect` says what a visit answers and counts, `SimpleTarget` which URL a simple link answers
  with, and `Protection` who gets to a link that asks for a sign-in.
- `ImportWrites` does for a turn of an import what `Writes` does for a request.
- `ImportExport`, `Search`, `Paging`, `Placeholders`, `Domains`, `TemplateDomain` and
  `ForwardedAddress` are what their names say. `Text` and `Common` hold strings and small types.
- `Server` is the handlers as they run, statement by statement, over the cache and the counter; each
  is proved to do on cached reads what its specification does on the bare tables, and so a sequence
  of requests what the run of their steps does. `Service` puts visits (lookup, second lookup and
  count apart), requests and the counter's protocol over the same tables into one system of steps.

What turned out to be false, each with the exact condition under which it does hold:

- A flat alias graph is not kept by every run: deleting a link leaves its aliases dangling, and an
  alias later created under the deleted name puts them two hops from a link
  (`Invariants.DanglingNameBreaksFlatness`). A run stays flat exactly when no step creates an alias
  under a name that aliases still reference (`Invariants.FlatRunExactly`). Import of a document
  keeps it flat exactly when each alias it is about to carry out fits the store it then finds
  (`ImportExport.ImportFlatExactly`, `ImportExport.ImportAllFlatExactly`); two aliases of each other
  do not (`ImportExport.CircleBreaksFlatness`).
- The limit test in `SetAlias` is documented as what the target will gain. It counts rows by their
  alias target, whatever their type, and then the link. That is the resulting number of aliases
  exactly when every counted row is an alias and none is the link (`AliasGraph.LimitTestExactly`).
  Otherwise a change can be refused within the limit: saving an alias again
  (`AliasGraph.ResaveAtTheLimitIsRefused`), or where a simple link carries a stray alias target
  (`AliasGraph.StrayTargetIsRefused`), as creation lets it (`Invariants.StrayIsStored`). The tests
  made before an alias is created count the same way (`AliasGraph.CreationTestExactly`). Import
  creates aliases without a test; a document keeps the limit exactly when it creates no alias of a
  name that is full by then (`ImportExport.ImportAllLimitExactly`), unlike two aliases of one name
  where one is permitted (`ImportExport.TwoAliasesBreakTheLimit`).
- `models.go` documents the target as empty for aliases and the alias target as empty for other
  links. Creation fills them regardless (the web form puts its one target field into both); every
  edit clears them (`Invariants.TidyStepExactly`).
- Targets in use are not always validated. A PATCH that turns an alias into a simple or advanced link
  without naming a target leaves the stored one, which no validation has seen, and that is the only
  request to do so (`Invariants.TargetsStepExactly`; three requests that end so are in
  `Invariants.UncheckedTarget` and, spelled out, in `Invariants.ScriptTarget`).
- Alias targets are stored in lower case only as far as callers see to it: creation stores a stray one
  as it comes (`Invariants.LowerStepExactly`). The handlers that parse requests lower it first, so no
  run of received requests stores another (`Invariants.LowerRun`).
- A store is not always left as it is by its own export. At every stage it is exactly when each of
  its links is refused at the limit, or fills no column of another type and, if an alias, has no
  aliases of its own to bring along (`ImportExport.ReimportExactly`); a flat and tidy store is
  (`ImportExport.Reimport`).
- The API documents of `require_auth` that only authenticated users may follow the redirect. The code
  asks the link that was requested, not the one it leads to, and an alias made from a details page is
  public (`Protection.AnAliasLetsIn`). It holds exactly when sign-ins are asked of everyone or no
  public alias names such a link (`Protection.SignInExactly`), which a request keeps exactly when it
  makes no such alias and protects no link that has one (`Protection.ProtectedStepExactly`).
- The security notes say that a path suffix cannot escape the stored prefix. Scheme and host are kept
  for every suffix and query (`SimpleTarget.SiteIsKept`). The suffix is put behind the stored path as it
  is, dot segments included, so `..` leads out (`SimpleTarget.OneStepUp`); the stored path is kept all
  the way exactly when no step of the suffix climbs above its start, and with no dot segment the suffix
  is simply appended (`SimpleTarget.StoredPathKeptExactly`).
- The security notes say that names which match a route are reserved. Of the fixed routes three are
  not, `importexport`, `reassign` and `favicon.ico`: a link can be given such a name, in any case, and
  no other route's (`Validate.RoutesReservedExactly`).
- The cache stays coherent under `Update` exactly when the update keeps the link's lower-case name
  (`LinkCache.UpdateCoherentExactly`); all callers do.
- The deployment guide's window of one cache TTL is exceeded by the time between the read and the
  insertion of a miss, and by no more (`Staleness.BoundedStaleness`, `Staleness.FetchTimeCounts`); it
  does not exist with a TTL of 0, which the code documents as no expiry
  (`Staleness.NoBoundWithoutTtl`).
- Invalidation does not by itself keep a replica's own reads current, because a miss that began
  before a write can insert its row after the invalidation (`Staleness.InvalidationCanBeOvertaken`).
  It does in every run in which no write finds a fetch in flight on a name it moves
  (`Staleness.QuietWritesStayCurrent`), and a write that finds one can be overtaken
  (`Staleness.OvertakenExactly`).
- The search page does not mention wildcards; whatever the anchors, a pattern means what the page
  says exactly for needles without them (`Search.PatternMeetsExactly`). The comment on `Search`
  leaves out the owner column, which the code and the page include.
- The comment on `CheckTemplateTargetDomain` asks for an action after a path, query or fragment
  separator; the code also rejects one directly behind a bare `?` or `#`
  (`TemplateDomain.AcceptsExactly`, `TemplateDomain.BareDelimiterIsRefused`, and spelled out
  `TemplateDomain.QueryTemplateIsRefused`).
- The comment on `forwardedClientIP` keeps the single-value headers for requests without
  `X-Forwarded-For`; the code also consults them when that header has no untrusted address and its
  first entry is none (`ForwardedAddress.FallbackExactly`, `ForwardedAddress.GarbageFallsBack`).

## Model

| member | source | states |
|---|---|---|
| LinkRepo.SQLLinkRepo.Create | internal/db/link_repo.go:94-103 | inserts exactly one row under the next key, or reports a name clash and changes nothing |
| LinkRepo.SQLLinkRepo.GetByName | internal/db/link_repo.go:106-117 | finds the one row of that lower-case name, or none |
| LinkRepo.SQLLinkRepo.Update | internal/db/link_repo.go:121-135 | rewrites the row's mutable columns and clears its alias target, or fails and changes nothing |
| LinkRepo.SQLLinkRepo.SetAlias | internal/db/link_repo.go:139-205 | counts, reparenting update and converting update together do one simultaneous reparenting of the table, or nothing at all |
| LinkRepo.SQLLinkRepo.Delete | internal/db/link_repo.go:208-221 | removes the row and its shares, leaves its aliases |
| LinkRepo.SQLLinkRepo.TransferOwnership | internal/db/link_repo.go:692-703 | changes the owner of one row and nothing else |
| LinkRepo.SQLLinkRepo.ReassignLinks | internal/db/link_repo.go:676-689 | moves exactly the rows of one owner to another and counts them |
| LinkRepo.SQLLinkRepo.List | internal/db/link_repo.go:226-257 | a page of some listing of the qualifying rows in the order asked for, and their number |
| LinkRepo.SQLLinkRepo.ListOwnedOrSharedWith | internal/db/link_repo.go:575-632 | the same for rows owned or shared, with the total of both branches counted once |
| LinkRepo.SQLLinkRepo.Search | internal/db/link_repo.go:386-416 | the same for the rows a query selects: for a clear query just those that the help page promises |
| LinkRepo.SQLLinkRepo.SearchOwnedOrSharedWith | internal/db/link_repo.go:423-493 | the same among the rows owned or shared |
| LinkRepo.SQLLinkRepo.GetShares | internal/db/link_repo.go:496-514 | lists every identifier of the share set once |
| LinkRepo.SQLLinkRepo.CountAliases | internal/db/link_repo.go:663-672 | the number of rows whose alias target is that name, whatever their type |
| Effects.CreateExactly | internal/db/link_repo.go:94-103 | a creation is the one change that adds a row with just the given columns and touches nothing else |
| Effects.UpdateExactly | internal/db/link_repo.go:121-135 | an update that keeps the name is the one change that gives the row these columns and no alias target, keeping key, owner, dates and counter |
| Effects.SetAliasExactly | internal/db/link_repo.go:139-205 | SetAlias likewise: an alias with no target, its aliases following, nothing else moved |
| Effects.DeleteExactly | internal/db/link_repo.go:208-221 | a deletion is the one change that takes the row and the shares of that row, and no other |
| Effects.TransferExactly | internal/db/link_repo.go:692-703 | a transfer is the one change that gives that row its new owner |
| Effects.ReassignExactly | internal/db/link_repo.go:676-689 | a reassignment is the one change that gives just the rows of one owner to the other |
| Effects.AddUsesExactly | internal/db/usecounter.go:79-100 | a counter write adds to that row's count and dates it, and is nothing for a missing row |
| Effects.ShareExactly | internal/db/link_repo.go:517-526 | a share is the one change that adds this identifier to this link |
| AliasGraph.FlatMeansOneHop | internal/server/redirect.go:71-88 | in a flat table the one hop a redirect follows ends where the unbounded chain ends, for every name |
| AliasGraph.ResolveExact | internal/server/api.go:367-393 | in every flat table a requested target is accepted exactly when redirecting the link to it leads somewhere without a cycle; the answer is an existing non-alias other than the link, and the end of that chain |
| AliasGraph.PathCompression | internal/db/link_repo.go:177-195 | after resolving and SetAlias, one hop from any name equals the unbounded chain in the graph where only the edited link moved, to what was typed |
| AliasGraph.SetAliasMoves | internal/db/link_repo.go:177-195 | the target ends with its old aliases, the link's and the link; the link with none; every other name loses at most the link |
| AliasGraph.SetAliasMovesColumn | internal/db/link_repo.go:155-195 | the rows naming the target afterwards are the two counted sets and the link |
| AliasGraph.LimitTestExactly | internal/db/link_repo.go:155-175 | the count compared with the limit is the resulting number of aliases exactly when every counted row is an alias other than the link |
| AliasGraph.CreationTestExactly | internal/server/link_actions.go:68-77 | the count tested before a creation is the number of aliases exactly when no row of another type names the target |
| AliasGraph.StrayTargetIsRefused | internal/db/link_repo.go:155-175 | three simple links of which one carries a stray alias target: the first alias is refused |
| Invariants.StrayIsStored | internal/server/api.go:139-145 | creation stores such a row |
| AliasGraph.ResaveAtTheLimitIsRefused | internal/db/link_repo.go:155-175 | a concrete alias that cannot be saved again although the result is within the limit |
| Invariants.InvStep | internal/db/link_repo.go:94-221 | every request keeps unique lower-case names, keys and shares in order |
| Invariants.AcceptedExactly | internal/server/api.go:178-358 | a request is carried out exactly when it passes the guards spelled out for it on the state it meets, and no other failure is possible |
| Writes.StepExactly | internal/server/api.go:178-358 | every request that passes its guards leaves exactly the tables described from the request alone, every column of every row and every share; any other leaves them as they are |
| Writes.PatchExactly | internal/server/api.go:216-281 | a PATCH gives each field its mask names the requested value, trimmed, keeps the others, and empties the column its type does not use |
| Writes.DetailsExactly | internal/server/ui.go:363-442 | the details form writes all of its fields likewise |
| Writes.NewExactly | internal/server/link_actions.go:53-101 | a creation writes what was given, an alias target as it resolves |
| Writes.NewAliasExactly | internal/server/ui.go:688-747 | an alias made from a details page is public, owned by who made it, and points at that link |
| Writes.StatusExactly | internal/server/api.go:178-358 | every refusal by its exact cause: not found, conflict, unprocessable, and bad request for the rest |
| Writes.NamedTargetIsChecked | internal/server/api.go:260-275 | a PATCH that names a target which is none is refused for a link that will redirect by itself |
| Writes.ResolveIsOneHop | internal/server/api.go:367-393 | in any table a requested alias target comes to just where a redirect by that name lands, unless that is the link itself |
| Invariants.FlatStepExactly | internal/server/link_actions.go:58-76 | from a flat state, for every request: the next state is flat exactly when the request fails its guards or creates no alias under a referenced name |
| Invariants.FlatRun | internal/server/api.go:367-393 | a run without such a step ends flat, with one hop meaning the whole chain for every name |
| Invariants.FlatRunExactly | internal/server/link_actions.go:58-76 | all states of a run are flat exactly when no step does that |
| Invariants.ClosedRun | internal/db/link_repo.go:208-221 | while no link with aliases is deleted, every alias target exists and is no alias, throughout any run |
| Invariants.DanglingNameBreaksFlatness | internal/db/link_repo.go:208-221 | from any two links, three requests that leave an alias two hops from its end |
| Invariants.CreateFlat | internal/server/link_actions.go:58-93 | a created row keeps a table flat exactly when it is no alias, or fits |
| Invariants.SetAliasFlat | internal/db/link_repo.go:177-195 | SetAlias keeps a table flat exactly when its target is neither an alias nor the link |
| Invariants.LimitStep | internal/server/ui.go:725-736 | no request, in whatever state, takes a name over the alias limit |
| Invariants.LimitRun | internal/db/link_repo.go:155-175 | no name ever has more than the permitted number of aliases, in any run of requests |
| Invariants.TargetsStepExactly | internal/server/api.go:253-275 | every request keeps all redirect targets validated, except exactly the PATCH that passes its guards and reveals an alias's unchecked one |
| Invariants.UncheckedTarget | internal/server/api.go:253-275 | three requests, as handlers receive them, on an empty store after which a simple link has any trimmed text at all for its target |
| Invariants.ScriptTarget | internal/server/api.go:253-275 | the same for one text that validation refuses |
| Invariants.TidyStepExactly | internal/server/ui.go:252-258 | unused columns are filled by creation alone, when it passes its guards and gives a value for one, and cleared by every edit |
| Invariants.LowerStepExactly | internal/server/api.go:130-148 | alias targets stay lower-case under every request but a creation that passes its guards with a stray one in another case |
| Invariants.LowerRun | internal/server/api.go:130-148 | with requests as the handlers receive them, alias targets are lower-case in every run |
| Server.Server.ResolveAliasTarget | internal/server/api.go:367-393 | on cached reads, decides as on the tables |
| Server.Server.CreateLink | internal/server/link_actions.go:53-101 | carries out or refuses a creation as specified, over the cache |
| Server.Server.CreateAliasOf | internal/server/ui.go:688-747 | the same for an alias made from a details page |
| Server.Server.UpdateLink | internal/server/api.go:178-281 | the same for a field-mask update |
| Server.Server.PostDetails | internal/server/ui.go:363-442 | the same for the details form |
| Server.Server.DeleteLink | internal/server/api.go:284-310 | the same for a deletion |
| Server.Server.TransferOwner | internal/server/api.go:314-358 | the same for a transfer |
| Server.Server.Handle | internal/server/api.go:178-358 | any request takes the tables where its step does, cached reads and all, and so writes what is described for it |
| Server.Server.HandleAll | internal/server/api.go:178-358 | a sequence of requests takes them where the run does, so it keeps the alias limit, and flatness when no step creates an alias under a referenced name |
| Server.Server.HandleRedirect | internal/server/redirect.go:16-58 | on cached reads, answers a visit as the tables say and adds one to at most one counter |
| Server.Server.DoRedirect | internal/server/redirect.go:62-130 | one hop at most, counting the requested row |
| Server.Server.DoImport | internal/server/import.go:26-116 | the loop over the document leaves the tables and the summary of the specified fold |
| Server.Server.ImportLink | internal/server/import.go:29-112 | one turn: skip, update or create with shares, leaving the tables described for it |
| Server.Server.Export | internal/server/export.go:48-100 | terminates; writes every link once in name order with its shares, and separators in between |
| Redirect.Attribution | internal/server/redirect.go:62-130 | a visit counts at most once, on the requested row, never on the canonical one; every redirect counts |
| Redirect.RedirectsExactly | internal/server/redirect.go:16-130 | a visit is redirected to a URL exactly when it gets past the sign-in of the row asked for, and that row, or the one it names as an alias, gives this URL |
| Redirect.TurnedAwayExactly | internal/server/redirect.go:16-88 | not found, canonical host, sign-in and dangling alias, each by its exact condition |
| Redirect.RefusedExactly | internal/server/redirect.go:89-121 | advanced links disabled, domain refused and bad target likewise; a simple link is never refused for its domain |
| Redirect.CountedExactly | internal/server/redirect.go:85-127 | the row asked for is counted exactly when it is an alias of an existing row or gives a URL |
| Redirect.HitOfExactly | internal/server/redirect.go:16-88 | the same when the tables change between the two lookups |
| Redirect.RedirectsToTheRoot | internal/server/redirect.go:71-88 | in a flat table every redirect expands the non-alias at the end of the chain |
| Redirect.HitsAreVisits | internal/server/redirect.go:85-127 | over every run the increments of a link number the counted visits to its own name |
| Protection.SignInExactly | docs/api.md:161 | no visit without a sign-in opens a link that asks for one, exactly when sign-ins are asked of all or no public alias names such a link |
| Protection.RedirectsAreSignedIn | internal/server/redirect.go:29-58 | in that case a redirect by such a link means a sign-in |
| Protection.ProtectedStepExactly | internal/server/ui.go:688-747 | for every request: that is kept exactly when the request fails its guards, or makes no public alias of a protected link and protects no link with a public alias |
| Protection.AnAliasLetsIn | internal/server/ui.go:736 | an alias made from the details page of a protected link lets an anonymous visit in |
| SimpleTarget.SiteIsKept | internal/redirect/simple.go:15-43 | for every suffix and query the URL has the stored target's scheme and an authority with the same host |
| SimpleTarget.VisitsStayOnSite | internal/server/redirect.go:107-127 | so every redirect by a simple link goes to its site, reached directly or through an alias |
| SimpleTarget.StoredPathKeptExactly | docs/security.md:189-194 | the stored path is never left on the way exactly when no step of the suffix climbs above its start; without dot segments the suffix comes right behind it |
| SimpleTarget.VisitIsAppended | internal/redirect/simple.go:15-43 | the URL has the stored fragment, the segments of the stored path and then of the suffix, the stored parameters and then the visit's |
| SimpleTarget.UrlPathKept | internal/redirect/simple.go:28-42 | the path of that URL leads where the suffix, walked from the stored path, leads |
| SimpleTarget.RefusesExactly | internal/redirect/simple.go:15-26 | a target is refused exactly when something is to be put to it and it names no scheme or no host |
| SimpleTarget.OneStepUp | internal/redirect/simple.go:28-32 | the suffix `..` leaves every stored path but the root |
| Service.BooksRun | internal/server/redirect.go:85-127 | in every reachable state of visits, requests and counter together, the counter's rows are the table's use counts and each link's increments are the counted visits to its own name |
| Service.RequestsAreFree | internal/db/usecounter.go:79-100 | the counter never holds up a request, rows inserted and deleted included |
| Service.StoredCountsAreVisits | internal/db/usecounter.go:36-100 | after Shutdown each row's use count has grown by those visits, less failed writes and deleted rows, under every interleaving |
| LinkCache.CacheRefines | internal/db/cache.go:31-81 | over any history that keeps names, with any evictions, each cached read answers as the bare repository, counters aside |
| LinkCache.CacheStepRefines | internal/db/cache.go:31-81 | one operation keeps every cache entry equal to its row, counters aside |
| LinkCache.UpdateCoherentExactly | internal/db/cache.go:54-60 | removing the new name alone suffices exactly when the update keeps the name |
| LinkCache.CachingLinkRepo.GetByName | internal/db/cache.go:31-41 | serves an entry or fills on a miss; stays coherent and within capacity |
| LinkCache.CachingLinkRepo.Create | internal/db/cache.go:44-50 | creates and adds the new link |
| LinkCache.CachingLinkRepo.Update | internal/db/cache.go:54-60 | updates and removes one entry; coherent when the name is kept |
| LinkCache.CachingLinkRepo.SetAlias | internal/db/cache.go:64-70 | converts and purges on success only |
| LinkCache.CachingLinkRepo.Delete | internal/db/cache.go:75-81 | deletes and purges on success only |
| LinkCache.CachingLinkRepo.TransferOwnership | internal/db/cache.go:147-153 | transfers and removes one entry |
| LinkCache.CachingLinkRepo.ReassignLinks | internal/db/cache.go:157-163 | reassigns and purges |
| Staleness.BoundedStaleness | docs/deployment.md:446-449 | with several replicas and a positive TTL, every link served was the database row within the last TTL plus one fetch time; a not-found answer is current |
| Staleness.FetchTimeCounts | internal/db/cache.go:31-41 | that bound is tight: for every shorter window a run serves a link not current in it |
| Staleness.NoBoundWithoutTtl | internal/db/cache.go:10-25 | with a TTL of 0 no bound holds, for any change of any row |
| Staleness.QuietWritesStayCurrent | internal/db/cache.go:31-81 | on one replica every hit is current in every run where each write is followed by its invalidation and finds no fetch in flight on a name it moves |
| Staleness.OvertakenExactly | internal/db/cache.go:31-81 | a write with its invalidation can be followed by a hit on what it replaced exactly when such a fetch is in flight |
| Staleness.InvalidationCanBeOvertaken | internal/db/cache.go:31-41 | a miss that began before a write can insert its row after the write's invalidation |
| UseCounter.TotalStep | internal/db/usecounter.go:79-100 | every interleaved step keeps stored plus pending plus in flight plus lost, for every link |
| UseCounter.InvRun | internal/db/usecounter.go:36-100 | in every reachable state counts are conserved and a pending count implies a pending wake-up |
| UseCounter.FullDrain | internal/db/usecounter.go:49-77 | when Shutdown has completed, every increment has been handed to the database |
| UseCounter.FlushedWithoutTicker | internal/db/usecounter.go:59-77 | once the incrementers have nudged, everything pending can be written without the ticker |
| UseCounter.ShutdownCompletes | internal/db/usecounter.go:49-77 | after the channel is closed the worker can always reach its return |
| UseCounter.Counter.Increment | internal/db/usecounter.go:36-39 | adds one to the pending count of that link only |
| UseCounter.Counter.Flush | internal/db/usecounter.go:79-100 | the swapped map, written row by row in any order, adds each count to its row once and skips deleted rows |
| ImportExport.RoundTripExactly | internal/server/import.go:29-113 | export then import into an empty store reproduces links and shares exactly when import accepts every link as it is, whatever the alias graph |
| ImportExport.Reimport | internal/server/import.go:29-115 | a flat store without stray values is unchanged by its own export, also where aliases are skipped at the limit |
| ImportExport.ReimportOneExactly | internal/server/import.go:64-112 | one turn on a link's own export changes nothing exactly when the link is refused at the limit, or has no stray value and brings no alias along |
| ImportExport.ReimportExactly | internal/server/import.go:29-115 | every stage of importing a store's own export is that store exactly when this holds of every link |
| ImportExport.Loop | internal/server/import.go:29-115 | for every document created, updated and skipped add up to its links and errors to the skipped |
| ImportWrites.TurnExactly | internal/server/import.go:29-112 | every turn on every link leaves exactly the tables and the verdict described from the link alone: each column of the row created or updated, its shares, and no other change |
| ImportWrites.VerdictsAt | internal/server/import.go:29-115 | the verdict counted for turn k is the one of that turn on the store it finds |
| ImportWrites.TypesSpelledOut | internal/server/json.go:87-96 | an export spells every link type out, and import reads it as that one only |
| ImportWrites.SummaryExactly | internal/server/import.go:29-115 | each count of the summary is the number of turns that ended so, and error k names the k-th link skipped |
| ImportExport.VerdictForeseen | internal/server/import.go:29-112 | what a turn does is known before it: an accepted link is created if its name is free, else updated, and skipped for the counted limit alone |
| ImportExport.ImportFlatExactly | internal/server/import.go:64-112 | a turn keeps the graph flat exactly when it is about to carry out no alias that does not fit |
| ImportExport.ImportAllFlatExactly | internal/server/import.go:29-115 | every stage of a whole document is flat exactly when that holds of every turn, and the tables stay valid |
| ImportExport.ImportLimitExactly | internal/server/import.go:74-103 | a turn keeps the limit exactly when it is about to create no alias of a full name |
| ImportExport.ImportAllLimitExactly | internal/server/import.go:29-115 | every stage of a whole document is within the limit exactly when that holds of every turn |
| ImportExport.CircleBreaksFlatness | internal/server/import.go:90-112 | two imported aliases that name each other leave a table that is not flat |
| ImportExport.TwoAliasesBreakTheLimit | internal/server/import.go:90-112 | two imported aliases of one name exceed a limit of one |
| ImportExport.ImportKeepsImportable | internal/server/import.go:29-62 | import stores nothing it would not take back unchanged |
| ImportExport.SeparatedShape | internal/server/export.go:83-89 | n items in order and exactly n-1 separators between them |
| ImportExport.ExportInNameOrder | internal/server/export.go:48-100 | an export has its links in the order of their lower-case names, each once |
| Paging.PrecedesTotal | internal/db/link_repo.go:313-318 | any two rows compare, and tie only on the lower-case name |
| Paging.PrecedesTransitive | internal/db/link_repo.go:313-318 | the order is transitive for every column, direction and treatment of NULL |
| Paging.LexExactly | internal/db/link_repo.go:310-318 | texts are compared by the first character in which they differ, a continuation coming after |
| Paging.OrderingUnique | internal/db/link_repo.go:310-318 | with unique names a set of rows has one listing |
| Paging.ListedInOrder | internal/db/link_repo.go:310-318 | the chosen column is monotone along the listing, ties in name order |
| Paging.StablePaging | internal/db/link_repo.go:575-632 | the pages of independent queries, put together, list every qualifying row exactly once |
| Paging.PagesExactly | internal/server/ui.go:1040-1063 | as many pages as the rows need, at least one |
| Paging.NothingShown | internal/server/ui.go:1038-1047 | with no items the range shown holds none |
| Paging.ListedExactly | internal/db/link_repo.go:226-257 | a row is listed exactly when it is there and, if only public ones are asked for, public |
| Paging.OwnedOrShared | internal/db/link_repo.go:575-632 | listed exactly when owned or shared with one of the identifiers |
| Paging.OwnedOrSharedCount | internal/db/link_repo.go:590-606 | the two branches never overlap, so the total counts each row once |
| Paging.RangesPartition | internal/server/ui.go:1040-1063 | item k is shown on exactly one page, at the position its range says |
| Search.QueryReadsBack | internal/db/link_repo.go:346-378 | a typed query parses to its field, anchors and needle exactly when the needle does not itself look like an anchor or prefix |
| Search.PatternMeets | internal/db/link_repo.go:366-378 | for needles without wildcards the pattern matches as substring, prefix, suffix or whole, by its anchors, on both databases |
| Search.SearchMeansHelp | internal/db/link_repo.go:295-308 | a search selects exactly the links the help page promises |
| Search.HitsAreWanted | internal/db/link_repo.go:386-416 | the hits of a clear query are just the rows that the help page's reading of it selects |
| Search.PatternMeetsExactly | internal/db/link_repo.go:366-378 | for every needle and any anchors, the pattern means what the anchors say exactly when the needle has no wildcard |
| Placeholders.Q | internal/db/open.go:76-91 | the rewriting loop computes the numbered text, for Postgres only |
| Placeholders.EachCharacter | internal/db/open.go:82-90 | the k-th placeholder becomes $k, everything else stays in place |
| Placeholders.ReadsBack | internal/db/open.go:76-91 | on texts without $ the rewriting can be undone |
| Placeholders.DollarsCollide | internal/db/open.go:76-91 | with $ it cannot |
| Placeholders.PlacesAlign | internal/db/open.go:76-91 | in an annotated statement the place of argument k is the k-th placeholder |
| Placeholders.PlaceReadsItsNumber | internal/db/open.go:76-91 | in the numbered statement the place of argument k reads $ and k |
| Placeholders.EveryArgumentIsPlaced | internal/db/open.go:76-91 | every argument of an annotated statement has such a place |
| Placeholders.SearchAligns | internal/db/link_repo.go:386-416 | text and arguments of Search's count and listing, built apart, are those of one annotated statement |
| Placeholders.OwnedSearchAligns | internal/db/link_repo.go:423-493 | the same for SearchOwnedOrSharedWith, both statements, with and without identifiers, however many |
| Placeholders.OwnedListAligns | internal/db/link_repo.go:575-632 | the same for ListOwnedOrSharedWith |
| Placeholders.QueriesFixed | internal/db/link_repo.go:295-308 | none of these statements holds a placeholder but its places, for every search field |
| Placeholders.QueriesBalance | internal/db/link_repo.go:295-632 | each has as many placeholders as arguments |
| Domains.WildcardExactly | internal/links/advanced_domains.go:55-83 | a wildcard covers exactly the base with one or more labels of host characters in front |
| Domains.MatchedHostsAreClean | internal/links/advanced_domains.go:14-47 | a host that a valid list lets through has host characters only |
| Domains.CaseInsensitive | internal/links/advanced_domains.go:55-58 | matching ignores case on both sides |
| Domains.CoversExactly | internal/links/advanced_domains.go:55-83 | an entry matches exactly the host it spells, in any case, or the hosts under the base behind its star |
| Domains.WildcardLabels | internal/links/advanced_domains.go:55-83 | what may stand before the base is exactly a host name |
| Domains.PatternsExactly | internal/links/advanced_domains.go:14-47 | a pattern is valid exactly when it is a host name, behind a leading star and dot if it has them |
| Validate.RoutesReservedExactly | internal/links/validate.go:9-27 | of the names that spell a fixed route exactly three are valid link names |
| Validate.NameCase | internal/links/validate.go:32-45 | a name is valid exactly when its lower-case form is |
| Validate.NamesAreSegments | internal/links/validate.go:32-45 | a valid name is a path segment as it stands |
| Validate.WebTargets | internal/links/validate.go:47-61 | a target is valid exactly when it begins with a web scheme, in any case |
| TemplateDomain.SplitFindsAuthority | internal/links/advanced_domains.go:103-116 | cutting a URL at #, ? and / in turn finds the authority that section 3.2 of RFC 3986 defines |
| TemplateDomain.CreationCheckIsSound | internal/redirect/advanced.go:97-170 | whatever an accepted template puts out, the visit's URL has the static part's authority, so it passes the check at redirect time whenever it parses |
| TemplateDomain.AcceptsExactly | internal/redirect/advanced.go:154-170 | a template with actions is accepted exactly when its static text names a covered host and continues by more than a bare delimiter |
| TemplateDomain.AcceptsPlainExactly | internal/redirect/advanced.go:154-170 | a template without actions is accepted exactly when it names a covered host |
| TemplateDomain.NoListNoRestriction | internal/redirect/advanced.go:155-157 | under the default, an empty list, every template and every URL passes |
| TemplateDomain.PassesExactly | internal/links/advanced_domains.go:84-116 | a URL passes exactly when the list is empty or its host is covered by an entry |
| TemplateDomain.RemovalCuts | internal/redirect/advanced.go:95-107 | each missing-value marker goes, and nothing else |
| TemplateDomain.BareDelimiterIsRefused | internal/redirect/advanced.go:154-170 | any covered site with a bare question mark directly before the first action is refused, though no output could leave the site |
| TemplateDomain.QueryTemplateIsRefused | internal/redirect/advanced.go:154-170 | one such template, spelled out |
| TemplateDomain.PortsDoNotMatter | internal/links/advanced_domains.go:103-116 | whatever port follows it, a host is judged by its name |
| TemplateDomain.AddressesAreNotCovered | internal/links/advanced_domains.go:103-116 | a valid list covers no IPv6 address |
| ForwardedAddress.XffEntries | internal/server/middleware/realip.go:85-95 | the nested loops collect the flattened, trimmed, non-empty entries in order |
| ForwardedAddress.ForwardedClientIP | internal/server/middleware/realip.go:59-81 | the scan by decreasing index, its two fallbacks included |
| ForwardedAddress.Request.TrustedRealIP | internal/server/middleware/realip.go:32-47 | the peer address changes only for a trusted peer with a usable header |
| ForwardedAddress.RightmostExactly | internal/server/middleware/realip.go:60-69 | the scan finds the untrusted address with nothing but proxies and garbage to its right, and nothing exactly when there is none |
| ForwardedAddress.SpoofingIsIgnored | internal/server/middleware/realip.go:49-69 | whatever stands to the left of the client's address is ignored |
| ForwardedAddress.TrustedOnlyIfAllAre | internal/server/middleware/realip.go:70-74 | the header yields a trusted address exactly when every address in it is trusted and its first entry is an address, and then that one |
| ForwardedAddress.LinesDoNotMatter | internal/server/middleware/realip.go:85-95 | splitting the list over header lines gives the entries of the joined line |
| ForwardedAddress.FallbackExactly | internal/server/middleware/realip.go:70-81 | when the single-value headers decide |
| ForwardedAddress.FirstParsedExactly | internal/server/middleware/realip.go:75-81 | of the single-value headers the first that is an address decides |
| ForwardedAddress.KeptExactly | internal/server/middleware/realip.go:85-95 | the entries are the parts, trimmed, that are not blank |
| ForwardedAddress.GarbageFallsBack | internal/server/middleware/realip.go:70-81 | a header whose only entry is no address gives the address of True-Client-IP |

## Left out

- Strings are ASCII for case folding; Unicode folding, collation and `LOWER` of the two databases beyond ASCII are not modelled.
- The SQL engines, migrations, transactions other than SetAlias and isolation levels: tables are maps and SetAlias is one atomic step; the count-then-insert race that `handleCreateAlias` accepts is outside the sequential runs.
- Shares go with their link, as the schema's cascade says; whether SQLite enforces it is a connection setting.
- Database failures other than not-found and a clash of names appear in the counter protocol only.
- Authentication and permission checks (forbidden, login, CSRF): a request stopped there changes nothing. HTTP, cookies, HTML and JSON encoding.
- LinkRepo.SQLLinkRepo.AddShare and the other share and alias listings (RemoveShare, GetAliases, SharedLinkIDs, ListByOwner on its own) would only add easy members; AddShare asks for an existing link, as its callers have one.
- The details form's default and required mail domains in a transfer: the transfer step is the API's.
- UseCounter.Counter.Increment: the class runs one thread; interleaving, the nudge channel, the ticker and Shutdown are in the step system of the same module.
- Increment after Shutdown, a send on a closed channel, is outside the protocol. Progress is shown as an ability of the worker, without assumptions about scheduling.
- The cache library's recency order: a bounded map that may lose any entry at any time. Its expiry, fixed at insertion, is in Staleness only.
- The text/template and regexp engines: an expansion is the static text, less white space a trim marker may eat, followed by anything. URL parsing beyond scheme, authority and the first delimiters (escapes, user information, port syntax) is a parameter that must reject spaces in an authority.
- How the URL library escapes paths and writes authorities is a parameter of SimpleTarget, which asks of it that paths keep a leading slash and that a written authority has no delimiter and the same host; what a client makes of dot segments is section 5.2.4 of RFC 3986.
- SimpleTarget.VisitIsAppended: for queries without a number sign, as clients send them; paths are compared decoded, because an escaped spelling that the library keeps is not modelled.
- Import and export documents are values; created_at, use counts and the error texts in them are not modelled (an error is the name it starts with). Import is not a step of the runs about the alias limit and flatness; whole documents have theorems of their own.
- Search.SearchMeansHelp: asks for a lower-case alias_target column, which the handlers keep (Invariants.LowerStepExactly) and import writes.
- Address parsing and the trusted ranges are parameters of ForwardedAddress.
- Configuration, users, API keys, OIDC, logging, name suggestions and quick links.
