# NetTrap verification

A Dafny model of the stateful and text-processing core of NetTrap, a network honeypot: the response template
renderer, the virtual filesystem behind the file-serving protocols, the session tracker, the attribution cache, the
connection log deduplicator, the host filter, the saturating event counter, and the command splitter and bounded
output reader of the Windows setup. `dafny verify dfyconfig.toml` checks all of it.

## How it is laid out

| files | component |
|---|---|
| `Common.dfy` | options and results, saturating addition, elapsed time, substring search, agreement of two texts from given positions on |
| `Template.dfy` | the renderer: what each pass computes, and the loops that compute it on an index-addressed buffer |
| `TemplateTheorems.dfy`, `TemplateEscapes.dfy`, `TemplateTrees.dfy`, `TemplateValues.dfy`, `TemplateTexts.dfy` | bracket matching, segmentation, what escapes stand for, the tree semantics of templates, when it holds whatever the variables are, and what the texts people write render to |
| `VfsPaths.dfy`, `VfsTree.dfy`, `VfsListing.dfy`, `VfsSteps.dfy`, `VfsDefaults.dfy`, `VirtualFilesystem.dfy` | path normal form, the tree kept in a flat map, listings, each component and each operation in terms of parents and children, the default contents, and the filesystem object |
| `Addresses.dfy` | IPv4 and IPv6 addresses as integers, and the mapped form |
| `Sessions.dfy`, `SessionKeys.dfy`, `SessionProofs.dfy`, `SessionContents.dfy`, `SessionCleanup.dfy`, `SessionTracker.dfy` | lazy expiry, which registrations are one session, the eager tracker it is compared with, what a session holds, what a cleanup reports, and the tracker object |
| `AttributionCache.dfy`, `AttributionProofs.dfy`, `AttributionLookups.dfy`, `AttributionEviction.dfy`, `AttributionCleanup.dfy`, `AttributionCalls.dfy` | the concurrent cache as threads with program counters, its invariants, what a lookup gets, how often an insertion evicts, and what cleaning up and clearing leave |
| `ConnectionDedup.dfy` | the bounded set, the full-log reference, and the object |
| `HostFilter.dfy`, `HostDecisions.dfy` | address blocks, special addresses, rules, and which hosts they let in |
| `SaturatingCounter.dfy` | the compare-exchange loop under any interleaving |
| `CommandWords.dfy`, `CommandGrammar.dfy`, `BoundedReader.dfy` | command words, command lines as they are written, and limited reads |

Loops and objects of the source are methods and classes here; each method is proved equal to a function or relation
on values, and the theorems are about those. Clock readings, the date formatter, the process lookup, resolved
addresses and the outcome of each `read` are parameters. Text is a sequence of characters, so positions count
characters where the source counts UTF-8 bytes; every position the source computes lies on a character boundary.
Counters are unbounded except where the source saturates.

## What the source says and what it does

- The renderer's comments say that a substituted value is never scanned again (`template.rs:83-89`). That holds
  outside conditionals for every variable map (`RenderWithoutBlocks`). Inside a taken conditional the block is
  rendered first and the variable pass then runs over the result, so a value that reads `{{y}}` is expanded
  (`NestedValueScanned`, `NestedValueWitness`). A template renders to its meaning whatever the variables hold if and
  only if its conditionals are nested below the limit and no reference stands inside one (`MeaningForAllVariables`).
  The model follows the code.
- Two spellings with one normal form give the same result in every operation and every reachable filesystem exactly
  when both are safe or both are not (`SpellingsExact`): a control character in a component that resolves away still
  gets a path refused (`UnsafeSpelling`).
- "Logged once per window" holds for all connections over a set of keys if and only if the set has at most 16384
  (`OnceIffFew`); beyond that a key can be logged again, but only after 16384 other keys (`LoggedAgainFarApart`).
- Lazy expiry answers every call as eager expiry would (`LazyRefinesEager`), except for the list of expired keys that
  `cleanup_expired_sessions` returns, from which the cleanup task removes flows. The reads sweep the table too and drop
  that list, so a session that a read swept first is reported by no cleanup (`ReadHidesExpiry`). `ReportedExactly` says
  when a session is reported: if and only if its time has passed and no call since its last activity has removed it.

## Model

| member | source | states |
|---|---|---|
| `TemplateRenderer.FindMatchingConditional` | crates/nettrap-cli/src/template.rs:141-183 | the cursor-and-depth loop returns the block `BlockAt` describes, and none when a tag or the close is missing |
| `TemplateRenderer.RenderConditionals` | crates/nettrap-cli/src/template.rs:52-81 | rewriting the buffer in place block by block, with the search resuming after each replacement, gives what one left-to-right pass over the unescaped template gives; the unscanned part shrinks although the buffer may grow |
| `TemplateRenderer.ExpandReferences` | crates/nettrap-cli/src/template.rs:90-138 | the variable pass concatenates the literals and looked-up values of the segmentation of its input |
| `TemplateRenderer.RenderTemplateDepth` | crates/nettrap-cli/src/template.rs:23-139 | the renderer, recursion included, terminates and computes `Render`, recursion-limit error included |
| `Template.ConditionalsAgree` | crates/nettrap-cli/src/template.rs:52-81 | the conditional pass depends only on the text from its start on, so text already rendered is never searched for a conditional |
| `TemplateTheorems.MatchCloseExact` | crates/nettrap-cli/src/template.rs:141-183 | the search returns a closing tag if and only if it is the first one at which opens and closes balance |
| `TemplateTheorems.BlockBalanced` | crates/nettrap-cli/src/template.rs:52-67 | the block replaced is the first open tag after the search start, its name ends at the first close mark, its content is balanced and no earlier closing tag ends it |
| `TemplateTheorems.UnescapeIdempotent` | crates/nettrap-cli/src/template.rs:36-41 | unescaping leaves no escape behind and a second unescape changes nothing |
| `TemplateEscapes.UnescapeExact` | crates/nettrap-cli/src/template.rs:36-41 | the three replacements decode every text as one pass from left to right: `\r\n` to CR LF, `\n` to LF, `\t` to TAB, everything else unchanged |
| `TemplateEscapes.UnescapeSpelled` | crates/nettrap-cli/src/template.rs:36-41 | a text of stretches without a backslash and of escapes unescapes to what the pieces stand for |
| `TemplateEscapes.RenderSpelled` | crates/nettrap-cli/src/template.rs:23-139 | a tree renders to its denotation however its text is written with escapes |
| `TemplateTheorems.PiecesSource` | crates/nettrap-cli/src/template.rs:90-138 | the segmentation into literals and references is a cut of the text: gluing the pieces back gives the text |
| `TemplateTheorems.RenderWithoutBlocks` | crates/nettrap-cli/src/template.rs:23-139 | without a conditional, for every variable map, the output is the expansion of a segmentation fixed by the template alone |
| `TemplateTrees.MatchOverDoc` | crates/nettrap-cli/src/template.rs:141-183 | the search for a closing tag passes over any printed template, nested conditionals included |
| `TemplateTrees.ConditionalsOfDoc` | crates/nettrap-cli/src/template.rs:52-81 | on a printed tree the conditional pass replaces exactly the tree's top-level conditionals, for every variable map |
| `TemplateTrees.ExpandOfDoc` | crates/nettrap-cli/src/template.rs:90-138 | on a flattened tree the variable pass gives the tree's denotation |
| `TemplateTrees.RenderFlattened` | crates/nettrap-cli/src/template.rs:23-139 | what a printed tree renders to, with no condition on the variables: conditionals first, then one variable pass over everything |
| `TemplateTrees.RenderMeaning` | crates/nettrap-cli/src/template.rs:23-139 | a printed tree renders to its denotation, and to the recursion-limit error exactly when the taken conditionals nest too deep |
| `TemplateTrees.RenderCalmValues` | crates/nettrap-cli/src/template.rs:23-139 | the same for every tree when no value holds two opening braces in a row or ends in one |
| `TemplateTrees.RenderCleanValues` | crates/nettrap-cli/src/template.rs:23-139 | in particular when no value holds an opening brace |
| `TemplateTrees.NestedValueScanned` | crates/nettrap-cli/src/template.rs:68-136 | a value printed by a taken conditional goes through the variable pass once more |
| `TemplateTrees.NestedValueExpanded` | crates/nettrap-cli/src/template.rs:68-136 | a value that is itself a reference is expanded there, where its denotation is the text of the reference |
| `TemplateTrees.NestedValueWitness` | crates/nettrap-cli/src/template.rs:83-136 | one concrete template and variable map where that happens |
| `TemplateValues.RenderEchoes` | crates/nettrap-cli/src/template.rs:23-139 | what every tree within the nesting limit renders to when each of its names holds a reference: references inside conditionals vanish, the others are copied |
| `TemplateValues.MeaningForAllVariables` | crates/nettrap-cli/src/template.rs:23-139 | a tree renders to its denotation for every variable map if and only if its conditionals are nested below the limit and no reference is inside one |
| `TemplateTexts.ConditionalText` | crates/nettrap-cli/src/template.rs:52-81 | a written conditional shows its text if and only if its variable is there and not empty, whatever the variables hold |
| `TemplateTexts.ReferenceText` | crates/nettrap-cli/src/template.rs:111-131 | a written reference is its variable, an empty one included, and nothing when there is none |
| `TemplateTexts.DefaultText` | crates/nettrap-cli/src/template.rs:122-128 | a default stands in for a missing variable and not for an empty one |
| `TemplateTexts.DateText` | crates/nettrap-cli/src/template.rs:111-121 | `{{date}}` is the clock in the default format, or the error that names it |
| `TemplateTexts.FormatText` | crates/nettrap-cli/src/template.rs:111-121 | `{{date:format}}` is the clock in that format, or the error that names it |
| `TemplateTexts.StrayCopied` | crates/nettrap-cli/src/template.rs:92-107 | from a stray directive or unclosed braces on, the variable pass copies everything |
| `TemplateTexts.UnmatchedLeftAlone` | crates/nettrap-cli/src/template.rs:53-63 | a conditional that is never closed is left as written, with all that follows |
| `TemplateTexts.LimitSixteen` | crates/nettrap-cli/src/template.rs:28-34 | with calm values a tree renders to its denotation, and to the recursion-limit error if and only if 16 taken conditionals are nested |
| `VirtualFilesystems.NormalizePath` | crates/nettrap-cli/src/vfs.rs:209-226 | the push-and-pop loop computes the normal form |
| `VfsPaths.NormalizeNormal` | crates/nettrap-cli/src/vfs.rs:209-226 | normalizing is idempotent and keeps the components |
| `VfsPaths.NormalizeStepwise` | crates/nettrap-cli/src/vfs.rs:209-226 | normalizing `a/b` is normalizing normalized `a` followed by `b` |
| `VfsSteps.NameDescends` | crates/nettrap-cli/src/vfs.rs:209-226 | a name after a normal path leads to its child |
| `VfsSteps.DotsAscend` | crates/nettrap-cli/src/vfs.rs:215-217 | `..` goes up one component at any depth and stays at the root |
| `VfsSteps.NothingStays` | crates/nettrap-cli/src/vfs.rs:214 | empty components and `.` change nothing |
| `VfsSteps.RootedAlike` | crates/nettrap-cli/src/vfs.rs:209-226 | a path without a leading slash is rooted, and a backslash separates as a slash does |
| `VfsPaths.NormalizeSafe` | crates/nettrap-cli/src/vfs.rs:209-232 | the normal form of a safe path is safe |
| `VfsPaths.IsChild` | crates/nettrap-cli/src/vfs.rs:276-280 | every normal path but the root is a child of its parent |
| `VfsPaths.UnderParent` | crates/nettrap-cli/src/vfs.rs:276-280 | what is under a directory has it as parent or has a parent under it |
| `VfsPaths.RebaseNormal` | crates/nettrap-cli/src/vfs.rs:402-410 | the key a child gets in a rename is already normal |
| `VfsTree.Ancestor` | crates/nettrap-cli/src/vfs.rs:234-416 | in a tree everything above an entry is present and a directory |
| `VfsTree.CreateTree` | crates/nettrap-cli/src/vfs.rs:234-274 | creating a directory or a file keeps the tree invariant |
| `VfsTree.DropTree` | crates/nettrap-cli/src/vfs.rs:341-357 | deleting keeps the tree invariant |
| `VfsTree.CreateThenDelete` | crates/nettrap-cli/src/vfs.rs:234-357 | deleting what was just created restores the map |
| `VfsTree.WriteThenRead` | crates/nettrap-cli/src/vfs.rs:234-322 | a file reads back as written under every safe spelling of its path, exactly when its parent is a directory and it is not one; nothing else reads differently |
| `VfsSteps.SafeExactly` | crates/nettrap-cli/src/vfs.rs:228-232 | a path is refused for control characters and line and paragraph separators, by code point, and nothing else |
| `VfsSteps.UnsafeRefused` | crates/nettrap-cli/src/vfs.rs:234-416 | an unsafe path is absent to every read and has no effect in any write |
| `VfsSteps.MakesExactly` | crates/nettrap-cli/src/vfs.rs:234-255 | creating a directory adds its key if and only if the place is free and in a directory, and changes nothing else |
| `VfsSteps.WritesExactly` | crates/nettrap-cli/src/vfs.rs:257-274 | creating a file puts its content if and only if the place is in a directory and is not one, and changes nothing else |
| `VfsSteps.DeletesExactly` | crates/nettrap-cli/src/vfs.rs:341-357 | in a tree exactly the entries with no child, the root aside, can be deleted; only the entry goes |
| `VfsSteps.RenamesExactly` | crates/nettrap-cli/src/vfs.rs:369-394 | in a tree a rename is allowed if and only if the entry is there and not the root, and the destination is itself or a free place in a directory outside it |
| `VfsTree.RenameApart` | crates/nettrap-cli/src/vfs.rs:369-394 | the checks of rename are enough: the two subtrees do not meet and nothing is at or under the destination |
| `VfsTree.RenameConserves` | crates/nettrap-cli/src/vfs.rs:369-416 | a rename moves the whole subtree with its entries, leaves every other key alone, loses and overwrites nothing, keeps the size and the tree invariant, and leaves nothing under the old name |
| `VfsTree.RenameBack` | crates/nettrap-cli/src/vfs.rs:369-416 | renaming back is allowed and restores the map exactly |
| `VfsTree.RenameThenRead` | crates/nettrap-cli/src/vfs.rs:312-416 | a renamed file, and every file in a renamed directory, reads as before under its new path |
| `VfsTree.RenameUndone` | crates/nettrap-cli/src/vfs.rs:369-416 | the same for paths as given, in any spelling |
| `VfsTree.UnsafeSpelling` | crates/nettrap-cli/src/vfs.rs:228-256 | paths that normalize to the root and are refused all the same |
| `VfsTree.StepTree` | crates/nettrap-cli/src/vfs.rs:234-416 | every operation keeps the tree invariant and the root |
| `VfsTree.RunTree` | crates/nettrap-cli/src/vfs.rs:234-416 | in every reachable state keys are normal and safe, parents are present directories, sizes are content lengths, and the root, once there, stays a directory |
| `VfsListing.SortSorted` | crates/nettrap-cli/src/vfs.rs:307-308 | sorting distinct names gives a strictly ascending list |
| `VfsListing.ListingExact` | crates/nettrap-cli/src/vfs.rs:283-309 | a non-root entry is in the listing of a path if and only if the path is its parent |
| `VfsListing.ListedOnce` | crates/nettrap-cli/src/vfs.rs:283-309 | no entry is listed twice |
| `VfsListing.ListingOfFile` | crates/nettrap-cli/src/vfs.rs:283-309 | listing a file or a missing path gives nothing |
| `VfsSteps.ListedAs` | crates/nettrap-cli/src/vfs.rs:296-305 | every item shows whether its entry is a directory and the length of its content |
| `VfsSteps.ExistsAsListed` | crates/nettrap-cli/src/vfs.rs:283-366 | something exists in a directory if and only if the listing shows its name |
| `VfsSteps.LessExactly` | crates/nettrap-cli/src/vfs.rs:307 | the order of names is by the first code point that differs, prefixes first |
| `VfsListing.ReadsAlike` | crates/nettrap-cli/src/vfs.rs:283-366 | get, exists and list answer a safe path and its normal form alike |
| `VfsListing.WritesAlike` | crates/nettrap-cli/src/vfs.rs:325-416 | creating, deleting and renaming leave and answer the same for a safe path and its normal form |
| `VfsListing.SpellingIrrelevant` | crates/nettrap-cli/src/vfs.rs:283-416 | two spellings with one normal form, both safe or both not, are the same path to every operation, as the path or as either end of a rename |
| `VfsListing.ToldApart` | crates/nettrap-cli/src/vfs.rs:209-255 | a run after which a safe spelling of a path is there and an unsafe one is not |
| `VfsListing.SpellingsExact` | crates/nettrap-cli/src/vfs.rs:209-416 | spellings with one normal form are interchangeable in every reachable filesystem if and only if both are safe or both are not; `exists` alone tells them apart otherwise |
| `VirtualFilesystems.PartStep` | crates/nettrap-cli/src/vfs.rs:404-409 | moving one more child, in any order, keeps the partial rename consistent: no moved or unmoved key is overwritten |
| `VirtualFilesystems.PartDone` | crates/nettrap-cli/src/vfs.rs:395-411 | once every child has moved the map is the renamed one |
| `VfsDefaults.DefaultEntries` | crates/nettrap-cli/src/vfs.rs:66-88 | the default filesystem entry by entry |
| `VirtualFilesystems.VirtualFilesystem.constructor` | crates/nettrap-cli/src/vfs.rs:66-88 | without a directory on disk, a new filesystem holds exactly the eight default directories and four default files, with the given contents, and is a tree |
| `VirtualFilesystems.VirtualFilesystem.CreateDir` | crates/nettrap-cli/src/vfs.rs:234-255 | the new map is `CreateDir` of the old one, and a tree |
| `VirtualFilesystems.VirtualFilesystem.CreateFile` | crates/nettrap-cli/src/vfs.rs:257-274 | the new map is `CreateFile` of the old one, and a tree |
| `VirtualFilesystems.VirtualFilesystem.Delete` | crates/nettrap-cli/src/vfs.rs:341-357 | true exactly when a non-root entry without descendants was there; it alone is removed |
| `VirtualFilesystems.VirtualFilesystem.Exists` | crates/nettrap-cli/src/vfs.rs:360-366 | true exactly when the path is safe and its normal form is a key |
| `VirtualFilesystems.VirtualFilesystem.Get` | crates/nettrap-cli/src/vfs.rs:312-322 | the content of the file that is there, and nothing otherwise; the stored size is its length |
| `VirtualFilesystems.VirtualFilesystem.List` | crates/nettrap-cli/src/vfs.rs:283-309 | the immediate children, all of them, sorted by name, with kind and size |
| `VirtualFilesystems.VirtualFilesystem.Rename` | crates/nettrap-cli/src/vfs.rs:369-416 | true exactly when the rename is allowed, and then the map is the moved one; otherwise unchanged |
| `VirtualFilesystems.VirtualFilesystem.MoveEntry` | crates/nettrap-cli/src/vfs.rs:395-411 | the loop over captured children, visited in any order, gives the moved map |
| `Sessions.MappedPeersShareKey` | crates/nettrap-cli/src/session.rs:237-250 | a peer or destination seen in IPv4-mapped form has the key of its IPv4 form |
| `SessionKeys.KeysExactly` | crates/nettrap-cli/src/session.rs:237-249 | two registrations have one key if and only if hosts (up to the mapped form, the unspecified address of the peer's family for a destination that is none), ports and protocol (up to blanks around it and the case of TCP and UDP) are the same |
| `SessionKeys.KeyDescribes` | crates/nettrap-cli/src/session.rs:237-249 | a key holds the peer as source and the destination as target, IPv4 where either form is IPv4, and the protocol as TCP, UDP or its own text |
| `SessionProofs.EvictsExpiredFirst` | crates/nettrap-cli/src/session.rs:335-364 | capacity eviction never costs a live session while an expired one remains |
| `SessionProofs.EvictAgrees` | crates/nettrap-cli/src/session.rs:335-364 | evicting from the table and from its live part agree |
| `SessionProofs.StepRefines` | crates/nettrap-cli/src/session.rs:281-539 | one call of the lazy tracker is one call of the eager tracker, with the same answer except for the list a cleanup returns, which is empty for the eager one |
| `SessionProofs.LazyRefinesEager` | crates/nettrap-cli/src/session.rs:281-539 | over every run, the live sessions and their contents, and every answer but the lists returned by cleanups, are those of a tracker that drops each session the moment its time passes |
| `SessionProofs.TableBounded` | crates/nettrap-cli/src/session.rs:335-364 | the table never outgrows its maximum |
| `SessionProofs.DestinationUnambiguous` | crates/nettrap-cli/src/session.rs:482-510 | a destination is answered if and only if exactly one live session matches |
| `SessionContents.ContentsExactly` | crates/nettrap-cli/src/session.rs:281-460 | over every run, a session holds the listener registered last, the process set last, the time of its last activity and the capped totals of bytes received, bytes sent and packets of all calls about it since it began |
| `SessionContents.BegunBy` | crates/nettrap-cli/src/session.rs:281-333 | every session in the table was begun by a registration answered as new and has been there since |
| `SessionContents.ReadsAnswer` | crates/nettrap-cli/src/session.rs:463-539 | over every run, a read of process or destination answers if and only if the session is live, with the process set last or the destination of the key |
| `SessionContents.CountExactly` | crates/nettrap-cli/src/session.rs:518-521 | the count is the number of live sessions |
| `SessionContents.NewExactly` | crates/nettrap-cli/src/session.rs:304-332 | a registration is answered as new if and only if its session is not live |
| `SessionContents.LostOnlyForRoom` | crates/nettrap-cli/src/session.rs:335-361 | a registration costs a live session only when as many are live as may be kept and the registered one is not among them; the one lost is least recently active |
| `SessionCleanup.ReportedExactly` | crates/nettrap-cli/src/session.rs:281-539 | over every run, a cleanup returns a key if and only if the last activity of its session is at least the time to live ago and no call since has swept it away, evicted it, removed it or found it expired |
| `SessionCleanup.SweptByCalls` | crates/nettrap-cli/src/session.rs:291-302 | which registrations sweep the table is decided by the clock readings of registrations alone |
| `SessionCleanup.ReportedOnce` | crates/nettrap-cli/src/session.rs:366-391 | a key is returned by two cleanups only if its session was active again in between |
| `SessionCleanup.ReadHidesExpiry` | crates/nettrap-cli/src/session.rs:388-521 | for every configuration and key, two runs with the same live sessions, of which only the one without a read before the cleanup reports the expired session |
| `SessionTracking.SessionTracker.constructor` | crates/nettrap-cli/src/session.rs:252-260 | a new tracker is empty |
| `SessionTracking.SessionTracker.Register` | crates/nettrap-cli/src/session.rs:281-333 | a step of the model: periodic cleanup, refresh of a live session, or eviction and insertion |
| `SessionTracking.SessionTracker.EnforceSessionCapacity` | crates/nettrap-cli/src/session.rs:335-364 | a full table loses a least recently active session, and only then |
| `SessionTracking.SessionTracker.OldestKey` | crates/nettrap-cli/src/session.rs:335-364 | the key found has the least last activity of all |
| `SessionTracking.SessionTracker.CleanupExpiredKeys` | crates/nettrap-cli/src/session.rs:366-386 | exactly the expired sessions go, and they are returned |
| `SessionTracking.SessionTracker.CleanupExpiredSessions` | crates/nettrap-cli/src/session.rs:387-391 | a step of the model: the keys returned are the keys removed |
| `SessionTracking.SessionTracker.UpdateBytes` | crates/nettrap-cli/src/session.rs:403-433 | a step of the model: saturated counters of a live session, an expired one dropped |
| `SessionTracking.SessionTracker.SetProcess` | crates/nettrap-cli/src/session.rs:435-461 | a step of the model |
| `SessionTracking.SessionTracker.GetProcess` | crates/nettrap-cli/src/session.rs:463-480 | a step of the model |
| `SessionTracking.SessionTracker.GetOriginalDest` | crates/nettrap-cli/src/session.rs:527-542 | a step of the model |
| `SessionTracking.SessionTracker.GetDestinationForPort` | crates/nettrap-cli/src/session.rs:482-510 | a step of the model: the one match or nothing |
| `SessionTracking.SessionTracker.Remove` | crates/nettrap-cli/src/session.rs:512-516 | a step of the model |
| `SessionTracking.SessionTracker.ActiveCount` | crates/nettrap-cli/src/session.rs:518-525 | a step of the model: the number of live sessions |
| `AttributionProofs.CapacityStep` | crates/nettrap-attribution/src/engine.rs:91-107 | every atomic step of every thread keeps what the inserting thread knows about the size |
| `AttributionProofs.StatsStep` | crates/nettrap-attribution/src/engine.rs:45-184 | every atomic step keeps the statistics in balance with the calls in flight |
| `AttributionProofs.ProvenanceStep` | crates/nettrap-attribution/src/engine.rs:45-184 | every atomic step keeps every entry traceable to the computation it came from |
| `AttributionProofs.NeverOverCapacity` | crates/nettrap-attribution/src/engine.rs:91-107 | under every interleaving the cache never holds more than its maximum, and one thread at a time is in the insert section |
| `AttributionProofs.EvictsOldest` | crates/nettrap-attribution/src/engine.rs:91-107 | an eviction removes an entry with the oldest timestamp in the cache at that moment |
| `AttributionProofs.QuiescentStats` | crates/nettrap-attribution/src/engine.rs:45-184 | with no call in flight: requests are hits plus misses, misses are successes plus failures, and insertions are entries plus evictions plus invalidated and cleared entries |
| `AttributionProofs.HitsAreFresh` | crates/nettrap-attribution/src/engine.rs:45-89 | every hit returns an attribution with confidence, computed for that key by a call whose reading is less than the timeout old |
| `AttributionProofs.OnlyExpiredRemoved` | crates/nettrap-attribution/src/engine.rs:161-184 | expiry removes only entries expired by their stored timestamp, even when refreshed between scan and removal |
| `AttributionLookups.EntryKept` | crates/nettrap-attribution/src/engine.rs:45-184 | only invalidating a key, clearing its shard, inserting it, evicting it or removing it for age changes its entry |
| `AttributionLookups.InvalidateExactly` | crates/nettrap-attribution/src/engine.rs:145-147 | invalidation removes the entry of its key and nothing else |
| `AttributionLookups.LookupExactly` | crates/nettrap-attribution/src/engine.rs:54-65 | in every run a lookup finds an entry if and only if it is the one cached for the key and younger than the timeout |
| `AttributionLookups.SuccessInserts` | crates/nettrap-attribution/src/engine.rs:79-107 | a call that attributed with confidence does not end before its result is in the cache |
| `AttributionLookups.FailureNotCached` | crates/nettrap-attribution/src/engine.rs:81-86 | a lookup without a result is counted as a failure and caches nothing |
| `AttributionLookups.HitAgain` | crates/nettrap-attribution/src/engine.rs:45-107 | in every run, after a call that attributed a key with confidence, a call for the key within the timeout with nothing else concerning it in between is a hit with that result and counts one hit |
| `AttributionEviction.EvictsAtMostOnce` | crates/nettrap-attribution/src/engine.rs:91-107 | in every run one insertion goes through the eviction loop at most once, although the loop measures the cache again shard by shard while other threads remove entries |
| `AttributionEviction.EvictsOnlyWhenFull` | crates/nettrap-attribution/src/engine.rs:91-107 | in every run an insertion that evicts had begun to measure the cache when it was full and did not hold the key |
| `AttributionCleanup.CleanupComplete` | crates/nettrap-attribution/src/engine.rs:161-184 | in every run, an entry still in the cache when a cleanup has nothing left to remove, and expired at the cleanup's clock reading, was inserted after that cleanup had visited its shard |
| `AttributionCalls.CleanupCall` | crates/nettrap-attribution/src/engine.rs:161-184 | in every run, an entry in the cache when a cleanup call ends, expired when it began, was inserted during the call |
| `AttributionCalls.ClearComplete` | crates/nettrap-attribution/src/engine.rs:149-151 | in every run, an entry in the cache when a clearing call ends was inserted during the call |
| `AttributionCalls.ReadingsTrue` | crates/nettrap-attribution/src/engine.rs:45-184 | every time a call works with is the clock at the step at which it read it |
| `AttributionCalls.HitsReadTheClock` | crates/nettrap-attribution/src/engine.rs:45-59 | the time of a hit is a clock reading of its call |
| `AttributionCalls.StartsReadTheClock` | crates/nettrap-attribution/src/engine.rs:45-107 | the timestamp of a computed attribution is a clock reading of its call |
| `DedupProofs.StepMatches` | crates/nettrap-cli/src/listener_runtime.rs:153-176 | a call keeps the set equal to the duplicate-free queue, and the queue the last 16384 keys logged in the window |
| `DedupProofs.RefinesWindow` | crates/nettrap-cli/src/listener_runtime.rs:153-176 | over every run, the bounded set answers as the full log of the window would |
| `DedupProofs.RunMatches` | crates/nettrap-cli/src/listener_runtime.rs:153-176 | after every run the set is the duplicate-free queue and the queue the last 16384 keys logged in the window |
| `DedupProofs.WindowExactly` | crates/nettrap-cli/src/listener_runtime.rs:157-161 | a call more than 60 seconds after the last reset starts over and is logged, and no other call starts over |
| `DedupProofs.AlwaysSpaced` | crates/nettrap-cli/src/listener_runtime.rs:153-176 | in the full log of a window no key is there again within 16384 loggings, whatever the calls |
| `DedupProofs.RepeatsFarApart` | crates/nettrap-cli/src/listener_runtime.rs:153-176 | two places of one key in the full log of a window have 16384 distinct other keys between them |
| `DedupProofs.LoggedAgainFarApart` | crates/nettrap-cli/src/listener_runtime.rs:153-176 | in every run, two calls of one window answered true with one key have at least 16384 distinct other keys answered true between them |
| `DedupProofs.OncePerWindow` | crates/nettrap-cli/src/listener_runtime.rs:153-176 | in a window of at most 16384 keys each key is logged exactly at its first call |
| `DedupProofs.ManyKeys` | crates/nettrap-cli/src/listener_runtime.rs:167-171 | with more keys than that, calls within one window that log a key twice |
| `DedupProofs.OnceIffFew` | crates/nettrap-cli/src/listener_runtime.rs:153-176 | all calls over a set of keys within one window are logged once per key if and only if the set has at most 16384 keys |
| `ConnectionDedups.ConnectionDedup.constructor` | crates/nettrap-cli/src/listener_runtime.rs:147-151 | a new object matches an empty window |
| `ConnectionDedups.ConnectionDedup.ShouldLog` | crates/nettrap-cli/src/listener_runtime.rs:153-176 | the new contents and the answer are those of the model |
| `HostFilter.EndpointsV4` | crates/nettrap-cli/src/host_filter.rs:201-216 | an IPv4 block of any size that holds a special address has one at an end |
| `HostFilter.EndpointsV6` | crates/nettrap-cli/src/host_filter.rs:201-216 | the same for IPv6, mapped special addresses included |
| `HostFilter.CidrExact` | crates/nettrap-cli/src/host_filter.rs:214-216 | testing the first and last address of a block decides whether any address in it is special |
| `HostFilter.Usable` | crates/nettrap-cli/src/host_filter.rs:266-278 | the filter on resolved addresses keeps exactly the addresses that are not special |
| `HostFilter.SortDedup` | crates/nettrap-cli/src/host_filter.rs:279-281 | the same addresses, strictly ascending |
| `HostFilter.CompileRefuses` | crates/nettrap-cli/src/host_filter.rs:113-146 | a block is refused if and only if it holds a special address, an address if and only if it is one, a name if and only if all its addresses are |
| `HostFilter.CompiledNeverSpecial` | crates/nettrap-cli/src/host_filter.rs:113-146 | no accepted rule matches a special address, in plain or mapped form |
| `HostFilter.MappedHostsAlike` | crates/nettrap-cli/src/host_filter.rs:28-60 | an IPv4 host and its mapped spelling match the same rules |
| `HostFilter.SpecialTurnedAway` | crates/nettrap-cli/src/host_filter.rs:67-82 | with a whitelist, a special address is not allowed unless its text is a listed name |
| `HostDecisions.ContainsExactly` | crates/nettrap-cli/src/host_filter.rs:40-42 | a block holds exactly the addresses with its leading bits |
| `HostDecisions.MatchesExactly` | crates/nettrap-cli/src/host_filter.rs:28-60 | an accepted rule matches exactly the hosts it speaks of: the leading bits, the address or the name, up to the mapped form |
| `HostDecisions.AllowedExactly` | crates/nettrap-cli/src/host_filter.rs:67-82 | a host is let in if and only if no blacklist rule speaks of it and, with a whitelist, a whitelist rule does |
| `SaturatingCounter.EveryRun` | crates/nettrap-cli/src/nbi.rs:53-62 | for any number of calls, any interleaving and any failed exchanges, after every step the counter is the saturated sum of the initial value and the committed amounts, each returned value is such a sum, and each finished call is committed exactly once |
| `SaturatingCounter.CommitsOfCalls` | crates/nettrap-cli/src/nbi.rs:53-62 | in every run what is committed for a call is the amount it was made with |
| `SaturatingCounter.RetryCommits` | crates/nettrap-cli/src/nbi.rs:57-60 | a call that lost the race commits at its next exchange unless another is faster again |
| `SaturatingCounter.OrderIrrelevant` | crates/nettrap-cli/src/nbi.rs:53-62 | runs that committed the same amounts in any order agree |
| `SaturatingCounter.SaturatingSum` | crates/nettrap-cli/src/nbi.rs:43-47 | the fold is the saturated sum |
| `SaturatingCounter.FoldAgrees` | crates/nettrap-cli/src/nbi.rs:43-62 | counting concurrently from zero and folding sequentially agree |
| `CommandWords.SplitCommandWords` | crates/nettrap-cli/src/windows_setup.rs:546-601 | the loop with look-ahead computes `Scan`, errors included |
| `CommandGrammar.WrittenLine` | crates/nettrap-cli/src/windows_setup.rs:546-601 | a line of words, each of unquoted, single-quoted and double-quoted parts in any mix, with any whitespace around and between, is split into exactly those words |
| `CommandGrammar.LineOutcome` | crates/nettrap-cli/src/windows_setup.rs:546-601 | a line gives its words if it ends outside quotes, is refused with the quote named if it breaks off inside one, and is refused for a control character wherever that stands, whitespace outside quotes aside |
| `CommandGrammar.EveryCommand` | crates/nettrap-cli/src/windows_setup.rs:546-601 | every command is such a line, and however it is read as one, splitting it comes to what that reading says: its words or the reason it is refused |
| `CommandWords.RoundTrip` | crates/nettrap-cli/src/windows_setup.rs:546-601 | quoting every word and splitting gives the words back, or is refused exactly when a word has a control character |
| `CommandWords.WordsPlain` | crates/nettrap-cli/src/windows_setup.rs:546-601 | no word that comes out holds a control character |
| `CommandWords.Requote` | crates/nettrap-cli/src/windows_setup.rs:546-601 | every accepted command has a quoted spelling that splits the same way |
| `CommandWords.ParseDnsFlushCommand` | crates/nettrap-cli/src/windows_setup.rs:530-543 | accepted exactly when the words are there and the first is not empty, with program and arguments the words; a splitting error is passed on, no words and an empty program have their own errors |
| `BoundedReader.ReadLimited` | crates/nettrap-cli/src/windows_setup.rs:472-510 | the outcome depends on the delivered bytes alone, not on how they were cut into reads: for every limit a vector can hold, the whole content if its length is at most the limit and a refusal otherwise; read failures, a vector that cannot grow and the unusable limit are reported |
| `BoundedReader.BufferIsPrefix` | crates/nettrap-cli/src/windows_setup.rs:492-505 | after every read the buffer is the longest prefix of what was read that the limit allows, and never longer than the limit |
| `BoundedReader.EndsAtEmptyRead` | crates/nettrap-cli/src/windows_setup.rs:488-491 | a read of no bytes ends the stream, whatever would follow |
| `BoundedReader.FailureReported` | crates/nettrap-cli/src/windows_setup.rs:488 | a failing read is reported and no content is returned |
| `BoundedReader.WholeOrRefused` | crates/nettrap-cli/src/windows_setup.rs:472-510 | over every way of cutting every content into reads: the whole content if and only if it is within the limit and fits a vector, a refusal if and only if it is over a limit that fits one, and never a part of the content |

## Left out

- Date expressions in trees: the formatter is one arbitrary function for a whole rendering, where the source reads the clock again for each `date` reference, and tree templates do not hold `date` references.
- Templates that are no printed tree: the text of a tree has no `{{` and does not end in `{`, and its names and defaults are free of braces; other templates are covered by the results on the single passes.
- Overflow of the attribution statistics: the counters are unbounded in the model, where the source wraps at 64 bits.
- The process lookup behind the attribution cache: its result is arbitrary.
- More than one clock reading within one call of the session tracker: each call takes one reading, non-decreasing from call to call. In the source `register`, `update_bytes` and `set_process` read the clock before they take the lock.
- Session calls in parallel: they are modelled one after another. In the source `get_process`, `get_destination_for_port`, `active_count` and `get_original_dest` release the lock between the cleanup and the lookup, so another call may change the table in between, and a session that expires in between is still answered.
- Sanitizing of process names and the JSON export of sessions: presentation only; the export sweeps the table as `ActiveCount` does.
- Removing the flows of the sessions a cleanup reports: the model ends with the list.
- The port forwarding table and the process filter.
- Seeding the virtual filesystem from a directory on disk; the texts of its default files are parameters.
- Locks of the virtual filesystem and the deduplicator: each operation holds its lock from start to end, so operations are modelled one after another.
- Parsing of addresses, ports and host names, and name resolution: host rules and hosts start from parsed values.
- The event collector around the saturating counter, its workers and sinks: input and output.
- How far a vector can grow: the bounded reader takes it as a parameter, at most the largest `isize`.
- Running the DNS flush command and joining the reader threads: process handling.
- HTTP handlers, the command line, logging setup, configuration defaults, packet capture and the protocol handlers.
