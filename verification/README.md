# Verification of the WebDAV server

This project models the parts of the WebDAV server whose correctness is hardest to see from
the code, and proves what the server relies on them for:

* the in-memory lock system and the way requests use it (`webdav/lock.go`, `webdav/webdav.go`);
* the file tree kept twice in DynamoDB, once as a path index and once as parent ids, and the
  conditional transactions on it (`awsfs`);
* the name space handling, the element stack and the text escaping of the XML encoder and
  decoder (`webdav/internal/xml`);
* the in-memory file system, its files, and the copying and walking of trees (`webdav/file.go`);
* the `If` header parser (`webdav/if.go`).

Code that changes state in place is modelled by classes whose methods are proved against
functions on values; the properties are then proved about those functions, for all inputs,
all runs and all interleavings.

| file | part of the server |
|---|---|
| `Wrappers.dfy` | optional values |
| `Paths.dfy` | cleaned names as strings and as sequences of components |
| `Decimal.dfy` | printing counters (lock tokens, invented prefixes) |
| `LockTable.dfy` | the lock system as a table from tokens to locks |
| `ExpiryHeap.dfy` | the heap of expiring locks, with back-indices in its nodes |
| `MemLS.dfy` | `memLS`: names with reference counts, tokens, heap |
| `LockLaws.dfy` | what each call does to each lock, and how long locks live |
| `LockProtocol.dfy` | runs of the lock system, and requests that use it |
| `RequestHandler.dfy` | `lock` and `confirmLocks` |
| `RequestsInFlight.dfy` | `confirmLocks` with the calls of others in between |
| `IfHeader.dfy` | the `If` header: lexer, parser, grammar, printer |
| `Store.dfy` | the two tables and the transactions on them |
| `StoreTree.dfy` | agreement of index and tree, operation by operation |
| `StoreView.dfy` | the file system the tables stand for, and what the operations do to it |
| `StoreProtocol.dfy` | requests whose reads and commits interleave |
| `StoreAgreement.dfy` | when they keep index and tree in agreement |
| `DeadProps.dfy` | the loops of `Patch` |
| `Server.dfy` | the metadata store and the server as objects |
| `Walk.dfy` | `walkFS` over the store |
| `Copy.dfy` | `copyFiles` over the `FileSystem` contract |
| `MemFile.dfy` | open files of the in-memory file system |
| `MemFS.dfy` | the tree of the in-memory file system, and `moveFiles` |
| `Utf8.dfy`, `XmlText.dfy` | bytes, runes, and the escaping of text |
| `XmlTypes.dfy`, `XmlNames.dfy` | tokens; names, and how they are joined and split |
| `XmlRaw.dfy` | `rawToken`: from bytes to tokens |
| `XmlGrammar.dfy` | tags and texts as a document may spell them, and how they are read |
| `XmlErrors.dfy` | markup that is bad, and markup that is cut off |
| `XmlSpelling.dfy` | from tokens to bytes, and when they are read back |
| `XmlPrinter.dfy`, `XmlEncoder.dfy` | the encoder, as functions and as an object |
| `XmlLaws.dfy`, `XmlDirective.dfy` | what the encoder declares, accepts and writes |
| `XmlNesting.dfy`, `XmlRuns.dfy` | elements undo what they declare, token by token and over runs |
| `XmlDecoder.dfy`, `XmlReader.dfy` | the decoder, as functions and as an object |
| `XmlRoundTrip.dfy` | what is encoded is decoded, byte for byte |
| `XmlLosses.dfy` | what is not |
| `XmlFence.dfy` | nesting, `Skip`, and the fence around an element |
| `XmlUsers.dfy` | fences inside fences |

`dafny verify dfyconfig.toml` checks all of it.

## What the proofs found

Each of these is a place where the code does not do what its comments or callers suggest.
The condition under which it does is proved as well.

* A list of the `If` header that carries a resource tag is checked and confirmed for the tag's
  path, not for the path of the request, so the request can go ahead without a claim on what it
  changes: `RequestHandler.TagDecidesWhatIsClaimed`. It has the claim exactly when the list stands
  for that path or the destination is that path, and always if there are no tags:
  `RequestsInFlight.SourceClaimedExactly`, `RequestsInFlight.UntaggedClaimsSource`. Exactly when
  the locks taken cover it: `RequestHandler.TagCoversSource`.
* `Mkdir` and `Create` check that the path is free in an earlier read than the one that
  `AddEntry` commits against. Two requests for the same path can both succeed, and the first
  entry is left without a path: `StoreProtocol.TwoMkdirsLeaveAnOrphan`. Exactly when the path is
  taken by the time of the commit: `StoreProtocol.AddKeepsAllIndexed`. Nor is the parent checked
  again, so an entry can be added below a directory that is gone:
  `StoreAgreement.RemovedParentIsMissed`. Exactly when a commit keeps index and tree in agreement:
  `StoreAgreement.CommitAgreesExactly`; for a whole interleaving,
  `StoreAgreement.InterleavingAgrees`.
* `Create` and `Mkdir` accept a file as the parent, and `Rename` accepts an existing target, a
  target inside the source, and a file as the new parent. Index and tree agree afterwards exactly
  when none of these is the case: `StoreTree.AddExact`, `StoreTree.RenameExact`.
* `Patch` keeps properties under the name space and the local name joined with a colon, so
  different names can share a key: `DeadProps.KeysCollide`. Exactly when two do:
  `DeadProps.KeysMeetExactly`; exactly when another name with the same key exists:
  `DeadProps.KeyIsSharedExactly`. Without colons in local names none do: `DeadProps.KeyInjective`.
* After a `Patch` that failed because a property could not be marshalled, the open file keeps the
  edits before it, and another `Patch` on it commits them: `Server.FailedEditsAreCommitted`. Exactly
  the edits up to that one are kept: `DeadProps.PatchedExactly`.
* A wrong end tag that closes a fenced element without name space declarations passes for the
  end of that element: `popEOF` succeeds, and `unmarshalInterface` reports no error:
  `XmlFence.WrongEndPasses`. This is the only exception: `XmlFence.FenceIsExact`.
* When a user leaves its element unread, the fence of the element stays on the stack. If the user
  that asked for it goes on after the error, `popEOF` takes that fence for its own. Exactly when it
  succeeds then: `XmlFence.LeftFenceIsTaken`.
* A start tag that is refused for what its attributes declare is not written, but counts as open,
  so its end tag is accepted and written: `XmlLosses.RefusedStartIsClosed`. A caller that goes on
  after refusals is sure to write balanced documents exactly when no start tag was refused for that:
  `XmlRuns.BalancedExactly`.
* An element called `xmlns` in a default name space loses its name space on the way through
  encoder and decoder, a local name or a declared prefix with a colon is split at the wrong place,
  and a name space that is given the prefix xml becomes the XML name space:
  `XmlLosses.XmlnsElementIsLost`, `XmlLosses.ColonIsLost`, `XmlLosses.ColonInPrefixIsLost`,
  `XmlLosses.XmlPrefixIsLost`.
  Exactly when names come back: `XmlRoundTrip.ElementNameExactly`, `XmlRoundTrip.AttrNameExactly`.
  A local name that is no XML name, which the encoder accepts too, makes a tag that is not read
  back: `XmlLosses.SpaceIsLost`; exactly these tags are not: `XmlSpelling.TagReadsExactly`.
* Values, URLs and with them the name spaces of elements, and texts come back with a replacement
  rune for everything that XML has no room for; texts next to each other come back as one, and
  empty ones not at all: `XmlLosses.ControlIsReplaced`, `XmlLosses.TextsAreJoined`. Exactly when
  tokens come back as they were: `XmlRoundTrip.ComeBackExactly`.
* Markup that is cut off inside a rune of an attribute value is reported as bad, not as cut off:
  `XmlErrors.CutRuneIsMended`. After an ASCII byte bad markup is never mended by what follows:
  `XmlErrors.BadStaysBad`; and what is reported as cut off can always go on:
  `XmlErrors.CutGoesOn`.
* The encoder accepts instructions and directives that the decoder does not give back, such as a
  directive with a comment in it: `XmlLosses.CommentInDirectiveIsLost`. Exactly which come back:
  `XmlSpelling.ProcInstReadsExactly`, `XmlSpelling.DirectiveReadsExactly`.
* `moveFiles` removes the destination before it renames, so a move that fails afterwards leaves
  the destination removed, exactly when it was there, was not the root and might be overwritten:
  `MemFS.MoveFiles`, `MemFS.FailedMoveKeepsExactly`. A move from below the destination then
  destroys its own source: `MemFS.MoveAboveItself`. So does a move to itself, and reports success.
* Renaming a file over a directory in the in-memory file system discards the whole directory,
  full or empty; the check for an empty target is only made when a directory is renamed:
  `MemFS.FileOverDirectory`. Only this discards anything below a target:
  `MemFS.RenameDiscardsExactly`.
* A write of no bytes past the end of a file extends the file with zeros. It leaves the contents
  alone exactly when the position is not past the end: `MemFile.EmptyWriteExactly`.

## Model

| member | source | states |
|---|---|---|
| Paths.WalkToRoot | webdav/lock.go:352-366 | calls the callback on the strings of the path and of each ancestor, nearest first, up to the first for which it returns false; true exactly when it never does |
| Paths.VisitsAreAncestors | webdav/lock.go:352-366 | those strings are the renderings of all prefixes of the path, each once |
| Paths.CutLastIsParent | webdav/lock.go:358-363 | cutting the string at its last slash is dropping the last component, and what is cut off is that component |
| Paths.PrefixTestIsBelow | webdav/lock.go:192-210 | equality or the prefix test with `root + "/"` holds of two cleaned strings exactly when one path is at or below the other |
| Paths.RenderInjective | webdav/file.go:23-28 | two cleaned strings are equal exactly when they name the same path |
| Paths.ReplaceIsRebase | awsfs/rename.go:44-52 | replacing the first occurrence of a directory in a key at or below it is moving the key to the same place at or below the new directory |
| Paths.CleanIsCanonical | webdav/file.go:23-28 | cleaning a cleaned string gives back the path it renders |
| Paths.CleanIdempotent | webdav/file.go:23-28 | cleaning twice is cleaning once, for every name |
| Paths.CleanOneMore | webdav/file.go:23-28 | one more component after any name, cleaned or not: an empty one or "." changes nothing, ".." goes to the parent or stays at the root, and any other goes one down |
| Paths.DownAndUp | webdav/file.go:23-28 | going down and up again from any path is staying, and going up from the root too |
| Decimal.ItoaInjective | webdav/lock.go:133-136 | different counters print as different tokens |
| LockTable.NextTokenIsNew | webdav/lock.go:133-136 | the next token has not been generated before, and is not the empty token |
| LockTable.ClearUpwardsIsNoneAbove | webdav/lock.go:291-313 | looking at the name and its ancestors only, one finds exactly whether an infinite-depth lock is at or above the name |
| LockTable.ConflictIsOverlap | webdav/lock.go:291-313 | two locks conflict exactly when some resource would be covered by both |
| LockTable.CanCreateIsNoOverlap | webdav/lock.go:291-313 | a lock can be created exactly when no live lock covers a resource that it would cover |
| LockTable.CreateKeepsWellformed | webdav/lock.go:232-250 | LOCK keeps it that no resource is covered by two live locks and that every token was generated |
| LockLaws.CreateExactly | webdav/lock.go:232-250 | Create is refused exactly when a live lock covers a resource that the new one would; otherwise the lock is all that was asked for, under a token never used before, and is there until exactly its duration has passed; the other live locks, and no others, are left as they were |
| LockLaws.RefreshExactly | webdav/lock.go:252-273 | Refresh succeeds exactly on a live lock that is not held; the lock has the duration asked for, is otherwise what it was, and is there until exactly that duration has passed; unknown and held tokens have an error each; the other live locks, and no others, are left as they were |
| LockLaws.UnlockExactly | webdav/lock.go:275-289 | Unlock removes exactly a live lock that is not held, and fails on unknown and held tokens with an error each; the other live locks, and no others, are left as they were |
| LockLaws.LookupTakesFirst | webdav/lock.go:192-210 | lookup answers with the first condition that grants the resource |
| LockLaws.ConfirmExactly | webdav/lock.go:147-185 | a successful Confirm has taken exactly the first grant for each name, and releasing it leaves exactly the locks that were live; a failed one has its error and leaves them too |
| LockLaws.CollectIsLive | webdav/lock.go:138-145 | collecting leaves exactly the locks that are held, have no end, or have not come to it |
| LockLaws.LivesExactly | webdav/lock.go:138-289 | a free lock that nobody refreshes, unlocks or presents lives, unchanged, through any run of calls until its time is up, and not longer |
| LockLaws.LockLivesExactly | webdav/lock.go:232-250 | so from LOCK on, for exactly the duration given |
| LockLaws.RefreshedLivesExactly | webdav/lock.go:252-273 | and from a refresh on, for exactly the new one |
| ExpiryHeap.RootIsLeast | webdav/lock.go:138-145 | in heap order the root expires first, so looking at the root alone is enough |
| ExpiryHeap.Heap.Swap | webdav/lock.go:396-400 | exchanges two elements and keeps both back-indices right |
| ExpiryHeap.Heap.SiftUp | webdav/lock.go:386-415 | restores heap order of the prefix when only one element may be too small for its place |
| ExpiryHeap.Heap.SiftDown | webdav/lock.go:386-415 | restores heap order when only one element may be too large; otherwise says that nothing moved and why sifting up is enough |
| ExpiryHeap.Heap.Push | webdav/lock.go:402-406 | adds the node; order and every back-index hold again |
| ExpiryHeap.Heap.MoveToEnd | webdav/lock.go:408-415 | brings any element to the end and leaves the rest in heap order |
| ExpiryHeap.Heap.Remove | webdav/lock.go:408-415 | takes out exactly the node at the index, marks it as in no heap, and keeps order and back-indices |
| MemLS.BumpAllCounts | webdav/lock.go:315-334 | creating a node raises the count of the name and of each ancestor by one, and of nothing else |
| MemLS.DropAllCounts | webdav/lock.go:336-350 | removing one lowers those counts by one; a name whose count reaches zero goes |
| MemLS.CountUp | webdav/lock.go:315-334 | if every count is the number of locks at or below its name, it is so again after a lock is added |
| MemLS.CountDown | webdav/lock.go:336-350 | and after one is removed |
| MemLS.MemLS.constructor | webdav/lock.go:115-121 | an empty lock system represents the empty table |
| MemLS.MemLS.CreateNode | webdav/lock.go:315-334 | makes or counts the nodes of the name and all its ancestors; other names keep their nodes |
| MemLS.MemLS.DropNames | webdav/lock.go:336-350 | counts the name and its ancestors down and forgets exactly the ones that reach zero |
| MemLS.MemLS.RemoveNode | webdav/lock.go:336-350 | takes one lock out of the table, the names, the tokens and the heap together |
| MemLS.MemLS.NoneExpired | webdav/lock.go:138-145 | when the root of the heap is not due, no lock that is not held is |
| MemLS.MemLS.CollectExpired | webdav/lock.go:138-145 | removes exactly the locks that are not held, have a duration and are due; it terminates |
| MemLS.MemLS.NameTells | webdav/lock.go:291-313 | a name is known exactly when a lock is at or below it, and its node carries a token exactly when one is at it |
| MemLS.MemLS.CanCreateAt | webdav/lock.go:291-313 | the walk to the root decides whether the table has no conflicting lock |
| MemLS.MemLS.LookupNode | webdav/lock.go:192-210 | finds the node of the first condition whose lock is free and covers the name; null if none |
| MemLS.MemLS.Hold | webdav/lock.go:212-220 | the lock becomes held and leaves the heap; nothing else changes |
| MemLS.MemLS.Unhold | webdav/lock.go:222-230 | the lock is free again and back in the heap if it has a duration |
| MemLS.MemLS.Create | webdav/lock.go:232-250 | answer and new table are those of the table's Create, with names, counts, tokens and heap in agreement |
| MemLS.MemLS.Refresh | webdav/lock.go:252-273 | answer and new table are those of the table's Refresh, of which LockLaws.RefreshExactly says what it does, with names, counts, tokens and heap in agreement |
| MemLS.MemLS.Unlock | webdav/lock.go:275-289 | answer and new table are those of the table's Unlock, including its errors |
| MemLS.MemLS.Confirm | webdav/lock.go:147-185 | answer and new table are those of the table's Confirm; the nodes kept for release carry the claimed tokens |
| MemLS.MemLS.Release | webdav/lock.go:174-184 | the function Confirm returns frees exactly the claimed locks |
| LockProtocol.RunIsExclusive | webdav/lock.go:147-313 | after any run of the five operations at most one live lock covers any resource |
| LockProtocol.ConfirmedLockStays | webdav/lock.go:147-289 | a confirmed lock stays, unchanged, through any run that does not release it |
| LockProtocol.LookupIsFirst | webdav/lock.go:192-210 | lookup answers with a presented, free, covering lock, and with none only if there is none |
| LockProtocol.ConfirmSucceedsWhenGranted | webdav/lock.go:147-185 | Confirm succeeds exactly when each named resource is covered by a free live lock whose token was presented |
| LockProtocol.ConfirmTakes | webdav/lock.go:147-185 | then it holds presented locks that cover both names, and changes nothing else |
| LockProtocol.ClaimsAreExclusive | webdav/webdav.go:84-170 | in a consistent system at most one request in flight has a claim on a resource |
| LockProtocol.ActKeepsConsistent | webdav/webdav.go:84-170 | every action of clients and handlers keeps the system consistent, if clients present only tokens they were given |
| LockProtocol.RunKeepsConsistent | webdav/webdav.go:84-170 | so does any interleaving of such actions |
| LockProtocol.NoTwoClaims | webdav/webdav.go:84-170 | after any run of such actions, two requests with a claim on the same resource are the same request |
| LockProtocol.ClaimPersists | webdav/webdav.go:84-170 | an action of a client or handler leaves every claim of a request that it does not give up for that request |
| LockProtocol.ClaimPersistsThrough | webdav/webdav.go:84-170 | so does any run: a claim lasts until its own release |
| LockProtocol.EmptySystemIsConsistent | webdav/lock.go:115-121 | the system starts consistent |
| RequestHandler.TempLocksExact | webdav/webdav.go:101-132 | without If header a request gets its temporary locks exactly when both names are free of live locks and differ |
| RequestHandler.TempLocksUndo | webdav/webdav.go:101-132 | a failed request leaves no lock behind, and giving the locks back restores the live locks |
| RequestHandler.TryListsExact | webdav/webdav.go:134-170 | the first list that grants both paths, or has a bad tag, decides; otherwise the request fails with 412 |
| RequestHandler.AnswersExactly | webdav/webdav.go:99-170 | confirmLocks refuses with 423, without a header, exactly when a name is not free or both are the same; with 400 a header that the grammar does not derive; with 412 one no list of which decides; and otherwise the first list that holds confirms it, or the first with a bad tag refuses it with its status |
| RequestHandler.TagDecidesWhatIsClaimed | webdav/webdav.go:139-165 | a tagged list that grants leaves the path of the request itself without a claim (an instance) |
| RequestHandler.ReleaseTakesBack | webdav/webdav.go:124-132 | giving back temporary locks at any later time, into whatever table there is then, takes away these locks and nothing else |
| RequestHandler.TagCoversSource | webdav/webdav.go:139-165 | the locks taken for a list cover the source of the request exactly when the lock found for the path of the list, or the one for the destination, does |
| RequestsInFlight.TempLocksClaim | webdav/webdav.go:101-132 | without If header, with any calls of others between its own, confirmLocks is an allowed run; it ends with both names claimed, or with what the request had before |
| RequestsInFlight.ListsClaim | webdav/webdav.go:138-170 | with one, so is the loop over the lists; when a list is confirmed, the request holds locks for the destination and for the path that list stands for |
| RequestsInFlight.ConfirmLocksClaims | webdav/webdav.go:99-170 | an honest request among others that passes confirmLocks has claimed both its names, or, with a header, the destination and the path that a list of the header stands for; one that is refused has what it had |
| RequestsInFlight.SourceClaimedExactly | webdav/webdav.go:139-165 | when a header is confirmed, the request has claimed its own source exactly when the confirmed list stands for that path, or the destination is that path |
| RequestsInFlight.HeaderClaimsSource | webdav/webdav.go:139-165 | if every list of a header is for the source of the request, or the destination is the source, a header that is confirmed has claimed the source |
| RequestsInFlight.UntaggedClaimsSource | webdav/webdav.go:139-165 | a header without tags always claims the source |
| RequestsInFlight.AloneIsHandler | webdav/webdav.go:99-170 | when nobody else acts, that is what the handler does |
| RequestHandler.Handler.LockFor | webdav/webdav.go:84-97 | a zero-depth lock without end for the handler, with its status |
| RequestHandler.Handler.TakeTempLocks | webdav/webdav.go:101-132 | takes both locks or none, as the specification says |
| RequestHandler.Handler.ConfirmLocks | webdav/webdav.go:99-170 | outcome and lock table are those of the specification, for any header |
| RequestHandler.Handler.ConfirmLists | webdav/webdav.go:138-170 | the loop over the lists has the outcome of the specification, and the kept nodes belong to the claim |
| RequestHandler.Handler.Release | webdav/webdav.go:124-132 | gives back exactly what was taken |
| IfHeader.ParserIsGrammar | webdav/if.go:28-120 | the parser returns a header exactly when the lexemes derive it in the grammar of section 10.4.2 of RFC 4918 |
| IfHeader.ConditionExact | webdav/if.go:105-120 | a condition is read off exactly the lexemes that spell it |
| IfHeader.LexOne | webdav/if.go:133-173 | every lexeme but the end shortens the string, which is why every parsing loop ends |
| IfHeader.Lex | webdav/if.go:133-173 | the scanning loops find the first lexeme of the specification and what remains |
| IfHeader.LexKeepsEnd | webdav/if.go:133-173 | what remains of a trimmed header is trimmed, so the string runs out exactly when its lexemes do |
| IfHeader.LexemesAreSpelled | webdav/if.go:133-173 | with any blanks before, between and after them, the lexemes of a string are those that it spells: words, brackets with their text, parentheses, and Not |
| IfHeader.UnclosedIsError | webdav/if.go:160-173 | a bracket that is not closed is an error, and all there is |
| IfHeader.TrimExactly | webdav/if.go:28-30 | trimming takes the spaces off both ends, and nothing else |
| IfHeader.ReadCondition | webdav/if.go:105-120 | on the string, does what the parser on lexemes does |
| IfHeader.ReadList | webdav/if.go:83-103 | on the string, does what the parser on lexemes does, and terminates |
| IfHeader.ReadNoTagLists | webdav/if.go:40-52 | on the string, does what the parser on lexemes does, and terminates |
| IfHeader.ReadTaggedLists | webdav/if.go:54-81 | on the string, does what the parser on lexemes does, and terminates |
| IfHeader.ReadIfHeader | webdav/if.go:28-38 | parses the trimmed header |
| IfHeader.PrintParse | webdav/if.go:28-173 | printing any header whose lists are all tagged or all untagged, and parsing it, gives the header back |
| Server.MetadataStore.constructor | awsfs/metadata.go:29-85 | empty tables become the initial state: one root entry, indexed at "/" |
| Server.MetadataStore.GetEntry | awsfs/metadata.go:124-147 | the entry with the id, or the error for none |
| Server.MetadataStore.GetEntriesByParentID | awsfs/metadata.go:149-180 | exactly the entries with that parent id, each once |
| Server.MetadataStore.AddEntry | awsfs/metadata.go:184-240 | entry and index item are written together, on the version read, or nothing is |
| Server.MetadataStore.UpdateEntry | awsfs/metadata.go:242-275 | size, time and properties are written on the version read, or nothing is |
| Server.MetadataStore.UpdateEntryName | awsfs/metadata.go:277-339 | name, parent and index are written together on both versions read, or nothing is |
| Server.MetadataStore.DeleteEntries | awsfs/metadata.go:341-389 | entries and index keys go together on the version read, or nothing does |
| Server.Server.Mkdir | awsfs/mkdir.go:12-50 | new state or error are those of the operation on the tables, of which StoreView.MkdirExactly says what it does; an error changes nothing |
| Server.Server.Create | awsfs/create.go:13-81 | new state or error are those of the operation on the tables, of which StoreView.CreateExactly says what it does; an error changes nothing |
| Server.Server.RemoveAll | awsfs/remove.go:9-38 | the loop drops exactly the keys at or below the path and collects exactly their ids |
| Server.Server.Rename | awsfs/rename.go:10-59 | for every order of the iteration, the state or error specified; an error changes nothing |
| Server.Server.Stat | awsfs/stat.go:8-35 | the entry at the path, or the error |
| Server.Server.OpenFile | awsfs/open.go:56-104 | the entry at the path and, for a file, the object its contents come from, or the error |
| Server.Server.Readdir | awsfs/open.go:130-149 | exactly the entries under a directory, one item for each with its name, size, time and kind; none for a file |
| Server.Server.Patch | awsfs/open.go:178-204 | the map of the open file is edited, up to the first edit that fails, and written if all edits are made and the entry is still in the version that was opened; an error changes nothing in the store |
| Server.FailedEditsAreCommitted | awsfs/open.go:178-204 | after a Patch that failed in an edit, the next one on the same open file commits what both have edited |
| Server.SecondPatchIsRefused | awsfs/open.go:178-204 | after one that was committed, the next one on the same open file is refused |
| DeadProps.EditProps | awsfs/open.go:178-196 | the two loops make the edits of all patches in order, name every property once, and stop at one that cannot be marshalled, with the map as it is then |
| DeadProps.EditsInOrder | awsfs/open.go:178-196 | the edits of a patch come after those of the patches before it, one for each of its properties in order, and remove or set as the patch says |
| DeadProps.PatchedExactly | awsfs/open.go:178-196 | afterwards each property is as the last edit of its key that was made left it, set or gone, and one that was not edited is as read; all edits are made up to the first that sets what cannot be marshalled |
| DeadProps.KeysMeetExactly | awsfs/open.go:187-187 | two different names share a key exactly when the space of one goes on with a colon and with what the local name of the other has before one of its colons |
| DeadProps.KeyIsSharedExactly | awsfs/open.go:187-187 | some other name has the same key exactly when there is a colon in the name, and one with a longer space exactly when there is one in its local part |
| DeadProps.KeyInjective | awsfs/open.go:187-187 | two names whose local parts have no colon share a key exactly when they are equal |
| DeadProps.KeysCollide | awsfs/open.go:187-187 | the property a:b of DAV: and the property b of DAV::a share one (an instance) |
| StoreTree.PathIsTreePath | awsfs/metadata.go:184-240 | where index and tree agree, a path is indexed with an id exactly when names and parent ids spell it from that id to the root |
| StoreTree.InitialAgrees | awsfs/metadata.go:29-85 | they agree after Init |
| StoreTree.AddExact | awsfs/metadata.go:184-240 | adding a child keeps the agreement exactly when its parent is a directory |
| StoreTree.StaleAddExact | awsfs/metadata.go:184-240 | an entry made from an earlier reading keeps the agreement exactly when, at the commit, its path is free and its parent directory is still at the parent path |
| StoreTree.UpdateKeeps | awsfs/metadata.go:242-275 | updating contents or properties keeps it |
| StoreTree.RemoveKeeps | awsfs/remove.go:9-38 | removing takes the subtree out of index and table and leaves everything else, in agreement |
| StoreTree.RenamedExactly | awsfs/rename.go:37-53 | the rewritten index maps each path below the target to what was at the same place below the source, drops the source, and keeps the rest, for every complete order of the iteration |
| StoreTree.RenameKeeps | awsfs/rename.go:10-59 | a rename in its domain keeps the agreement and carries the whole subtree and nothing else |
| StoreTree.RenameExact | awsfs/rename.go:10-59 | a rename that goes through keeps the agreement exactly when the target is absent, not inside the source, and under a directory |
| StoreTree.OpKeeps | awsfs/fs.go:16-49 | each operation in its domain keeps the agreement |
| StoreTree.RunAgrees | awsfs/fs.go:16-49 | so does any sequence of them |
| StoreTree.MoveKeysValues | awsfs/rename.go:37-53 | rewriting the index makes up no ids, and leaves the root alone |
| StoreView.MkdirExactly | awsfs/mkdir.go:12-50 | Mkdir fails with its errors exactly where something is or the parent is not there; otherwise the entry at the path is a directory of size 0, modified now, without properties, any one name below it is again in the domain of Mkdir and Create, and every other entry and key is as it was |
| StoreView.CreateExactly | awsfs/create.go:13-81 | Create makes, where nothing is, a file with the size and time given and no properties; where something is, it gives the entry a size and a time and leaves its kind, name, parent and properties; every other entry and key is as it was; it fails exactly where the parent is not there |
| StoreView.StaleIsRefused | awsfs/metadata.go:184-389 | a commit is refused with a conflict exactly when the reference or entry it was made from has changed since, or the entry is gone |
| StoreView.PatchSeen | awsfs/open.go:178-204 | Patch changes the properties of the node seen at the path, and nothing else that is seen |
| StoreView.RemoveAllSeen | awsfs/remove.go:9-38 | RemoveAll takes what is seen at or below the path, and nothing else |
| StoreView.RenameSeen | awsfs/rename.go:10-59 | at or below the new name is seen what was seen at the same place at or below the old one, where nothing is seen any more; all else is seen as it was |
| StoreView.OpSeen | awsfs/fs.go:16-49 | in its domain each operation on the tables is refused with the same error, or has the same effect on what is seen, as on a tree without tables |
| StoreView.EffectUnique | awsfs/fs.go:16-49 | what an operation leaves of a tree is determined |
| StoreView.RunSeen | awsfs/fs.go:16-49 | any run on the tables in the domain does to the tree that is seen what the operations do to a tree |
| StoreView.StatSees | awsfs/stat.go:8-35 | Stat answers with the name and the node of what is seen at the path, with an error when nothing is, and with another for a path whose entry is gone |
| StoreView.ReaddirSees | awsfs/open.go:130-149 | reading a directory answers with exactly what is seen one below it: name, size, time and kind |
| StoreProtocol.StartIsSafe | awsfs/metadata.go:29-85 | the store is safe after Init: indexed ids have entries, no two paths share an id, "/" maps to the root entry |
| StoreProtocol.MkdirAlone | awsfs/mkdir.go:12-50 | when nothing comes in between, the steps of the request do what the operation as a whole does, or nothing |
| StoreProtocol.CreateAlone | awsfs/create.go:13-81 | the same |
| StoreProtocol.RemoveAlone | awsfs/remove.go:9-38 | the same |
| StoreProtocol.RenameAlone | awsfs/rename.go:10-59 | the same |
| StoreProtocol.PatchAlone | awsfs/open.go:178-204 | the same |
| StoreProtocol.ReadKeepsSafe | awsfs/metadata.go:102-147 | beginning a request, reading for it, and giving it up keep that |
| StoreProtocol.CommitKeepsSafe | awsfs/metadata.go:184-389 | so does every commit |
| StoreProtocol.InterleavingIsSafe | awsfs/metadata.go:184-389 | so does every interleaving of requests |
| StoreProtocol.CommitIsCurrent | awsfs/metadata.go:184-389 | a commit applies its change to exactly the current index, one version on, and overwrites an entry only for a writer that read its current version |
| StoreProtocol.NoChangeIsLost | awsfs/metadata.go:184-389 | over any interleaving the index is the first one with all committed changes applied in order, and the version counts them |
| StoreProtocol.DeletedStaysDeleted | awsfs/metadata.go:341-389 | a deleted entry is never brought back |
| StoreProtocol.AddKeepsAllIndexed | awsfs/metadata.go:184-240 | a commit of AddEntry leaves every entry with a path exactly when its path is free at the time |
| StoreProtocol.TwoMkdirsLeaveAnOrphan | awsfs/mkdir.go:12-50 | two interleaved requests that make the same directory leave an entry without a path (an instance) |
| StoreAgreement.CommitAgreesExactly | awsfs/metadata.go:184-389 | a commit of any request, over any interleaving, keeps index and tree in agreement exactly when it fits the state it finds |
| StoreAgreement.InterleavingAgrees | awsfs/metadata.go:184-389 | over an interleaving whose commits fit, paths are indexed exactly as the tree spells them, and the table holds exactly the indexed ids |
| StoreAgreement.RemovedParentIsMissed | awsfs/mkdir.go:12-50 | a directory can be removed while one is made in it: every entry has a path, and index and tree disagree (an instance) |
| Walk.WalkFS | webdav/file.go:758-802 | visits what is at or below the name within the depth and behind no skipped directory, each once, parents first, in whatever order listings come; a path is left out exactly when a failure, or SkipDir at a file of a directory above it, has come before it; reports the last answer, if it is a failure or SkipDir at the name or at a file directly below it |
| Walk.TameVisitsAll | webdav/file.go:758-802 | if the walk function does not fail and skips only directories, nothing is left out |
| Walk.WalksEverything | webdav/file.go:758-802 | if nothing is skipped: every key at or below the name, at depth 1 the name and its children, at depth 0 the name |
| Walk.AnswerExactly | webdav/file.go:758-802 | walkFS answers with a failure exactly if the walk function has failed somewhere, and with SkipDir exactly if the walk has ended with that answer at a file that is the name itself or directly below it |
| Walk.Children | awsfs/open.go:130-149 | the listing by parent id names exactly the children in the index, each once |
| Walk.ListingIsExact | awsfs/metadata.go:149-180 | entries with the id of a directory as parent id are exactly the index keys one below it |
| Walk.JoinNameIsChild | webdav/file.go:785-790 | joining directory and name by path.Join is appending a component |
| Copy.CopyFiles | webdav/file.go:673-751 | on success the destination is a copy in names, kinds and contents, and the status tells created from replaced; whatever happens nothing outside it changes; without leave to overwrite nothing that exists does. When the file system has no failures of its own: success exactly when the source is there, the destination is absent or may be overwritten, its parent is a directory, and nothing at or below the source is too deep; 404 exactly without a source; 412 exactly when the destination may not be overwritten; 409 and 403 exactly for a file and a directory without a parent; 500 exactly when something is too deep |
| Copy.CopyChildren | webdav/file.go:720-735 | after each child the destination has exactly the children copied so far |
| Copy.PartialDone | webdav/file.go:720-735 | when all listed children are copied, the directory is |
| MemFile.Node.Stretch | webdav/file.go:596-602 | room to spare is cleared before it becomes part of the file |
| MemFile.Node.Append | webdav/file.go:610-614 | the bytes are appended, with or without a new buffer |
| MemFile.File.Write | webdav/file.go:581-617 | the file is the old one with the data laid over it at the position, holes filled with zeros, and the position behind the data; a directory is refused |
| MemFile.File.Read | webdav/file.go:514-526 | the bytes at the position, as many as fit and there are, and the position behind them; the end and a directory are reported |
| MemFile.File.Seek | webdav/file.go:555-575 | the position asked for, or none and the old one if that is negative |
| MemFile.RunOn | webdav/file.go:514-617 | any run of the three on files that share a node does what the specification says on one byte sequence |
| MemFile.RunIsLastWritten | webdav/file.go:514-617 | after any run, each byte is the one last written there, or was there at first, or is zero; the file reaches as far as anything was written |
| MemFile.EmptyWriteExactly | webdav/file.go:581-617 | a write of no bytes leaves the contents alone exactly when the position is not past the end |
| MemFile.ReadsBack | webdav/file.go:514-617 | what one file writes, another reads |
| MemFile.SeeksExactly | webdav/file.go:555-575 | seeking by nothing from the position stays, seeking to the end answers the length of the content and a read then moves nothing, k bytes before it a read of k bytes comes to it, seeks add up, and one that would come out before the start, or in no known way, is an error and moves nothing |
| MemFS.FileSystem.constructor | webdav/file.go:133-141 | a root directory and nothing else |
| MemFS.FileSystem.FindNode | webdav/file.go:180-252 | the loop over the name gives the parent and the last component, or the error of the first ancestor that is missing or a file |
| MemFS.FindIsParent | webdav/file.go:231-252 | find succeeds exactly when the parent is a directory of the tree |
| MemFS.FindErrorsExactly | webdav/file.go:180-252 | it fails with one error exactly when a file is in the way, and with the other exactly when nothing but a missing directory is |
| MemFS.FileSystem.Mkdir | webdav/file.go:254-275 | adds one new directory at the path, or changes nothing, with the answer specified |
| MemFS.FileSystem.OpenFile | webdav/file.go:277-335 | opens or creates exactly the node at the path, empties it if asked to, and lists its children; no other file changes |
| MemFS.OpenExactly | webdav/file.go:277-335 | the root opens for reading alone, what is there unless it is to be new, what is not there if it is to be created in a directory, and nothing with the flags that are not supported; each error exactly for its reason |
| MemFS.FileSystem.RemoveAll | webdav/file.go:337-351 | takes away exactly what is at or below the path |
| MemFS.FileSystem.Rename | webdav/file.go:353-402 | afterwards every lookup at or below the new name is the old lookup at the same place below the old one, the old name is gone, and every other lookup is as it was; the tree is a tree; errors change nothing |
| MemFS.RenameExactly | webdav/file.go:353-402 | Rename succeeds exactly onto the same name, or from something that is not the root or above the target to a place in a directory, and of a directory over nothing or an empty one; the errors for a directory over a file and over one that is not empty exactly then |
| MemFS.FileSystem.Stat | webdav/file.go:404-420 | the node at the path, or the error |
| MemFS.MovedKeepsTree | webdav/file.go:353-402 | moving one entry between children maps moves the subtree and keeps every node on one path |
| MemFS.InsideItself | webdav/file.go:357-364 | the prefix test on the strings refuses exactly the moves of a directory into itself |
| MemFS.ChildlessHasNoKids | webdav/file.go:385-396 | a children map is empty exactly when nothing lies below |
| MemFS.MoveFiles | webdav/file.go:622-647 | succeeds exactly on what can be moved with what may be overwritten; then it is a move; after a failure the destination is gone if it was there, was not the root and might be overwritten, and nothing else has changed; a move to itself removes as much and reports success |
| MemFS.FailedMoveKeepsExactly | webdav/file.go:622-647 | a failed move has changed nothing exactly when it might not overwrite, or the destination did not exist or was the root |
| MemFS.MoveAboveItself | webdav/file.go:622-647 | a move to above its own source always fails, and destroys the source exactly when it may overwrite |
| MemFS.RenameDiscardsExactly | webdav/file.go:385-396 | a rename onto something else that exists makes something below the target unreachable exactly when a file is renamed over a directory that is not empty |
| MemFS.FileOverDirectory | webdav/file.go:385-396 | a directory with a child is replaced by a file (an instance) |
| XmlEncoder.Encoder.SetAttrPrefix | webdav/internal/xml/marshal.go:525-546 | both maps are changed as the specification says |
| XmlEncoder.Encoder.PushPrefix | webdav/internal/xml/marshal.go:482-488 | records what undoes the change, and changes |
| XmlEncoder.Encoder.PopPrefix | webdav/internal/xml/marshal.go:511-520 | undoes the records down to the mark |
| XmlEncoder.Encoder.DefineNS | webdav/internal/xml/marshal.go:349-395 | declares what the attribute declares, unless it is declared, useless or an error |
| XmlEncoder.Encoder.NextUnused | webdav/internal/xml/marshal.go:444-452 | the search ends with the first number that makes an unused prefix |
| XmlEncoder.Encoder.CreateNSPrefix | webdav/internal/xml/marshal.go:403-455 | afterwards the state is that of the specification |
| XmlEncoder.Encoder.WriteNamespaces | webdav/internal/xml/marshal.go:460-478 | writes the bytes of the declarations of the element on top, latest first, with their URLs escaped |
| XmlEncoder.Encoder.WriteName | webdav/internal/xml/marshal.go:894-900 | writes the name with its prefix, joined by a colon |
| XmlEncoder.Encoder.WriteAttrs | webdav/internal/xml/marshal.go:874-887 | writes the bytes of the attributes that XmlRoundTrip.PlainIsOrdinary names, with their values escaped |
| XmlEncoder.Encoder.WriteStart | webdav/internal/xml/marshal.go:839-890 | bytes written, state and error are those of the specification, of which XmlLaws.AcceptedExactly and XmlLaws.StartIsWritten say what it does |
| XmlEncoder.Encoder.WriteEnd | webdav/internal/xml/marshal.go:902-924 | bytes written, state and error as specified |
| XmlEncoder.Encoder.IsValidDirective | webdav/internal/xml/marshal.go:258-294 | the loop decides whether brackets match outside quotes and comments |
| XmlEncoder.Encoder.EncodeToken | webdav/internal/xml/marshal.go:201-254 | for every kind of token, bytes written, state and error are those of the specification, of which XmlLaws.AcceptedExactly and XmlRoundTrip.RoundTrip say what it does |
| XmlEncoder.EncodeTokens | webdav/internal/xml/marshal.go:201-254 | so for any run of tokens up to the first error |
| XmlPrinter.FreshNumber | webdav/internal/xml/marshal.go:444-452 | there is an unused prefix, and the search finds the first |
| XmlPrinter.BasePrefix | webdav/internal/xml/marshal.go:433-443 | the prefix tried first is a name without a colon and does not start with xml |
| XmlLaws.DefinedExactly | webdav/internal/xml/marshal.go:349-395 | an attribute that declares a prefix binds exactly that prefix to its URL, unless the URL has one; one that sets the default name space does, unless it is the default, or not empty on an element in none; an xmlns in another space is refused, and exactly that; any other attribute changes nothing |
| XmlLaws.CreatedExactly | webdav/internal/xml/marshal.go:403-455 | nothing is declared for a URL exactly when it can be written already; otherwise the default name space is emptied for an element in none, or a prefix that stands for nothing is bound: the base if it is free, else the base with the first number after the counter that makes a free one |
| XmlLaws.BaseExactly | webdav/internal/xml/marshal.go:433-443 | the base is the last path element of the URL, whatever slashes follow it, if that is a name without a colon; it gets an underscore in front if it begins with xml, and is an underscore alone if it is no such name or the URL has no path element |
| XmlLaws.PrefixExactly | webdav/internal/xml/marshal.go:331-344 | an element in the default name space has no prefix, even if its URL has one; the name space of XML has its own; and an attribute has none exactly if it is in no name space |
| XmlLaws.AcceptedExactly | webdav/internal/xml/marshal.go:201-254 | a start tag is accepted exactly when it has a name and no attribute declares in a wrong space, an end tag exactly when it is that of the last start tag that is open, a comment exactly when no end of one is in it, a processing instruction exactly when it has a name, no end in it, and is no XML declaration behind anything else, and text always |
| XmlDirective.DirectiveIsGrammar | webdav/internal/xml/marshal.go:258-294 | a directive is accepted exactly when it is made of plain bytes, quoted texts, comments, and brackets around such pieces |
| XmlLaws.DeclarationsInOrder | webdav/internal/xml/marshal.go:460-478 | the declarations of an element are those of its records, latest first, each with what its prefix stands for |
| XmlLaws.StartIsWritten | webdav/internal/xml/marshal.go:839-890 | an accepted start tag is written with its own local name, its declarations, and then in order and one for one the attributes that are not about name spaces, whatever is in it |
| XmlLaws.SpelledExactly | webdav/internal/xml/marshal.go:874-887 | a value is written on one line without quotes or brackets in it; text is written as it is exactly when XML has room for all of it and nothing in it must be escaped |
| XmlRoundTrip.PlainIsOrdinary | webdav/internal/xml/marshal.go:874-887 | the attributes written as such are, in order, exactly those that have a local name other than xmlns and a space other than xmlns |
| XmlNames.SplitJoinExactly | webdav/internal/xml/xml.go:1139-1152 | splitting at the first colon undoes joining with one exactly when the prefix has no colon and, if it is empty, the local name has none |
| XmlNames.CheckName | webdav/internal/xml/xml.go:1206-1228 | the loop over the runes decides whether the bytes are a name |
| XmlNames.AsciiNames | webdav/internal/xml/xml.go:1206-1228 | in ASCII a name is letters, digits, underscores, colons, dashes and dots, beginning with a letter, an underscore or a colon |
| XmlNames.RuneNames | webdav/internal/xml/xml.go:1206-1228 | beyond ASCII the tables decide |
| XmlNames.JoinNcNames | webdav/internal/xml/marshal.go:894-900 | two names without colons, joined with one, are a name that splits where it was joined |
| XmlRaw.ScanName | webdav/internal/xml/xml.go:1157-1197 | a name as specified; or bytes that are none, or the end of the input |
| XmlRaw.ScanAttrs | webdav/internal/xml/xml.go:762-824 | the attributes up to the end of the tag, and whether it closes itself, as specified by what XmlGrammar.StartIsGrammar proves of it |
| XmlRaw.ScanCData | webdav/internal/xml/xml.go:666-682 | a CDATA section as specified |
| XmlRaw.UntilEndComment | webdav/internal/xml/xml.go:653-662 | the loop with the two bytes before finds the first end of a comment |
| XmlRaw.ScanProcInst | webdav/internal/xml/xml.go:583-632 | a processing instruction as specified, with the check of an XML declaration |
| XmlRaw.ScanDirective | webdav/internal/xml/xml.go:685-744 | the loop over a directive, with its quotes, nesting and dropped comments, as specified |
| XmlRaw.ScanRaw | webdav/internal/xml/xml.go:533-830 | the token at the front of the bytes and what follows it, or the error, as specified by what XmlGrammar and XmlErrors prove of it |
| XmlSpelling.NsNameReads | webdav/internal/xml/xml.go:1139-1152 | a written name is read back exactly when it is a name that splits where it was joined; otherwise another name is read |
| XmlSpelling.AttrsReadExactly | webdav/internal/xml/xml.go:762-824 | written attributes are read back exactly when all their names are |
| XmlSpelling.TagReadsExactly | webdav/internal/xml/xml.go:533-830 | a written tag is read back from its bytes, with its values cleaned, exactly when all its names are |
| XmlSpelling.TextsRead | webdav/internal/xml/xml.go:548-557 | texts that were written one after the other are read as one, cleaned |
| XmlSpelling.CommentReadsExactly | webdav/internal/xml/xml.go:640-664 | a comment is read back exactly when it does not contain the end of one |
| XmlSpelling.ProcInstReadsExactly | webdav/internal/xml/xml.go:583-632 | a processing instruction is read back exactly when its target is a name, its text neither begins with a space nor contains its end, and an XML declaration says what it may |
| XmlSpelling.DirectiveReadsExactly | webdav/internal/xml/xml.go:634-746 | a directive is read back exactly when it is not empty, does not begin like a comment or CDATA, and the loop meets no comment and no end in it |
| XmlGrammar.StartIsGrammar | webdav/internal/xml/xml.go:749-824 | a start or empty-element tag is read from exactly the forms of such a tag: any spaces where they are allowed, either kind of quotes, any text between them; and it is empty exactly if it closes itself |
| XmlGrammar.EndIsGrammar | webdav/internal/xml/xml.go:562-581 | an end tag is read from exactly a name with spaces behind it |
| XmlGrammar.EmptyIsWhole | webdav/internal/xml/xml.go:770-828 | in any state and whatever follows, an empty-element tag gives the same tokens and the same error as the tag without the slash and an end tag |
| XmlGrammar.PartsAreRead | webdav/internal/xml/xml.go:960-1123 | text and values mean what their parts mean one after the other: bytes with their line ends changed, and character expressions as they are |
| XmlGrammar.CDataIsRead | webdav/internal/xml/xml.go:666-682 | a CDATA section is read as the text in it, with its line ends changed |
| XmlGrammar.DeclarationExactly | webdav/internal/xml/xml.go:608-620 | an XML declaration may name no version but 1.0, and no encoding but UTF-8 in two spellings |
| XmlGrammar.ParamIsFound | webdav/internal/xml/xml.go:1978-1998 | a parameter of a processing instruction is what stands in the quotes behind its first equals sign |
| XmlGrammar.ErrorsExactly | webdav/internal/xml/xml.go:272-325 | Token fails at a fence and between tokens with the end of the input, inside a token with a syntax error or that of the reader, on bad markup with a syntax error, and on a wrong end tag; the error stays, but for a fence |
| XmlErrors.BadStaysBad | webdav/internal/xml/xml.go:533-830 | what has been read of markup does not depend on what follows; and bad markup whose last byte is ASCII, so that no rune is cut, is never mended by it |
| XmlErrors.CutRuneIsMended | webdav/internal/xml/xml.go:1085-1123 | a good tag that is cut off inside a rune of a value is reported as bad, and not as cut off (an instance) |
| XmlErrors.CutGoesOn | webdav/internal/xml/xml.go:533-830 | markup that is reported as cut off can go on so that it is not |
| XmlNesting.PushKeepsBijective | webdav/internal/xml/marshal.go:482-546 | every push that is made keeps prefixes and URLs mutually inverse |
| XmlNesting.UndoPush | webdav/internal/xml/marshal.go:482-546 | the record of a push undoes it exactly |
| XmlNesting.InventedIsGood | webdav/internal/xml/marshal.go:433-455 | an invented prefix is unused, not reserved, and a name without a colon |
| XmlNesting.StartOpens | webdav/internal/xml/marshal.go:839-890 | a start tag with a name opens an element, whether it is accepted or refused for what its attributes declare, and the maps stay mutually inverse; closing it at once restores the name spaces exactly |
| XmlNesting.StartEncodes | webdav/internal/xml/marshal.go:839-890 | after an accepted one, its name and those of its attributes can be written |
| XmlNesting.TokenKeepsNested | webdav/internal/xml/marshal.go:201-254 | each token, accepted or refused, keeps the maps mutually inverse and every open element closable; an accepted tag opens or closes the element it names |
| XmlNesting.OutputIsBalanced | webdav/internal/xml/marshal.go:839-924 | in the output of any accepted run, every end tag carries the written name of the start tag it closes |
| XmlRuns.FedIsNested | webdav/internal/xml/marshal.go:201-254 | so it is in every state that can be reached, whatever is refused on the way |
| XmlRuns.LevelsStay | webdav/internal/xml/marshal.go:201-254 | the name spaces, records and tags of a level that is not closed stay exactly as they are, whatever is written or refused above it |
| XmlRuns.EndRestores | webdav/internal/xml/marshal.go:839-924 | the end tag of an element is accepted after any tokens that leave it open and nothing in it, and restores exactly the name spaces from before its start tag |
| XmlRuns.WholeElementsAreUndone | webdav/internal/xml/marshal.go:201-254 | any accepted tokens that make up whole elements leave name spaces, records and tags exactly as they were |
| XmlRuns.RefusalsStayOpen | webdav/internal/xml/marshal.go:839-863 | a start tag that is refused for what it declares counts as open, though it is not written |
| XmlRuns.BalancedExactly | webdav/internal/xml/marshal.go:839-924 | for a caller that goes on after refusals, whatever else is accepted makes a balanced document exactly when no start tag was refused for what it declares |
| XmlRoundTrip.DeclarationsBack | webdav/internal/xml/xml.go:296-308 | reading written declarations gives every declared prefix the printer's URL, cleaned, and no other prefix a new one |
| XmlRoundTrip.NameBack | webdav/internal/xml/xml.go:332-348 | a name given its prefix and translated back is what it was, its URL cleaned, exactly when its prefix is not an xml that stands for another URL |
| XmlRoundTrip.ElementNameExactly | webdav/internal/xml/xml.go:332-348 | in any state of the encoder: written, read from its bytes and translated, the name of an element comes back exactly when what is written is a name, XML has room for its URL, its prefix has no colon and is not an xml that stands for another URL, and it has a prefix, or no colon and is not called xmlns in a default name space |
| XmlRoundTrip.AttrNameExactly | webdav/internal/xml/xml.go:332-348 | that of an attribute, exactly when what is written is a name, XML has room for its URL, its prefix is like that, and it has a name space or no colon |
| XmlLosses.XmlnsElementIsLost | webdav/internal/xml/xml.go:332-348 | an element called xmlns in a default name space is read without one (an instance) |
| XmlLosses.ColonIsLost | webdav/internal/xml/xml.go:1139-1152 | a local name with a colon is taken apart (an instance) |
| XmlLosses.ColonInPrefixIsLost | webdav/internal/xml/xml.go:1139-1152 | so is a declared prefix with one (an instance) |
| XmlLosses.XmlPrefixIsLost | webdav/internal/xml/xml.go:338-339 | a name space that is given the prefix xml is read as the XML name space (an instance) |
| XmlLosses.RefusedStartIsClosed | webdav/internal/xml/marshal.go:839-924 | a start tag is refused, and its end tag accepted and written (an instance) |
| XmlLosses.SpaceIsLost | webdav/internal/xml/marshal.go:839-900 | an element whose name has a space in it is accepted, and not read back (an instance) |
| XmlLosses.TextsAreJoined | webdav/internal/xml/marshal.go:213-214 | texts next to each other come back as one, and an empty one not at all |
| XmlLosses.ControlIsReplaced | webdav/internal/xml/xml.go:1912-1918 | a control character comes back as the replacement rune (an instance) |
| XmlLosses.CommentInDirectiveIsLost | webdav/internal/xml/xml.go:719-741 | the encoder accepts a directive with a comment in it, which is not read back (an instance) |
| XmlRoundTrip.WrittenNamesAreNames | webdav/internal/xml/marshal.go:839-924 | all names written for a token whose own are names without colons are names that split where they were joined, and so it stays |
| XmlRoundTrip.StartStep | webdav/internal/xml/marshal.go:839-890 | a start tag is translated back to its name, cleaned, and in order and one for one to the attributes given that have a local name other than xmlns and a space other than xmlns, cleaned; and printer and decoder stay in step |
| XmlRoundTrip.EndStep | webdav/internal/xml/marshal.go:902-924 | an end tag is translated back to its name, cleaned, and they stay in step |
| XmlRoundTrip.TokenStep | webdav/internal/xml/xml.go:272-325 | from the bytes of any token but text, Token returns what was encoded, and leaves the two in step |
| XmlRoundTrip.TextStep | webdav/internal/xml/xml.go:548-557 | the texts written before the next markup are read first, as one |
| XmlRoundTrip.RoundTrip | webdav/internal/xml/xml.go:272-325 | whatever writable tokens a fresh encoder accepts, a fresh decoder gives back from the bytes in the same order, with names, values and texts cleaned, texts next to each other as one, empty ones not at all, and the attributes that declare nothing; and then the end of the input |
| XmlRoundTrip.ComeBackExactly | webdav/internal/xml/xml.go:272-325 | they come back as they were, but for declarations, exactly when XML has room for all their URLs, values and texts, no text is empty and none follows another |
| XmlReader.Decoder.constructor | webdav/internal/xml/xml.go:239-248 | an empty stack and an empty free list |
| XmlReader.Decoder.Alloc | webdav/internal/xml/xml.go:379-390 | a node that is neither on the stack nor on the free list |
| XmlReader.Decoder.Push | webdav/internal/xml/xml.go:379-390 | a record on top; stack and free list share no node |
| XmlReader.Decoder.Pop | webdav/internal/xml/xml.go:392-400 | the top record moves from stack to free list; they share no node |
| XmlReader.ElementEnd | webdav/internal/xml/xml.go:405-417 | the last record of the innermost open element |
| XmlReader.Decoder.PushEOF | webdav/internal/xml/xml.go:405-427 | the fence goes in behind the innermost element; the lists stay disjoint |
| XmlReader.Decoder.PopEOF | webdav/internal/xml/xml.go:431-437 | takes the fence off the top, or says that it is not there |
| XmlReader.Decoder.PopElement | webdav/internal/xml/xml.go:465-499 | undoes the translations of an element whose name matches; otherwise takes one record off and fails |
| XmlReader.Decoder.Declare | webdav/internal/xml/xml.go:296-308 | the declarations of a start tag, in order, each with the record that undoes it |
| XmlReader.Decoder.RawToken | webdav/internal/xml/xml.go:533-830 | the next token in the bytes, or the error, and the new state; errors stick; the end of an empty-element tag is made up, as XmlGrammar.EmptyIsWhole has it |
| XmlReader.Decoder.Token | webdav/internal/xml/xml.go:272-325 | token or error, and new state, are those of the specification, of which XmlFence.TokensAreNested, XmlGrammar.EmptyIsWhole and XmlGrammar.ErrorsExactly say what it does |
| XmlReader.Decoder.Skip | webdav/internal/xml/read.go:676-691 | the loop with its recursive calls has the outcome specified, and terminates |
| XmlReader.Decoder.UnmarshalInterface | webdav/internal/xml/read.go:182-199 | outcome and state as specified, for a user that reads any number of tokens |
| XmlReader.Decoder.Unmarshal | webdav/internal/xml/read.go:182-199 | the same for a user that reads tokens, skips elements and has children unmarshalled behind fences of their own |
| XmlFence.TokenMoves | webdav/internal/xml/xml.go:272-325 | a start tag opens a level that closes back to the one before it; an end tag closes one |
| XmlFence.TokensAreNested | webdav/internal/xml/xml.go:263-271 | the tags Token returns are nested and matched, and a level that is not closed keeps its stack and its translations |
| XmlFence.ElementRestores | webdav/internal/xml/xml.go:465-499 | after a start tag and the rest of its element, stack and translations are as they were |
| XmlFence.FencedToken | webdav/internal/xml/xml.go:272-325 | token by token, reading above the fence is reading without it |
| XmlFence.FenceIsExact | webdav/internal/xml/xml.go:402-437 | through the fence one reads exactly the rest of the element and then the end; popEOF succeeds exactly when the element is read whole, but for one exception, and leaves the state there would be without the fence |
| XmlFence.SkipIsExact | webdav/internal/xml/read.go:676-691 | Skip reads exactly the rest of the element, succeeds exactly when there is one, and restores stack and translations |
| XmlFence.UnmarshalIsExact | webdav/internal/xml/read.go:182-199 | no error is reported exactly when the user has read the element whole and does not complain, but for that exception; the state is then as after Skip |
| XmlUsers.UsersAreExact | webdav/internal/xml/read.go:182-199 | for a user that may also skip elements and unmarshal children behind their own fences, and gives up at errors: success exactly when the tokens taken by all of it together are the rest of the element to its end; the decoder is then as after Skip |
| XmlFence.WrongEndPasses | webdav/internal/xml/read.go:182-199 | the exception happens (an instance) |
| XmlFence.LeftFenceIsTaken | webdav/internal/xml/xml.go:402-437 | when a user has left its element and its fence behind, and whoever asked for it reads on, the next popEOF succeeds exactly when that element has been read whole, and takes off that fence instead of its own |
| Utf8.DecodeIsLocal | webdav/internal/xml/xml.go:1883-1928 | a rune is decoded from its own bytes |
| Utf8.DecodeEncode | webdav/internal/xml/xml.go:1107-1120 | decoding undoes encoding, for every rune |
| XmlText.EscapeText | webdav/internal/xml/xml.go:1883-1928 | the loop that writes plain stretches in one piece writes the escaped text |
| XmlText.ReadCharacter | webdav/internal/xml/xml.go:1000-1082 | a character expression: the text it stands for and what follows, or an error |
| XmlText.ReadText | webdav/internal/xml/xml.go:960-1123 | the text read, what follows, or an error, as specified |
| XmlText.ContentReadsBack | webdav/internal/xml/xml.go:960-1123 | escaped text between tags reads back as the text with a replacement rune for each character or byte outside XML, in both newline modes |
| XmlText.QuotedReadsBack | webdav/internal/xml/xml.go:960-1123 | so does escaped text inside either kind of quotes, up to the closing quote |
| XmlText.CleanedInRange | webdav/internal/xml/xml.go:1128-1135 | cleaned text is valid and in range |
| XmlText.CleanedIsIdentity | webdav/internal/xml/xml.go:1128-1135 | cleaning leaves a text as it is exactly when it is valid and in range; exactly such text comes back unchanged |
| XmlText.PlainTextIsNormalised | webdav/internal/xml/xml.go:1093-1104 | text without markup keeps everything but its line ends, as section 2.11 of XML 1.0 has it |
| XmlText.CDataIsNormalised | webdav/internal/xml/xml.go:968-988 | a CDATA section is what stands before the first ]]>, with its line ends changed |
| XmlText.CloseAndLessAreRefused | webdav/internal/xml/xml.go:979-998 | elsewhere ]]> is an error, and so is < inside quotes |
| XmlText.DecimalReference | webdav/internal/xml/xml.go:1012-1050 | a decimal reference to any code point reads as the bytes of that code point |
| XmlText.HexReference | webdav/internal/xml/xml.go:1012-1050 | so does a hexadecimal one, in letters of either case |
| XmlText.NamesRead | webdav/internal/xml/xml.go:1052-1082 | each of the five entity names reads as its character, and no other name does |
| XmlText.CharactersKept | webdav/internal/xml/xml.go:1128-1135 | cleaning keeps exactly the characters of section 2.2 of XML 1.0 |
| XmlText.WrittenAsItIs | webdav/internal/xml/xml.go:1883-1928 | text is written as it is exactly when XML has room for all of it and nothing in it must be escaped, line ends in attributes alone |

## Left out

- S3, DynamoDB and their errors, pagination, index lag and size limits: the store is a pair of maps with atomic conditional transactions; `StoreTree` and `StoreProtocol` say nothing about object contents.
- Server.Server.Create: the object that is written before the entry is left out, with the rest of S3.
- Server.MetadataStore.AddEntry: reads and commits in one step, so its version conflict cannot arise in it; the two steps and what comes between them are the subject of `StoreProtocol` and `StoreAgreement`.
- Clocks, mutexes and random ids: time is an integer input, each locked method is one step, and a new id is taken to be unused.
- Wrap-around of the 64-bit token counter and of versions, and racing calls of `Init`: counters are unbounded, and `Init` is the start state.
- `Rename`'s loop changes the map it iterates over; the order is a parameter, taken to produce at least every key that was there at the start.
- RequestHandler.TempLocksUndo: speaks of a release at the same instant with nothing in between; RequestHandler.ReleaseTakesBack is the statement for any later table.
- The HTTP handlers other than `lock` and `confirmLocks`, response bodies, ETags and content types: branching around these cores.
- `url.Parse` in `confirmLocks` is a parameter that gives a path, a skip or a failure; ETags and `Not` are read but, as in the code, not evaluated.
- Reflection-driven marshalling and unmarshalling: the encoder is modelled from `EncodeToken` down, the decoder from `Token` down; what a property of `Patch` is marshalled to is a parameter.
- XmlReader.Decoder.UnmarshalInterface: its user only reads tokens, but may go on after errors, as does that of XmlFence.UnmarshalIsExact; XmlReader.Decoder.Unmarshal and XmlUsers.UsersAreExact are for one that skips and unmarshals children too, and gives up at errors.
- XmlFence.UnmarshalIsExact: as the line before.
- XmlReader.Decoder.Unmarshal: its user gives up at the first error.
- XmlUsers.UsersAreExact: a user that goes on after an error is not covered; what popEOF finds then, when it reads on, says XmlFence.LeftFenceIsTaken.
- Indentation (`writeIndent`), which is off by default.
- Whether the encoder's buffer is empty, on which it depends whether an XML declaration is accepted, is an input of `EncodeToken`.
- `Strict == false`, `AutoClose`, `DefaultSpace`, character sets, user-defined entities: the strict decoder with the five predefined entities.
- The Unicode tables behind `isName`, from 0x80 on, are a parameter of encoder and decoder.
- XmlRoundTrip.RoundTrip: is about tokens that are `Writable`. Outside are elements and attributes with local names that are not XML names or have a colon, elements called xmlns, declared prefixes that are not names, have a colon or are called xml, and instructions and directives that do not read back. `EncodeToken` accepts most of that. Exactly which of these come back say XmlSpelling.TagReadsExactly, XmlRoundTrip.ElementNameExactly, XmlRoundTrip.AttrNameExactly, XmlSpelling.ProcInstReadsExactly and XmlSpelling.DirectiveReadsExactly.
- Attributes that repeat in one start tag (two declarations of the same prefix) are written twice, as in the code; that such output is not well-formed is not modelled.
- Copy.CopyFiles: says nothing for a source and a destination one of which is inside the other, where the recursion follows its own output; over `awsfs` the temporary file's read position is not modelled, and the in-memory file system does not implement `Create`.
- `copyProps`, permissions, modification times and dead properties of the in-memory file system: copied fields.
- Walk.WalkFS: the walk function's answers depend on the path alone, and errors of the file system do not arise where index and tree agree.
- Readdir of the in-memory file system: paging through a snapshot; the snapshot itself is the set of names that `OpenFile` returns.
- Two nodes of the in-memory file system sharing a buffer: `MemFile` proves runs on one node, and every new buffer is fresh.
- `Dir` over the native file system, `main.go` and authentication: I/O.
