# Document directory and access rules of a collaborative editor, in Dafny

This project models the server side of a Notion-like editor built on Convex:
the `documents` table with its query and mutation handlers
(`convex/documents.ts`), the permission and snapshot hooks handed to the
ProseMirror sync engine (`convex/prosemirror.ts`), and the two URL rules of the
editor's media block (`src/components/CustomBlock.tsx`).

- `schema.dfy` (module `Schema`): a document row (`title`, `isPublic`,
  `createdBy`, `lastModified`, plus its `_id`), a table snapshot
  `map<DocId, Doc>`, the three errors the handlers throw (`NotAuthenticated`,
  `NotFound`, `AccessDenied`) and the one access rule of the code,
  `isPublic || createdBy == caller`.
- `directory.dfy` (module `Directory`): the merge loop shared by `list` and
  `search` (push each document of the second partition whose `_id` `find`
  does not see), and the stable sort by `lastModified`, newest first, that
  `Array.prototype.sort` performs with the comparator
  `b.lastModified - a.lastModified`.
- `jsstrings.dfy` (module `JsStrings`): `trim`, `includes` and a suffix test.
- `documents.dfy` (module `Documents`): `list` and `search` as methods over a
  table snapshot and the index results read from it; `get` and `getPublic` as
  functions; `create`, `updateTitle`, `togglePublic` and `remove` as methods
  of the class `DocumentStore`, which holds the table and changes it in place.
- `prosemirror.dfy` (module `ProsemirrorSync`): `checkPermissions`,
  `checkWritePermissions`, and `onSnapshot` as a method on the store.
- `customblock.dfy` (module `CustomBlock`): the URL to media-type rule of
  `insertMedia` and `getYouTubeId`. The first group of the YouTube pattern is
  written as data, a list `Markers` of alternatives made of atoms (a literal
  character, the unescaped `.`, `\w`), and the matcher is defined for any such
  list.

The caller is an optional user id: authentication itself is outside the model.
`Date.now()` is a `now` parameter. What an index scan or the search index
returns is an input to `List` and `Search`. The model says which rows such a
result may hold; the order of the rows is the index's own. A full scan with
`collect()` must hold every row of its partition. A search result need only be
sound.

The two readings of one snapshot that `Promise.all` runs side by side are two
inputs read from the same table.

The code has no `sharedWith` field and no share handlers. `list` reads two
partitions, the caller's own rows and the public ones. The sort has no id
tiebreak: rows with equal timestamps keep their merge order, because the sort
is stable. Nothing keeps `lastModified` from going backwards, since it is set
to whatever the clock says. `get` and the sync hooks tell a private row apart
from a missing id: `get` throws "Access denied" on a private row of somebody
else and returns null only for a missing id. `getPublic` answers null to both.

## Model

| member | source | states |
|---|---|---|
| `Directory.AppendAbsent` | convex/documents.ts:27-33 | the merged sequence starts with the first partition unchanged and is at most as long as both inputs together |
| `Directory.MergeAbsent` | convex/documents.ts:28-33 | the `for`/`find`/`push` loop computes exactly the merge `AppendAbsent` of the two partitions |
| `Directory.AppendAbsentOnlyNew` | convex/documents.ts:29-32 | whatever the merge adds past the first partition comes from the second and has an id the first partition lacks |
| `Directory.AppendAbsentCovers` | convex/documents.ts:29-32 | every id of the second partition ends up in the merge |
| `Directory.AppendAbsentNoDuplicates` | convex/documents.ts:27-33 | the merge has no duplicate ids when the first partition has none, including duplicates within the second partition |
| `Directory.InsertByRecency` | convex/documents.ts:36 | inserting one document adds exactly that document to the multiset of elements |
| `Directory.SortByRecency` | convex/documents.ts:36 | the sort is a permutation of its input |
| `Directory.InsertNewestFirst` | convex/documents.ts:36 | inserting into a newest-first sequence keeps it newest first |
| `Directory.SortNewestFirst` | convex/documents.ts:36 | the sorted sequence has non-increasing `lastModified` |
| `Directory.InsertWithTimestamp` | convex/documents.ts:36 | an inserted document lands ahead of all documents with its timestamp and is ordered, within its timestamp, as if prepended |
| `Directory.SortWithTimestamp` | convex/documents.ts:36 | stability: for every timestamp, the documents carrying it appear in the sorted output in their input order |
| `Directory.WithTimestampAppend` | convex/documents.ts:28-36 | selecting one timestamp distributes over concatenation |
| `Directory.WithTimestampMembers` | convex/documents.ts:36 | a document is among those selected for a timestamp exactly when it is in the sequence and carries that timestamp |
| `Directory.StableSortUnique` | convex/documents.ts:36 | two newest-first sequences that list the documents of every timestamp in the same order are equal |
| `Directory.StableSortIsSortByRecency` | convex/documents.ts:36 | any newest-first result that keeps the input order within each timestamp, which is what a stable sort with this comparator returns, equals `SortByRecency` of the input |
| `Directory.InsertNoDuplicates` | convex/documents.ts:36 | inserting a document whose id is new keeps ids unique |
| `Directory.SortNoDuplicates` | convex/documents.ts:36 | the sort keeps ids unique |
| `JsStrings.TrimStart` | convex/documents.ts:48 | the result is the suffix left after dropping the leading whitespace and line terminators, and starts with neither |
| `JsStrings.TrimEnd` | convex/documents.ts:48 | the result is the prefix left after dropping the trailing whitespace and line terminators, and ends with neither |
| `JsStrings.Trim` | convex/documents.ts:48 | `trim()` is a middle part of the string with only whitespace and line terminators before and after it, and it neither starts nor ends with one of them |
| `JsStrings.TrimEmptyIffBlank` | convex/documents.ts:48-50 | `trim()` gives the empty string exactly when every character is whitespace or a line terminator |
| `JsStrings.Includes` | src/components/CustomBlock.tsx:58-59 | `includes` is true exactly when the pattern occurs at some index |
| `Documents.Take` | convex/documents.ts:59-65 | `.take(n)` gives a prefix of the results, of length `n` or all of them when fewer |
| `Documents.TakeSound` | convex/documents.ts:53-66 | a prefix of sound search results is sound |
| `Documents.AppendAbsentMembers` | convex/documents.ts:27-33 | the merge holds every document of the first partition and only documents of the two partitions |
| `Documents.MergeSound` | convex/documents.ts:27-33 | merging two sound partitions whose rows the caller may read gives rows the caller may read, without duplicate ids, holding every document of both |
| `Documents.ScanHolds` | convex/documents.ts:14-25 | a full index scan holds every row of its partition |
| `Documents.ListMembers` | convex/documents.ts:14-36 | the listing holds a row exactly when the caller owns it or it is public, and holds it once |
| `Documents.ListTieOrder` | convex/documents.ts:27-36 | what the merge adds after the caller's own rows is public and not the caller's; for each timestamp the listing has the caller's own rows first, in index order, then those |
| `Documents.List` | convex/documents.ts:5-38 | "Not authenticated" without a caller; otherwise exactly the caller's own and the public rows, each once, newest first, ties in merge order with the caller's own rows first, and equal to the stable sort of the merge |
| `Documents.Search` | convex/documents.ts:40-78 | "Not authenticated" without a caller; `[]` for a blank query whatever the index holds; otherwise the first ten own matches in their order followed by the first ten public matches not already present, no duplicate ids, at most 20 rows, each readable by the caller |
| `Documents.Get` | convex/documents.ts:80-100 | "Not authenticated" without a caller; null for a missing id; the row when it is public or the caller's; "Access denied" otherwise |
| `Documents.GetPublic` | convex/documents.ts:102-117 | needs no caller and returns the row exactly when it exists and is public |
| `Documents.ListedIffGettable` | convex/documents.ts:14-36 | a row is in a user's listing exactly when `get` returns that row to the user |
| `Documents.GetPublicAgreesWithGet` | convex/documents.ts:88-116 | a row `getPublic` returns, `get` returns to every caller; on a private row `getPublic` gives null while `get` gives the owner the row and others "Access denied" |
| `Documents.CheckOwner` | convex/documents.ts:145-158 | the check order of the mutations: a caller, then the row, then the creator, with the matching error at each step; passes exactly for the creator of an existing row |
| `Documents.WithTitle` | convex/documents.ts:160-163 | the title patch sets the target's title and `lastModified`, keeps its id, creator and visibility, keeps every other row and the set of ids |
| `Documents.WithPublicToggled` | convex/documents.ts:185-188 | the visibility patch flips the target's `isPublic` and sets its `lastModified`, keeps its id, creator and title, keeps every other row and the set of ids |
| `Documents.PatchesTouchOnlyTarget` | convex/documents.ts:160-188 | the title patch and the visibility patch keep the same keys and every other row, and keep the id and creator of the target |
| `Documents.ToggleTwiceRestores` | convex/documents.ts:185-188 | two toggles restore the visibility and change only `lastModified` of the target |
| `Documents.DocumentStore.Create` | convex/documents.ts:119-137 | "Not authenticated" and no change without a caller; otherwise one new row under a fresh id, owned by the caller, private unless `isPublic` is true, stamped `now`, with every existing row unchanged |
| `Documents.DocumentStore.UpdateTitle` | convex/documents.ts:139-165 | the outcome is the owner check; on failure the table is unchanged; on success only the target's title and timestamp change |
| `Documents.DocumentStore.TogglePublic` | convex/documents.ts:167-190 | the outcome is the owner check; on failure the table is unchanged; on success only the target's visibility flips and its timestamp is set |
| `Documents.DocumentStore.Remove` | convex/documents.ts:192-212 | the outcome is the owner check; on failure the table is unchanged; on success exactly that id is deleted |
| `ProsemirrorSync.CheckPermissions` | convex/prosemirror.ts:9-27 | "Not authenticated" without a caller, "Document not found" for a missing id, "Access denied" unless the row is public or the caller's, and passes exactly in that last case |
| `ProsemirrorSync.CheckWritePermissions` | convex/prosemirror.ts:29-48 | the same decision as the read check for every table, caller and id |
| `ProsemirrorSync.SyncReadAgreesWithGet` | convex/prosemirror.ts:9-27 | the read check passes exactly when `get` returns the row; on a missing id `get` gives null where the check gives "Document not found"; when `get` throws, the check throws the same error |
| `ProsemirrorSync.OwnerMayEdit` | convex/prosemirror.ts:43-47 | whoever passes the mutations' owner check passes the write check; a non-owner passes it only on a public row |
| `ProsemirrorSync.RemovedIsGone` | convex/prosemirror.ts:18-21 | after a row is deleted the hooks answer "Document not found" and `getPublic` answers null |
| `ProsemirrorSync.OnSnapshot` | convex/prosemirror.ts:59-67 | no permission check; sets `lastModified` of the row when it exists and changes nothing else; no change when it is missing |
| `CustomBlock.SuffixIsDotExtension` | src/components/CustomBlock.tsx:62 | a suffix `.ext` puts a dot right before `ext` at the end |
| `CustomBlock.DotExtensionIsSuffix` | src/components/CustomBlock.tsx:62 | a dot followed by `ext` up to the end is a suffix `.ext` |
| `CustomBlock.ImagePatternIsSuffix` | src/components/CustomBlock.tsx:62 | the image pattern of the source matches exactly when the URL ends, case-sensitively, in `.jpeg`, `.jpg`, `.gif` or `.png` |
| `CustomBlock.HasImageExtension` | src/components/CustomBlock.tsx:62 | the suffix test agrees with the regular expression |
| `CustomBlock.MediaTypeFor` | src/components/CustomBlock.tsx:57-64 | nothing for an empty URL; youtube when it contains `youtube.com` or `youtu.be`, even with an image ending; otherwise image exactly when the image pattern matches; video in every other case |
| `CustomBlock.Literal` | src/components/CustomBlock.tsx:8 | the pattern atoms for a literal text are one literal character per character of it |
| `CustomBlock.MatchesAt` | src/components/CustomBlock.tsx:8 | a sequence of pattern atoms that matches at a position ends within the string |
| `CustomBlock.LiteralMatchesAt` | src/components/CustomBlock.tsx:8 | a literal alternative matches at a position exactly when its text occurs there |
| `CustomBlock.MatchesAtAppend` | src/components/CustomBlock.tsx:8 | a concatenation of atoms matches exactly when its first part matches and the second part matches right after it |
| `CustomBlock.FirstAlternative` | src/components/CustomBlock.tsx:8 | the length the group matches at a position is 0 or ends within the string |
| `CustomBlock.GroupAt` | src/components/CustomBlock.tsx:8 | what the first group of six alternatives matches at a position: 0 when nothing, otherwise a length that ends within the string |
| `CustomBlock.FirstAlternativeWins` | src/components/CustomBlock.tsx:8 | alternation is ordered: the first alternative that matches at a position gives the group's match there |
| `CustomBlock.NoAlternativeMatches` | src/components/CustomBlock.tsx:8 | the group matches nothing where no alternative matches |
| `CustomBlock.YoutuBeMarker` | src/components/CustomBlock.tsx:8 | because the dot in `youtu.be` is unescaped, `youtu`, any character but a line terminator, and `be/` form a 9-character marker |
| `CustomBlock.LineEndFrom` | src/components/CustomBlock.tsx:8 | the first line terminator at or after a position, or the end of the string; none comes before it |
| `CustomBlock.FirstLineEnd` | src/components/CustomBlock.tsx:8 | how far the leading `^.*` can reach: no line terminator before it, and a line terminator or the end of the string at it |
| `CustomBlock.LastMarkerUpTo` | src/components/CustomBlock.tsx:8 | the greatest position at or before a bound where the group matches, or none when it matches at no position up to the bound |
| `CustomBlock.RunEnd` | src/components/CustomBlock.tsx:8 | where a maximal run of characters other than `#`, `&` and `?` ends |
| `CustomBlock.CaptureIsRun` | src/components/CustomBlock.tsx:8 | the text up to where that run ends is what the greedy `([^#&?]*)` captures: no `#`, `&` or `?` in it, and one of them or the end of the string after it |
| `CustomBlock.MatchGroups` | src/components/CustomBlock.tsx:8-9 | for a pattern `^.*(alternatives)([^#&?]*).*`, no match exactly when the group matches nowhere within the first line; otherwise the group is taken at the rightmost such position and the capture is the maximal run after it |
| `CustomBlock.MatchYouTube` | src/components/CustomBlock.tsx:7-9 | the same, for the pattern of `getYouTubeId`: no match exactly when no marker starts within the first line; otherwise the rightmost marker there, and the captured group after it |
| `CustomBlock.GetYouTubeId` | src/components/CustomBlock.tsx:6-12 | null when no marker starts within the first line; otherwise the captured group when it has length 11 and null when it does not; a result has length 11 and contains no `#`, `&` or `?` |

## Left out

- Authentication: `getAuthUserId` is an optional caller id given to each handler.
- Time: `Date.now()` is a parameter. Nothing makes `lastModified` monotonic, and no such property is stated.
- Index and search engine: the order of `.order("desc")` scans and search relevance belong to Convex. The title text a search matches against is not modelled either, so a search result is constrained only to the rows of its partition.
- The search index receives the untrimmed query; that is the engine's business.
- `Promise.all`: the two parallel reads are two inputs read from one snapshot. A mutation is one atomic method call.
- System fields and ids: `_creationTime` is not modelled. Ids are natural numbers from a counter, standing for Convex's id allocation. The hooks' `documentId as Id<"documents">` cast is taken to give a valid id.
- The timestamp comparator: `b.lastModified - a.lastModified` is float subtraction in the source; timestamps here are integers. `SortByRecency` is a stable insertion sort standing for the engine's sort; `StableSortIsSortByRecency` shows that every stable sort with this comparator gives the same result, but the engine's algorithm itself is not modelled.
- The ProseMirror sync engine, its steps, snapshots and versions, and the presence component: external. `onSnapshot`'s snapshot and version arguments are unused by the code and absent from the model.
- `insertMedia` side effects: `prompt` and `editor.insertBlocks` are out. A cancelled prompt (null) is treated like the empty answer; both insert nothing.
- The media block's rendering, which calls `getYouTubeId` only to build an iframe URL: out.
- GetYouTubeId: counts the captured group's length in Unicode scalar values, while JavaScript counts UTF-16 code units. An id with a character outside the Basic Multilingual Plane therefore has a different length in the model.
- GroupAt: the unescaped `.` in `youtu.be` matches one Unicode scalar value here, where JavaScript (no `u` flag) matches one UTF-16 code unit.
- `convex/users.ts` (a thin wrapper over the users search index), the React components, and the share buttons: out. The share buttons call `share`/`unshare` handlers that `convex/documents.ts` does not define, and read a `sharedWith` field that `convex/schema.ts` does not declare.
