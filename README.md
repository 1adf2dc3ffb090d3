# Tags file service: the in-memory tag store

This project models the storage tier of the opentdc Tags service in its
file-based form, `FileServiceProvider`: a process-wide index from tag id to
Tag record, seeded once from the tags imported from a JSON file, with the
five operations `list`, `create`, `read`, `update` and `delete`. When the
provider is persistent, every successful change writes the index's values
back to the file.

Structure:

- `sorting.dfy`, module `Sorting`: the comparator as an abstract total preorder,
  sortedness, an insertion sort standing for `Collections.sort`, and the
  uniqueness of a sorted arrangement when no two distinct elements tie.
- `tags.dfy`, module `Tags`: the `Tag` record, the error kinds, the map the
  import loop builds (`Imported`), the values of the index (`ValuesSeq`), the
  sorted listing (`Ordered`) and its `[position, position + size)` window.
- `file_service_provider.dfy`, module `TagsFile`: class `TagIndex` is the
  static `index` field shared by all providers (`initialized` is false while
  the field is still null; the ghost `exports` log records every write of the
  backing file); class `FileServiceProvider` holds the shared index and the
  `isPersistent` flag and has one method per operation.

The tag store's invariant (`TagIndex.Valid`) is that every entry is stored
under its own id; the constructor establishes it and every operation keeps it.

Outside inputs are parameters: the fresh id that `UUID.randomUUID()` would
mint (`freshId`, required to be non-empty and not yet a key), the instant
that `new Date()` gives (`now`), the caller that `getPrincipal()` returns
(`principal`), the list `importJson()` returns (`imported`), and the
comparator `TagsModel.TagComparator` (`le`, required to be a total preorder
that ranks two tags equal only when they carry the same id).
A null id or title is modelled as the empty string.

Other versions of this provider keep a reference counter per tag, so that
`create` with an existing id increments the counter instead of failing, and
attach localized texts to each tag. The provider modelled here is the plain
one: an existing id given to `create` is a `DuplicateException`
(FileServiceProvider.java lines 117-119), and there are no counters or
localized texts.

## Model

| member | source | states |
|---|---|---|
| `TagsFile.TagIndex.constructor` | src/java/org/opentdc/tags/file/FileServiceProvider.java:58 | the static index starts out null (not initialized), empty and never exported |
| `TagsFile.FileServiceProvider.constructor` | src/java/org/opentdc/tags/file/FileServiceProvider.java:67-80 | when the index is still null it becomes exactly the map the import loop builds from the imported tags; when it already exists it is left as it is; nothing is exported; the invariant holds afterwards |
| `Tags.ImportedKeys` | src/java/org/opentdc/tags/file/FileServiceProvider.java:72-77 | a string is a key of the imported index if and only if some imported tag has it as its id |
| `Tags.ImportedLatest` | src/java/org/opentdc/tags/file/FileServiceProvider.java:75-77 | an imported tag that no later imported tag shares its id with is the value stored under that id, so later duplicates overwrite earlier ones |
| `Tags.ImportedKeysAreIds` | src/java/org/opentdc/tags/file/FileServiceProvider.java:76 | the imported index stores every tag under its own id |
| `TagsFile.FileServiceProvider.ExportJson` | src/java/org/opentdc/tags/file/FileServiceProvider.java:140-142 | one export appends exactly one snapshot of the current index to the export log |
| `Tags.ValuesSeq` | src/java/org/opentdc/tags/file/FileServiceProvider.java:92 | the value sequence of the index has one element per key |
| `Tags.ValuesSeqRemove` | src/java/org/opentdc/tags/file/FileServiceProvider.java:92 | removing any one key takes exactly that key's value out of the index's values, whatever order the keys are visited in |
| `Tags.ValuesSeqMembers` | src/java/org/opentdc/tags/file/FileServiceProvider.java:92 | every stored tag occurs among the values, and every value is a stored tag |
| `TagsFile.FileServiceProvider.Values` | src/java/org/opentdc/tags/file/FileServiceProvider.java:92 | the list copied from `index.values()` holds each stored tag as often as the index does, in whatever order the keys are visited |
| `Sorting.Insert` | src/java/org/opentdc/tags/file/FileServiceProvider.java:93 | inserting into a sorted sequence gives a sorted sequence with exactly one more element, the inserted one |
| `Sorting.Sort` | src/java/org/opentdc/tags/file/FileServiceProvider.java:93 | sorting by a total preorder yields a sorted permutation of its input |
| `Sorting.SortedUnique` | src/java/org/opentdc/tags/file/FileServiceProvider.java:93 | two sorted permutations of one collection none of whose distinct elements tie are equal |
| `Tags.StoredTagsDoNotTie` | src/java/org/opentdc/tags/file/FileServiceProvider.java:92-93 | under a comparator that ties only tags with the same id, no two different stored tags tie, because every tag is stored under its own id |
| `Tags.SortedCopyIsOrdered` | src/java/org/opentdc/tags/file/FileServiceProvider.java:92-93 | sorting any copy of the index's values gives the same listing, so the result does not depend on the hash map's order |
| `Tags.OrderedIsListing` | src/java/org/opentdc/tags/file/FileServiceProvider.java:92-93 | the sorted listing is sorted, has one element per key, holds every stored tag and nothing else |
| `Tags.WindowStart` | src/java/org/opentdc/tags/file/FileServiceProvider.java:96 | the first index of the window never exceeds the length of the listing |
| `Tags.WindowEnd` | src/java/org/opentdc/tags/file/FileServiceProvider.java:96 | the end of the window lies between its start and the length of the listing |
| `Tags.Window` | src/java/org/opentdc/tags/file/FileServiceProvider.java:95-99 | the window is never longer than the listing or than `size`, is empty when `position` is past the end or `size` is not positive, and holds exactly the elements whose index `i` satisfies `position <= i < position + size`, in listing order |
| `Tags.WindowStep` | src/java/org/opentdc/tags/file/FileServiceProvider.java:95-98 | looking at one more element of the listing adds it to the window exactly when its index satisfies the loop's condition |
| `TagsFile.FileServiceProvider.List` | src/java/org/opentdc/tags/file/FileServiceProvider.java:86-103 | the result is the window `[position, position + size)` of all stored tags sorted by the comparator; the index is not changed and nothing is exported |
| `TagsFile.FileServiceProvider.Create` | src/java/org/opentdc/tags/file/FileServiceProvider.java:109-144 | a non-empty id already in the index is a duplicate, any other non-empty id is a validation error, and only then an empty title is a validation error; each failure leaves the index and the export log unchanged; otherwise the tag is stored under the fresh id with creation and modification stamped with the same instant and principal, the key set grows by exactly that id, every other entry is kept, the stored tag is returned and, when persistent, exported once |
| `TagsFile.FileServiceProvider.Read` | src/java/org/opentdc/tags/file/FileServiceProvider.java:150-160 | succeeds exactly when the id is a key and then returns the tag stored under it (whose id is that key); otherwise not found; changes nothing |
| `TagsFile.FileServiceProvider.Update` | src/java/org/opentdc/tags/file/FileServiceProvider.java:166-193 | an absent id is not found and changes nothing; otherwise the stored tag takes the given title and description (unchecked, so possibly empty) and a fresh modification stamp, keeps its id, `createdAt` and `createdBy` whatever the client sent, the key set and every other entry stay the same, and one export happens when persistent |
| `TagsFile.FileServiceProvider.Delete` | src/java/org/opentdc/tags/file/FileServiceProvider.java:199-215 | an absent id is not found and changes nothing; otherwise exactly that key is removed, every other entry is kept, one export happens when persistent, and the internal-server-error branch is proved unreachable |
| `TagsFile.CreateReadDelete` | src/java/org/opentdc/tags/file/FileServiceProvider.java:109-215 | a client sequence: a tag created without an id reads back as stored with its title and description, a create naming its id is a duplicate, a delete removes it, a later read is not found, a second delete fails, and the index ends as it began |

## Left out

- JSON import and export, Gson and the servlet context: the imported tags are a parameter and each export is a ghost event in the `exports` log.
- Logging and `PrettyPrinter`: output only. This includes the warnings `update` logs for client-supplied `createdAt` and `createdBy`; the model keeps the stored values, as the code does.
- `UUID.randomUUID()`, `new Date()` and `getPrincipal()`: parameters; the fresh id is assumed unique and non-empty, as a random UUID string is taken to be.
- `TagsModel.TagComparator`: its code is not part of this model; it is a parameter, and the insertion sort stands for `Collections.sort`.
- `TagsFile.FileServiceProvider.List`: assumes the comparator is a total preorder that ranks two tags equal only when they carry the same id (as one that breaks ties by id does). With a comparator that ties tags of different ids, the stable `Collections.sort` keeps the hash map's order among them, so the listing would not be fixed by the entries alone, and the model does not say what it is then.
- The query type and query text of `list`: the code only logs them.
- Thread safety of the shared `HashMap`: concurrency, which the code does not address.
- The identity comparison `_id == ""` at line 114: modelled as a test for the empty string, so an empty id received from a client counts as absent.
- `TagsFile.FileServiceProvider.Update`: does not model the null-pointer failures of lines 175-181. They happen when the stored `createdAt` is null (line 175), when the stored `createdBy` is null (line 179), or when the client's `createdAt` is null while the stored one is not (`Date.equals(null)` is false, so line 176 calls `toString()` on null). A null client `createdBy` only logs a warning. So in the source an update whose body leaves out `createdAt` fails, while the model's `Update` succeeds.
- The null-pointer failure of `create` when its argument is null.
- Object aliasing: `create` stores the caller's object and `read` returns the live object; the model passes tags as values.
- `long` overflow of `position + size` and the `int` loop counter: mathematical integers are used.
- An `IOException` from the import: the index would stay initialized and empty; I/O failure is not modelled.
- Reference counters, re-tagging of an existing id and localized-text sub-resources: they do not occur in this code.
