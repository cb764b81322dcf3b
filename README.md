# Note collection of the mobile notes page

This project models the note collection held by the single page of a
note-taking app (`src/pages/Index.tsx`) and proves what its four
operations do to it:

- **create** refuses a title that is blank after `trim()` and otherwise
  puts a new note, holding the untrimmed title and content, in front of
  the existing notes;
- **update** rewrites every note whose id matches with the fields of a
  `Partial<Note>` and a fresh `updatedAt`, leaving every other note, the
  length and the order alone;
- **delete** keeps the notes whose id differs;
- **search** keeps the notes whose lower-cased title or content contains
  the lower-cased query.

Modules:

- `Text` (`text.dfy`): JavaScript's `trim` with the ECMAScript whitespace
  and line-terminator set written out, `includes` as substring
  containment with a declarative reference (`OccursAt`), and per-character
  lower-casing.
- `Seqs` (`seqs.dfy`): `Array.prototype.filter` with its order, membership
  and multiplicity properties, shared by delete and search.
- `Notes` (`notes.dfy`): the `Note` record, the `Partial<Note>` patch, the
  four transformations as functions and the lemmas about them.
- `Store` (`store.dfy`): the component's `notes` state as a class whose
  methods replace it the way `setNotes` does, with the invariants they keep.
- `Scenarios` (`scenarios.dfy`): concrete examples (create two notes,
  edit, delete, search by content in another case).

Identifiers and clock readings are parameters. `Create` receives the id
(`Date.now().toString()` in `createNote`) and the two clock readings
`createNote` takes for `createdAt` and `updatedAt`. `Update` receives one
reading per position of the collection, because the `.map` callback of
`updateNote` calls `new Date()` each time it meets a matching note.
Timestamps are milliseconds as `nat`.

Facts about the program that the model keeps:

- `updateNote` does not check the title. Only the edit dialog's Save
  button is disabled for a blank title (src/pages/Index.tsx:251), so
  `Updated` accepts any patch.
- The loader (src/pages/Index.tsx:25-35) has no error handling. Loading is
  not modelled.
- `createNote` reads the clock once for `createdAt` and once for
  `updatedAt` (src/pages/Index.tsx:49-50), and `updateNote` reads it again
  for each matching note. The wall clock can go backwards, so equality of
  the two creation stamps, and `createdAt <= updatedAt` in general, are
  proved only under an assumption on the readings
  (`CreateKeepsTimesOrdered`, `UpdateKeepsTimesOrdered`).
- Ids are unique only when each new id is fresh. The model proves
  uniqueness is kept under that assumption (`CreateKeepsIdsUnique`), and
  that delete and updates without an `id` key never break it.

## Model

| member | source | states |
|---|---|---|
| Text.TrimStart | src/pages/Index.tsx:43 | the result is a suffix of the input preceded only by whitespace and starting with a non-space |
| Text.TrimEnd | src/pages/Index.tsx:43 | the result is a prefix of the input followed only by whitespace and ending with a non-space |
| Text.BlankIffAllSpace | src/pages/Index.tsx:43 | `!title.trim()` holds exactly when every character of the title is JavaScript whitespace |
| Text.IsSpace | src/pages/Index.tsx:43 | definition, no contract: the characters `trim` strips; its meaning is fixed by `Text.BlankIffAllSpace` |
| Text.Trim | src/pages/Index.tsx:43 | definition, no contract: `trim` as `TrimEnd` after `TrimStart`; its meaning is fixed by `Text.BlankIffAllSpace` |
| Text.IsBlank | src/pages/Index.tsx:43 | definition, no contract: `!title.trim()`; its meaning is fixed by `Text.BlankIffAllSpace` |
| Text.Contains | src/pages/Index.tsx:72-73 | `includes` is true exactly when the substring occurs at some position; the empty string occurs everywhere |
| Text.ContainsEmpty | src/pages/Index.tsx:72-73 | every string contains the empty query |
| Text.LowerAll | src/pages/Index.tsx:72-73 | lower-casing keeps the length and maps each character |
| Text.ToLower | src/pages/Index.tsx:72-73 | ASCII and Latin-1 capitals (except U+00D7) and the Cyrillic capitals U+0410-U+042F move up by 0x20, U+0400-U+040F by 0x50; other characters are unchanged; the result is never a capital |
| Seqs.Filter | src/pages/Index.tsx:68 | every kept element is from the input and passes; every passing element is kept |
| Seqs.FilterIsSubseq | src/pages/Index.tsx:68 | `filter` keeps the relative order of the elements |
| Seqs.FilterMultiplicity | src/pages/Index.tsx:68 | a passing value is kept as often as it occurs, a failing one never |
| Seqs.FilterAllPass | src/pages/Index.tsx:68 | when every element passes, `filter` returns the input |
| Seqs.FilterIdempotent | src/pages/Index.tsx:68 | filtering twice with the same test equals filtering once |
| Notes.Ids | src/pages/Index.tsx:9-15 | the ids of the collection, one per note, in order |
| Notes.EditPatch | src/pages/Index.tsx:249 | definition, no contract: the update object the edit dialog builds; its meaning is fixed by `Notes.EditSetsTitleAndContent` |
| Notes.Created | src/pages/Index.tsx:42-53 | a blank title leaves the collection unchanged; otherwise the result is the new note followed by the old collection |
| Notes.CreateBlankIsNoOp | src/pages/Index.tsx:43 | a title of whitespace only (or empty) leaves the collection unchanged |
| Notes.CreatePrepends | src/pages/Index.tsx:45-53 | a title with a non-space adds one note in front with the given id, untrimmed title and content and the two clock readings; the old notes follow in order |
| Notes.CreateKeepsIdsUnique | src/pages/Index.tsx:45-53 | with a fresh id, unique ids stay unique |
| Notes.CreateKeepsTimesOrdered | src/pages/Index.tsx:49-50 | if the clock's second reading is not earlier than the first, every note keeps `createdAt <= updatedAt` |
| Notes.Apply | src/pages/Index.tsx:61 | definition, no contract: the spread merge with a fresh `updatedAt`; its meaning is fixed by `Notes.UpdateMergesPatch` |
| Notes.Updated | src/pages/Index.tsx:58-63 | same length; a note with the id becomes the patched note stamped with the clock reading taken at its position, every other note is unchanged at its position |
| Notes.UpdateAbsentIsNoOp | src/pages/Index.tsx:59-63 | an id no note has leaves the collection unchanged |
| Notes.UpdateMergesPatch | src/pages/Index.tsx:61 | on a matching note each field in the patch takes the patch's value, each absent field stays, and `updatedAt` is the clock reading even when the patch names it |
| Notes.EditSetsTitleAndContent | src/pages/Index.tsx:249 | the edit dialog's update sets title, content and `updatedAt`, keeping id and `createdAt` |
| Notes.UpdateTouchesOne | src/pages/Index.tsx:59-63 | with unique ids, updating the id of the note at one position leaves every other position unchanged |
| Notes.UpdateKeepsIds | src/pages/Index.tsx:59-63 | an update without an id key keeps the ids in order |
| Notes.UpdateKeepsTimesOrdered | src/pages/Index.tsx:61 | without a `createdAt` key and with clock readings not behind the matching notes' creation, `createdAt <= updatedAt` is kept |
| Notes.Survives | src/pages/Index.tsx:68 | definition, no contract: the `note.id !== id` callback; its meaning is fixed by `Notes.DeleteMultiplicity` |
| Notes.Deleted | src/pages/Index.tsx:67-68 | no kept note has the id; every note with another id is kept |
| Notes.DeleteKeepsOrder | src/pages/Index.tsx:68 | the kept notes are in their original relative order |
| Notes.DeleteMultiplicity | src/pages/Index.tsx:68 | each note with another id is kept as often as it occurred, a note with the id never |
| Notes.DeleteAbsentIsNoOp | src/pages/Index.tsx:68 | deleting an absent id leaves the collection unchanged |
| Notes.DeleteIdempotent | src/pages/Index.tsx:68 | deleting twice equals deleting once |
| Notes.DeleteRemovesOne | src/pages/Index.tsx:68 | with unique ids, deleting a present id removes exactly one note |
| Notes.ConsKeepsIdsUnique | src/pages/Index.tsx:53 | prepending a note whose id no other note has keeps ids unique |
| Notes.TailIdsUnique | src/pages/Index.tsx:9-15 | the tail of a collection with unique ids has unique ids, none equal to the head's |
| Notes.DeleteKeepsIdsUnique | src/pages/Index.tsx:68 | deleting keeps unique ids unique |
| Notes.Matches | src/pages/Index.tsx:72-73 | definition, no contract: the `filteredNotes` test; its meaning is fixed by `Notes.MatchesIffOccurs` |
| Notes.Search | src/pages/Index.tsx:71-74 | every result matches and comes from the collection; every matching note is in the result |
| Notes.SearchKeepsOrder | src/pages/Index.tsx:71-74 | the result keeps the collection's order |
| Notes.SearchMultiplicity | src/pages/Index.tsx:71-74 | each matching note is kept as often as it occurred, every other note is dropped |
| Notes.SearchEmptyQueryIsAll | src/pages/Index.tsx:71-74 | the empty query returns the whole collection |
| Notes.MatchesIffOccurs | src/pages/Index.tsx:72-73 | a note matches exactly when the lower-cased query occurs in its lower-cased title or content |
| Store.NoteStore.constructor | src/pages/Index.tsx:18 | the page starts with no notes |
| Store.NoteStore.Create | src/pages/Index.tsx:42-53 | the new state is `Created` of the old; an all-whitespace title changes nothing; fresh ids keep uniqueness; ordered clock readings keep `createdAt <= updatedAt` |
| Store.NoteStore.Update | src/pages/Index.tsx:58-63 | the new state is `Updated` of the old; an absent id changes nothing; an id-free patch keeps the ids and their uniqueness; a `createdAt`-free patch with readings not behind the matching notes' creation keeps `createdAt <= updatedAt` |
| Store.NoteStore.Delete | src/pages/Index.tsx:67-68 | the new state is `Deleted` of the old: no note with the id, the rest in order, absent id a no-op, uniqueness kept, exactly one removed when ids are unique |
| Store.NoteStore.Filtered | src/pages/Index.tsx:71-74 | the visible notes: exactly the matching ones, in order, all of them for an empty query |
| Scenarios.GroceriesScenario | src/pages/Index.tsx:42-53 | creating "Groceries" in an empty collection gives exactly that note |
| Scenarios.CreateTwoScenario | src/pages/Index.tsx:53 | creating A then B lists B first |
| Scenarios.EditScenario | src/pages/Index.tsx:58-63 | editing A's content changes only A and advances its `updatedAt` |
| Scenarios.DeleteScenario | src/pages/Index.tsx:68 | deleting B leaves only A |
| Scenarios.SearchScenario | src/pages/Index.tsx:71-74 | "HELLO" finds A through its content; "zzz" finds nothing |

## Left out

- Loading from and saving to `localStorage` (src/pages/Index.tsx:25-40) and the JSON round trip: browser storage and a foreign serialiser.
- Generating the id with `Date.now().toString()` (src/pages/Index.tsx:46): the id is a parameter; it is not unique in the source when two notes are created in the same millisecond, so uniqueness is proved only for a fresh id.
- Reading the wall clock with `new Date()` (src/pages/Index.tsx:49-50, 61): `Create` takes its two readings as parameters and `Update` one reading per position, of which only the matching positions' are used.
- `formatDate` (src/pages/Index.tsx:76-83): locale formatting through `Intl`, presentation only.
- Rendering, dialog state and the draft state (`isCreateDialogOpen`, `editingNote`, `newNote`, the resets at src/pages/Index.tsx:54-55 and 64, and everything from line 85): user interface.
- The disabled-button guards (src/pages/Index.tsx:125, 251): user interface; `updateNote` itself accepts a blank title, and so does `Updated`.
- Patch fields set explicitly to `undefined`: a spread copies such a key and overwrites the field; the model's `Patch` only distinguishes a present key with a value from an absent key.
- Text.ToLower: real `toLowerCase` covers all of Unicode, maps some characters to several (U+0130) and depends on context (final sigma); the model maps only ASCII, Latin-1 and basic Cyrillic capitals and leaves other characters unchanged; `Search` and its lemmas hold for any per-character mapping passed in.
- Strings are sequences of Unicode scalar values, while JavaScript strings are UTF-16 code units; `includes` and `trim` are modelled on scalar values.
