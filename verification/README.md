# journal-cli domain layer in Dafny

This project models the in-memory domain layer of a personal journal application written in Go. It covers three things:

- the journal `Entry` record and its update-merge rule (`models/entry.go`);
- the `NewEntry` constructor (`pkg/journal/entry.go`);
- the map-backed `Journal` collection with `NewJournal`, `CreateEntry` and `ListEntries` (`pkg/journal/journal.go`).

Files:

- `entry.dfy`, module `Models`:
  - `Entry` is a value datatype with the five fields of the Go struct.
  - `Merge` is the function that specifies an update.
  - `EntryVar` is a class for an addressable `Entry` variable. It is the pointer receiver whose fields `UpdateEntry` overwrites in place, with the local `isUpdated` flag of the source.
- `journal.dfy`, module `Journal`:
  - `NewEntry` is a pure constructor.
  - `Journal` is a class holding the `entries: map<string, Entry>` field.
  - `Bag` gives the multiset of the map's values. `ListEntries` is proved against it, because Go map iteration order is unspecified.

Clock readings are integers (`Time`), and larger means later. The clock (`time.Now()`) and the id generator (`utils.GenerateID`, a UUID) are not called. Their results are parameters: `now` for `UpdateEntry`, and `id`, `created`, `updated` for `NewEntry` and `CreateEntry`. A non-decreasing clock appears only as a hypothesis of lemmas or of an implication in a postcondition; no operation requires it.

The `Entry` named in `pkg/journal/journal.go` is taken to be the `models.Entry` record. The map stores entry values, so an entry returned by `ListEntries` is a copy, as in Go.

Four behaviours of the code that a reader might expect otherwise:

- An update with an empty title or content keeps the stored field instead of overwriting it with the empty string.
- An update with both arguments empty changes nothing, not even `Updated`.
- `NewEntry` reads the clock twice. So `Created <= Updated` holds under a non-decreasing clock, but `Created == Updated` is not guaranteed.
- `CreateEntry` on the in-memory map overwrites an entry whose id is already present; it never reports a duplicate id.

## Model

| member | source | states |
|---|---|---|
| `Models.Merge` | models/entry.go:15-28 | A non-empty title or content replaces the stored field and an empty one keeps it. `Updated` becomes `now` when either argument is non-empty. With both empty the entry is unchanged. `ID` and `Created` never change. |
| `Models.MergeIdempotent` | models/entry.go:17-24 | Applying the same `(title, content)` twice gives the same entry as applying it once at the later time. In particular `Title` and `Content` are the same as after one update. |
| `Models.MergeKeepsWellTimed` | models/entry.go:25-27 | If `Created <= Updated` and the clock reads `now >= Updated`, the updated entry still has `Created <= Updated`, and `Updated` does not move backwards. |
| `Models.EntryVar.UpdateEntry` | models/entry.go:15-28 | The in-place update leaves the variable holding `Merge` of its old value. Field by field: `ID` and `Created` are kept, `Title` and `Content` are replaced only by non-empty arguments, and `Updated` is refreshed only if something was supplied. The timestamp invariant is preserved under a non-decreasing clock. |
| `Journal.NewEntry` | pkg/journal/entry.go:10-18 | The new entry carries the generated id and the title and content verbatim, empty strings included. `Created` is the first clock reading and `Updated` the second. With a non-decreasing clock the entry is well timed. |
| `Journal.NewEntryThenMergeWellTimed` | pkg/journal/entry.go:15-16 | A freshly built entry stays well timed after any later update, given a non-decreasing clock. |
| `Journal.Journal.constructor` | pkg/journal/journal.go:9-13 | `NewJournal` yields a journal with no entries, whose bag of values is empty. Every key equals its entry's id. |
| `Journal.Journal.CreateEntry` | pkg/journal/journal.go:16-20 | The returned entry is `NewEntry` of the arguments, so it carries the given title and content. It is stored under the key `entry.ID` and every other key keeps its entry. The map grows by one for a fresh id and keeps its size for an id already present, which is overwritten. The bag of values changes accordingly. Keys stay equal to ids. |
| `Journal.Journal.ListEntries` | pkg/journal/journal.go:23-29 | The result is exactly the map's values as a multiset, in any order. Its length is the map's size, and an entry is listed iff some key maps to it. In a valid journal each listed entry is the one stored under its own id. The journal is not modified. |
| `Journal.BagStore` | pkg/journal/journal.go:18 | Storing a value under a fresh key adds it to the multiset of values. Storing under a present key replaces that key's old value. |
| `Journal.ListingOfBag` | pkg/journal/journal.go:23-29 | A sequence whose multiset is the map's bag has the map's size and exactly the map's values as elements. When keys equal ids, each element is the entry stored under its id. |

## Left out

- The storage layer (`pkg/storage/storage.go` and the SQLite and MongoDB backends) is not part of this model. Its behaviour lives in the database engines, which cannot be seen.
- The command-line and HTTP front ends (`cmd/journal/main.go`, `cmd/web/main.go`) are not part of this model. They do routing, templating, JSON and terminal I/O.
- `GetEntry`, `UpdateEntry` and `DeleteEntry` on `Journal`, and `NewJournal(db)` with a storage argument, are not part of this model. The front ends call them, but the in-memory `Journal` does not define them.
- `utils.GenerateID` is replaced by an `id` parameter, so uniqueness of generated ids is not modelled. `CreateEntry` handles both a fresh id and an id already present.
- `time.Now()` is replaced by integer clock readings passed in. Wall-clock and monotonic time, time zones and resolution are not modelled.
- A zero-value `Journal` built without `NewJournal` has a nil map, and `CreateEntry` on it panics in Go. The model only builds journals through the constructor.
- Concurrent access to a `Journal` is not modelled. The source has no locking.
