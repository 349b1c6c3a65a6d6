# Personal wiki: library model, merge engine and sync state

A Dafny model of the core of a single-page browser wiki (`script.js`). The
wiki keeps a *library*: an ordered list of books, each an ordered list of
chapters, with book and chapter ids as identity keys. The user adds, opens
and closes, deletes and edits books and chapters. On load, the page merges a
remote copy of the library (a JSON file kept in a GitHub repository) into the
local one with `mergeLibraries`. On save, it stores the library locally and
uploads it with the remote file's version token (`fileSha`).

The model has four modules:

- `Keyed` (`keyed.dfy`) models lookup by id on lists of records, the
  `find(x => x.id === id)` and `filter(x => x.id !== id)` the source uses
  everywhere, with their properties.
- `Library` (`library.dfy`) defines `Book` and `Chapter`, the library
  invariant `WellFormed` (unique book ids, unique chapter ids within a book),
  and each sidebar or editor edit as a function from the old library to the
  new one, with lemmas about each.
- `Merge` (`merge.dfy`) holds `mergeLibraries`. `MergeLibraries` is the loop
  over the remote books. It is proved equal to the fold `Merged` and to
  the source's promises about counts, growth and the unchanged local prefix.
  Lemmas about `Merged` prove that no data is lost, that merging a library
  with itself is a no-op, what happens to new, equal, differing and
  duplicate books, and that fresh conflict ids keep the library well formed.
- `Session` (`session.dfy`) holds the class `Wiki`. It has the page's globals
  (`library`, `currentBookId`, `currentChapId`, `fileSha`, `config`, the
  copy in local storage, and whether the editor pane is shown). Its methods
  are the handlers: `addBook`, `addChapter`, `toggleBook`, `delBook`,
  `delChap`, the two `input` handlers, `syncFromCloud`, `handleSaveClick`
  and `saveToGithub`.

The environment becomes parameters. The answers to `prompt` and `confirm`
are inputs. So is the clock text used in new ids: `bnow` and `cnow` for the
two separate readings in `addBook`'s `'b' + Date.now()` and `'c' + Date.now()`,
`now` for `addChapter`'s `'c' + Date.now()`, and `clock(i)` for the suffix of
the i-th conflict id, `Date.now() + Math.random()…`. The HTTP replies are inputs too: `FetchReply`
for the GET and `PutReply` for the PUT.

Behaviour of the source that the model keeps:

- Sidebar and editor edits are not written to local storage as they happen.
  The source only marks the page unsaved. The library is stored on an
  explicit save, after a sync that added books, and when the default library
  is installed. `stored` changes only in those three places.
- Deleting the open book or chapter hides the editor but does not clear
  `currentBookId` or `currentChapId` (`hideEditor` only changes the page).
- `delChap` hides the editor whenever the open chapter has the deleted
  chapter's id, even in another book. Conflict copies share chapter ids with
  the original book.
- A GET reply that is accepted but whose content does not decode still
  updates `fileSha`. The source records the sha before it decodes.
- Nothing guards against a second save while an upload is in flight, and
  late replies are not checked. The model treats each handler as atomic.
- A handler whose `find` comes back `undefined` throws a TypeError before it
  changes anything: `addChapter`, `toggleBook` and `delChap` on an unknown
  book id, and the `input` handlers when the open book or chapter is gone
  (after `delBook` of the open book, the pointers still name it). The model
  makes such a call change nothing.
- The merge is not idempotent. While a diverging remote book stays on the
  remote side, every further sync adds another conflict copy
  (`RepeatedMergeCopiesAgain`).

## Model

| member | source | states |
|---|---|---|
| Keyed.FirstIndex | script.js:75 | `find` by id returns the first record with that id: it has the id, none before it has it, and there is none exactly when no record carries the id |
| Keyed.RemoveKey | script.js:238 | filtering out an id keeps exactly the records with another id, never grows the list, and leaves no record with that id |
| Keyed.RemoveKeyAppend | script.js:238 | filtering works record by record over a concatenation, so the kept records stay in their original order |
| Keyed.RemoveKeyAbsent | script.js:238 | filtering out an id no record carries returns the list unchanged |
| Keyed.RemoveKeyUniqueAt | script.js:238 | with unique ids, filtering out the id of the record at k yields the list without position k, in order |
| Keyed.RemoveKeyKeepsUnique | script.js:247 | filtering keeps ids unique |
| Library.BookIndex | script.js:232 | `library.find(x => x.id === bid)` is the first book with id `bid` |
| Library.ChapterIndex | script.js:257 | `b.chapters.find(x => x.id === cid)` is the first chapter with id `cid` |
| Library.OpenChapter | script.js:256-257 | the chapter `loadDoc` shows is one of the found book's chapters and carries the id asked for |
| Library.DefaultLibrary | script.js:21-28 | the default library is one open book whose one chapter `loadDoc` can find, and it is well formed |
| Library.NewBook | script.js:206-213 | the new book has id `'b' + bnow`, the answer as title, is open, and its one chapter is found under `'c' + cnow` with unique chapter ids |
| Library.AddBookSpec | script.js:203-218 | under an unused book id, the new book keeps the library well formed, is found at the end, and its chapter `'c' + cnow` is the empty first page |
| Library.WithChapter | script.js:219-230 | adding a chapter keeps the number of books and the position `find` returns for the book |
| Library.AddChapterSpec | script.js:219-230 | only the first book with that id changes: it is opened and gains the new chapter at the end of its chapters; with an unused chapter id the library stays well formed and the new chapter is the one loaded |
| Library.Toggled | script.js:231-235 | toggling keeps the number of books and the book's position |
| Library.ToggleSpec | script.js:231-235 | toggling flips only `isOpen` of that book, keeps the library well formed, and toggling twice restores the library |
| Library.WithoutBook | script.js:236-243 | after deletion no book has the id, a book remains exactly when it was there with another id, and a well-formed library stays well formed |
| Library.DelBookSpec | script.js:238 | in a well-formed library deletion removes exactly the one entry and keeps the rest in order; deleting an unknown id changes nothing |
| Library.WithoutChapter | script.js:244-252 | after deleting a chapter the book is still found at the same position and no longer has a chapter with that id |
| Library.DelChapSpec | script.js:246-247 | every other book and every other chapter of the book is unchanged, the library stays well formed, and with unique ids exactly one chapter entry goes |
| Library.Edited | script.js:269-280 | an edit keeps the book's position and the chapter's position, so the same chapter is still found |
| Library.EditSpec | script.js:269-280 | the edited chapter read back shows the new value in the edited field and the old value in the other; all other books and chapters are unchanged; the library stays well formed |
| Library.EditLastWins | script.js:269-280 | of two edits to the same field the later one wins |
| Merge.ConflictCopy | script.js:83-85 | the conflict copy has id `'b_conflict_' + stamp`, the remote chapters and `isOpen`, and never equals the remote book it copies |
| Merge.Step | script.js:75-88 | one turn of the loop appends at most one book, never lowers a counter, and the counters grow by exactly the number appended |
| Merge.MergePrefix | script.js:74-90 | after n remote books the list holds the local books and at most n more |
| Merge.Merged | script.js:70-92 | the merge result: `addedCount == newBooks + conflicts`, at most one per remote book, and the local list is an unchanged prefix followed by `addedCount` books |
| Merge.MergeLibraries | script.js:70-92 | the loop computes the fold `Merged`; `addedCount == newBooks + conflicts`; the result is the local list as an unchanged prefix followed by exactly `addedCount` appended books, at most one per remote book |
| Merge.MergeMonotone | script.js:71-90 | `merged` only grows at the end: every earlier state is a prefix of every later one |
| Merge.MergeGrowth | script.js:71-91 | after n remote books the local list is an unchanged prefix, the length is the local length plus new books plus conflicts, and the counts are at most n |
| Merge.StepCases | script.js:75-88 | each remote book adds nothing (it is already there), or appends itself, or appends its conflict copy |
| Merge.MergeKeepsRemote | script.js:74-90 | no remote data is lost: every remote book ends up in the result, as itself or as its conflict copy |
| Merge.MergeAddsOnlyRemote | script.js:74-90 | every appended book is a remote book or the conflict copy of one |
| Merge.MergeKnownIsNoOp | script.js:80-82 | remote books each equal to the local book found under their id leave the result equal to the local list with zero counts |
| Merge.SelfMergeIsNoOp | script.js:70-91 | merging a library with unique ids with itself gives the library back with `addedCount == 0` |
| Merge.MergeOneBook | script.js:75-88 | one remote book: an unknown id is appended and counted new; equal to its match it adds nothing; differing, one copy is appended with the remote chapters and `isOpen`, id `'b_conflict_' + stamp`, title plus `' [云端副本]'`, counted as a conflict |
| Merge.DuplicateRemoteId | script.js:75-78 | lookup runs on the growing list: a second remote book with the same new id is compared with the first one appended |
| Merge.DisjointMergeAppendsAll | script.js:76-78 | remote books with unique ids that the local list lacks are all appended in order as new books, with no conflicts |
| Merge.RepeatedMergeCopiesAgain | script.js:80-87 | merging the same diverging remote book again appends a second conflict copy (the merge is not idempotent) |
| Merge.StepKeepsWellFormed | script.js:75-88 | one turn keeps ids unique when its conflict id is unused, and adds at most the remote id or the conflict id |
| Merge.MergeKeepsWellFormed | script.js:84-86 | with conflict ids unused on either side and distinct, merging keeps book ids unique (and chapter ids unique if the remote books have them), and every id comes from the local list, the remote list or a conflict stamp |
| Merge.MergedWellFormed | script.js:70-92 | the same for the whole merge |
| Session.UploadOutcome | script.js:121-138 | once the PUT is sent, a reply is never classified as a local-only save |
| Session.UploadOutcomeSpec | script.js:122-138 | an upload counts as synced exactly when a 2xx reply carries `content.sha`; a 409 with a JSON body, and only a 409, is reported as a conflict |
| Session.Wiki.Load | script.js:9-28 | on load the saved library and settings are read; without settings and with an empty library the default library is installed and stored |
| Session.Wiki.Editing | script.js:270 | the input handlers' guard `if (currentBookId)`: a non-null, non-empty book id |
| Session.Wiki.EditTarget | script.js:271 | both `find`s of the input handlers succeed on the current pointers |
| Session.Wiki.Connected | script.js:95 | a save uploads when `config.token && config.owner` |
| Session.Wiki.LoadDoc | script.js:253-264 | the pointers are set to the chapter; the editor is shown once the book is found |
| Session.Wiki.AddBook | script.js:203-218 | a non-empty answer appends the new book, with its two clock readings, and opens its first page; a cancelled or empty answer changes nothing; a fresh book id keeps the library well formed |
| Session.Wiki.AddChapter | script.js:219-230 | a non-empty answer for an existing book adds the chapter, opens the book and loads the chapter; a cancelled or empty answer, or an unknown book (the source throws), changes nothing |
| Session.Wiki.ToggleBook | script.js:231-235 | a known book is toggled, an unknown id (the source throws) changes nothing; the library stays well formed |
| Session.Wiki.DelBook | script.js:236-243 | once confirmed, the books with that id are gone and the editor is hidden if it showed that book; unconfirmed, nothing changes |
| Session.Wiki.DelChap | script.js:244-252 | once confirmed for an existing book, the chapter is gone from that book and the editor is hidden if the open chapter had that id; unconfirmed, or for an unknown book (the source throws), nothing changes |
| Session.Wiki.OnInput | script.js:269-280 | when both lookups on the pointers succeed the typed value is written into the field; when the guard fails or a lookup fails (the source throws) the library is unchanged; the library stays well formed |
| Session.Wiki.SyncFromCloud | script.js:41-69 | `fileSha` changes only when an accepted reply is read; the library changes only when the merge added something, then it is also stored; the old library always remains a prefix of the new |
| Session.Wiki.SaveToGithub | script.js:101-139 | the PUT carries the library and the current `fileSha`; `fileSha` changes only on an accepted upload, to the returned sha |
| Session.Wiki.HandleSaveClick | script.js:93-100 | the library is stored locally first, whatever happens next; the upload happens only when token and owner are set; the library itself never changes |

## Left out

- Rendering: `render`, the search filter (it relies on Unicode `toLowerCase`), `updateConnectionStatus`, `showLoading`, `markAsUnsaved` and `resetSaveButtonState` only change the page.
- `fetch`, URLs and headers are network I/O. Each call is replaced by its reply, given as an input.
- Base64 and UTF-8 transcoding (`atob`, `btoa`, `escape`, `unescape`, `encodeURIComponent`, `decodeURIComponent`) and `JSON.parse`/`JSON.stringify` are browser built-ins. A reply's content is given as the decoded library, or as None when it does not decode. Local storage holds the library value itself. Storage quota errors are not modelled.
- Merge.MergeLibraries: equality of books is structural datatype equality. The source compares `JSON.stringify` strings, which also differ when two equal books list their keys in a different order or carry extra fields. The model does not capture that.
- Merge.MergeKeepsWellFormed: conflict ids are assumed fresh. `Date.now()` plus five random base-36 characters makes a collision unlikely but does not exclude it; the clock text is an input.
- Session.Wiki.AddBook: the new ids `'b' + bnow` and `'c' + cnow` keep the library well formed only when `bnow` gives an unused book id. The source does not check this.
- The TypeError thrown by a failed `find` is not modelled as an error: the handler simply changes nothing, and the console message is left out.
- Session.Wiki.SaveToGithub: a 2xx reply with a `content` object but no `sha` would set `fileSha` to `undefined`. The model treats a reply without `content.sha` as the thrown case.
- The settings dialog (`openConfig`, `closeConfig`, `saveConfig`, `disconnectGithub`) is not part of this model. The model keeps `config` as loaded.
- Image paste and `compressImage` (canvas and floating-point scaling), `formatDoc`/`execCommand`, the Tab and Ctrl+S key handlers, the image context menu and the theme are UI and floating-point work.
- `async`/`await` and `setTimeout`: each handler runs as one atomic step.
