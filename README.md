# Secure notes: a verified model of the notes front end

This project models the logic of a single-page notes application. The application keeps users, a session and notes in the browser's local storage. It has five parts:

- **Notes service.** Lists a user's notes newest first. Creates a note with defaults, merges an update into a note, deletes a note, and collects the user's categories.
- **Notes store.** Holds the notes as the views see them, the category list, the selected note, a search text and a category filter, and brings them in line with the service after each action.
- **Auth service.** Registers accounts with unique e-mail addresses (compared ignoring case), checks credentials at sign-in, and keeps a session (the id of the signed-in user).
- **Auth store.** Holds the signed-in user, a busy flag, an initialised flag and the last error message.
- **Router.** Holds the route table and the navigation guard. Sign-in and registration pages are for signed-out visitors. The notes page is for signed-in users. Every other path redirects to the notes page.

Storage is modelled as state:

- The persisted note list is the `notes` field of `NotesService.NotesDb`.
- The persisted user list and the session are the `users` and `session` fields of `AuthService.AuthDb`.
- The two stores are the classes `NotesStore.NotesState` and `AuthStore.AuthState`. Each action is a method. Its `modifies` clause names the fields it may change, or the whole service object when it calls into the service, and its `ensures` state the new value of each field it changes.

The pure parts are functions, with lemmas that relate them:

- listing, which filters, then sorts stably by `updatedAt`;
- the filtered view;
- the category list;
- credential checking;
- session lookup;
- routing.

Files:

- `common.dfy`: `Option`, `Result`, `Outcome`.
- `seqs.dfy`: `filter`, `findIndex`, `find`, de-duplication through a `Set`, and `splice(start, 1)` with JavaScript's negative-index rule.
- `text.dfy`: `trim` over the ECMAScript white-space set, `toLowerCase`, `includes`, and a string order.
- `records.dfy`: the `User` and `Note` records.
- `notes_service.dfy`, `notes_store.dfy`, `auth_service.dfy`, `auth_store.dfy`, `router.dfy`: the five parts above.

Two behaviours of the code are modelled as written:

- The doc comment of `getCategories` says the list always includes `All`. The code only adds `General`, and the model follows the code; the notes store's `load` adds `All`.
- `remove` with an id that is not in the in-memory list calls `splice(-1, 1)`, which drops the last note. `NotesStore.NotesState.Remove` states this case.

## Model

| member | source | states |
|---|---|---|
| Seqs.Filter | notes_frontend/src/services/notes.service.ts:10 | `Array.prototype.filter`: the result keeps exactly the elements passing the test, each as often as in the input; it is a subsequence of the input (FilterIsSubsequence) |
| Seqs.FilterIsSubsequence | notes_frontend/src/stores/notes.ts:23-27 | a filtered list keeps the original order |
| Seqs.FilterConcat | notes_frontend/src/stores/notes.ts:23-27 | filtering a concatenation filters each part |
| Seqs.FilterKeepsAll | notes_frontend/src/stores/notes.ts:23-27 | a filter every element passes returns the list unchanged |
| Seqs.FilterIdempotent | notes_frontend/src/services/notes.service.ts:52 | filtering twice with the same test is filtering once |
| Seqs.FilterAbsorbs | notes_frontend/src/services/notes.service.ts:10 | a narrower filter after a wider one equals the narrower filter alone |
| Seqs.FilterOverwrite | notes_frontend/src/stores/notes.ts:67-69 | overwriting a dropped element with another dropped element does not change the filter |
| Seqs.FilterNoDups | notes_frontend/src/stores/notes.ts:38 | filtering a duplicate-free list leaves it duplicate-free |
| Seqs.FindIndex | notes_frontend/src/services/notes.service.ts:36 | `findIndex`: -1 exactly when no element passes, otherwise the first passing index |
| Seqs.Find | notes_frontend/src/services/auth.service.ts:58 | `find`: none exactly when no element passes, otherwise the element at the first passing index |
| Seqs.Distinct | notes_frontend/src/stores/notes.ts:57 | `Array.from(new Set(..))`: no duplicates and the same elements as the input |
| Seqs.DistinctOfNoDups | notes_frontend/src/stores/notes.ts:57 | on a duplicate-free list the `Set` round trip is the identity |
| Seqs.SpliceOne | notes_frontend/src/stores/notes.ts:82 | `splice(start, 1)`: removes index `start`; a negative start counts from the end; a start before the beginning removes the first element; a start past the end removes nothing |
| Text.Trim | notes_frontend/src/services/notes.service.ts:21 | `trim`: the result is a slice of the input with only white space before and after it, has no white space at either end, and is empty exactly when the input is all white space |
| Text.Lower | notes_frontend/src/stores/notes.ts:21-25 | `toLowerCase` on ASCII: same length, each capital A-Z becomes its lower-case letter, every other character is kept |
| Text.Contains | notes_frontend/src/stores/notes.ts:25 | `includes`: the empty needle is always found, and a found needle is no longer than the text |
| Text.LeadingSpaces | notes_frontend/src/stores/notes.ts:21 | the length of the white-space prefix that `trim` drops |
| Text.TrailingCut | notes_frontend/src/stores/notes.ts:21 | the end of the text `trim` keeps: only white space follows it |
| Text.ContainsIffOccurs | notes_frontend/src/stores/notes.ts:25 | `includes` holds exactly when the needle occurs at some offset of the text |
| Text.LessIrreflexive | notes_frontend/src/services/notes.service.ts:62 | the order used for the categories is irreflexive |
| Text.LessTransitive | notes_frontend/src/services/notes.service.ts:62 | the order used for the categories is transitive |
| Text.LessTotal | notes_frontend/src/services/notes.service.ts:62 | of two different strings, one is below the other |
| Text.LessAsymmetric | notes_frontend/src/services/notes.service.ts:62 | the order used for the categories is asymmetric |
| Text.Less | notes_frontend/src/services/notes.service.ts:62 | the order standing for `localeCompare`: a string is never below itself, and a proper prefix is below the longer string |
| NotesService.Locate | notes_frontend/src/services/notes.service.ts:36 | the index `updateNote` looks up: -1 exactly when no note has both the id and the owner, otherwise the first such note |
| NotesService.CategoryOf | notes_frontend/src/services/notes.service.ts:61 | `n.category \|\| 'General'`: an empty category becomes `General`, a non-empty one is kept |
| NotesService.InsertByRecency | notes_frontend/src/services/notes.service.ts:10 | inserting into a list sorted newest first keeps it sorted and adds exactly the note |
| NotesService.PrependNewest | notes_frontend/src/services/notes.service.ts:10 | a note newer than a sorted list's tail can head the tail with another note inserted |
| NotesService.SortByRecency | notes_frontend/src/services/notes.service.ts:10 | `sort((a, b) => b.updatedAt - a.updatedAt)`: the result is sorted newest first and is a permutation of the input |
| NotesService.InsertKeepsTies | notes_frontend/src/services/notes.service.ts:10 | an inserted note goes before the notes with its own timestamp, which keep their order |
| NotesService.SortByRecencyIsStable | notes_frontend/src/services/notes.service.ts:10 | the sort is stable: notes with equal `updatedAt` keep their stored order |
| NotesService.GetNotes | notes_frontend/src/services/notes.service.ts:7-11 | `getNotes`: exactly the user's stored notes, each as often as stored, newest first |
| NotesService.StrictlyNewestFirst | notes_frontend/src/services/notes.service.ts:10 | in any newest-first permutation, a strictly newest note comes first |
| NotesService.NewestNoteListedFirst | notes_frontend/src/services/notes.service.ts:7-11 | the user's strictly most recently updated note heads `getNotes` |
| NotesService.NewNote | notes_frontend/src/services/notes.service.ts:18-26 | `createNote`'s record: the given id, owner and time for both timestamps; a blank or missing title becomes `Untitled` and a given one is trimmed; content defaults to empty; an empty or missing category becomes `General` |
| NotesService.CreatedNoteListedFirst | notes_frontend/src/services/notes.service.ts:14-30 | a note created later than all the user's notes heads their next listing |
| NotesService.Merge | notes_frontend/src/services/notes.service.ts:38-42 | `updateNote`'s merge: id, owner and creation time are kept, `updatedAt` is the current time, and each field present in the update replaces the stored one |
| NotesService.UpdatedNoteListedFirst | notes_frontend/src/services/notes.service.ts:33-46 | after an update stamped later than the user's other notes, the updated note heads the listing |
| NotesService.Remaining | notes_frontend/src/services/notes.service.ts:52 | `deleteNote`'s filter: every note with that id and owner is gone, every other note is kept as often and in the order it was stored |
| NotesService.DeleteMissingIsNoop | notes_frontend/src/services/notes.service.ts:49-54 | deleting a note the user does not own, or that does not exist, changes nothing |
| NotesService.DeleteIdempotent | notes_frontend/src/services/notes.service.ts:49-54 | deleting twice is deleting once |
| NotesService.DeleteByOtherOwnerKeepsListing | notes_frontend/src/services/notes.service.ts:49-54 | one user's delete never changes another user's listing |
| NotesService.StrictlySortedNoDups | notes_frontend/src/services/notes.service.ts:60-62 | a strictly sorted category list has no duplicates |
| NotesService.BelowHead | notes_frontend/src/services/notes.service.ts:62 | a category below the head of a strictly sorted list is below all of it |
| NotesService.InsertCategory | notes_frontend/src/services/notes.service.ts:61 | adding to the sorted set keeps it strictly sorted and adds exactly the category |
| NotesService.CollectCategories | notes_frontend/src/services/notes.service.ts:60-62 | the collected set is strictly sorted, holds `General` and every note's category (an empty one read as `General`), and nothing else |
| NotesService.GetCategories | notes_frontend/src/services/notes.service.ts:57-63 | `getCategories`: sorted without duplicates, always holds `General`, holds each of the user's categories, and holds nothing else |
| NotesService.NoNotesOnlyGeneral | notes_frontend/src/services/notes.service.ts:57-63 | a user without notes has exactly `[General]` |
| NotesService.SortedListsWithSameElementsAgree | notes_frontend/src/services/notes.service.ts:62 | two strictly sorted lists with the same elements are equal, so the category list is determined by its set |
| NotesService.NotesDb.constructor | notes_frontend/src/services/notes.service.ts:16 | the stored note list starts as given; an absent list is the empty fallback of `getJSON` |
| NotesService.NotesDb.CreateNote | notes_frontend/src/services/notes.service.ts:14-30 | `createNote`: returns the new record and appends it to the stored notes |
| NotesService.NotesDb.UpdateNote | notes_frontend/src/services/notes.service.ts:33-46 | `updateNote`: fails with `Note not found` and changes nothing when the user has no note with that id; otherwise replaces the first match with its merge and returns it |
| NotesService.NotesDb.DeleteNote | notes_frontend/src/services/notes.service.ts:49-54 | `deleteNote`: the stored notes become the remaining ones |
| AuthService.FindByEmail | notes_frontend/src/services/auth.service.ts:16 | the lookup of `register` and `login`: -1 exactly when no user has the e-mail ignoring case, otherwise the first such user |
| AuthService.NewUser | notes_frontend/src/services/auth.service.ts:21-27 | the record `register` stores: the given id, e-mail as typed, display name, password hash and creation time |
| AuthService.CurrentUser | notes_frontend/src/services/auth.service.ts:53-59 | `getCurrentUser`: nobody without a session or with an empty one; a result is the first stored user whose id is the session; nobody only when no user has that id |
| AuthService.Authenticate | notes_frontend/src/services/auth.service.ts:35-44 | `login`'s check: succeeds exactly when the first user with the e-mail, ignoring case, has the password hash, and then returns that user; otherwise `Invalid email or password` |
| AuthService.LoginSucceedsIffCredentialsMatch | notes_frontend/src/services/auth.service.ts:35-44 | with unique e-mails, sign-in succeeds exactly when some user has the e-mail, ignoring case, and that hash |
| AuthService.SessionResolvesToAccount | notes_frontend/src/services/auth.service.ts:53-59 | with unique ids, the session of a user resolves to that user |
| AuthService.AdmitKeepsConsistent | notes_frontend/src/services/auth.service.ts:13-32 | admitting a user with a new e-mail and a fresh non-empty id keeps e-mails and ids unique |
| AuthService.LoginAfterRegister | notes_frontend/src/services/auth.service.ts:13-44 | right after registering, signing in with the same e-mail (any case) and password returns the new user |
| AuthService.RegisterTwiceRefused | notes_frontend/src/services/auth.service.ts:16-19 | once registered, the e-mail (in any case) is taken |
| AuthService.FreshIdIsCurrent | notes_frontend/src/services/auth.service.ts:28-30 | an appended user with a fresh id is what its session resolves to |
| AuthService.AuthDb.constructor | notes_frontend/src/services/auth.service.ts:55-57 | the stored users and session start as given; absent ones are the `getJSON` fallbacks |
| AuthService.AuthDb.Register | notes_frontend/src/services/auth.service.ts:13-32 | `register`: a taken e-mail fails with `Email already registered` and changes nothing; otherwise appends the new user, opens its session, returns it, and keeps e-mails and ids unique |
| AuthService.AuthDb.Login | notes_frontend/src/services/auth.service.ts:35-44 | `login`: the credential check's answer; on success the session is the user's and resolves to that user |
| AuthService.AuthDb.Logout | notes_frontend/src/services/auth.service.ts:47-50 | `logout`: no session, and nobody is current |
| AuthStore.AuthState.constructor | notes_frontend/src/stores/auth.ts:6-11 | the initial state: nobody, not loading, not initialised, empty error |
| AuthStore.AuthState.InitFromStorage | notes_frontend/src/stores/auth.ts:14-24 | `initFromStorage`: the user is the current session user; initialised and not loading afterwards |
| AuthStore.AuthState.Login | notes_frontend/src/stores/auth.ts:26-40 | `login`: the service's answer; on success the user is set and is the session's user; on failure the message is recorded and the user kept |
| AuthStore.AuthState.Register | notes_frontend/src/stores/auth.ts:42-56 | `register`: the service's effects; on success the user is the new account and the session's user; on failure the message is recorded and the user kept |
| AuthStore.AuthState.Logout | notes_frontend/src/stores/auth.ts:58-62 | `logout`: no session and no user |
| NotesStore.SelectedIn | notes_frontend/src/stores/notes.ts:18 | `selectedNote`: the first note with the selected id, or none exactly when nothing is selected or no note has that id |
| NotesStore.SearchKey | notes_frontend/src/stores/notes.ts:21 | the trimmed, lower-cased search; empty exactly when the search is all white space |
| NotesStore.Matches | notes_frontend/src/stores/notes.ts:22-26 | a shown note is in the active category unless it is `All`; with `All` and an empty key every note is shown |
| NotesStore.Visible | notes_frontend/src/stores/notes.ts:20-28 | `filteredNotes`: an order-preserving subsequence holding exactly the notes in the category (or all for `All`) whose lower-cased title or content includes the trimmed, lower-cased search |
| NotesStore.NoFilterShowsAll | notes_frontend/src/stores/notes.ts:20-28 | with `All` and a blank search every note is shown, in order |
| NotesStore.WithAll | notes_frontend/src/stores/notes.ts:38 | the list `load` builds: `All` first, then every service category, and `All` nowhere else |
| NotesStore.LoadedCategoriesDistinct | notes_frontend/src/stores/notes.ts:38 | the loaded list, `All` then the service list without `All`, has no duplicates and loses no category |
| NotesStore.WithAllKeepsOrder | notes_frontend/src/stores/notes.ts:38 | after `All`, the loaded list is the service list in its order with every `All` left out, each element as often as there |
| NotesStore.AddCategory | notes_frontend/src/stores/notes.ts:56-58 | the categories after `addNew` or `save`: exactly the old ones and the note's category |
| NotesStore.AddCategoryAppends | notes_frontend/src/stores/notes.ts:56-58 | on a duplicate-free list the `Set` round trip appends a missing category once and changes nothing otherwise |
| NotesStore.OverwriteThenMoveToFront | notes_frontend/src/stores/notes.ts:66-69 | overwriting the note's entry before moving the update to the front has no effect on the result |
| NotesStore.NoteIds | notes_frontend/src/stores/notes.ts:80 | an id is listed exactly when `findIndex` finds it |
| NotesStore.Saved | notes_frontend/src/services/notes.service.ts:38-45 | the note `updateNote` returns: the requested id and owner, stamped with the current time, with the stored note's creation time |
| NotesStore.FirstId | notes_frontend/src/stores/notes.ts:84 | `notes[0]?.id ?? null`: none exactly for an empty list, otherwise the first note's id |
| NotesStore.SpliceAtFoundIndex | notes_frontend/src/stores/notes.ts:80-82 | `splice(findIndex(..), 1)` removes the note's first entry when the id is listed, and the last note otherwise |
| NotesStore.NotesState.constructor | notes_frontend/src/stores/notes.ts:10-16 | the initial state: no notes or categories, nothing selected, empty search, category `All` |
| NotesStore.NotesState.SelectedNote | notes_frontend/src/stores/notes.ts:18 | `selectedNote`: a listed note carrying the selected id; none exactly when nothing is selected or no note has that id |
| NotesStore.NotesState.FilteredNotes | notes_frontend/src/stores/notes.ts:20-28 | `filteredNotes`: an order-preserving subsequence of the notes holding exactly those that pass the search and category filter |
| NotesStore.NotesState.Load | notes_frontend/src/stores/notes.ts:31-47 | `load`: nothing without a user; otherwise the user's listing, the categories headed by `All`, and the first note selected when nothing was |
| NotesStore.NotesState.Show | notes_frontend/src/stores/notes.ts:36-41 | the assignments of a successful `load`: the listing and the categories, and the first note selected when nothing was; the categories stay duplicate-free |
| NotesStore.NotesState.AddNew | notes_frontend/src/stores/notes.ts:50-59 | `addNew`: the created note is stored, heads the list and is selected; its category is appended when new |
| NotesStore.NotesState.Save | notes_frontend/src/stores/notes.ts:62-73 | `save`: succeeds exactly when the user owns the note; a failure is `Note not found` and changes nothing; success stores the merge, puts it first with the other notes in order, and appends its category when new |
| NotesStore.NotesState.MoveToFront | notes_frontend/src/stores/notes.ts:66-72 | the update heads the list followed by every other note in order; its category is appended when new |
| NotesStore.NotesState.Remove | notes_frontend/src/stores/notes.ts:76-86 | `remove`: deletes in storage, then splices at the note's index (the last note when the id is not listed); a removed selection falls back to the new first note or none |
| NotesStore.NotesState.Drop | notes_frontend/src/stores/notes.ts:80-85 | the in-memory half of `remove`: the splice at `findIndex`, and a removed selection falls back to the first remaining note or none |
| NotesStore.NotesState.SetCategory | notes_frontend/src/stores/notes.ts:89-92 | sets the category filter and nothing else |
| NotesStore.NotesState.SetSearch | notes_frontend/src/stores/notes.ts:95-98 | sets the search text and nothing else |
| NotesStore.NotesState.SelectNote | notes_frontend/src/stores/notes.ts:101-104 | sets the selection and nothing else |
| Router.Resolve | notes_frontend/src/router/index.ts:6-27 | the route table: `/login` and `/register` are public, `/app` requires auth, every other path redirects to `/app` |
| Router.Guard | notes_frontend/src/router/index.ts:35-42 | the guard: a public page sends a signed-in user to `app`; a page requiring auth sends a signed-out visitor to `login` with the full path as `redirect`; all else proceeds |
| Router.Navigate | notes_frontend/src/router/index.ts:6-43 | a navigation proceeds exactly when signed-in users go to non-public paths or signed-out visitors to public ones; signed-out visitors to redirecting paths reach `login` with `redirect=/app` |
| Router.BeforeEach | notes_frontend/src/router/index.ts:30-43 | `beforeEach`: initialises the auth store once, then answers the guard's decision for the store's user |

## Left out

- Local storage, JSON encoding and the namespaced keys (`services/storage.ts`) are not part of this model. The stored lists and the session are fields, and their initial contents are constructor arguments. A malformed stored value, which `getJSON` reads as the fallback, is not modelled.
- The password hash is a function field `hash` of `AuthDb`, left abstract. `encodeURIComponent` throwing on a lone surrogate is not modelled.
- `crypto.randomUUID()` and `Date.now()` become parameters (`id`, `now`).
- AuthService.AuthDb.Register: requires the new id to be non-empty and unused, which a random UUID is assumed to be.
- `localeCompare` depends on the locale. The model sorts categories by code-point (lexicographic) order, `Text.Less`.
- `toLowerCase` is modelled for ASCII letters only.
- Asynchronous interleavings are not modelled: every action is one atomic step. Lost updates across tabs are not modelled either.
- NotesStore.NotesState.Load: the `catch` branch and the store's `error` field are not reachable in the model. Its service calls cannot fail here.
- AuthStore.AuthState.Login: the fallback message `Login failed` is not modelled. The service always fails with an `Error`.
- AuthStore.AuthState.Register: the fallback message `Registration failed` is not modelled, for the same reason.
- The router: only exact path matching is modelled. Vue Router's case-insensitive and trailing-slash matching, query strings and hashes in `fullPath`, the lazily loaded view components and the history mode are left out.
- Vue and Pinia reactivity (`ref`, `computed`) are left out. Computed values are functions of the state.
- The type declarations (`types/index.ts`) are the `Records` datatypes.
- NotesService.Merge: an update field explicitly set to `undefined` is treated as absent. In JavaScript the object spread would copy the `undefined`.
