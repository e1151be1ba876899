# BookmarkHub client state, verified

This project models the state logic of the BookmarkHub web client: a
bookmarking app that keeps a signed-in user's links, text notes and photos in
a hosted table, and a recipe form that edits a draft recipe.

Three pieces are modelled.

- **The bookmark collection controller** (`Bookmarks.BookmarkApp`, from
  `src/App.tsx`). It holds the local list of bookmarks, the signed-in user, the
  loading flag and a log of the notifications shown.
  - The hosted service is `Store.Backend`: an in-memory table of rows and a
    map of stored objects.
  - Every remote call takes a `fails` flag. That flag is the network's answer,
    so each call can succeed or fail independently.
  - The controller's handlers are methods:
    - fetch, add (with the optional photo upload), delete and logout;
    - the auth-change callback;
    - the start-up session check.
  - Each handler states its whole new state in terms of the old one.
  - The class invariant `Valid()` holds across every handler. It says the
    table's ids are distinct and the local list is newest first with distinct
    ids. The list is only ever empty, a fetch result or a filtered fetch
    result, so the invariant holds even after a failed reload.
  - `Scoped()` says every listed bookmark belongs to the signed-in user and
    nothing is listed while nobody is signed in. Fetch, add, delete and
    logout keep it. The auth callback and the start-up session check keep it
    too, except when a session for a different user arrives, the list is
    non-empty and that user's fetch fails (see "## Left out").
  - `Mirrors()` says the local list equals what a fresh fetch would return.
    A successful fetch establishes it, a successful add-and-reload
    re-establishes it, and a delete preserves it. The delete case rests on
    `Store.QueryWithout`: removing an id from the sorted, per-user list equals
    querying the table after the removal.
- **The tag editor and submit gate** (`BookmarkForm`, from
  `src/components/AddBookmarkForm.tsx`).
  - Enter adds the typed tag only when it is absent.
  - A tag's button removes every occurrence of that tag.
  - The collected tags never repeat (the class invariant `Valid()`).
  - Submit emits the draft only when the title and the content are non-empty,
    then clears every field but the kind.
- **The recipe draft editor** (`RecipeForm`, from
  `src/components/AddRecipeForm.tsx`).
  - Append, replace-at-index and delete-at-index work on the `ingredients` and
    `instructions` lists, and leave the other list and every scalar field as
    they were.
  - Submit emits the draft only when the title and the image URL are
    non-empty, then resets the draft to a fixed default and closes the form.

The fetch's `eq('userId', …).order('createdAt', { ascending: false })` is
modelled as two functions: `OwnedBy` (an order-keeping filter) followed by
`NewestFirst` (an insertion sort on `createdAt`, descending). Both are proved
correct:

- the filter's membership is exact;
- the sort's result is ordered and is a permutation of its input.

The photo path `userId/<random>.<ext>` is built from `FileExtension`, which
models `name.split('.').pop()`. The lemmas show two things:

- the stored name keeps exactly the text after the file name's last dot;
- the path sits in the owner's folder.

## Model

| member | source | states |
|---|---|---|
| Store.OwnedBy | src/App.tsx:52 | a row is in the result iff it is in the table and its `userId` is the argument; each row occurs as often as in the table if it is the user's and not at all otherwise; never longer than the table |
| Store.NewestFirst | src/App.tsx:53 | the result is ordered by `createdAt`, descending, and is a permutation (same multiset) of the input |
| Store.Query | src/App.tsx:49-53 | the fetch's answer is newest first and holds exactly the user's rows, with their multiplicities (a permutation of `OwnedBy`) |
| Store.NewestFirstDistinct | src/App.tsx:53 | sorting keeps ids distinct |
| Store.OwnedByDistinct | src/App.tsx:52 | the owner filter keeps ids distinct |
| Store.QueryDistinct | src/App.tsx:49-56 | a fetch from a table with distinct ids lists each id at most once |
| Store.QueryIsOwnRowsNewestFirst | src/App.tsx:49-53 | the fetch returns exactly the user's rows, with their multiplicities, newest first |
| Store.QueryShowsLastRow | src/App.tsx:101-108 | a row just appended for a user is in that user's next fetch |
| Store.Without | src/App.tsx:124 | a bookmark is in the result iff it is in the input and its id differs from `id`; never longer than the input |
| Store.WithoutAbsent | src/App.tsx:124 | filtering out an id no element has leaves the list unchanged |
| Store.WithoutAppend | src/App.tsx:124 | the filter distributes over concatenation, so the survivors keep their relative order |
| Store.WithoutIdempotent | src/App.tsx:124 | filtering the same id twice is filtering it once |
| Store.WithoutDistinct | src/App.tsx:116-119 | a delete keeps the table's ids distinct |
| Store.NewestFirstSub | src/App.tsx:124 | filtering an id out of a newest-first list leaves it newest first |
| Store.WithoutRemovesOne | src/App.tsx:116-124 | with distinct ids, a present id loses exactly one row and an absent id none |
| Store.OwnedByWithout | src/App.tsx:52 | the owner filter and the id filter commute |
| Store.WithoutNewestFirst | src/App.tsx:53 | the id filter commutes with the newest-first sort |
| Store.QueryWithout | src/App.tsx:114-124 | filtering an id out of a fetched list equals fetching after the remote delete of that id |
| Store.Backend.Select | src/App.tsx:49-55 | on failure, an error; otherwise the user's rows newest first |
| Store.Backend.Insert | src/App.tsx:101-105 | on failure or an id already in use, an error and the table as it was; otherwise the row with its new id appended; ids stay distinct |
| Store.Backend.Delete | src/App.tsx:116-121 | on failure, an error and the table as it was; otherwise every row with that id removed; ids stay distinct |
| Store.Backend.PublicUrl | src/App.tsx:85-87 | the public URL starts with the project's URL and ends with the object's path |
| Store.Backend.Upload | src/App.tsx:79-83 | on failure, the objects as they were; otherwise `path` maps to the bytes; the table is untouched |
| Bookmarks.FileExtension | src/App.tsx:75 | the result has no dot, is a suffix of the name, and is either the whole name or starts right after a dot |
| Bookmarks.ExtensionAfterLastDot | src/App.tsx:75-76 | the extension of `stem + "." + ext` is `ext` whenever `ext` has no dot |
| Bookmarks.ExtensionOfDottedSuffix | src/App.tsx:75-77 | prefixing a name that contains a dot does not change its extension |
| Bookmarks.StoragePathKeepsExtension | src/App.tsx:75-77 | the storage path's extension is the uploaded file name's extension |
| Bookmarks.StoredName | src/App.tsx:75-76 | the random name, one dot, then the file's extension |
| Bookmarks.StoragePath | src/App.tsx:77 | the user's id, a slash, then the stored name |
| Bookmarks.Folder | src/App.tsx:77 | the result is the text before the path's first slash (the whole path when it has none) |
| Bookmarks.FolderOfPrefixed | src/App.tsx:77 | a slash-free folder followed by "/" is recovered as the folder |
| Bookmarks.StoragePathInOwnerFolder | src/App.tsx:77 | a photo is stored in the signed-in user's folder |
| Bookmarks.NewRecord | src/App.tsx:92-99 | the record carries the user's id, the caller's kind, title and tags unchanged, and the timestamp; its content is the public URL for a photo file and the draft's content otherwise |
| Bookmarks.BookmarkApp.constructor | src/App.tsx:11-13 | the list is empty, nobody is signed in, the app is loading; the list is scoped to the (absent) user |
| Bookmarks.BookmarkApp.FetchBookmarks | src/App.tsx:47-60 | success replaces the list wholesale with the user's rows newest first and emits nothing; failure keeps the list and emits exactly one error; the user is untouched, and a fetch for the signed-in user keeps the list scoped to that user |
| Bookmarks.BookmarkApp.UploadIfPhoto | src/App.tsx:71-90 | only a photo given as a file is uploaded, under the owner's path; its content becomes the public URL of that path; an upload failure is reported |
| Bookmarks.BookmarkApp.InsertAndReload | src/App.tsx:101-111 | a failed insert keeps table and list and emits one error; a successful one appends the row, emits a success, and reloads so the list again mirrors the table and shows the row; a list scoped to the user stays scoped |
| Bookmarks.BookmarkApp.HandleAddBookmark | src/App.tsx:62-112 | nobody signed in: nothing changes; upload failure: no insert, list unchanged, one error; otherwise the insert-and-reload outcome for the record `NewRecord` builds; a list scoped to the user stays scoped |
| Bookmarks.BookmarkApp.HandleDeleteBookmark | src/App.tsx:114-128 | failure keeps table and list and emits one error; success removes the id from both and emits one success; the local list loses exactly one bookmark when the id is in it and is unchanged otherwise; it stays newest first with distinct ids, stays scoped to the user, and keeps mirroring the table |
| Bookmarks.BookmarkApp.HandleLogout | src/App.tsx:130-134 | the user and the list are cleared, so the list is scoped |
| Bookmarks.BookmarkApp.OnAuthStateChange | src/App.tsx:30-42 | a session signs its user in and fetches that user's rows; no session clears the user and the list; a scoped list stays scoped unless a session for a different user arrives, the old list is non-empty and the fetch fails |
| Bookmarks.BookmarkApp.RestoreSession | src/App.tsx:17-27 | an existing session signs its user in and fetches; loading ends either way; a scoped list stays scoped under the same exception as the auth callback |
| Bookmarks.StaleListAfterUserSwitch | src/App.tsx:30-60 | after user "a" adds a note, a session for user "b" whose fetch fails leaves "a"'s note listed under "b": the list is no longer scoped |
| BookmarkForm.WithTag | src/components/AddBookmarkForm.tsx:35-37 | the tag is appended at the end iff it was absent, the earlier tags stay in place, and no duplicates are introduced |
| BookmarkForm.WithoutTag | src/components/AddBookmarkForm.tsx:43 | a tag survives iff it was there and differs from the removed one; removing an absent tag changes nothing; no duplicates are introduced |
| BookmarkForm.WithoutTagAppend | src/components/AddBookmarkForm.tsx:43 | removal distributes over concatenation, so the remaining tags keep their order |
| BookmarkForm.RemoveUndoesAdd | src/components/AddBookmarkForm.tsx:35-43 | removing a tag just added to a list that lacked it gives the list back |
| BookmarkForm.WithoutTagRemovesOne | src/components/AddBookmarkForm.tsx:42-44 | in a duplicate-free list, removing a present tag drops exactly one |
| BookmarkForm.AddBookmarkForm.constructor | src/components/AddBookmarkForm.tsx:15-19 | the form starts as a link with empty fields and no tags |
| BookmarkForm.AddBookmarkForm.SetKind | src/components/AddBookmarkForm.tsx:53 | the kind button sets the kind |
| BookmarkForm.AddBookmarkForm.HandleTagKeyDown | src/components/AddBookmarkForm.tsx:32-40 | Enter with a non-empty input adds it iff absent and clears the input; any other key press changes nothing; tags never repeat |
| BookmarkForm.AddBookmarkForm.RemoveTag | src/components/AddBookmarkForm.tsx:42-44 | the tags become `WithoutTag` of the old tags; tags never repeat |
| BookmarkForm.AddBookmarkForm.HandleSubmit | src/components/AddBookmarkForm.tsx:21-30 | an empty title or content emits nothing and changes nothing; otherwise emits the current kind, title, content and tags once and clears every field but the kind |
| RecipeForm.InitialRecipe | src/components/AddRecipeForm.tsx:11-22 | the default draft: empty title and image URL (so it cannot be submitted as is), one empty ingredient and instruction, two servings, medium difficulty |
| RecipeForm.WithList | src/components/AddRecipeForm.tsx:45-48 | the named list is replaced, and the other list and every scalar field are kept |
| RecipeForm.WithoutIndex | src/components/AddRecipeForm.tsx:63 | an in-range index removes exactly that position, keeping the others in order; an out-of-range index changes nothing |
| RecipeForm.RemoveUndoesAdd | src/components/AddRecipeForm.tsx:44-63 | removing the entry just appended gives the list back |
| RecipeForm.ReplaceAt | src/components/AddRecipeForm.tsx:52-53 | the copy has the same length, `value` at `index`, and every other element unchanged |
| RecipeForm.AddRecipeForm.constructor | src/components/AddRecipeForm.tsx:10-22 | closed, with a draft of one empty ingredient, one empty instruction, two servings and medium difficulty |
| RecipeForm.AddRecipeForm.Open | src/components/AddRecipeForm.tsx:70 | the form opens |
| RecipeForm.AddRecipeForm.Cancel | src/components/AddRecipeForm.tsx:216 | the form closes |
| RecipeForm.AddRecipeForm.AddListItem | src/components/AddRecipeForm.tsx:44-49 | exactly one empty entry is appended to the named list; the other list and every scalar are unchanged |
| RecipeForm.AddRecipeForm.UpdateListItem | src/components/AddRecipeForm.tsx:51-58 | entry `index` becomes `value`, the length and every other entry are kept, and the other list and every scalar are unchanged |
| RecipeForm.AddRecipeForm.RemoveListItem | src/components/AddRecipeForm.tsx:60-65 | the named list loses exactly position `index` (one shorter when in range, unchanged otherwise); the other list and every scalar are unchanged |
| RecipeForm.AddRecipeForm.HandleSubmit | src/components/AddRecipeForm.tsx:24-42 | an empty title or image URL emits nothing and changes nothing; otherwise emits the draft once, resets it to the initial draft and closes the form |

## Left out

- The hosted service's client library (queries, storage and auth calls) is not modelled. It is replaced by `Store.Backend`, and the network's answer is a `fails` parameter on each call.
- `Math.random()` file names and `new Date().toISOString()` timestamps are parameters: `randomName` is an opaque string and `now` a totally ordered integer.
- The id the store assigns to an inserted row is a parameter, `newId`. An insert whose `newId` is already in the table is rejected, which keeps ids distinct. The real store generates fresh ids, so that branch never fires there.
- Each handler is modelled as atomic. Async interleaving is left out: racing reloads, the stale `bookmarks` closure in the delete handler, and subscription setup and teardown.
- Bookmarks.BookmarkApp.HandleAddBookmark: in the source, the reload after a successful insert is not awaited. Its error toast may appear at any later time. The model runs the reload right after the success toast.
- Bookmarks.BookmarkApp.FetchBookmarks: the `data || []` fallback is modelled, but the in-memory store always answers a successful select with data, so the empty-list branch is not reached.
- Store.NewestFirst: SQL leaves the order of rows with equal `createdAt` unspecified. The model fixes one order, that of a stable insertion sort.
- Bookmarks.BookmarkApp.OnAuthStateChange: does not keep `Scoped()` when a session for a different user arrives while the list is non-empty and that user's fetch fails. The source sets the new user first and keeps the old list when the fetch fails (src/App.tsx:31-37, 55-58), so the previous user's bookmarks stay listed under the new user. `Bookmarks.StaleListAfterUserSwitch` proves this happens. The model follows the source rather than clearing the list.
- Bookmarks.BookmarkApp.RestoreSession: the same exception as the auth callback, for the same reason (src/App.tsx:18-24).
- Bookmarks.BookmarkApp.HandleLogout: the sign-out call's result is ignored in the source, so the model leaves it out. The auth form that signs users in is not part of this model.
- The session given to `OnAuthStateChange` and `RestoreSession` is an `Option<User>`. Reading the id, email and avatar out of the session object is not modelled.
- Store.Backend.PublicUrl: the URL layout `projectUrl + "/storage/v1/object/public/bookmarks/" + path` is the model's own choice. The source only asks the storage service for the URL. The model's contracts use only what `PublicUrl` ensures: the URL starts with the project's URL and ends with the path.
- Store.Backend.Upload: an upload to a path already in use overwrites it in the model. The storage service's conflict rules are not modelled.
- A photo given as a string is inserted with that string as content. The add form in `src/components/AddBookmarkForm.tsx` only ever produces strings, so the upload branch is reached only by a caller that passes a file.
- How the client library serialises a non-photo file is not modelled; its content is passed through as it is.
- RecipeForm.AddRecipeForm.UpdateListItem requires an in-range index. Writing past the end of a JavaScript array leaves holes, and those holes are not modelled. The form only calls it with indices of rendered entries.
- The recipe form's text, number and select inputs only set one field each. The `parseInt(...) || 0` conversion on the numeric inputs is a library behaviour and is not modelled.
- The add handler does not validate the title or the content itself; the form's submit gate does (`BookmarkForm.AddBookmarkForm.HandleSubmit`).
- The bookmark form's text inputs (title, content, tag input) are plain setters and are not modelled.
- Rendering is not modelled: markup, the loading spinner, the cards and the toasts' presentation. Toasts are the `toasts` log.
