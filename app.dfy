/** The bookmark collection controller of the application component: the
    signed-in user, the local list of that user's bookmarks, and the handlers
    that fetch, add and delete bookmarks against the remote store and react
    to sign-out and session changes. Each handler runs to completion as one
    atomic step; the answers of the remote calls are parameters. */
module Bookmarks {
  import opened Types
  import opened Store

  /** The extension of a file name as `name.split('.').pop()` gives it: the
      text after the last dot, or the whole name when it has no dot. */
  function FileExtension(name: string): (ext: string)
    ensures '.' !in ext
    ensures |ext| <= |name| && name[|name| - |ext|..] == ext
    ensures |ext| == |name| || name[|name| - |ext| - 1] == '.'
  {
    if name == [] then []
    else if name[|name| - 1] == '.' then []
    else
      var init := name[..|name| - 1];
      var ext := FileExtension(init);
      var k := |init| - |ext|;
      assert name == init + [name[|name| - 1]];
      assert name[k..] == init[k..] + [name[|name| - 1]];
      assert k > 0 ==> name[k - 1] == init[k - 1];
      ext + [name[|name| - 1]]
  }

  /** The name an uploaded photo is stored under: the random name with the
      original file's extension. */
  function StoredName(randomName: string, fileName: string): (r: string)
    ensures |r| == |randomName| + 1 + |FileExtension(fileName)|
    ensures r[..|randomName|] == randomName && r[|randomName|] == '.'
    ensures r[|randomName| + 1..] == FileExtension(fileName)
  {
    randomName + "." + FileExtension(fileName)
  }

  /** The storage path of an uploaded photo, inside the user's folder. */
  function StoragePath(userId: string, randomName: string, fileName: string): (r: string)
    ensures |r| > |userId| && r[..|userId|] == userId && r[|userId|] == '/'
    ensures r[|userId| + 1..] == StoredName(randomName, fileName)
  {
    var folder := userId + "/";
    var name := StoredName(randomName, fileName);
    assert (folder + name)[..|userId|] == folder[..|userId|] == userId;
    assert (folder + name)[|userId| + 1..] == name;
    folder + name
  }

  /** The first folder of a storage path: the text before the first slash. */
  function Folder(path: string): (r: string)
    ensures |r| <= |path| && r == path[..|r|] && '/' !in r
    ensures |r| == |path| || path[|r|] == '/'
  {
    if path == [] || path[0] == '/' then []
    else [path[0]] + Folder(path[1..])
  }

  /** A name ending in a dot and a dot-free extension has that extension. */
  lemma {:induction false} ExtensionAfterLastDot(stem: string, ext: string)
    requires '.' !in ext
    ensures FileExtension(stem + "." + ext) == ext
  {
    var name := stem + "." + ext;
    if ext != [] {
      var init := ext[..|ext| - 1];
      assert name[..|name| - 1] == stem + "." + init;
      ExtensionAfterLastDot(stem, init);
      assert ext == init + [ext[|ext| - 1]];
    }
  }

  /** The uploaded object keeps the extension of the file the user picked,
      whatever the random name contains. */
  lemma StoragePathKeepsExtension(userId: string, randomName: string, fileName: string)
    ensures FileExtension(StoragePath(userId, randomName, fileName)) == FileExtension(fileName)
  {
    ExtensionAfterLastDot(randomName, FileExtension(fileName));
    ExtensionOfDottedSuffix(userId + "/", StoredName(randomName, fileName));
  }

  /** Text put in front of a name that has a dot does not change its
      extension. */
  lemma {:induction false} ExtensionOfDottedSuffix(prefix: string, name: string)
    requires '.' in name
    ensures FileExtension(prefix + name) == FileExtension(name)
  {
    var whole := prefix + name;
    var last := |name| - 1;
    assert whole[|whole| - 1] == name[last];
    if name[last] != '.' {
      assert whole[..|whole| - 1] == prefix + name[..last];
      assert '.' in name[..last] by {
        var k :| 0 <= k < |name| && name[k] == '.';
        assert name[..last][k] == '.';
      }
      ExtensionOfDottedSuffix(prefix, name[..last]);
    }
  }

  /** A user id without a slash is the folder of every path derived for that
      user, so uploads are scoped by owner. */
  lemma {:induction false} StoragePathInOwnerFolder(userId: string, randomName: string, fileName: string)
    requires '/' !in userId
    ensures Folder(StoragePath(userId, randomName, fileName)) == userId
  {
    FolderOfPrefixed(userId, StoredName(randomName, fileName));
  }

  lemma {:induction false} FolderOfPrefixed(folder: string, rest: string)
    requires '/' !in folder
    ensures Folder(folder + "/" + rest) == folder
  {
    if folder != [] {
      assert (folder + "/" + rest)[1..] == folder[1..] + "/" + rest;
      FolderOfPrefixed(folder[1..], rest);
    }
  }

  /** A draft whose content the add handler uploads first. */
  predicate IsPhotoFile(draft: BookmarkDraft) {
    draft.kind == Photo && draft.content.File?
  }

  /** The record the add handler inserts for `userId`; `url` is the public
      URL of the uploaded photo, used only when the draft carries a file. */
  function NewRecord(userId: string, draft: BookmarkDraft, url: string, now: int): (rec: NewBookmark)
    ensures rec.userId == userId && rec.createdAt == now
    ensures rec.kind == draft.kind && rec.title == draft.title && rec.tags == draft.tags
    ensures rec.content == if IsPhotoFile(draft) then Value(url) else draft.content
  {
    NewBookmark(userId, draft.kind, draft.title,
      if IsPhotoFile(draft) then Value(url) else draft.content,
      draft.tags, now)
  }

  /** A notification shown to the user. */
  datatype Toast = Success(message: string) | Error(message: string)

  const FetchFailed := "Failed to fetch bookmarks"
  const Added := "Bookmark added successfully"
  const AddFailed := "Failed to add bookmark"
  const Deleted := "Bookmark deleted successfully"
  const DeleteFailed := "Failed to delete bookmark"

  /** What the add handler leaves behind once the upload step, if any, has
      passed, from the table, list and toasts before (`rows0`, `list0`,
      `toasts0`) to those after: on a rejected insert, the table and the list
      as they were and one error; otherwise the row appended to the table, a
      success, and, unless the reload fails, the user's rows newest first. */
  ghost predicate AddOutcome(row: Bookmark, insertFails: bool, fetchFails: bool,
                             rows0: seq<Bookmark>, list0: seq<Bookmark>, toasts0: seq<Toast>,
                             rows: seq<Bookmark>, list: seq<Bookmark>, toasts: seq<Toast>)
  {
    if insertFails || HasId(rows0, row.id) then
      rows == rows0 && list == list0 && toasts == toasts0 + [Error(AddFailed)]
    else
      && rows == rows0 + [row]
      && toasts == toasts0 + [Success(Added)] + (if fetchFails then [Error(FetchFailed)] else [])
      && list == (if fetchFails then list0 else Query(rows, row.userId))
      && (!fetchFails ==> row in list)
  }

  class BookmarkApp {
    var bookmarks: seq<Bookmark>
    var user: Option<User>
    var loading: bool
    /** The toast sink, as the log of every notification shown so far. */
    var toasts: seq<Toast>
    const backend: Backend

    /** The table's ids are distinct, and the local list, which is only ever
        empty, a fetch result or a filtered fetch result, is newest first
        with distinct ids. */
    ghost predicate Valid()
      reads this, backend
    {
      backend.Valid() && NewestFirstOrder(bookmarks) && DistinctIds(bookmarks)
    }

    /** The local list is exactly what a fetch for the signed-in user would
        return from the store now. */
    ghost predicate Mirrors()
      reads this, backend
    {
      user.Some? && bookmarks == Query(backend.rows, user.value.id)
    }

    /** Every listed bookmark belongs to the signed-in user, and nothing is
        listed while nobody is signed in. */
    ghost predicate Scoped()
      reads this
    {
      && (user.None? ==> bookmarks == [])
      && (user.Some? ==> forall b :: b in bookmarks ==> b.userId == user.value.id)
    }

    /** The storage path the add handler uploads the draft's file to. */
    function UploadPath(userId: string, randomName: string, draft: BookmarkDraft): string
      requires draft.content.File?
    {
      StoragePath(userId, randomName, draft.content.name)
    }

    /** The record the add handler sends for `draft`. */
    function Inserted(userId: string, randomName: string, draft: BookmarkDraft, now: int): NewBookmark
    {
      NewRecord(userId, draft,
        if draft.content.File? then backend.PublicUrl(UploadPath(userId, randomName, draft)) else "",
        now)
    }

    constructor (backend: Backend)
      requires backend.Valid()
      ensures Valid() && this.backend == backend
      ensures bookmarks == [] && user == None && loading && toasts == []
      ensures Scoped()
    {
      bookmarks := [];
      user := None;
      loading := true;
      toasts := [];
      this.backend := backend;
    }

    /** Replaces the list with the user's rows, newest first; on failure the
        list stays and one error is shown. */
    method FetchBookmarks(userId: string, fails: bool)
      requires Valid()
      modifies this`bookmarks, this`toasts
      ensures Valid() && user == old(user)
      ensures bookmarks == if fails then old(bookmarks) else Query(backend.rows, userId)
      ensures toasts == old(toasts) + if fails then [Error(FetchFailed)] else []
      ensures !fails && user.Some? && user.value.id == userId ==> Mirrors()
      ensures old(Scoped()) && user.Some? && user.value.id == userId ==> Scoped()
    {
      var reply := backend.Select(userId, fails);
      if reply.error {
        toasts := toasts + [Error(FetchFailed)];
      } else {
        QueryDistinct(backend.rows, userId);
        QueryIsOwnRowsNewestFirst(backend.rows, userId);
        bookmarks := if reply.data.Some? then reply.data.value else [];
      }
    }

    /** Uploads a photo file first when there is one, inserts the record
        stamped with the user's id, and reloads only when the insert took. */
    method HandleAddBookmark(draft: BookmarkDraft, randomName: string, now: int, newId: string,
                             uploadFails: bool, insertFails: bool, fetchFails: bool)
      requires Valid()
      modifies this`bookmarks, this`toasts, backend`rows, backend`objects
      ensures Valid() && user == old(user)
      ensures old(user).None? ==>
        bookmarks == old(bookmarks) && toasts == old(toasts) &&
        backend.rows == old(backend.rows) && backend.objects == old(backend.objects)
      ensures old(user).Some? ==>
        backend.objects == if IsPhotoFile(draft) && !uploadFails
          then old(backend.objects)[UploadPath(old(user).value.id, randomName, draft) := draft.content.bytes]
          else old(backend.objects)
      ensures old(user).Some? && IsPhotoFile(draft) && uploadFails ==>
        backend.rows == old(backend.rows) && bookmarks == old(bookmarks) &&
        toasts == old(toasts) + [Error(AddFailed)]
      ensures old(user).Some? && !(IsPhotoFile(draft) && uploadFails) ==>
        AddOutcome(Inserted(old(user).value.id, randomName, draft, now).WithId(newId),
          insertFails, fetchFails, old(backend.rows), old(bookmarks), old(toasts),
          backend.rows, bookmarks, toasts)
      ensures old(user).Some? && !(IsPhotoFile(draft) && uploadFails) ==>
        !insertFails && !HasId(old(backend.rows), newId) && !fetchFails ==> Mirrors()
      ensures old(Scoped()) ==> Scoped()
    {
      if user.None? {
        return;
      }
      var u := user.value;
      ghost var rows0, bookmarks0, toasts0 := backend.rows, bookmarks, toasts;
      var uploadError, finalContent := UploadIfPhoto(u.id, randomName, draft, uploadFails);
      if uploadError {
        toasts := toasts + [Error(AddFailed)];
        return;
      }
      assert backend.rows == rows0 && bookmarks == bookmarks0 && toasts == toasts0;
      var rec := NewBookmark(u.id, draft.kind, draft.title, finalContent, draft.tags, now);
      assert rec == Inserted(u.id, randomName, draft, now);
      InsertAndReload(rec, newId, insertFails, fetchFails);
      assert AddOutcome(rec.WithId(newId), insertFails, fetchFails, rows0, bookmarks0, toasts0,
        backend.rows, bookmarks, toasts);
    }

    /** For a photo given as a file, stores it under the user's folder and
        yields its public URL as the content; any other draft keeps its
        content. */
    method UploadIfPhoto(userId: string, randomName: string, draft: BookmarkDraft, uploadFails: bool)
      returns (uploadError: bool, finalContent: Content)
      requires Valid()
      modifies backend`objects
      ensures Valid() && backend.rows == old(backend.rows)
      ensures uploadError == (IsPhotoFile(draft) && uploadFails)
      ensures backend.objects == if IsPhotoFile(draft) && !uploadFails
        then old(backend.objects)[UploadPath(userId, randomName, draft) := draft.content.bytes]
        else old(backend.objects)
      ensures !uploadError && IsPhotoFile(draft) ==>
        finalContent == Value(backend.PublicUrl(UploadPath(userId, randomName, draft)))
      ensures !IsPhotoFile(draft) ==> finalContent == draft.content
    {
      finalContent := draft.content;
      uploadError := false;
      if draft.kind == Photo && draft.content.File? {
        var path := StoragePath(userId, randomName, draft.content.name);
        uploadError := backend.Upload(path, draft.content.bytes, uploadFails);
        if !uploadError {
          finalContent := Value(backend.PublicUrl(path));
        }
      }
    }

    /** The insert and the reload that follows a successful one. */
    method InsertAndReload(rec: NewBookmark, newId: string, insertFails: bool, fetchFails: bool)
      requires Valid() && user.Some? && rec.userId == user.value.id
      modifies this`bookmarks, this`toasts, backend`rows
      ensures Valid()
      ensures user == old(user) && backend.objects == old(backend.objects)
      ensures AddOutcome(rec.WithId(newId), insertFails, fetchFails,
        old(backend.rows), old(bookmarks), old(toasts), backend.rows, bookmarks, toasts)
      ensures !insertFails && !HasId(old(backend.rows), newId) && !fetchFails ==> Mirrors()
      ensures old(Scoped()) ==> Scoped()
    {
      ghost var rows0 := backend.rows;
      ghost var row := rec.WithId(newId);
      ghost var user0, bookmarks0, objects0 := user, bookmarks, backend.objects;
      assert row.id == newId && row.userId == rec.userId;
      var insertError := backend.Insert(rec, newId, insertFails);
      assert user == user0 && bookmarks == bookmarks0 && backend.objects == objects0;
      if insertError {
        toasts := toasts + [Error(AddFailed)];
        return;
      }
      assert backend.rows == rows0 + [row];
      toasts := toasts + [Success(Added)];
      FetchBookmarks(rec.userId, fetchFails);
      assert user == user0 && backend.objects == objects0;
      QueryShowsLastRow(rows0, row);
    }

    /** Deletes `id` remotely; only when that succeeds does the local list
        drop every bookmark with that id. */
    method HandleDeleteBookmark(id: string, fails: bool)
      requires Valid()
      modifies this`bookmarks, this`toasts, backend
      ensures Valid() && user == old(user) && backend.objects == old(backend.objects)
      ensures backend.rows == if fails then old(backend.rows) else Without(old(backend.rows), id)
      ensures bookmarks == if fails then old(bookmarks) else Without(old(bookmarks), id)
      ensures toasts == old(toasts) + [if fails then Error(DeleteFailed) else Success(Deleted)]
      ensures !fails && HasId(old(bookmarks), id) ==> |bookmarks| == |old(bookmarks)| - 1
      ensures !fails && !HasId(old(bookmarks), id) ==> bookmarks == old(bookmarks)
      ensures old(Mirrors()) ==> Mirrors()
      ensures old(Scoped()) ==> Scoped()
    {
      ghost var mirrored := Mirrors();
      ghost var rows0 := backend.rows;
      ghost var user0, bookmarks0, objects0 := user, bookmarks, backend.objects;
      var error := backend.Delete(id, fails);
      assert user == user0 && bookmarks == bookmarks0 && backend.objects == objects0;
      if error {
        toasts := toasts + [Error(DeleteFailed)];
      } else {
        toasts := toasts + [Success(Deleted)];
        if mirrored {
          QueryWithout(rows0, user.value.id, id);
        }
        NewestFirstSub(bookmarks, id);
        WithoutDistinct(bookmarks, id);
        WithoutRemovesOne(bookmarks, id);
        if !HasId(bookmarks, id) {
          WithoutAbsent(bookmarks, id);
        }
        bookmarks := Without(bookmarks, id);
      }
    }

    /** Signing out forgets the user and the list. */
    method HandleLogout()
      requires Valid()
      modifies this`user, this`bookmarks
      ensures Valid()
      ensures user == None && bookmarks == []
      ensures Scoped()
    {
      user := None;
      bookmarks := [];
    }

    /** The auth-change callback: a session signs its user in and loads the
        list; no session clears both. */
    method OnAuthStateChange(session: Option<User>, fetchFails: bool)
      requires Valid()
      modifies this`user, this`bookmarks, this`toasts
      ensures Valid() && user == session
      ensures session.None? ==> bookmarks == [] && toasts == old(toasts)
      ensures session.Some? ==>
        && bookmarks == (if fetchFails then old(bookmarks) else Query(backend.rows, session.value.id))
        && toasts == old(toasts) + (if fetchFails then [Error(FetchFailed)] else [])
        && (!fetchFails ==> Mirrors())
      ensures old(Scoped()) && (!fetchFails || old(bookmarks) == [] || old(user) == session) ==> Scoped()
    {
      if session.Some? {
        user := session;
        FetchBookmarks(session.value.id, fetchFails);
      } else {
        user := None;
        bookmarks := [];
      }
    }

    /** The start-up session check: an existing session signs its user in and
        loads the list; either way the app stops loading. */
    method RestoreSession(session: Option<User>, fetchFails: bool)
      requires Valid()
      modifies this`user, this`bookmarks, this`toasts, this`loading
      ensures Valid() && !loading
      ensures session.None? ==> user == old(user) && bookmarks == old(bookmarks) && toasts == old(toasts)
      ensures session.Some? ==>
        && user == session
        && bookmarks == (if fetchFails then old(bookmarks) else Query(backend.rows, session.value.id))
        && toasts == old(toasts) + (if fetchFails then [Error(FetchFailed)] else [])
      ensures old(Scoped()) && (!fetchFails || old(bookmarks) == [] || old(user) == session) ==> Scoped()
    {
      if session.Some? {
        user := session;
        FetchBookmarks(session.value.id, fetchFails);
      }
      loading := false;
    }
  }

  /** User "a" signs in and adds a note; then a session for user "b" arrives
      and the fetch for "b" fails. The list keeps "a"'s note while "b" is
      signed in, so the listed bookmarks no longer all belong to the
      signed-in user. */
  method StaleListAfterUserSwitch(projectUrl: string, now: int, noteId: string) returns (app: BookmarkApp)
    ensures app.user == Some(User("b", "b@example.com", None))
    ensures exists b :: b in app.bookmarks && b.userId == "a"
    ensures !app.Scoped()
  {
    var store := new Backend(projectUrl);
    app := new BookmarkApp(store);
    app.OnAuthStateChange(Some(User("a", "a@example.com", None)), false);
    var draft := BookmarkDraft(Text, "Note", Value("hello"), []);
    app.HandleAddBookmark(draft, "r", now, noteId, false, false, false);
    var row := Bookmark(noteId, "a", Text, "Note", Value("hello"), [], now);
    assert app.Inserted("a", "r", draft, now).WithId(noteId) == row;
    assert store.rows == [row];
    assert row in app.bookmarks;
    app.OnAuthStateChange(Some(User("b", "b@example.com", None)), true);
    assert row in app.bookmarks;
  }

  /** A user with no bookmarks signs in, adds a text note, and deletes it:
      the reload shows exactly the note, and the delete empties the list. */
  method NoteLifecycle(projectUrl: string, now: int, noteId: string)
  {
    var store := new Backend(projectUrl);
    var app := new BookmarkApp(store);
    app.OnAuthStateChange(Some(User("u1", "u1@example.com", None)), false);
    QueryIsOwnRowsNewestFirst(store.rows, "u1");
    assert |app.bookmarks| == |multiset(app.bookmarks)| == 0;
    var draft := BookmarkDraft(Text, "Note", Value("hello"), ["a", "b"]);
    app.HandleAddBookmark(draft, "r", now, noteId, false, false, false);
    var row := Bookmark(noteId, "u1", Text, "Note", Value("hello"), ["a", "b"], now);
    assert store.rows == [row];
    assert OwnedBy(store.rows, "u1") == [row];
    QueryIsOwnRowsNewestFirst(store.rows, "u1");
    assert |app.bookmarks| == |multiset(app.bookmarks)| == 1;
    assert app.bookmarks == [row];
    app.HandleDeleteBookmark(noteId, false);
    assert app.bookmarks == [];
  }
}
