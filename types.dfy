/** The shared records of the bookmarking client: the closed bookmark kind, the
    bookmark row as the remote table stores it, the signed-in user, and the
    recipe draft edited by the recipe form. */
module Types {

  datatype Option<T> = None | Some(value: T)

  /** The kind of a bookmark; a closed enumeration. */
  datatype BookmarkType = Link | Text | Photo

  /** What a bookmark's content holds: a string (a URL or free text), or a
      file the user picked, which has a name and raw bytes. */
  datatype Content = Value(text: string) | File(name: string, bytes: seq<bv8>)

  /** A bookmark row. `id` is assigned by the remote store; `createdAt` is the
      client-stamped creation instant, modelled as a totally ordered number. */
  datatype Bookmark = Bookmark(
    id: string,
    userId: string,
    kind: BookmarkType,
    title: string,
    content: Content,
    tags: seq<string>,
    createdAt: int)

  /** A record as it is sent to the store: a bookmark before the store has
      given it an id. */
  datatype NewBookmark = NewBookmark(
    userId: string,
    kind: BookmarkType,
    title: string,
    content: Content,
    tags: seq<string>,
    createdAt: int)
  {
    /** The row the store keeps once it has assigned `id`. */
    function WithId(id: string): Bookmark
    {
      Bookmark(id, userId, kind, title, content, tags, createdAt)
    }
  }

  /** The signed-in user, as taken from the auth session. */
  datatype User = User(id: string, email: string, avatarUrl: Option<string>)

  /** What the bookmark form hands to the controller. */
  datatype BookmarkDraft = BookmarkDraft(
    kind: BookmarkType,
    title: string,
    content: Content,
    tags: seq<string>)

  datatype Difficulty = Easy | Medium | Hard

  /** A recipe as the recipe form edits and emits it (without the id and the
      creation time, which the form never sees). */
  datatype RecipeDraft = RecipeDraft(
    title: string,
    description: string,
    imageUrl: string,
    prepTime: int,
    cookTime: int,
    servings: int,
    ingredients: seq<string>,
    instructions: seq<string>,
    cuisine: string,
    difficulty: Difficulty)
}
