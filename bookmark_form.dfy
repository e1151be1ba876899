/** The add-bookmark form: the bookmark kind, title and content being typed,
    the tag being typed, and the tags collected so far. Enter adds the typed
    tag unless it is already there; a tag's remove button drops it; submit
    hands the draft to the controller when title and content are filled in. */
module BookmarkForm {
  import opened Types

  ghost predicate NoDuplicates(s: seq<string>) {
    forall i, j :: 0 <= i < j < |s| ==> s[i] != s[j]
  }

  /** The tag list after Enter on `tag`: `tag` at the end when it was absent,
      the list as it was when it was already there. */
  function WithTag(tags: seq<string>, tag: string): (r: seq<string>)
    ensures tag in r && |tags| <= |r| && r[..|tags|] == tags
    ensures |r| == if tag in tags then |tags| else |tags| + 1
    ensures forall t :: t in r <==> t in tags || t == tag
    ensures NoDuplicates(tags) ==> NoDuplicates(r)
  {
    if tag in tags then tags else tags + [tag]
  }

  /** The tag list without any occurrence of `tag`, the others in order. */
  function WithoutTag(tags: seq<string>, tag: string): (r: seq<string>)
    ensures forall t :: t in r <==> t in tags && t != tag
    ensures |r| <= |tags|
    ensures tag !in tags ==> r == tags
    ensures NoDuplicates(tags) ==> NoDuplicates(r)
  {
    if tags == [] then []
    else
      var rest := WithoutTag(tags[1..], tag);
      assert tag !in tags ==> tag !in tags[1..];
      assert NoDuplicates(tags) ==> tags[0] !in rest by {
        if NoDuplicates(tags) {
          forall k | 0 <= k < |tags[1..]| ensures tags[1..][k] != tags[0] {
            assert tags[1..][k] == tags[k + 1];
          }
        }
      }
      assert NoDuplicates(tags) ==> NoDuplicates(tags[1..]) by {
        if NoDuplicates(tags) {
          forall i, j | 0 <= i < j < |tags[1..]| ensures tags[1..][i] != tags[1..][j] {
            assert tags[1..][i] == tags[i + 1] && tags[1..][j] == tags[j + 1];
          }
        }
      }
      (if tags[0] == tag then [] else [tags[0]]) + rest
  }

  /** Removing keeps the survivors in their original order: it distributes
      over concatenation. */
  lemma {:induction false} WithoutTagAppend(a: seq<string>, b: seq<string>, tag: string)
    ensures WithoutTag(a + b, tag) == WithoutTag(a, tag) + WithoutTag(b, tag)
  {
    if a == [] {
      assert a + b == b;
    } else {
      assert (a + b)[1..] == a[1..] + b;
      WithoutTagAppend(a[1..], b, tag);
    }
  }

  /** Removing a tag just added to a list that lacked it gives the list back. */
  lemma RemoveUndoesAdd(tags: seq<string>, tag: string)
    requires tag !in tags
    ensures WithoutTag(WithTag(tags, tag), tag) == tags
  {
    WithoutTagAppend(tags, [tag], tag);
    assert WithoutTag([tag], tag) == [];
  }

  /** In a duplicate-free list, removing a present tag drops exactly one. */
  lemma {:induction false} WithoutTagRemovesOne(tags: seq<string>, tag: string)
    requires NoDuplicates(tags)
    ensures |WithoutTag(tags, tag)| == if tag in tags then |tags| - 1 else |tags|
  {
    if tags != [] {
      var tail := tags[1..];
      assert NoDuplicates(tail) by {
        forall i, j | 0 <= i < j < |tail| ensures tail[i] != tail[j] {
          assert tail[i] == tags[i + 1] && tail[j] == tags[j + 1];
        }
      }
      WithoutTagRemovesOne(tail, tag);
      if tags[0] == tag {
        forall k | 0 <= k < |tail| ensures tail[k] != tag {
          assert tail[k] == tags[k + 1];
        }
      } else {
        assert tag in tags <==> tag in tail by {
          assert tags == [tags[0]] + tail;
        }
      }
    }
  }

  class AddBookmarkForm {
    var kind: BookmarkType
    var title: string
    var content: string
    var tagInput: string
    var tags: seq<string>

    /** The collected tags never repeat. */
    ghost predicate Valid()
      reads this
    {
      NoDuplicates(tags)
    }

    constructor ()
      ensures Valid()
      ensures kind == Link && title == "" && content == "" && tagInput == "" && tags == []
    {
      kind := Link;
      title := "";
      content := "";
      tagInput := "";
      tags := [];
    }

    /** One of the kind buttons. */
    method SetKind(k: BookmarkType)
      modifies this`kind
      ensures kind == k
    {
      kind := k;
    }

    /** A key press in the tag field: Enter with a non-empty tag adds it when
        absent and clears the field; any other key press changes nothing. */
    method HandleTagKeyDown(key: string)
      requires Valid()
      modifies this`tags, this`tagInput
      ensures Valid()
      ensures key == "Enter" && old(tagInput) != "" ==>
        tags == WithTag(old(tags), old(tagInput)) && tagInput == ""
      ensures !(key == "Enter" && old(tagInput) != "") ==>
        tags == old(tags) && tagInput == old(tagInput)
    {
      if key == "Enter" && tagInput != "" {
        if tagInput !in tags {
          tags := tags + [tagInput];
        }
        tagInput := "";
      }
    }

    /** A tag's remove button. */
    method RemoveTag(tag: string)
      requires Valid()
      modifies this`tags
      ensures Valid()
      ensures tags == WithoutTag(old(tags), tag)
    {
      tags := WithoutTag(tags, tag);
    }

    /** Submit: with a title and a content, hands the draft over once and
        empties every field but the kind; otherwise does nothing. */
    method HandleSubmit() returns (submitted: Option<BookmarkDraft>)
      requires Valid()
      modifies this`title, this`content, this`tags, this`tagInput
      ensures Valid()
      ensures old(title) == "" || old(content) == "" ==>
        submitted == None && title == old(title) && content == old(content) &&
        tags == old(tags) && tagInput == old(tagInput)
      ensures old(title) != "" && old(content) != "" ==>
        submitted == Some(BookmarkDraft(kind, old(title), Value(old(content)), old(tags))) &&
        NoDuplicates(submitted.value.tags) &&
        title == "" && content == "" && tags == [] && tagInput == ""
    {
      if title == "" || content == "" {
        return None;
      }
      submitted := Some(BookmarkDraft(kind, title, Value(content), tags));
      title := "";
      content := "";
      tags := [];
      tagInput := "";
    }
  }
}
