/** The add-recipe form: a recipe draft with two editable string lists
    (ingredients and instructions) and a flag telling whether the form is
    open. Submit hands the draft over when it has a title and an image URL,
    then resets the draft and closes the form. */
module RecipeForm {
  import opened Types

  /** Which of the draft's two lists an edit addresses. */
  datatype ListName = Ingredients | Instructions

  function Other(l: ListName): ListName {
    if l == Ingredients then Instructions else Ingredients
  }

  /** The draft a fresh or just-submitted form shows: nothing typed yet, so
      the submit gate is closed; one empty entry in each list; two servings
      of medium difficulty. */
  function InitialRecipe(): (r: RecipeDraft)
    ensures r.title == "" && r.description == "" && r.imageUrl == "" && r.cuisine == ""
    ensures r.prepTime == 0 && r.cookTime == 0 && r.servings == 2 && r.difficulty == Medium
    ensures r.ingredients == [""] && r.instructions == [""]
  {
    RecipeDraft(
      title := "",
      description := "",
      imageUrl := "",
      prepTime := 0,
      cookTime := 0,
      servings := 2,
      ingredients := [""],
      instructions := [""],
      cuisine := "",
      difficulty := Medium)
  }

  function ListOf(r: RecipeDraft, l: ListName): seq<string> {
    match l
    case Ingredients => r.ingredients
    case Instructions => r.instructions
  }

  /** Every field but the two lists. */
  ghost predicate SameScalars(a: RecipeDraft, b: RecipeDraft) {
    && a.title == b.title && a.description == b.description && a.imageUrl == b.imageUrl
    && a.prepTime == b.prepTime && a.cookTime == b.cookTime && a.servings == b.servings
    && a.cuisine == b.cuisine && a.difficulty == b.difficulty
  }

  /** The draft with list `l` replaced by `items`, as `{ ...recipe, [l]: items }`
      builds it: the other list and every other field stay. */
  function WithList(r: RecipeDraft, l: ListName, items: seq<string>): (r': RecipeDraft)
    ensures ListOf(r', l) == items
    ensures ListOf(r', Other(l)) == ListOf(r, Other(l))
    ensures SameScalars(r, r')
  {
    match l
    case Ingredients => r.(ingredients := items)
    case Instructions => r.(instructions := items)
  }

  /** The list without position `index` (`filter((_, i) => i !== index)`). */
  function WithoutIndex(items: seq<string>, index: int): (r: seq<string>)
    ensures 0 <= index < |items| ==> r == items[..index] + items[index + 1..]
    ensures !(0 <= index < |items|) ==> r == items
  {
    if items == [] then []
    else
      var last := |items| - 1;
      var init := items[..last];
      assert items == init + [items[last]];
      WithoutIndex(init, index) + (if index == last then [] else [items[last]])
  }

  /** Adding an entry and then removing it gives the list back. */
  lemma RemoveUndoesAdd(items: seq<string>)
    ensures WithoutIndex(items + [""], |items|) == items
  {
  }

  /** The list copied (`[...list]`) into a fresh array, with `value` written
      at `index`. */
  method ReplaceAt(items: seq<string>, index: int, value: string) returns (r: seq<string>)
    requires 0 <= index < |items|
    ensures |r| == |items| && r[index] == value
    ensures forall j :: 0 <= j < |r| && j != index ==> r[j] == items[j]
  {
    var a := new string[|items|];
    var k := 0;
    while k < |items|
      invariant 0 <= k <= |items|
      invariant forall j :: 0 <= j < k ==> a[j] == items[j]
    {
      a[k] := items[k];
      k := k + 1;
    }
    a[index] := value;
    r := a[..];
  }

  class AddRecipeForm {
    var isOpen: bool
    var recipe: RecipeDraft

    constructor ()
      ensures !isOpen && recipe == InitialRecipe()
      ensures recipe.ingredients == [""] && recipe.instructions == [""]
      ensures recipe.servings == 2 && recipe.difficulty == Medium
    {
      isOpen := false;
      recipe := InitialRecipe();
    }

    /** The "Add New Recipe" button. */
    method Open()
      modifies this`isOpen
      ensures isOpen
    {
      isOpen := true;
    }

    /** The "Cancel" button: closes the form and keeps the draft. */
    method Cancel()
      modifies this`isOpen
      ensures !isOpen
    {
      isOpen := false;
    }

    /** Appends one empty entry to list `l`. */
    method AddListItem(l: ListName)
      modifies this`recipe
      ensures ListOf(recipe, l) == ListOf(old(recipe), l) + [""]
      ensures |ListOf(recipe, l)| == |ListOf(old(recipe), l)| + 1
      ensures ListOf(recipe, Other(l)) == ListOf(old(recipe), Other(l))
      ensures SameScalars(old(recipe), recipe)
    {
      recipe := WithList(recipe, l, ListOf(recipe, l) + [""]);
    }

    /** Sets entry `index` of list `l` to `value`. */
    method UpdateListItem(l: ListName, index: int, value: string)
      requires 0 <= index < |ListOf(recipe, l)|
      modifies this`recipe
      ensures |ListOf(recipe, l)| == |ListOf(old(recipe), l)|
      ensures ListOf(recipe, l)[index] == value
      ensures forall j :: 0 <= j < |ListOf(recipe, l)| && j != index ==>
        ListOf(recipe, l)[j] == ListOf(old(recipe), l)[j]
      ensures ListOf(recipe, Other(l)) == ListOf(old(recipe), Other(l))
      ensures SameScalars(old(recipe), recipe)
    {
      var newList := ReplaceAt(ListOf(recipe, l), index, value);
      recipe := WithList(recipe, l, newList);
    }

    /** Deletes entry `index` of list `l`; an index out of range deletes
        nothing. */
    method RemoveListItem(l: ListName, index: int)
      modifies this`recipe
      ensures ListOf(recipe, l) == WithoutIndex(ListOf(old(recipe), l), index)
      ensures |ListOf(recipe, l)| ==
        if 0 <= index < |ListOf(old(recipe), l)| then |ListOf(old(recipe), l)| - 1
        else |ListOf(old(recipe), l)|
      ensures ListOf(recipe, Other(l)) == ListOf(old(recipe), Other(l))
      ensures SameScalars(old(recipe), recipe)
    {
      recipe := WithList(recipe, l, WithoutIndex(ListOf(recipe, l), index));
    }

    /** Submit: with a title and an image URL, hands the draft over once,
        resets it and closes the form; otherwise does nothing. */
    method HandleSubmit() returns (submitted: Option<RecipeDraft>)
      modifies this`recipe, this`isOpen
      ensures old(recipe).title == "" || old(recipe).imageUrl == "" ==>
        submitted == None && recipe == old(recipe) && isOpen == old(isOpen)
      ensures old(recipe).title != "" && old(recipe).imageUrl != "" ==>
        submitted == Some(old(recipe)) && recipe == InitialRecipe() && !isOpen
    {
      if recipe.title == "" || recipe.imageUrl == "" {
        return None;
      }
      submitted := Some(recipe);
      recipe := InitialRecipe();
      isOpen := false;
    }
  }
}
