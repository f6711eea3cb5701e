/**
 * The state the route handlers change: the category forest and the prompt rows,
 * updated in place by `edit`, `edit_category` and `delete_category`
 * (routes/prompt_routes.py).
 */
module Catalog {
  import opened Wrappers
  import opened Utils
  import opened CategoryTree
  import opened ParentOptions

  /** A prompt row, with the columns the handlers read or write. */
  datatype Prompt = Prompt(
    id: int,
    title: string,
    tags: Option<string>,
    categoryId: Option<int>,
    loras: Option<string>,
    imageFilename: Option<string>)

  /** A tags value as `clean_tags` leaves it (or none). */
  predicate CleanTagValue(tags: Option<string>)
  {
    tags.None? || CleanTags(tags.value) == tags.value
  }

  /** The row after `edit`: new title, cleaned tags, new category, new image only when it is allowed. */
  function EditedPrompt(p: Prompt, title: string, tags: string, categoryId: Option<int>,
                        upload: string, storedName: string): Prompt
  {
    p.(title := title, tags := Some(CleanTags(tags)), categoryId := categoryId,
       imageFilename := if AllowedFile(upload) then Some(storedName) else p.imageFilename)
  }

  /** The position of the prompt `id`, or -1. */
  function PromptIndex(prompts: seq<Prompt>, id: int): (i: int)
    ensures -1 <= i < |prompts|
    ensures i >= 0 ==> prompts[i].id == id
    ensures i == -1 <==> forall k :: 0 <= k < |prompts| ==> prompts[k].id != id
  {
    if prompts == [] then -1
    else if prompts[0].id == id then 0
    else
      var i := PromptIndex(prompts[1..], id);
      if i == -1 then -1 else i + 1
  }

  /** The `category_id` column. */
  function CategoryColumn(prompts: seq<Prompt>): (r: seq<Option<int>>)
    ensures |r| == |prompts| && forall i :: 0 <= i < |prompts| ==> r[i] == prompts[i].categoryId
  {
    seq(|prompts|, i requires 0 <= i < |prompts| => prompts[i].categoryId)
  }

  /** What `edit_category` does with a POST. */
  datatype EditCategoryOutcome =
    | EditNotFound
    | Saved                        // committed without touching the parent
    | MoveRequested(newParent: int) // handed to CategoryService.move_category

  class Store {
    var roots: seq<Category>
    var prompts: seq<Prompt>

    /** Category ids are unique, prompt ids are unique and every stored tags value is clean. */
    ghost predicate Valid()
      reads this
    {
      WellFormed(roots) &&
      (forall i, j :: 0 <= i < j < |prompts| ==> prompts[i].id != prompts[j].id) &&
      (forall i :: 0 <= i < |prompts| ==> CleanTagValue(prompts[i].tags))
    }

    constructor (roots: seq<Category>, prompts: seq<Prompt>)
      requires WellFormed(roots)
      requires forall i, j :: 0 <= i < j < |prompts| ==> prompts[i].id != prompts[j].id
      requires forall i :: 0 <= i < |prompts| ==> CleanTagValue(prompts[i].tags)
      ensures Valid() && this.roots == roots && this.prompts == prompts
    {
      this.roots := roots;
      this.prompts := prompts;
    }

    /**
     * `delete_category`: refuse, changing nothing, while the category holds prompts
     * or sub-categories; otherwise remove it.
     */
    method DeleteCategory(id: int) returns (outcome: DeleteOutcome)
      requires Valid()
      modifies this
      ensures Valid()
      ensures outcome == DeleteDecision(old(roots), CategoryColumn(old(prompts)), id)
      ensures roots == AfterDelete(old(roots), CategoryColumn(old(prompts)), id)
      ensures prompts == old(prompts)
    {
      var found := Find(roots, id);
      if found.None? {
        return CategoryNotFound;
      }
      var category := found.value;
      var promptsCount := PromptCount(CategoryColumn(prompts), id);
      var childrenCount := |category.children|;
      if promptsCount > 0 || childrenCount > 0 {
        return Refused(promptsCount, childrenCount);
      }
      DeleteDecisionFacts(roots, CategoryColumn(prompts), id, id);
      roots := Remove(roots, id);
      outcome := Deleted;
    }

    /**
     * `edit_category` (POST): set the name and description, then hand a parent change
     * to the category service when one is attempted, or just save.
     */
    method EditCategory(id: int, name: string, description: string, newParent: Option<int>)
      returns (outcome: EditCategoryOutcome)
      requires Valid()
      modifies this
      ensures Valid() && prompts == old(prompts)
      ensures id !in Ids(old(roots)) ==> outcome == EditNotFound && roots == old(roots)
      ensures id in Ids(old(roots)) ==>
        roots == Rename(old(roots), id, name, description) &&
        outcome == (if ParentChangeAttempted(newParent, ParentOf(old(roots), id))
                    then MoveRequested(newParent.value) else Saved)
    {
      if Find(roots, id).None? {
        return EditNotFound;
      }
      var parent := ParentOf(roots, id);
      RenameFacts(roots, id, name, description, id);
      roots := Rename(roots, id, name, description);
      if newParent.Some? && Some(newParent.value) != parent {
        outcome := MoveRequested(newParent.value);
      } else {
        outcome := Saved;
      }
    }

    /** The choices of the edit form for category `id` (GET of `edit_category`). */
    method EditCategoryChoices(id: int) returns (options: Option<seq<Choice>>)
      requires Valid()
      ensures id !in Ids(roots) <==> options.None?
      ensures options.Some? ==> options.value == [NoParentChoice] + ValidOptions(Find(roots, id).value, roots, 0)
    {
      var found := Find(roots, id);
      if found.None? {
        return None;
      }
      var choices := ParentChoices(roots, found.value);
      options := Some(choices);
    }

    /**
     * `edit` (POST): new title, cleaned tags and category; the upload replaces the
     * image only when `allowed_file` accepts its name. `storedName` is what
     * `secure_filename` makes of it.
     */
    method EditPrompt(id: int, title: string, tags: string, categoryId: Option<int>,
                      upload: string, storedName: string) returns (found: bool)
      requires Valid()
      modifies this
      ensures Valid() && roots == old(roots)
      ensures found <==> PromptIndex(old(prompts), id) >= 0
      ensures found ==>
        prompts == old(prompts)[PromptIndex(old(prompts), id) :=
          EditedPrompt(old(prompts)[PromptIndex(old(prompts), id)], title, tags, categoryId, upload, storedName)]
      ensures !found ==> prompts == old(prompts)
    {
      var i := PromptIndex(prompts, id);
      if i < 0 {
        return false;
      }
      var edited := EditedPrompt(prompts[i], title, tags, categoryId, upload, storedName);
      EditedTagsAreClean(prompts[i], title, tags, categoryId, upload, storedName);
      assert edited.id == prompts[i].id;
      prompts := prompts[i := edited];
      found := true;
    }
  }

  /** An upload with no file (empty name) never replaces the image: `image` is false then. */
  lemma EmptyUploadKeepsImage(p: Prompt, title: string, tags: string, categoryId: Option<int>, storedName: string)
    ensures EditedPrompt(p, title, tags, categoryId, "", storedName).imageFilename == p.imageFilename
  {
  }

  /** After `edit` the tags are in clean form, whatever was typed. */
  lemma EditedTagsAreClean(p: Prompt, title: string, tags: string, categoryId: Option<int>,
                           upload: string, storedName: string)
    ensures CleanTagValue(EditedPrompt(p, title, tags, categoryId, upload, storedName).tags)
  {
    CleanTagsIdempotent(tags);
  }
}
