# Prompt manager: tags, uploads and the category forest in Dafny

This project models the sequential logic of a small Flask catalogue of
image-generation prompts. Users file prompts under a tree of categories,
tag them, attach an image, and view usage statistics. The model covers:

- the two helpers of `utils.py`:
  - `allowed_file`, the upload-extension whitelist (`png`, `jpg`, `jpeg`, `gif`, from `config.py`);
  - `clean_tags`, which normalises a comma-separated tag string.
- the computations inside the handlers of `routes/prompt_routes.py`:
  - the category filter of `index`: the selected category and all its descendants;
  - the sidebar tag list of `index` and `view`;
  - the LoRA and tag statistics of `statistiques`. Each is a `Counter` sorted by count, largest first, with a stable sort;
  - the deletion guard of `delete_category`;
  - the parent-change rule of `edit_category`, and the parent choices it builds with `add_valid_options`.
- the state these handlers change: a `Store` class holding the category forest and the prompt rows.
  `edit`, `edit_category` and `delete_category` are methods that update it in place.

Modules, one per concern:

| file | module | contents |
|---|---|---|
| `wrappers.dfy` | `Wrappers` | `Option`, for nullable columns and form fields |
| `text.dfy` | `Text` | Python's `split`, `join`, `strip`, `lower` on strings |
| `utils.dfy` | `Utils` | `allowed_file`, `clean_tags` |
| `tags.dfy` | `Tags` | stripped tag fields of all prompts, Python string order, the sorted sidebar set |
| `statistics.dfy` | `Statistics` | `Counter`, the stable sort by count, LoRA and tag statistics |
| `category_tree.dfy` | `CategoryTree` | the forest, ancestry, the `index` filter, the deletion guard, renaming, the parent-change rule |
| `parent_options.dfy` | `ParentOptions` | `add_valid_options` as a recursive method with a loop, and a pre-order reference for it |
| `catalog.dfy` | `Catalog` | the `Store` class and its handler methods |

Each persisted category row refers to its parent by id.
The model assumes these rows form a forest and represents it as a tree value: a `Category` holds its direct
children in query order. The roots are what `filter_by(parent_id=None)` returns.
`WellFormed` says that ids are unique, as the primary key guarantees.
Under that condition the model proves the following:

- `is_ancestor_of` and `get_all_children` agree with the parent chain (`Ancestors`).
- The option walk prunes only what the full pre-order would also filter out.
- Deleting a leaf changes no other category's parent chain.

Behaviour of the code that the model keeps, where a reader might expect otherwise:

- `clean_tags` keeps empty and repeated fields. `"a,,A"` becomes `"a,,a"`.
  Tags are not de-duplicated.
- The sidebar includes the empty tag whenever some prompt has no tags or an empty field.
- Tag statistics also count empty fields. LoRA statistics drop empty names and the text `None`.
  `None` is what `str()` makes of a missing value, and `add` stores that text.
- Choosing "-- Aucune catégorie --" as the new parent never triggers a move.
  `new_parent_id` is then `None`, so a sub-category cannot be made a root again from this form.

## Model

| member | source | states |
|---|---|---|
| `Utils.AllowedFile` | utils.py:6-14 | the whitelist check on the last extension; its properties are stated by `Utils.AllowedFileIff`, `Utils.NoDotRefused`, `Utils.AllowedFileIgnoresCase` and `Utils.AllowedFileExamples` |
| `Utils.NoDotRefused` | utils.py:12 | a file name without a dot is always refused |
| `Utils.AllowedFileIff` | utils.py:6-14 | accepted iff some dot is followed by dot-free text whose lower-case form is png, jpg, jpeg or gif; only the final extension matters |
| `Utils.AllowedFileIgnoresCase` | utils.py:13-14 | lower-casing the whole name never changes the verdict |
| `Utils.AllowedFileExamples` | utils.py:12-14 | `a.png.exe` is refused, `a.exe.PNG` and `photo.jpeg` are accepted, `png` is refused |
| `Utils.LastIndex` | utils.py:13 | the `rsplit('.', 1)` cut point: the position of the last dot, with no dot after it, or -1 when there is none |
| `Utils.CleanTags` | utils.py:17-23 | split on commas, strip and lower-case each field, join with commas; its properties are stated by `Utils.CleanTagsFields`, `Utils.CleanTagsNormalises`, `Utils.CleanTagsIdempotent` and `Utils.CleanTagsKeepsEmptyAndRepeated` |
| `Utils.CleanTagFacts` | utils.py:23 | a cleaned field is stripped, lower case, free of commas when the input was, and cleaning it again changes nothing |
| `Utils.CleanTagsFields` | utils.py:17-23 | splitting the output on commas gives exactly the input's fields, each stripped and lower-cased, in the same number and order |
| `Utils.CleanTagsNormalises` | utils.py:23 | the output has as many fields as the input, each stripped and lower case |
| `Utils.CleanTagsIdempotent` | utils.py:23 | cleaning twice equals cleaning once |
| `Utils.CleanTagsKeepsEmptyAndRepeated` | utils.py:23 | a field, an empty field and a field cleaning to the same tag come out as that tag, an empty tag and that tag again (`"a,,A"` gives `"a,,a"`): empty and repeated fields are kept |
| `Utils.CleanTagsOfEmpty` | utils.py:23 | the empty tag string stays empty |
| `Text.JoinSplit` | utils.py:23 | joining the fields of a split with the same separator gives back the original string |
| `Text.SplitJoin` | utils.py:23 | splitting a join of separator-free parts gives the parts back |
| `Text.Strip` | utils.py:23 | `strip()` returns a contiguous slice of its input with no white space at either end, and everything cut off before and after that slice is white space |
| `Tags.FieldTokensExactly` | routes/prompt_routes.py:58-62 | the tokens are exactly the stripped comma-separated fields of every prompt's tags, a null value counting as the empty string; one token per field |
| `Tags.SortedSetFacts` | routes/prompt_routes.py:69 | `sorted(set)` is strictly increasing in Python's string order and holds exactly the tokens |
| `Tags.SidebarTags` | routes/prompt_routes.py:58-69 | the sorted set of stripped tag fields of all prompts; its properties are stated by `Tags.SidebarTagsExactly` |
| `Tags.SidebarTagsExactly` | routes/prompt_routes.py:87-95 | the sidebar lists each stripped tag field of every prompt exactly once, in increasing order |
| `Tags.LessTotal` | routes/prompt_routes.py:69 | Python's string order is total and asymmetric |
| `Statistics.Tally` | routes/prompt_routes.py:333-339 | `Counter` over a token list; its properties are stated by `Statistics.TallyCounts` and `Statistics.TallyFirstAppearance` |
| `Statistics.SortByCount` | routes/prompt_routes.py:332-342 | `sorted(..., key=count, reverse=True)`, a stable insertion sort; its properties are stated by `Statistics.SortByCountFacts` |
| `Statistics.LoraStats` | routes/prompt_routes.py:331-343 | the LoRA statistics list; its properties are stated by `Statistics.LoraStatsFacts` and `Statistics.LoraStatsComplete` |
| `Statistics.TagStats` | routes/prompt_routes.py:346-358 | the tag statistics list; its properties are stated by `Statistics.TagStatsFacts` |
| `Statistics.TallyCounts` | routes/prompt_routes.py:333-339 | the counter has one entry per distinct token, counting that token's occurrences, with counts summing to the number of tokens |
| `Statistics.TallyFirstAppearance` | routes/prompt_routes.py:333-339 | counter entries appear in the order their tokens first appear |
| `Statistics.SortByCountFacts` | routes/prompt_routes.py:332-342 | the sort is non-increasing by count and a permutation; among equal counts it keeps input order (stable) |
| `Statistics.CountStatsFacts` | routes/prompt_routes.py:332-343 | the statistics list has distinct keys, exactly the tokens, true counts summing to the token count, sorted by count with first-appearance ties |
| `Statistics.LoraTokensExactly` | routes/prompt_routes.py:334-338 | a LoRA token is exactly a stripped field of some row's `str()` value that is neither empty nor `None` |
| `Statistics.LoraStatsFacts` | routes/prompt_routes.py:331-343 | every LoRA key is stripped, non-empty, not `None` and taken from a row; its count is its number of occurrences; the list is sorted by count |
| `Statistics.LoraStatsComplete` | routes/prompt_routes.py:331-343 | every name that passes the filter has an entry |
| `Statistics.TagStatsFacts` | routes/prompt_routes.py:346-358 | tag counts add up to the number of comma-separated fields, empty ones included; the keys are exactly the stripped fields; the list is sorted by count |
| `CategoryTree.Find` | routes/prompt_routes.py:29 | the lookup returns the category with that id from the forest, and nothing exactly when the id is absent |
| `CategoryTree.AncestorOfIffOnChain` | routes/prompt_routes.py:259 | with unique ids, `a.is_ancestor_of(x)` holds exactly when `a` lies on the parent chain of `x` |
| `CategoryTree.IndexFilter` | routes/prompt_routes.py:27-45 | the category filter of `index`; its properties are stated by `CategoryTree.IndexFilterFacts` |
| `CategoryTree.IndexFilterFacts` | routes/prompt_routes.py:27-45 | id 0 or none means no filter; an unknown id is refused; otherwise the id list starts with the selected id, has no repeats, and holds exactly it and the ids whose parent chain contains it |
| `CategoryTree.DeleteDecision` | routes/prompt_routes.py:279-292 | the deletion guard; its properties are stated by `CategoryTree.DeleteDecisionFacts` |
| `CategoryTree.DeleteDecisionFacts` | routes/prompt_routes.py:276-292 | deletion is refused, with the prompt and child counts and no change, iff either count is positive; otherwise exactly that id disappears, ids stay unique, and every other category keeps its parent chain, name and description |
| `CategoryTree.RemoveLeafIds` | routes/prompt_routes.py:288 | removing a leaf removes its id and nothing else |
| `CategoryTree.RemoveLeafKeepsAncestors` | routes/prompt_routes.py:288 | removing a leaf leaves every other category's parent chain unchanged |
| `CategoryTree.RemoveLeafKeepsOthers` | routes/prompt_routes.py:288 | removing a leaf leaves every other category as it was, name and description included; only the leaf disappears from its parent's children |
| `CategoryTree.ParentChangeAttempted` | routes/prompt_routes.py:241 | the move condition of `edit_category`; what it means for the submitted choices is stated by `ParentOptions.SubmittedParentNeverInSubtree`, and its effect by `Catalog.Store.EditCategory` |
| `CategoryTree.Rename` | routes/prompt_routes.py:236-237 | the forest with one category's name and description replaced; its properties are stated by `CategoryTree.RenameFacts` |
| `CategoryTree.RenameFacts` | routes/prompt_routes.py:236-237 | renaming keeps every id and parent chain, the category then carries the new name and description, and every other category keeps its own |
| `CategoryTree.RenameKeepsOthers` | routes/prompt_routes.py:236-237 | every category other than the renamed one is found unchanged, apart from the renamed category inside its subtree |
| `ParentOptions.ValidOptions` | routes/prompt_routes.py:257-262 | the reference definition of the option walk; its properties are stated by `ParentOptions.ValidOptionsExclude` and `ParentOptions.ParentChoicesArePrunedPreorder` |
| `ParentOptions.AddValidOptions` | routes/prompt_routes.py:257-262 | the recursive walk with its loop appends exactly `ValidOptions` for the given categories and level |
| `ParentOptions.ParentChoices` | routes/prompt_routes.py:255-265 | the list is the no-category entry followed by the walk from the roots at level 0 |
| `ParentOptions.ValidOptionsExclude` | routes/prompt_routes.py:259 | no choice is the edited category or one of its descendants |
| `ParentOptions.SubmittedParentNeverInSubtree` | routes/prompt_routes.py:241-262 | whatever entry of the edit form is submitted, an attempted move never targets the category itself or one of its descendants, and the no-category entry never asks for a move |
| `ParentOptions.ClosedWhenWellFormed` | routes/prompt_routes.py:259-262 | with unique ids, everything below an excluded category is excluded too, so skipping its subtree loses nothing |
| `ParentOptions.ParentChoicesArePrunedPreorder` | routes/prompt_routes.py:255-265 | the choices are the whole forest in depth-first pre-order minus the edited category's subtree, each labelled with its name indented by its depth |
| `ParentOptions.FlattenDepth` | routes/prompt_routes.py:257-262 | a category's level in the walk is the length of its parent chain |
| `ParentOptions.LabelDepth` | routes/prompt_routes.py:260-261 | a label is one U+3000 per ancestor followed by the name |
| `Catalog.Store.DeleteCategory` | routes/prompt_routes.py:274-292 | keeps the store valid; the outcome and new forest are those of the deletion guard; prompts are unchanged |
| `Catalog.Store.EditCategory` | routes/prompt_routes.py:232-252 | an unknown id changes nothing; otherwise the name and description are replaced and a move is requested exactly when the parent-change rule says so |
| `Catalog.Store.EditCategoryChoices` | routes/prompt_routes.py:254-265 | for a known category, returns the parent choices built for it from the roots; nothing for an unknown id |
| `Catalog.EditedPrompt` | routes/prompt_routes.py:158-168 | the row after `edit`; its properties are stated by `Catalog.Store.EditPrompt`, `Catalog.EditedTagsAreClean` and `Catalog.EmptyUploadKeepsImage` |
| `Catalog.Store.EditPrompt` | routes/prompt_routes.py:146-172 | only the edited row changes: its title, cleaned tags and category, plus the image when the upload name is allowed; stored tags stay clean |
| `Catalog.EditedTagsAreClean` | routes/prompt_routes.py:160 | tags stored by `edit` are a fixed point of `clean_tags` |
| `Catalog.EmptyUploadKeepsImage` | routes/prompt_routes.py:163-168 | an empty upload never replaces the stored image name |

## Left out

- `ComfyUIImage` is not part of this model. It reads image metadata and is imported at routes/prompt_routes.py:12.
- `CategoryService` is not part of this model either (`get_tree`, `get_category_options`, `move_category`, `build_tree_dict`).
  `move_category` appears only as the `MoveRequested` outcome of `EditCategory`.
- The `Category` model, with its `children` relation and its `is_ancestor_of` and `get_all_children` methods, is not part of this model.
  The `Prompt` columns `category_id` and `loras` that the handlers use are missing from models.py:10-21 as well.
  The model gives these the meaning the handlers rely on:
  - strict descendant;
  - all descendants in depth-first pre-order;
  - direct children in query order.
  The order of `get_all_children` does not matter: the `index` filter only tests membership.
- The `add`, `delete`, `new_category`, `manage_categories`, `api_categories_tree` and `historique` handlers are left out.
  Besides `ComfyUIImage`, `CategoryService`, file I/O and templates, `new_category` and `delete` write through SQLAlchemy.
  `add` also checks for a title and runs `clean_tags`; that helper is modelled as `Utils.CleanTags`.
- The tree value cannot represent a `parent_id` that names no category, or a cycle of parents.
  `new_category` stores the submitted `parent_id` unchecked (routes/prompt_routes.py:205), so the database can hold either.
- Flask plumbing is left out: routing, `request`, `flash`, `redirect`, `render_template`, `jsonify`, blueprints.
- SQLAlchemy is left out:
  - queries, the `tag` and `q` text filters, and pagination (12 per page, id descending);
  - the checkpoint statistics (`group_by`/`count`);
  - session commits, and the table definitions.
  Prompt rows are a sequence in query order; the columns are those the handlers use.
- File I/O is left out: `image.save`, `os.remove`, `uuid` and `secure_filename`. The stored file name is a parameter of `EditPrompt`.
- `Text.Lower` maps only the basic Latin and Latin-1 capital letters, not the full Unicode case mapping of `str.lower()`.
  It differs from `str.lower()` on every other character that `str.lower()` changes.
  These include capital letters such as Œ U+0152, Ÿ U+0178 and Ł U+0141, title-case letters such as ǅ U+01C5,
  circled letters such as Ⓐ U+24B6 and Roman numerals such as Ⅰ U+2160.
  Characters that `str.lower()` leaves alone, such as ℂ U+2102, are left alone here too.
  None of those characters lower-cases to a single whitelist letter: U+0130 lower-cases to "i" followed by U+0307 and so never matches either.
  So `allowed_file` is modelled exactly, while tag lower-casing differs from the source for those characters.
- `Statistics.TagStats` requires every tags value to be non-null. The source raises on a null value there (`p.split` on `None`), so that case has no specified result.
- `Catalog.Store.EditCategory` does not model what `move_category` does to the parent.
  It also does not model whether the new name is kept when that move fails.
- `Catalog.Store.EditCategory` takes the parent field as an optional integer. A non-numeric value makes `int()` raise in the source, which is not modelled.
- `Catalog.Store.EditPrompt` takes the `categorie` form field as an optional integer. The source stores the submitted text in an integer column.
