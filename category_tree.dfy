/**
 * The category forest as the route handlers see it: `Category.query.filter_by(parent_id=None)`
 * gives the roots, `cat.children` the direct children, `get_all_children()` every
 * descendant and `is_ancestor_of` the strict-ancestor test. The rows are persisted
 * with parent-id references; here the forest is the tree those references describe.
 */
module CategoryTree {
  import opened Wrappers

  /** A category with its direct children in query order. */
  datatype Category = Category(id: int, name: string, description: string, children: seq<Category>)

  /** Every id of the forest, depth-first, each parent before its children. */
  function Ids(forest: seq<Category>): seq<int>
    decreases forest
  {
    if forest == [] then [] else [forest[0].id] + Ids(forest[0].children) + Ids(forest[1..])
  }

  predicate NoDup(s: seq<int>)
  {
    forall i, j :: 0 <= i < j < |s| ==> s[i] != s[j]
  }

  /** No id is used twice: the primary key of the category table. */
  predicate WellFormed(forest: seq<Category>)
  {
    NoDup(Ids(forest))
  }

  lemma NoDupConcat(a: seq<int>, b: seq<int>)
    requires NoDup(a + b)
    ensures NoDup(a) && NoDup(b)
    ensures forall x :: x in a ==> x !in b
  {
    var ab := a + b;
    forall i, j | 0 <= i < j < |a| ensures a[i] != a[j] {
      assert ab[i] == a[i] && ab[j] == a[j];
    }
    forall i, j | 0 <= i < j < |b| ensures b[i] != b[j] {
      assert ab[|a| + i] == b[i] && ab[|a| + j] == b[j];
    }
    forall i, j | 0 <= i < |a| && 0 <= j < |b| ensures a[i] != b[j] {
      assert ab[i] == a[i] && ab[|a| + j] == b[j];
    }
  }

  /** Splits the id list of a non-empty forest into its root, its root's subtree and the rest. */
  lemma WellFormedParts(forest: seq<Category>)
    requires forest != [] && WellFormed(forest)
    ensures WellFormed(forest[0].children) && WellFormed(forest[1..])
    ensures forest[0].id !in Ids(forest[0].children) && forest[0].id !in Ids(forest[1..])
    ensures forall x :: x in Ids(forest[0].children) ==> x !in Ids(forest[1..])
  {
    var t, rest := forest[0], forest[1..];
    var below, after := Ids(t.children), Ids(rest);
    assert Ids(forest) == [t.id] + (below + after);
    NoDupConcat([t.id], below + after);
    NoDupConcat(below, after);
    assert t.id !in below + after;
  }

  /** `c` is one of the categories of the forest, at any depth. */
  predicate Occurs(c: Category, forest: seq<Category>)
    decreases forest
  {
    forest != [] && (forest[0] == c || Occurs(c, forest[0].children) || Occurs(c, forest[1..]))
  }

  /** A category of the forest brings its own id and all its descendants' ids with it. */
  lemma {:induction false} OccursIds(c: Category, forest: seq<Category>)
    requires Occurs(c, forest)
    ensures c.id in Ids(forest)
    ensures forall y :: y in Ids(c.children) ==> y in Ids(forest)
    decreases forest
  {
    if forest[0] == c {
    } else if Occurs(c, forest[0].children) {
      OccursIds(c, forest[0].children);
    } else {
      OccursIds(c, forest[1..]);
    }
  }

  /** Every id of the forest belongs to one of its categories. */
  lemma {:induction false} IdHasCategory(forest: seq<Category>, y: int)
    requires y in Ids(forest)
    ensures exists c :: Occurs(c, forest) && c.id == y
    decreases forest
  {
    if forest[0].id == y {
      assert Occurs(forest[0], forest);
    } else if y in Ids(forest[0].children) {
      IdHasCategory(forest[0].children, y);
      var c :| Occurs(c, forest[0].children) && c.id == y;
      assert Occurs(c, forest);
    } else {
      IdHasCategory(forest[1..], y);
      var c :| Occurs(c, forest[1..]) && c.id == y;
      assert Occurs(c, forest);
    }
  }

  /** A category below a category of the forest is a category of the forest. */
  lemma {:induction false} OccursTransitive(c: Category, a: Category, forest: seq<Category>)
    requires Occurs(c, a.children) && Occurs(a, forest)
    ensures Occurs(c, forest)
    decreases forest
  {
    if forest[0] == a {
    } else if Occurs(a, forest[0].children) {
      OccursTransitive(c, a, forest[0].children);
    } else {
      OccursTransitive(c, a, forest[1..]);
    }
  }

  /** With unique ids, an id names a single category. */
  lemma {:induction false} UniqueById(a: Category, b: Category, forest: seq<Category>)
    requires WellFormed(forest) && Occurs(a, forest) && Occurs(b, forest) && a.id == b.id
    ensures a == b
    decreases forest
  {
    var t, rest := forest[0], forest[1..];
    WellFormedParts(forest);
    if Occurs(a, t.children) && Occurs(b, t.children) {
      UniqueById(a, b, t.children);
    } else if Occurs(a, rest) && Occurs(b, rest) {
      UniqueById(a, b, rest);
    } else if a != t || b != t {
      // the two would sit in disjoint parts of the id list
      if Occurs(a, t.children) { OccursIds(a, t.children); }
      if Occurs(a, rest) { OccursIds(a, rest); }
      if Occurs(b, t.children) { OccursIds(b, t.children); }
      if Occurs(b, rest) { OccursIds(b, rest); }
    }
  }

  // ---------------------------------------------------------------------------
  // The relations the handlers use
  // ---------------------------------------------------------------------------

  /** `Category.query.get(id)`: the category with that id, if any. */
  function Find(forest: seq<Category>, id: int): (r: Option<Category>)
    ensures r.Some? ==> r.value.id == id && Occurs(r.value, forest)
    ensures r.None? <==> id !in Ids(forest)
    decreases forest
  {
    if forest == [] then None
    else if forest[0].id == id then Some(forest[0])
    else if id in Ids(forest[0].children) then Find(forest[0].children, id)
    else Find(forest[1..], id)
  }

  /** `a.get_all_children()`: the ids of all descendants of `a`, depth-first. */
  function AllChildren(a: Category): seq<int>
  {
    Ids(a.children)
  }

  /** `a.is_ancestor_of(id)`: `id` lies strictly below `a`. */
  predicate IsAncestorOf(a: Category, id: int)
  {
    id in AllChildren(a)
  }

  /** The ids on the parent chain of `id`, root first (the breadcrumb above it). */
  function Ancestors(forest: seq<Category>, id: int): seq<int>
    decreases forest
  {
    if forest == [] then []
    else if forest[0].id == id then []
    else if id in Ids(forest[0].children) then [forest[0].id] + Ancestors(forest[0].children, id)
    else Ancestors(forest[1..], id)
  }

  /** `parent_id`: the last id on the parent chain, none for a root. */
  function ParentOf(forest: seq<Category>, id: int): Option<int>
  {
    var chain := Ancestors(forest, id);
    if chain == [] then None else Some(chain[|chain| - 1])
  }

  lemma {:induction false} AncestorsInForest(forest: seq<Category>, id: int)
    ensures forall y :: y in Ancestors(forest, id) ==> y in Ids(forest)
    decreases forest
  {
    if forest != [] && forest[0].id != id {
      if id in Ids(forest[0].children) {
        AncestorsInForest(forest[0].children, id);
      } else {
        AncestorsInForest(forest[1..], id);
      }
    }
  }

  /**
   * In a forest with unique ids, `a` is an ancestor of `x` exactly when `a` lies
   * on the parent chain of `x`: `get_all_children` and `is_ancestor_of` agree with
   * the parent references.
   */
  lemma {:induction false} AncestorOfIffOnChain(forest: seq<Category>, a: Category, x: int)
    requires WellFormed(forest) && Occurs(a, forest) && x in Ids(forest)
    ensures IsAncestorOf(a, x) <==> a.id in Ancestors(forest, x)
    decreases forest
  {
    var t, rest := forest[0], forest[1..];
    WellFormedParts(forest);
    AncestorsInForest(t.children, x);
    AncestorsInForest(rest, x);
    if Occurs(a, t.children) { OccursIds(a, t.children); }
    if Occurs(a, rest) { OccursIds(a, rest); }
    if x == t.id {
    } else if x in Ids(t.children) {
      if a != t && Occurs(a, t.children) {
        AncestorOfIffOnChain(t.children, a, x);
      }
    } else {
      if a != t && Occurs(a, rest) && !Occurs(a, t.children) {
        AncestorOfIffOnChain(rest, a, x);
      }
    }
  }

  // ---------------------------------------------------------------------------
  // index: the category filter
  // ---------------------------------------------------------------------------

  /** What `index` does with its `category_id` argument. */
  datatype CategoryFilter =
    | AllCategories        // no id, or id 0: no filter
    | UnknownCategory      // get_or_404 fails
    | WithinIds(ids: seq<int>)  // Prompt.category_id.in_(ids)

  /** `category_ids = [selected.id] + [child.id for child in selected.get_all_children()]`. */
  function IndexFilter(forest: seq<Category>, categoryId: Option<int>): CategoryFilter
  {
    if categoryId.None? || categoryId.value == 0 then AllCategories
    else match Find(forest, categoryId.value)
      case None => UnknownCategory
      case Some(c) => WithinIds([c.id] + AllChildren(c))
  }

  /**
   * A selected category filters on its own id followed by the ids of all its
   * descendants, each once: an id passes exactly when it is the selected one or
   * the selected one lies on its parent chain. Id 0 or none means no filter; an
   * unknown id is refused.
   */
  lemma IndexFilterFacts(forest: seq<Category>, categoryId: Option<int>, x: int)
    requires WellFormed(forest)
    ensures categoryId.None? || categoryId == Some(0) <==> IndexFilter(forest, categoryId) == AllCategories
    ensures IndexFilter(forest, categoryId) == UnknownCategory <==>
      categoryId.Some? && categoryId.value != 0 && categoryId.value !in Ids(forest)
    ensures IndexFilter(forest, categoryId).WithinIds? ==>
      var ids := IndexFilter(forest, categoryId).ids;
      ids[0] == categoryId.value && NoDup(ids) &&
      (x in ids <==> x == categoryId.value || (x in Ids(forest) && categoryId.value in Ancestors(forest, x)))
  {
    var r := IndexFilter(forest, categoryId);
    if r.WithinIds? {
      var c := Find(forest, categoryId.value).value;
      OccursIds(c, forest);
      SubtreeWellFormed(c, forest);
      if x in Ids(forest) {
        AncestorOfIffOnChain(forest, c, x);
      }
    }
  }

  /** The subtree of a category of a well-formed forest has unique ids, its own among them. */
  lemma {:induction false} SubtreeWellFormed(c: Category, forest: seq<Category>)
    requires WellFormed(forest) && Occurs(c, forest)
    ensures NoDup([c.id] + Ids(c.children))
    decreases forest
  {
    WellFormedParts(forest);
    if forest[0] == c {
      assert Ids(forest) == ([c.id] + Ids(c.children)) + Ids(forest[1..]);
      NoDupConcat([c.id] + Ids(c.children), Ids(forest[1..]));
    } else if Occurs(c, forest[0].children) {
      SubtreeWellFormed(c, forest[0].children);
    } else {
      SubtreeWellFormed(c, forest[1..]);
    }
  }

  // ---------------------------------------------------------------------------
  // delete_category
  // ---------------------------------------------------------------------------

  /** `category.prompts.count()`: the prompts filed directly under `id`. */
  function PromptCount(promptCategories: seq<Option<int>>, id: int): nat
  {
    if promptCategories == [] then 0
    else (if promptCategories[0] == Some(id) then 1 else 0) + PromptCount(promptCategories[1..], id)
  }

  /** The forest without the categories whose id is `id` (and what hangs below them). */
  function Remove(forest: seq<Category>, id: int): seq<Category>
    decreases forest
  {
    if forest == [] then []
    else if forest[0].id == id then Remove(forest[1..], id)
    else [forest[0].(children := Remove(forest[0].children, id))] + Remove(forest[1..], id)
  }

  /** `s` without `x`. */
  function Without(s: seq<int>, x: int): seq<int>
  {
    if s == [] then [] else (if s[0] == x then [] else [s[0]]) + Without(s[1..], x)
  }

  lemma {:induction false} WithoutAppend(a: seq<int>, b: seq<int>, x: int)
    ensures Without(a + b, x) == Without(a, x) + Without(b, x)
  {
    if a != [] {
      assert (a + b)[1..] == a[1..] + b;
      WithoutAppend(a[1..], b, x);
    } else {
      assert a + b == b;
    }
  }

  lemma {:induction false} WithoutMembers(s: seq<int>, x: int)
    ensures forall y :: y in Without(s, x) <==> y in s && y != x
    ensures NoDup(s) ==> NoDup(Without(s, x))
  {
    if s != [] {
      WithoutMembers(s[1..], x);
      assert s == [s[0]] + s[1..];
      if NoDup(s) {
        NoDupConcat([s[0]], s[1..]);
        var w := Without(s, x);
        forall i, j | 0 <= i < j < |w| ensures w[i] != w[j] {
          if s[0] != x && i == 0 {
            assert w[j] in Without(s[1..], x);
          } else if s[0] != x {
            assert w[i] == Without(s[1..], x)[i - 1] && w[j] == Without(s[1..], x)[j - 1];
          }
        }
      }
    }
  }

  /** Every category with id `id` is a leaf. */
  ghost predicate LeafOnly(forest: seq<Category>, id: int)
  {
    forall c :: Occurs(c, forest) && c.id == id ==> c.children == []
  }

  /** Removing a leaf removes exactly its id. */
  lemma {:induction false} RemoveLeafIds(forest: seq<Category>, id: int)
    requires LeafOnly(forest, id)
    ensures Ids(Remove(forest, id)) == Without(Ids(forest), id)
    decreases forest
  {
    if forest != [] {
      var t, rest := forest[0], forest[1..];
      assert Ids(forest) == [t.id] + Ids(t.children) + Ids(rest);
      WithoutAppend([t.id] + Ids(t.children), Ids(rest), id);
      WithoutAppend([t.id], Ids(t.children), id);
      assert LeafOnly(rest, id) by {
        forall c | Occurs(c, rest) && c.id == id ensures c.children == [] { assert Occurs(c, forest); }
      }
      RemoveLeafIds(rest, id);
      if t.id == id {
        assert Occurs(t, forest);
      } else {
        assert LeafOnly(t.children, id) by {
          forall c | Occurs(c, t.children) && c.id == id ensures c.children == [] { assert Occurs(c, forest); }
        }
        RemoveLeafIds(t.children, id);
        var t' := t.(children := Remove(t.children, id));
        assert Remove(forest, id) == [t'] + Remove(rest, id);
        assert Remove(forest, id)[1..] == Remove(rest, id);
      }
    }
  }

  /** Removing a leaf leaves every other category's parent chain as it was. */
  lemma {:induction false} RemoveLeafKeepsAncestors(forest: seq<Category>, id: int, x: int)
    requires LeafOnly(forest, id) && x != id
    ensures Ancestors(Remove(forest, id), x) == Ancestors(forest, x)
    decreases forest
  {
    if forest != [] {
      var t, rest := forest[0], forest[1..];
      assert LeafOnly(rest, id) by {
        forall c | Occurs(c, rest) && c.id == id ensures c.children == [] { assert Occurs(c, forest); }
      }
      RemoveLeafKeepsAncestors(rest, id, x);
      if t.id != id {
        assert LeafOnly(t.children, id) by {
          forall c | Occurs(c, t.children) && c.id == id ensures c.children == [] { assert Occurs(c, forest); }
        }
        RemoveLeafKeepsAncestors(t.children, id, x);
        RemoveLeafIds(t.children, id);
        WithoutMembers(Ids(t.children), id);
        var t' := t.(children := Remove(t.children, id));
        assert Remove(forest, id) == [t'] + Remove(rest, id);
        assert Remove(forest, id)[1..] == Remove(rest, id);
      } else {
        assert Occurs(t, forest);
        assert Ids(t.children) == [];
      }
    }
  }

  /**
   * Removing a leaf leaves every other category as it was, name and description
   * included; only the removed leaf disappears from its children.
   */
  lemma {:induction false} RemoveLeafKeepsOthers(forest: seq<Category>, id: int, x: int)
    requires LeafOnly(forest, id) && x != id && x in Ids(forest)
    ensures Find(Remove(forest, id), x) ==
      Some(Find(forest, x).value.(children := Remove(Find(forest, x).value.children, id)))
    decreases forest
  {
    var t, rest := forest[0], forest[1..];
    assert LeafOnly(rest, id) by {
      forall c | Occurs(c, rest) && c.id == id ensures c.children == [] { assert Occurs(c, forest); }
    }
    if t.id == id {
      assert Occurs(t, forest);
      assert Remove(forest, id) == Remove(rest, id);
      RemoveLeafKeepsOthers(rest, id, x);
    } else {
      assert LeafOnly(t.children, id) by {
        forall c | Occurs(c, t.children) && c.id == id ensures c.children == [] { assert Occurs(c, forest); }
      }
      RemoveLeafIds(t.children, id);
      WithoutMembers(Ids(t.children), id);
      var t' := t.(children := Remove(t.children, id));
      assert Remove(forest, id) == [t'] + Remove(rest, id);
      assert Remove(forest, id)[1..] == Remove(rest, id);
      if t.id != x {
        if x in Ids(t.children) {
          RemoveLeafKeepsOthers(t.children, id, x);
        } else {
          RemoveLeafKeepsOthers(rest, id, x);
        }
      }
    }
  }

  /** What `delete_category` decides. */
  datatype DeleteOutcome =
    | CategoryNotFound
    | Refused(prompts: nat, children: nat)   // the counts shown in the error message
    | Deleted

  /** The guard of `delete_category`: refuse while the category holds prompts or sub-categories. */
  function DeleteDecision(forest: seq<Category>, promptCategories: seq<Option<int>>, id: int): DeleteOutcome
  {
    match Find(forest, id)
    case None => CategoryNotFound
    case Some(c) =>
      var prompts := PromptCount(promptCategories, id);
      if prompts > 0 || |c.children| > 0 then Refused(prompts, |c.children|) else Deleted
  }

  /** The forest after the decision: only a deletion changes it. */
  function AfterDelete(forest: seq<Category>, promptCategories: seq<Option<int>>, id: int): seq<Category>
  {
    if DeleteDecision(forest, promptCategories, id) == Deleted then Remove(forest, id) else forest
  }

  /**
   * A deletion is refused, with the blocking counts, exactly when the category has
   * a prompt or a child; otherwise exactly its id disappears, ids stay unique and
   * every other category keeps its parent chain, its name and its description.
   */
  lemma DeleteDecisionFacts(forest: seq<Category>, promptCategories: seq<Option<int>>, id: int, x: int)
    requires WellFormed(forest)
    ensures DeleteDecision(forest, promptCategories, id) == CategoryNotFound <==> id !in Ids(forest)
    ensures DeleteDecision(forest, promptCategories, id).Refused? <==>
      id in Ids(forest) && (PromptCount(promptCategories, id) > 0 || |Find(forest, id).value.children| > 0)
    ensures DeleteDecision(forest, promptCategories, id).Refused? ==>
      DeleteDecision(forest, promptCategories, id) ==
        Refused(PromptCount(promptCategories, id), |Find(forest, id).value.children|)
    ensures DeleteDecision(forest, promptCategories, id) != Deleted ==>
      AfterDelete(forest, promptCategories, id) == forest
    ensures DeleteDecision(forest, promptCategories, id) == Deleted ==>
      var after := AfterDelete(forest, promptCategories, id);
      Ids(after) == Without(Ids(forest), id) && WellFormed(after) &&
      (x != id ==> Ancestors(after, x) == Ancestors(forest, x)) &&
      (x != id && x in Ids(forest) ==>
        Find(after, x).Some? &&
        Find(after, x).value.name == Find(forest, x).value.name &&
        Find(after, x).value.description == Find(forest, x).value.description)
  {
    if DeleteDecision(forest, promptCategories, id) == Deleted {
      var c := Find(forest, id).value;
      assert LeafOnly(forest, id) by {
        forall d | Occurs(d, forest) && d.id == id ensures d.children == [] {
          UniqueById(c, d, forest);
        }
      }
      RemoveLeafIds(forest, id);
      WithoutMembers(Ids(forest), id);
      if x != id {
        RemoveLeafKeepsAncestors(forest, id, x);
        if x in Ids(forest) {
          RemoveLeafKeepsOthers(forest, id, x);
        }
      }
    }
  }

  // ---------------------------------------------------------------------------
  // edit_category
  // ---------------------------------------------------------------------------

  /**
   * `new_parent_id and int(new_parent_id) != category.parent_id`: `newParent` is the
   * form field after `or None`, so an empty choice is `None`.
   */
  predicate ParentChangeAttempted(newParent: Option<int>, currentParent: Option<int>)
  {
    newParent.Some? && Some(newParent.value) != currentParent
  }

  /** The forest with the name and description of the category `id` replaced. */
  function Rename(forest: seq<Category>, id: int, name: string, description: string): seq<Category>
    decreases forest
  {
    if forest == [] then []
    else
      var t := forest[0];
      var t' := if t.id == id then t.(name := name, description := description) else t;
      [t'.(children := Rename(t.children, id, name, description))] + Rename(forest[1..], id, name, description)
  }

  /**
   * Renaming keeps every id and every parent chain; the category now has the new
   * texts, and every other category keeps its own.
   */
  lemma {:induction false} RenameFacts(forest: seq<Category>, id: int, name: string, description: string, x: int)
    ensures Ids(Rename(forest, id, name, description)) == Ids(forest)
    ensures Ancestors(Rename(forest, id, name, description), x) == Ancestors(forest, x)
    ensures id in Ids(forest) ==>
      var c := Find(Rename(forest, id, name, description), id).value;
      c.name == name && c.description == description
    ensures x in Ids(forest) && x != id ==>
      var c := Find(Rename(forest, id, name, description), x).value;
      c.name == Find(forest, x).value.name && c.description == Find(forest, x).value.description
  {
    RenameIds(forest, id, name, description);
    RenameAncestors(forest, id, name, description, x);
    if id in Ids(forest) {
      RenameFind(forest, id, name, description);
    }
    if x in Ids(forest) && x != id {
      RenameKeepsOthers(forest, id, name, description, x);
    }
  }

  lemma {:induction false} RenameIds(forest: seq<Category>, id: int, name: string, description: string)
    ensures Ids(Rename(forest, id, name, description)) == Ids(forest)
    decreases forest
  {
    if forest != [] {
      var r := Rename(forest, id, name, description);
      RenameIds(forest[0].children, id, name, description);
      RenameIds(forest[1..], id, name, description);
      assert r[0].id == forest[0].id && r[0].children == Rename(forest[0].children, id, name, description);
      assert r[1..] == Rename(forest[1..], id, name, description);
    }
  }

  lemma {:induction false} RenameAncestors(forest: seq<Category>, id: int, name: string, description: string, x: int)
    ensures Ancestors(Rename(forest, id, name, description), x) == Ancestors(forest, x)
    decreases forest
  {
    if forest != [] {
      var r := Rename(forest, id, name, description);
      RenameIds(forest[0].children, id, name, description);
      RenameAncestors(forest[0].children, id, name, description, x);
      RenameAncestors(forest[1..], id, name, description, x);
      assert r[0].id == forest[0].id && r[0].children == Rename(forest[0].children, id, name, description);
      assert r[1..] == Rename(forest[1..], id, name, description);
    }
  }

  lemma {:induction false} RenameFind(forest: seq<Category>, id: int, name: string, description: string)
    requires id in Ids(forest)
    ensures Find(Rename(forest, id, name, description), id).Some?
    ensures Find(Rename(forest, id, name, description), id).value.name == name
    ensures Find(Rename(forest, id, name, description), id).value.description == description
    decreases forest
  {
    var r := Rename(forest, id, name, description);
    RenameIds(forest, id, name, description);
    RenameIds(forest[0].children, id, name, description);
    assert r[0].id == forest[0].id && r[0].children == Rename(forest[0].children, id, name, description);
    assert r[1..] == Rename(forest[1..], id, name, description);
    if forest[0].id != id {
      if id in Ids(forest[0].children) {
        RenameFind(forest[0].children, id, name, description);
      } else {
        RenameFind(forest[1..], id, name, description);
      }
    }
  }

  /** Every category but the renamed one is found unchanged, up to its renamed subtree. */
  lemma {:induction false} RenameKeepsOthers(forest: seq<Category>, id: int, name: string, description: string, x: int)
    requires x in Ids(forest) && x != id
    ensures Find(Rename(forest, id, name, description), x) ==
      Some(Find(forest, x).value.(children := Rename(Find(forest, x).value.children, id, name, description)))
    decreases forest
  {
    var r := Rename(forest, id, name, description);
    RenameIds(forest[0].children, id, name, description);
    assert r[0].id == forest[0].id && r[0].children == Rename(forest[0].children, id, name, description);
    assert r[1..] == Rename(forest[1..], id, name, description);
    if forest[0].id != x {
      if x in Ids(forest[0].children) {
        RenameKeepsOthers(forest[0].children, id, name, description, x);
      } else {
        RenameKeepsOthers(forest[1..], id, name, description, x);
      }
    }
  }
}
