/**
 * The parent choices offered when a category is edited (`edit_category`,
 * routes/prompt_routes.py): a "no category" entry, then a depth-first walk of
 * the forest that indents each name by its depth and leaves out the edited
 * category together with everything below it.
 */
module ParentOptions {
  import opened Wrappers
  import opened CategoryTree

  /** One `(value, label)` pair of the select control; the empty value is `None`. */
  datatype Choice = Choice(value: Option<int>, caption: string)

  /** `('', '-- Aucune catégorie --')`. */
  const NoParentChoice: Choice := Choice(None, "-- Aucune catégorie --")

  /** `"　" * level`: `level` ideographic spaces (U+3000). */
  function Indent(level: nat): (r: string)
    ensures |r| == level && forall i :: 0 <= i < level ==> r[i] == '\U{3000}'
  {
    seq(level, _ => '\U{3000}')
  }

  /** `cat.id == category.id or category.is_ancestor_of(cat)`. */
  predicate Excluded(edited: Category, id: int)
  {
    id == edited.id || IsAncestorOf(edited, id)
  }

  /** What `add_valid_options(categories, level)` appends. */
  function ValidOptions(edited: Category, categories: seq<Category>, level: nat): seq<Choice>
    decreases categories
  {
    if categories == [] then []
    else
      var cat := categories[0];
      (if Excluded(edited, cat.id) then []
       else [Choice(Some(cat.id), Indent(level) + cat.name)] + ValidOptions(edited, cat.children, level + 1))
      + ValidOptions(edited, categories[1..], level)
  }

  lemma {:induction false} ValidOptionsAppend(edited: Category, a: seq<Category>, b: seq<Category>, level: nat)
    ensures ValidOptions(edited, a + b, level) == ValidOptions(edited, a, level) + ValidOptions(edited, b, level)
  {
    if a == [] {
      assert a + b == b;
    } else {
      assert (a + b)[0] == a[0] && (a + b)[1..] == a[1..] + b;
      ValidOptionsAppend(edited, a[1..], b, level);
    }
  }

  /**
   * `add_valid_options`: for each category in turn, unless it is the edited one or
   * lies below it, append its indented name and walk its children one level deeper.
   */
  method AddValidOptions(edited: Category, categories: seq<Category>, level: nat, options: seq<Choice>)
    returns (result: seq<Choice>)
    ensures result == options + ValidOptions(edited, categories, level)
    decreases categories
  {
    result := options;
    var i := 0;
    while i < |categories|
      invariant 0 <= i <= |categories|
      invariant result == options + ValidOptions(edited, categories[..i], level)
    {
      var cat := categories[i];
      ValidOptionsAppend(edited, categories[..i], [cat], level);
      assert categories[..i + 1] == categories[..i] + [cat];
      assert [cat][1..] == [];
      if cat.id != edited.id && !IsAncestorOf(edited, cat.id) {
        result := result + [Choice(Some(cat.id), Indent(level) + cat.name)];
        result := AddValidOptions(edited, cat.children, level + 1, result);
      }
      i := i + 1;
    }
    assert categories[..|categories|] == categories;
  }

  /** The option list built for the edit form from the root categories. */
  method ParentChoices(roots: seq<Category>, edited: Category) returns (options: seq<Choice>)
    ensures options == [NoParentChoice] + ValidOptions(edited, roots, 0)
  {
    options := [NoParentChoice];
    options := AddValidOptions(edited, roots, 0, options);
  }

  // ---------------------------------------------------------------------------
  // Reference: the whole forest in pre-order, then filtered
  // ---------------------------------------------------------------------------

  /** A category with its depth below the roots. */
  datatype Row = Row(id: int, name: string, depth: nat)

  /** Every category, depth-first, each parent before its children, `depth` for the given level. */
  function Flatten(forest: seq<Category>, depth: nat): seq<Row>
    decreases forest
  {
    if forest == [] then []
    else [Row(forest[0].id, forest[0].name, depth)] + Flatten(forest[0].children, depth + 1) + Flatten(forest[1..], depth)
  }

  /** The rows that are not excluded, in order. */
  function Visible(edited: Category, rows: seq<Row>): seq<Row>
  {
    if rows == [] then []
    else (if Excluded(edited, rows[0].id) then [] else [rows[0]]) + Visible(edited, rows[1..])
  }

  /** The choice for a row: its id, and its name indented by its depth. */
  function Labels(rows: seq<Row>): (r: seq<Choice>)
    ensures |r| == |rows|
    ensures forall i :: 0 <= i < |rows| ==> r[i] == Choice(Some(rows[i].id), Indent(rows[i].depth) + rows[i].name)
  {
    seq(|rows|, i requires 0 <= i < |rows| => Choice(Some(rows[i].id), Indent(rows[i].depth) + rows[i].name))
  }

  lemma {:induction false} VisibleAppend(edited: Category, a: seq<Row>, b: seq<Row>)
    ensures Visible(edited, a + b) == Visible(edited, a) + Visible(edited, b)
  {
    if a == [] {
      assert a + b == b;
    } else {
      assert (a + b)[0] == a[0] && (a + b)[1..] == a[1..] + b;
      VisibleAppend(edited, a[1..], b);
    }
  }

  /** The flattened forest lists exactly the ids of the forest, in the same order. */
  lemma {:induction false} FlattenIds(forest: seq<Category>, depth: nat)
    ensures |Flatten(forest, depth)| == |Ids(forest)|
    ensures forall i :: 0 <= i < |Ids(forest)| ==> Flatten(forest, depth)[i].id == Ids(forest)[i]
    decreases forest
  {
    if forest != [] {
      FlattenIds(forest[0].children, depth + 1);
      FlattenIds(forest[1..], depth);
    }
  }

  /** The depth of a row is the length of its category's parent chain. */
  lemma {:induction false} FlattenDepth(forest: seq<Category>, depth: nat, r: Row)
    requires WellFormed(forest) && r in Flatten(forest, depth)
    ensures r.depth == depth + |Ancestors(forest, r.id)|
    decreases forest
  {
    var t, rest := forest[0], forest[1..];
    WellFormedParts(forest);
    var head := [Row(t.id, t.name, depth)];
    assert Flatten(forest, depth) == head + Flatten(t.children, depth + 1) + Flatten(rest, depth);
    if r in Flatten(t.children, depth + 1) {
      FlattenDepth(t.children, depth + 1, r);
      RowIdInForest(t.children, depth + 1, r);
    } else if r in Flatten(rest, depth) {
      FlattenDepth(rest, depth, r);
      RowIdInForest(rest, depth, r);
    }
  }

  lemma RowIdInForest(forest: seq<Category>, depth: nat, r: Row)
    requires r in Flatten(forest, depth)
    ensures r.id in Ids(forest)
  {
    FlattenIds(forest, depth);
    var i :| 0 <= i < |Flatten(forest, depth)| && Flatten(forest, depth)[i] == r;
    assert Ids(forest)[i] == r.id;
  }

  /** Whatever is excluded has everything below it excluded too. */
  ghost predicate ExclusionClosed(edited: Category, forest: seq<Category>)
  {
    forall c :: Occurs(c, forest) && Excluded(edited, c.id) ==>
      forall y :: y in Ids(c.children) ==> Excluded(edited, y)
  }

  /** With unique ids, the categories the walk excludes are closed under going down. */
  lemma ClosedWhenWellFormed(edited: Category, forest: seq<Category>)
    requires WellFormed(forest) && Occurs(edited, forest)
    ensures ExclusionClosed(edited, forest)
  {
    forall c | Occurs(c, forest) && Excluded(edited, c.id)
      ensures forall y :: y in Ids(c.children) ==> Excluded(edited, y)
    {
      if c.id == edited.id {
        UniqueById(c, edited, forest);
      } else {
        IdHasCategory(edited.children, c.id);
        var m :| Occurs(m, edited.children) && m.id == c.id;
        OccursTransitive(m, edited, forest);
        UniqueById(m, c, forest);
        OccursIds(m, edited.children);
      }
    }
  }

  /** The closure property passes to the children of the first category and to the rest. */
  lemma ExclusionClosedParts(edited: Category, forest: seq<Category>)
    requires forest != [] && ExclusionClosed(edited, forest)
    ensures ExclusionClosed(edited, forest[0].children) && ExclusionClosed(edited, forest[1..])
  {
    forall c | Occurs(c, forest[0].children) ensures Occurs(c, forest) { }
    forall c | Occurs(c, forest[1..]) ensures Occurs(c, forest) { }
  }

  lemma {:induction false} PrunedWalk(edited: Category, forest: seq<Category>, level: nat)
    requires ExclusionClosed(edited, forest)
    ensures ValidOptions(edited, forest, level) == Labels(Visible(edited, Flatten(forest, level)))
    decreases forest
  {
    if forest != [] {
      ExclusionClosedParts(edited, forest);
      PrunedWalk(edited, forest[1..], level);
      if Excluded(edited, forest[0].id) {
        PrunedAtExcluded(edited, forest, level);
      } else {
        PrunedWalk(edited, forest[0].children, level + 1);
        PrunedAtShown(edited, forest, level);
      }
    }
  }

  /** An excluded first category contributes nothing, and neither does its subtree. */
  lemma PrunedAtExcluded(edited: Category, forest: seq<Category>, level: nat)
    requires forest != [] && Excluded(edited, forest[0].id) && ExclusionClosed(edited, forest)
    requires ValidOptions(edited, forest[1..], level) == Labels(Visible(edited, Flatten(forest[1..], level)))
    ensures ValidOptions(edited, forest, level) == Labels(Visible(edited, Flatten(forest, level)))
  {
    VisibleFirst(edited, forest, level);
    assert Occurs(forest[0], forest);
    AllExcluded(edited, Flatten(forest[0].children, level + 1), forest[0].children, level + 1);
  }

  /** A shown first category contributes its label, then its subtree's, then the rest's. */
  lemma PrunedAtShown(edited: Category, forest: seq<Category>, level: nat)
    requires forest != [] && !Excluded(edited, forest[0].id)
    requires ValidOptions(edited, forest[1..], level) == Labels(Visible(edited, Flatten(forest[1..], level)))
    requires ValidOptions(edited, forest[0].children, level + 1) ==
      Labels(Visible(edited, Flatten(forest[0].children, level + 1)))
    ensures ValidOptions(edited, forest, level) == Labels(Visible(edited, Flatten(forest, level)))
  {
    var t := forest[0];
    var head := [Row(t.id, t.name, level)];
    var below := Visible(edited, Flatten(t.children, level + 1));
    var after := Visible(edited, Flatten(forest[1..], level));
    VisibleFirst(edited, forest, level);
    assert Visible(edited, Flatten(forest, level)) == head + below + after;
    var c := Choice(Some(t.id), Indent(level) + t.name);
    assert Labels(head) == [c] by {
      assert Labels(head)[0] == c;
    }
    LabelsAppend(head + below, after);
    LabelsAppend(head, below);
    assert ValidOptions(edited, forest, level) ==
      [c] + ValidOptions(edited, t.children, level + 1) + ValidOptions(edited, forest[1..], level);
  }

  /** The visible rows of a non-empty forest: its first category's row if shown, its subtree's, then the rest's. */
  lemma VisibleFirst(edited: Category, forest: seq<Category>, level: nat)
    requires forest != []
    ensures Visible(edited, Flatten(forest, level)) ==
      (if Excluded(edited, forest[0].id) then [] else [Row(forest[0].id, forest[0].name, level)])
      + Visible(edited, Flatten(forest[0].children, level + 1))
      + Visible(edited, Flatten(forest[1..], level))
  {
    var head := [Row(forest[0].id, forest[0].name, level)];
    var below := Flatten(forest[0].children, level + 1);
    var after := Flatten(forest[1..], level);
    assert Flatten(forest, level) == head + below + after;
    VisibleAppend(edited, head + below, after);
    VisibleAppend(edited, head, below);
  }

  lemma AllExcluded(edited: Category, rows: seq<Row>, forest: seq<Category>, depth: nat)
    requires rows == Flatten(forest, depth)
    requires forall y :: y in Ids(forest) ==> Excluded(edited, y)
    ensures Visible(edited, rows) == []
  {
    FlattenIds(forest, depth);
    NoneVisible(edited, rows);
  }

  lemma {:induction false} NoneVisible(edited: Category, rows: seq<Row>)
    requires forall i :: 0 <= i < |rows| ==> Excluded(edited, rows[i].id)
    ensures Visible(edited, rows) == []
  {
    if rows != [] {
      NoneVisible(edited, rows[1..]);
    }
  }

  lemma LabelsAppend(a: seq<Row>, b: seq<Row>)
    ensures Labels(a + b) == Labels(a) + Labels(b)
  {
  }

  /**
   * The choices after "no category" are the forest in depth-first pre-order with
   * the edited category and everything below it left out, each labelled with its
   * name indented by its depth; pruning at an excluded category loses nothing else.
   */
  lemma ParentChoicesArePrunedPreorder(roots: seq<Category>, edited: Category)
    requires WellFormed(roots) && Occurs(edited, roots)
    ensures ValidOptions(edited, roots, 0) == Labels(Visible(edited, Flatten(roots, 0)))
  {
    ClosedWhenWellFormed(edited, roots);
    PrunedWalk(edited, roots, 0);
  }

  /** No choice is the edited category or one of its descendants. */
  lemma {:induction false} ValidOptionsExclude(edited: Category, categories: seq<Category>, level: nat, ch: Choice)
    requires ch in ValidOptions(edited, categories, level)
    ensures ch.value.Some? && ch.value.value != edited.id && !IsAncestorOf(edited, ch.value.value)
    decreases categories
  {
    var cat := categories[0];
    if ch in ValidOptions(edited, categories[1..], level) {
      ValidOptionsExclude(edited, categories[1..], level, ch);
    } else if ch in ValidOptions(edited, cat.children, level + 1) && !Excluded(edited, cat.id) {
      ValidOptionsExclude(edited, cat.children, level + 1, ch);
    }
  }

  /**
   * Whatever the edit form offers, submitting it never asks to move the category
   * into itself or below itself, and the "-- Aucune catégorie --" entry never asks
   * for a move at all.
   */
  lemma SubmittedParentNeverInSubtree(roots: seq<Category>, edited: Category, ch: Choice, current: Option<int>)
    requires ch in [NoParentChoice] + ValidOptions(edited, roots, 0)
    ensures ch == NoParentChoice ==> !ParentChangeAttempted(ch.value, current)
    ensures ParentChangeAttempted(ch.value, current) ==>
      ch.value.value != edited.id && !IsAncestorOf(edited, ch.value.value)
  {
    if ch != NoParentChoice {
      ValidOptionsExclude(edited, roots, 0, ch);
    }
  }

  /**
   * Each row's depth is its number of ancestors, so a label is as many U+3000 as
   * the category has ancestors, then its name.
   */
  lemma LabelDepth(roots: seq<Category>, r: Row)
    requires WellFormed(roots) && r in Flatten(roots, 0)
    ensures Labels([r])[0].caption == Indent(|Ancestors(roots, r.id)|) + r.name
  {
    FlattenDepth(roots, 0, r);
  }
}
