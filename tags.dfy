/**
 * The tag column as the route handlers read it: every comma-separated field of
 * every prompt's `tags`, stripped, and the sorted tag list of the sidebar
 * (`index` and `view` in routes/prompt_routes.py).
 */
module Tags {
  import opened Wrappers
  import opened Text

  /** Each field stripped, in order. */
  function StripAll(fields: seq<string>): (r: seq<string>)
    ensures |r| == |fields|
    ensures forall i :: 0 <= i < |fields| ==> r[i] == Strip(fields[i])
  {
    seq(|fields|, i requires 0 <= i < |fields| => Strip(fields[i]))
  }

  /** `tag.strip() for p in rows for tag in (p.tags or '').split(',')`. */
  function FieldTokens(rows: seq<Option<string>>): seq<string>
  {
    if rows == [] then []
    else StripAll(Split(rows[0].GetOr(""), ',')) + FieldTokens(rows[1..])
  }

  /** The number of comma-separated fields over all rows. */
  function FieldCount(rows: seq<Option<string>>): nat
  {
    if rows == [] then 0
    else |Split(rows[0].GetOr(""), ',')| + FieldCount(rows[1..])
  }

  /**
   * A token is exactly a stripped field of some row, a null row counting as the
   * empty string; there is one token per field.
   */
  lemma {:induction false} FieldTokensExactly(rows: seq<Option<string>>, t: string)
    ensures |FieldTokens(rows)| == FieldCount(rows)
    ensures t in FieldTokens(rows) <==>
      exists i, f :: 0 <= i < |rows| && f in Split(rows[i].GetOr(""), ',') && t == Strip(f)
  {
    if rows != [] {
      FieldTokensExactly(rows[1..], t);
      var head := StripAll(Split(rows[0].GetOr(""), ','));
      if t in head {
        var k :| 0 <= k < |head| && head[k] == t;
        assert Split(rows[0].GetOr(""), ',')[k] in Split(rows[0].GetOr(""), ',');
      }
      if exists i, f :: 0 <= i < |rows| && f in Split(rows[i].GetOr(""), ',') && t == Strip(f) {
        var i, f :| 0 <= i < |rows| && f in Split(rows[i].GetOr(""), ',') && t == Strip(f);
        if i == 0 {
          var k :| 0 <= k < |Split(rows[0].GetOr(""), ',')| && Split(rows[0].GetOr(""), ',')[k] == f;
          assert head[k] == t;
        } else {
          assert rows[1..][i - 1] == rows[i];
        }
      }
    }
  }

  // ---------------------------------------------------------------------------
  // Python's ordering of strings, and sorted(set(...))
  // ---------------------------------------------------------------------------

  /** `a < b` on Python strings: code point by code point, a proper prefix first. */
  predicate Less(a: string, b: string)
  {
    if a == [] then b != []
    else if b == [] then false
    else if a[0] != b[0] then a[0] < b[0]
    else Less(a[1..], b[1..])
  }

  lemma {:induction false} LessTotal(a: string, b: string)
    ensures a == b || Less(a, b) || Less(b, a)
    ensures !(Less(a, b) && Less(b, a))
  {
    if a != [] && b != [] && a[0] == b[0] {
      LessTotal(a[1..], b[1..]);
      if a[1..] == b[1..] {
        assert a == [a[0]] + a[1..] && b == [b[0]] + b[1..];
      }
    }
  }

  lemma {:induction false} LessTransitive(a: string, b: string, c: string)
    requires Less(a, b) && Less(b, c)
    ensures Less(a, c)
  {
    if a != [] && a[0] == b[0] && b[0] == c[0] {
      LessTransitive(a[1..], b[1..], c[1..]);
    }
  }

  /** Strictly increasing: sorted and without duplicates, as a sorted set is. */
  predicate StrictlySorted(s: seq<string>)
  {
    forall i, j :: 0 <= i < j < |s| ==> Less(s[i], s[j])
  }

  /** Insertion of `x` into a strictly sorted list, keeping it a set. */
  function Insert(x: string, s: seq<string>): seq<string>
  {
    if s == [] then [x]
    else if x == s[0] then s
    else if Less(x, s[0]) then [x] + s
    else [s[0]] + Insert(x, s[1..])
  }

  lemma {:induction false} InsertFacts(x: string, s: seq<string>)
    requires StrictlySorted(s)
    ensures StrictlySorted(Insert(x, s))
    ensures forall y :: y in Insert(x, s) <==> y == x || y in s
  {
    if s != [] && x != s[0] && !Less(x, s[0]) {
      InsertFacts(x, s[1..]);
      LessTotal(x, s[0]);
      var r := Insert(x, s);
      forall j | 0 < j < |r| ensures Less(r[0], r[j]) {
        if r[j] == x {
        } else {
          assert r[j] in s[1..];
          var k :| 0 <= k < |s[1..]| && s[1..][k] == r[j];
          assert s[k + 1] == r[j];
        }
      }
    } else if s != [] && Less(x, s[0]) {
      forall j | 0 <= j < |s| ensures Less(x, s[j]) {
        if j > 0 {
          LessTransitive(x, s[0], s[j]);
        }
      }
    }
  }

  /** `sorted(set(tokens))`. */
  function SortedSet(tokens: seq<string>): seq<string>
  {
    if tokens == [] then [] else Insert(tokens[0], SortedSet(tokens[1..]))
  }

  /** The result is strictly increasing and holds exactly the tokens. */
  lemma {:induction false} SortedSetFacts(tokens: seq<string>)
    ensures StrictlySorted(SortedSet(tokens))
    ensures forall y :: y in SortedSet(tokens) <==> y in tokens
  {
    if tokens != [] {
      SortedSetFacts(tokens[1..]);
      InsertFacts(tokens[0], SortedSet(tokens[1..]));
      assert tokens == [tokens[0]] + tokens[1..];
    }
  }

  /** The `tags` list handed to the sidebar template: `sorted(all_tags)`. */
  function SidebarTags(rows: seq<Option<string>>): seq<string>
  {
    SortedSet(FieldTokens(rows))
  }

  /**
   * The sidebar lists, in increasing order and once each, exactly the stripped
   * fields of all prompts' tags; a prompt without tags contributes the empty tag.
   */
  lemma SidebarTagsExactly(rows: seq<Option<string>>, t: string)
    ensures StrictlySorted(SidebarTags(rows))
    ensures t in SidebarTags(rows) <==>
      exists i, f :: 0 <= i < |rows| && f in Split(rows[i].GetOr(""), ',') && t == Strip(f)
  {
    SortedSetFacts(FieldTokens(rows));
    FieldTokensExactly(rows, t);
  }
}
