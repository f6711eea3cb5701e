/**
 * The LoRA and tag usage statistics of `statistiques` (routes/prompt_routes.py):
 * a `Counter` over tokens, ordered by `sorted(..., key=count, reverse=True)`.
 */
module Statistics {
  import opened Wrappers
  import opened Text
  import opened Tags

  /** One `(key, count)` item of a counter. */
  datatype Entry = Entry(key: string, count: nat)

  function Keys(es: seq<Entry>): (r: seq<string>)
    ensures |r| == |es|
    ensures forall i :: 0 <= i < |es| ==> r[i] == es[i].key
  {
    if es == [] then [] else [es[0].key] + Keys(es[1..])
  }

  predicate DistinctKeys(es: seq<Entry>)
  {
    forall i, j :: 0 <= i < j < |es| ==> es[i].key != es[j].key
  }

  /** The sum of the counts. */
  function Total(es: seq<Entry>): nat
  {
    if es == [] then 0 else es[0].count + Total(es[1..])
  }

  /** The position of the first `k` in `s`. */
  function FirstIndex(s: seq<string>, k: string): (r: nat)
    requires k in s
    ensures r < |s| && s[r] == k && k !in s[..r]
  {
    if s[0] == k then 0
    else
      var r := 1 + FirstIndex(s[1..], k);
      assert s[..r] == [s[0]] + s[1..][..r - 1];
      r
  }

  // ---------------------------------------------------------------------------
  // Counter
  // ---------------------------------------------------------------------------

  /** Counting one more `k`: its entry goes up by one, or a new entry is appended. */
  function Bump(es: seq<Entry>, k: string): seq<Entry>
  {
    if es == [] then [Entry(k, 1)]
    else if es[0].key == k then [Entry(k, es[0].count + 1)] + es[1..]
    else [es[0]] + Bump(es[1..], k)
  }

  /** The keys after a bump: unchanged when `k` was counted already, `k` appended otherwise. */
  lemma {:induction false} BumpKeys(es: seq<Entry>, k: string)
    ensures k in Keys(es) ==> Keys(Bump(es, k)) == Keys(es)
    ensures k !in Keys(es) ==> Keys(Bump(es, k)) == Keys(es) + [k]
  {
    if es != [] {
      var b := Bump(es, k);
      if es[0].key == k {
        assert b[0].key == k && b[1..] == es[1..];
      } else {
        BumpKeys(es[1..], k);
        assert b[0] == es[0] && b[1..] == Bump(es[1..], k);
      }
    }
  }

  /** The counts after a bump: `k`'s count goes up by one, or a new entry counts it once. */
  lemma {:induction false} BumpCounts(es: seq<Entry>, k: string)
    requires DistinctKeys(es)
    ensures |Bump(es, k)| >= |es|
    ensures forall i :: 0 <= i < |es| ==>
      Bump(es, k)[i].count == es[i].count + (if es[i].key == k then 1 else 0)
    ensures Total(Bump(es, k)) == Total(es) + 1
  {
    if es != [] {
      BumpCounts(es[1..], k);
      if es[0].key == k {
        assert Bump(es, k)[1..] == es[1..];
      } else {
        assert Bump(es, k)[1..] == Bump(es[1..], k);
      }
    }
  }

  /** `Counter(tokens).items()`: one entry per distinct token, in first-appearance order. */
  function Tally(tokens: seq<string>): seq<Entry>
  {
    if tokens == [] then [] else Bump(Tally(tokens[..|tokens| - 1]), tokens[|tokens| - 1])
  }

  /** The counter's keys are distinct and are exactly the tokens. */
  lemma {:induction false} TallyKeys(tokens: seq<string>)
    ensures DistinctKeys(Tally(tokens))
    ensures forall k :: k in Keys(Tally(tokens)) <==> k in tokens
  {
    if tokens != [] {
      var init, x := tokens[..|tokens| - 1], tokens[|tokens| - 1];
      assert tokens == init + [x];
      TallyKeys(init);
      var before := Tally(init);
      BumpKeys(before, x);
      var after := Tally(tokens);
      assert after == Bump(before, x);
      forall i, j | 0 <= i < j < |after| ensures after[i].key != after[j].key {
        assert Keys(after)[i] == after[i].key && Keys(after)[j] == after[j].key;
        if j < |before| {
          assert Keys(before)[i] == after[i].key && Keys(before)[j] == after[j].key;
        }
      }
    }
  }

  /** Bumping `k` in a counter of `m` gives a counter of `m` with one more `k`. */
  lemma {:induction false} BumpCountsOccurrences(es: seq<Entry>, k: string, m: multiset<string>)
    requires DistinctKeys(es)
    requires forall i :: 0 <= i < |es| ==> es[i].count == m[es[i].key]
    requires k !in Keys(es) ==> m[k] == 0
    ensures forall i :: 0 <= i < |Bump(es, k)| ==> Bump(es, k)[i].count == (m + multiset{k})[Bump(es, k)[i].key]
  {
    var b := Bump(es, k);
    if es != [] && es[0].key != k {
      assert Keys(es) == [es[0].key] + Keys(es[1..]);
      BumpCountsOccurrences(es[1..], k, m);
      assert b[1..] == Bump(es[1..], k);
      forall i | 0 < i < |b| ensures b[i].count == (m + multiset{k})[b[i].key] {
        assert b[i] == Bump(es[1..], k)[i - 1];
      }
    } else if es != [] {
      forall i | 0 < i < |b| ensures b[i].count == (m + multiset{k})[b[i].key] {
        assert b[i] == es[i] && es[i].key != k;
      }
    }
  }

  /**
   * The counter has one entry per distinct token, each counting that token's
   * occurrences, and the counts add up to the number of tokens.
   */
  lemma {:induction false} TallyCounts(tokens: seq<string>)
    ensures DistinctKeys(Tally(tokens))
    ensures forall k :: k in Keys(Tally(tokens)) <==> k in tokens
    ensures forall i :: 0 <= i < |Tally(tokens)| ==>
      Tally(tokens)[i].count == multiset(tokens)[Tally(tokens)[i].key]
    ensures Total(Tally(tokens)) == |tokens|
  {
    TallyKeys(tokens);
    if tokens != [] {
      var init, x := tokens[..|tokens| - 1], tokens[|tokens| - 1];
      assert tokens == init + [x];
      TallyCounts(init);
      BumpCountsOccurrences(Tally(init), x, multiset(init));
      BumpCounts(Tally(init), x);
    }
  }

  /** Entries come in the order in which their tokens first appear. */
  lemma {:induction false} TallyFirstAppearance(tokens: seq<string>, i: nat, j: nat)
    requires i < j < |Tally(tokens)|
    ensures Tally(tokens)[i].key in tokens && Tally(tokens)[j].key in tokens
    ensures FirstIndex(tokens, Tally(tokens)[i].key) < FirstIndex(tokens, Tally(tokens)[j].key)
  {
    var init, x := tokens[..|tokens| - 1], tokens[|tokens| - 1];
    assert tokens == init + [x];
    var before, after := Tally(init), Tally(tokens);
    TallyKeys(init);
    BumpKeys(before, x);
    var a, b := Keys(after)[i], Keys(after)[j];
    assert Keys(before)[i] == a;
    if j < |before| {
      assert Keys(before)[j] == b;
      TallyFirstAppearance(init, i, j);
      FirstIndexOfPrefix(init, x, a);
      FirstIndexOfPrefix(init, x, b);
    } else {
      assert b == x && x !in init;
      FirstIndexOfPrefix(init, x, a);
      assert tokens[..|init|] == init;
      assert FirstIndex(tokens, x) == |init|;
    }
  }

  lemma FirstIndexOfPrefix(init: seq<string>, x: string, k: string)
    requires k in init
    ensures FirstIndex(init + [x], k) == FirstIndex(init, k)
  {
    var s := init + [x];
    var r, q := FirstIndex(s, k), FirstIndex(init, k);
    assert s[q] == k;
  }

  // ---------------------------------------------------------------------------
  // sorted(items, key=lambda x: x[1], reverse=True)
  // ---------------------------------------------------------------------------

  /** Counts never increase along the list. */
  predicate ByCountDescending(es: seq<Entry>)
  {
    forall i, j :: 0 <= i < j < |es| ==> es[i].count >= es[j].count
  }

  /** The entries with count `c`, in order. */
  function WithCount(es: seq<Entry>, c: nat): seq<Entry>
  {
    if es == [] then []
    else (if es[0].count == c then [es[0]] else []) + WithCount(es[1..], c)
  }

  /** Places `e` before every entry whose count is not larger than its own. */
  function InsertByCount(e: Entry, sorted: seq<Entry>): seq<Entry>
  {
    if sorted == [] || sorted[0].count <= e.count then [e] + sorted
    else [sorted[0]] + InsertByCount(e, sorted[1..])
  }

  /** Python's stable sort by count, largest first. */
  function SortByCount(es: seq<Entry>): seq<Entry>
  {
    if es == [] then [] else InsertByCount(es[0], SortByCount(es[1..]))
  }

  lemma {:induction false} InsertByCountSorted(e: Entry, s: seq<Entry>)
    requires ByCountDescending(s)
    ensures ByCountDescending(InsertByCount(e, s))
    ensures |InsertByCount(e, s)| == |s| + 1
    ensures InsertByCount(e, s)[0] == e || (s != [] && InsertByCount(e, s)[0] == s[0])
  {
    if s != [] && s[0].count > e.count {
      InsertByCountSorted(e, s[1..]);
      var rest := InsertByCount(e, s[1..]);
      var r := [s[0]] + rest;
      assert r == InsertByCount(e, s);
      assert rest[0].count <= s[0].count;
      forall i, j | 0 <= i < j < |r| ensures r[i].count >= r[j].count {
        assert r[j] == rest[j - 1];
        if i > 0 {
          assert r[i] == rest[i - 1];
        }
      }
    }
  }

  lemma {:induction false} InsertByCountPermutes(e: Entry, s: seq<Entry>)
    ensures multiset(InsertByCount(e, s)) == multiset(s) + multiset{e}
  {
    if s != [] && s[0].count > e.count {
      InsertByCountPermutes(e, s[1..]);
      assert s == [s[0]] + s[1..];
    }
  }

  lemma {:induction false} InsertByCountStable(e: Entry, s: seq<Entry>, c: nat)
    ensures WithCount(InsertByCount(e, s), c) == WithCount([e] + s, c)
  {
    if s != [] && s[0].count > e.count {
      InsertByCountStable(e, s[1..], c);
      var rest := InsertByCount(e, s[1..]);
      assert ([s[0]] + rest)[1..] == rest;
      assert ([e] + s)[1..] == s;
      assert ([e] + s[1..])[1..] == s[1..];
    }
  }

  lemma {:induction false} InsertByCountTotal(e: Entry, s: seq<Entry>)
    ensures Total(InsertByCount(e, s)) == e.count + Total(s)
  {
    if s != [] && s[0].count > e.count {
      InsertByCountTotal(e, s[1..]);
      assert ([s[0]] + InsertByCount(e, s[1..]))[1..] == InsertByCount(e, s[1..]);
    } else {
      assert ([e] + s)[1..] == s;
    }
  }

  /**
   * The sort orders by count, largest first, keeps the entries (a permutation),
   * and is stable: among equal counts the input order is kept.
   */
  lemma {:induction false} SortByCountFacts(es: seq<Entry>)
    ensures ByCountDescending(SortByCount(es))
    ensures multiset(SortByCount(es)) == multiset(es)
    ensures forall c :: WithCount(SortByCount(es), c) == WithCount(es, c)
    ensures Total(SortByCount(es)) == Total(es)
  {
    if es != [] {
      SortByCountFacts(es[1..]);
      InsertByCountSorted(es[0], SortByCount(es[1..]));
      InsertByCountPermutes(es[0], SortByCount(es[1..]));
      InsertByCountTotal(es[0], SortByCount(es[1..]));
      assert es == [es[0]] + es[1..];
      forall c ensures WithCount(SortByCount(es), c) == WithCount(es, c) {
        InsertByCountStable(es[0], SortByCount(es[1..]), c);
        assert ([es[0]] + SortByCount(es[1..]))[1..] == SortByCount(es[1..]);
      }
    }
  }

  lemma {:induction false} InsertByCountKeys(e: Entry, s: seq<Entry>)
    ensures forall k :: k in Keys(InsertByCount(e, s)) <==> k == e.key || k in Keys(s)
    ensures DistinctKeys(s) && e.key !in Keys(s) ==> DistinctKeys(InsertByCount(e, s))
  {
    var r := InsertByCount(e, s);
    if s == [] || s[0].count <= e.count {
      assert Keys(r) == [e.key] + Keys(s);
    } else {
      InsertByCountKeys(e, s[1..]);
      var rest := InsertByCount(e, s[1..]);
      assert Keys(r) == [s[0].key] + Keys(rest);
      assert Keys(s) == [s[0].key] + Keys(s[1..]);
      if DistinctKeys(s) && e.key !in Keys(s) {
        assert s[0].key !in Keys(s[1..]);
        forall i, j | 0 <= i < j < |r| ensures r[i].key != r[j].key {
          assert Keys(r)[i] == r[i].key && Keys(r)[j] == r[j].key;
          if i == 0 {
            assert r[j].key == Keys(rest)[j - 1];
          } else {
            assert r[i] == rest[i - 1] && r[j] == rest[j - 1];
          }
        }
      }
    }
  }

  /** The sort keeps the keys, so distinct keys stay distinct. */
  lemma {:induction false} SortByCountKeys(es: seq<Entry>)
    requires DistinctKeys(es)
    ensures DistinctKeys(SortByCount(es))
    ensures forall k :: k in Keys(SortByCount(es)) <==> k in Keys(es)
  {
    if es != [] {
      assert DistinctKeys(es[1..]) by {
        forall i, j | 0 <= i < j < |es[1..]| ensures es[1..][i].key != es[1..][j].key {
          assert es[1..][i] == es[i + 1] && es[1..][j] == es[j + 1];
        }
      }
      SortByCountKeys(es[1..]);
      InsertByCountKeys(es[0], SortByCount(es[1..]));
      assert Keys(es) == [es[0].key] + Keys(es[1..]);
      assert es[0].key !in Keys(es[1..]);
    }
  }

  /** Counter items sorted by count, largest first, ties in first-appearance order. */
  function CountStats(tokens: seq<string>): seq<Entry>
  {
    SortByCount(Tally(tokens))
  }

  /**
   * The statistics list: one entry per distinct token, counting its occurrences,
   * counts adding up to the number of tokens, largest count first, and among equal
   * counts the entries in the order the counter produced them.
   */
  lemma CountStatsFacts(tokens: seq<string>)
    ensures DistinctKeys(CountStats(tokens))
    ensures forall k :: k in Keys(CountStats(tokens)) <==> k in tokens
    ensures forall e :: e in CountStats(tokens) ==> e.count == multiset(tokens)[e.key]
    ensures Total(CountStats(tokens)) == |tokens|
    ensures ByCountDescending(CountStats(tokens))
    ensures forall c :: WithCount(CountStats(tokens), c) == WithCount(Tally(tokens), c)
  {
    TallyCounts(tokens);
    SortByCountFacts(Tally(tokens));
    SortByCountKeys(Tally(tokens));
    forall e | e in CountStats(tokens) ensures e.count == multiset(tokens)[e.key] {
      assert e in multiset(Tally(tokens));
    }
  }

  // ---------------------------------------------------------------------------
  // The two statistics of the page
  // ---------------------------------------------------------------------------

  /** `str(loras)`: a null column reads as the text "None". */
  function LoraText(loras: Option<string>): string
  {
    match loras
    case None => "None"
    case Some(s) => s
  }

  /** `lora.strip()` for each field, kept when non-empty and not "None". */
  function LoraFields(fields: seq<string>): seq<string>
  {
    if fields == [] then []
    else
      var t := Strip(fields[0]);
      (if t != "" && t != "None" then [t] else []) + LoraFields(fields[1..])
  }

  /** The tokens fed to the LoRA counter, row after row. */
  function LoraTokens(rows: seq<Option<string>>): seq<string>
  {
    if rows == [] then [] else LoraFields(Split(LoraText(rows[0]), ',')) + LoraTokens(rows[1..])
  }

  /**
   * A LoRA token is exactly a stripped field of some row's text that is neither
   * empty nor "None".
   */
  lemma {:induction false} LoraTokensExactly(rows: seq<Option<string>>, t: string)
    ensures t in LoraTokens(rows) <==>
      t != "" && t != "None" &&
      exists i, f :: 0 <= i < |rows| && f in Split(LoraText(rows[i]), ',') && t == Strip(f)
  {
    if rows != [] {
      LoraTokensExactly(rows[1..], t);
      var fields := Split(LoraText(rows[0]), ',');
      LoraFieldsExactly(fields, t);
      if exists i, f :: 0 <= i < |rows| && f in Split(LoraText(rows[i]), ',') && t == Strip(f) {
        var i, f :| 0 <= i < |rows| && f in Split(LoraText(rows[i]), ',') && t == Strip(f);
        if i > 0 {
          assert rows[1..][i - 1] == rows[i];
        }
      }
    }
  }

  lemma {:induction false} LoraFieldsExactly(fields: seq<string>, t: string)
    ensures t in LoraFields(fields) <==> t != "" && t != "None" && exists f :: f in fields && t == Strip(f)
  {
    if fields != [] {
      LoraFieldsExactly(fields[1..], t);
      assert fields == [fields[0]] + fields[1..];
    }
  }

  /** `loras` of the page: the LoRA counter sorted by count. */
  function LoraStats(rows: seq<Option<string>>): seq<Entry>
  {
    CountStats(LoraTokens(rows))
  }

  /**
   * Every LoRA key is a stripped, non-empty name other than "None" taken from some
   * row, and every such name has an entry; each count is the name's number of
   * occurrences; counts never increase along the list.
   */
  lemma LoraStatsFacts(rows: seq<Option<string>>, e: Entry)
    requires e in LoraStats(rows)
    ensures IsStripped(e.key) && e.key != "" && e.key != "None"
    ensures exists i, f :: 0 <= i < |rows| && f in Split(LoraText(rows[i]), ',') && e.key == Strip(f)
    ensures e.count == multiset(LoraTokens(rows))[e.key] && e.count >= 1
    ensures ByCountDescending(LoraStats(rows)) && DistinctKeys(LoraStats(rows))
  {
    var tokens := LoraTokens(rows);
    CountStatsFacts(tokens);
    var k :| 0 <= k < |LoraStats(rows)| && LoraStats(rows)[k] == e;
    assert Keys(LoraStats(rows))[k] == e.key;
    LoraTokensExactly(rows, e.key);
  }

  /** Every name that passes the filter has an entry. */
  lemma LoraStatsComplete(rows: seq<Option<string>>, t: string)
    requires t != "" && t != "None"
    requires exists i, f :: 0 <= i < |rows| && f in Split(LoraText(rows[i]), ',') && t == Strip(f)
    ensures t in Keys(LoraStats(rows))
  {
    LoraTokensExactly(rows, t);
    CountStatsFacts(LoraTokens(rows));
  }

  /** `list_tags` of the page: the counter of all stripped tag fields sorted by count. */
  function TagStats(rows: seq<Option<string>>): seq<Entry>
    requires forall i :: 0 <= i < |rows| ==> rows[i].Some?
  {
    CountStats(FieldTokens(rows))
  }

  /**
   * Empty fields are counted too: the tag counts add up to the number of
   * comma-separated fields over all prompts, and every stripped field has an entry.
   */
  lemma TagStatsFacts(rows: seq<Option<string>>, t: string)
    requires forall i :: 0 <= i < |rows| ==> rows[i].Some?
    ensures Total(TagStats(rows)) == FieldCount(rows)
    ensures t in Keys(TagStats(rows)) <==>
      exists i, f :: 0 <= i < |rows| && f in Split(rows[i].value, ',') && t == Strip(f)
    ensures ByCountDescending(TagStats(rows)) && DistinctKeys(TagStats(rows))
  {
    CountStatsFacts(FieldTokens(rows));
    FieldTokensExactly(rows, t);
    assert forall i :: 0 <= i < |rows| ==> rows[i].GetOr("") == rows[i].value;
  }
}
