/**
 * The two helpers of utils.py: the upload-extension whitelist (`allowed_file`)
 * and tag normalisation (`clean_tags`).
 */
module Utils {
  import opened Text

  /** `ALLOWED_EXTENSIONS` of config.py. */
  const AllowedExtensions: set<string> := {"png", "jpg", "jpeg", "gif"}

  // ---------------------------------------------------------------------------
  // allowed_file
  // ---------------------------------------------------------------------------

  /** The index of the last `c` in `s`, or -1 when there is none. */
  function LastIndex(s: string, c: char): (i: int)
    ensures -1 <= i < |s|
    ensures i >= 0 ==> s[i] == c
    ensures forall k :: i < k < |s| ==> s[k] != c
  {
    if s == [] then -1
    else if s[|s| - 1] == c then |s| - 1
    else LastIndex(s[..|s| - 1], c)
  }

  /** `filename.rsplit('.', 1)[1]`: the text after the last dot. */
  function Extension(filename: string): string
    requires '.' in filename
  {
    filename[LastIndex(filename, '.') + 1..]
  }

  /** `allowed_file`: there is a dot, and the text after the last one, lower-cased, is whitelisted. */
  function AllowedFile(filename: string): bool
  {
    '.' in filename && Lower(Extension(filename)) in AllowedExtensions
  }

  /** A name without a dot is always refused. */
  lemma NoDotRefused(filename: string)
    requires '.' !in filename
    ensures !AllowedFile(filename)
  {
  }

  /** The dot at `i` is the start of a whitelisted extension with no further dot. */
  predicate WhitelistedAfterDot(filename: string, i: int)
  {
    0 <= i < |filename| && filename[i] == '.' && '.' !in filename[i + 1..] &&
    Lower(filename[i + 1..]) in AllowedExtensions
  }

  /**
   * A name is accepted exactly when some dot is followed by dot-free text that,
   * lower-cased, is one of png, jpg, jpeg, gif: only the final extension matters.
   */
  lemma AllowedFileIff(filename: string)
    ensures AllowedFile(filename) <==> exists i :: WhitelistedAfterDot(filename, i)
  {
    if AllowedFile(filename) {
      AllowedFileWitness(filename);
    }
    if exists i :: WhitelistedAfterDot(filename, i) {
      var i :| WhitelistedAfterDot(filename, i);
      OnlyDotAfter(filename, i);
    }
  }

  lemma AllowedFileWitness(filename: string)
    requires AllowedFile(filename)
    ensures WhitelistedAfterDot(filename, LastIndex(filename, '.'))
  {
    var i := LastIndex(filename, '.');
    var ext := filename[i + 1..];
    forall k | 0 <= k < |ext|
      ensures ext[k] != '.'
    {
      assert ext[k] == filename[i + 1 + k];
    }
  }

  /** A dot with no dot after it is the last dot. */
  lemma OnlyDotAfter(filename: string, j: int)
    requires 0 <= j < |filename| && filename[j] == '.' && '.' !in filename[j + 1..]
    ensures LastIndex(filename, '.') == j
  {
    var ext := filename[j + 1..];
    forall k | j < k < |filename| ensures filename[k] != '.' {
      assert filename[k] == ext[k - j - 1];
    }
    LastIndexAt(filename, '.', j);
  }

  lemma LastIndexAt(s: string, c: char, i: int)
    requires 0 <= i < |s| && s[i] == c
    requires forall k :: i < k < |s| ==> s[k] != c
    ensures LastIndex(s, c) == i
  {
  }

  /** Upper or lower case in the name makes no difference. */
  lemma AllowedFileIgnoresCase(filename: string)
    ensures AllowedFile(Lower(filename)) == AllowedFile(filename)
  {
    var low := Lower(filename);
    LowerKeepsNonLetters(filename, '.');
    if '.' in filename {
      var i := LastIndex(filename, '.');
      var j := LastIndex(low, '.');
      assert low[i] == '.';
      assert j == i;
      assert Lower(low[j + 1..]) == Lower(filename[i + 1..]) by {
        forall k | i + 1 <= k < |filename|
          ensures LowerChar(low[k]) == LowerChar(filename[k])
        {
          LowerCharFacts(filename[k]);
        }
      }
    }
  }

  /** The dotted extensions seen by `allowed_file`, on names used as examples. */
  lemma AllowedFileExamples()
    ensures !AllowedFile("a.png.exe")
    ensures AllowedFile("a.exe.PNG")
    ensures AllowedFile("photo.jpeg")
    ensures !AllowedFile("png")
  {
    LastIndexAt("a.png.exe", '.', 5);
    LastIndexAt("a.exe.PNG", '.', 5);
    LastIndexAt("photo.jpeg", '.', 5);
    assert Lower("PNG") == "png";
    assert Lower("jpeg") == "jpeg";
  }

  // ---------------------------------------------------------------------------
  // clean_tags
  // ---------------------------------------------------------------------------

  /** `tag.strip().lower()`. */
  function CleanTag(tag: string): string
  {
    Lower(Strip(tag))
  }

  /** Each field cleaned, in order. */
  function CleanFields(fields: seq<string>): (r: seq<string>)
    ensures |r| == |fields|
    ensures forall i :: 0 <= i < |fields| ==> r[i] == CleanTag(fields[i])
  {
    if fields == [] then [] else [CleanTag(fields[0])] + CleanFields(fields[1..])
  }

  /** `clean_tags`: split on commas, strip and lower-case each field, join with commas. */
  function CleanTags(tagString: string): string
  {
    Join(CleanFields(Split(tagString, ',')), ',')
  }

  /** A cleaned tag is stripped, lower case, and has a comma only if the tag had one. */
  lemma CleanTagFacts(tag: string)
    ensures IsStripped(CleanTag(tag)) && IsLower(CleanTag(tag))
    ensures ',' !in tag ==> ',' !in CleanTag(tag)
    ensures CleanTag(CleanTag(tag)) == CleanTag(tag)
  {
    var c := CleanTag(tag);
    LowerFacts(Strip(tag));
    if ',' !in tag {
      StripKeepsChars(tag, ',');
      LowerKeepsNonLetters(Strip(tag), ',');
    }
    StripStripped(c);
    LowerOfLower(c);
  }

  /**
   * Splitting the output on commas gives exactly the cleaned input fields:
   * same number, same order.
   */
  lemma {:induction false} CleanTagsFields(tagString: string)
    ensures Split(CleanTags(tagString), ',') == CleanFields(Split(tagString, ','))
  {
    var fields := Split(tagString, ',');
    SplitFieldsHaveNoSep(tagString, ',');
    forall i | 0 <= i < |fields| ensures ',' !in CleanFields(fields)[i] {
      CleanTagFacts(fields[i]);
    }
    SplitJoin(CleanFields(fields), ',');
  }

  /** Every field of the output is stripped and lower case, and there are as many as in the input. */
  lemma CleanTagsNormalises(tagString: string)
    ensures |Split(CleanTags(tagString), ',')| == |Split(tagString, ',')|
    ensures forall t :: t in Split(CleanTags(tagString), ',') ==> IsStripped(t) && IsLower(t)
  {
    CleanTagsFields(tagString);
    var fields := Split(tagString, ',');
    forall i | 0 <= i < |fields| ensures IsStripped(CleanFields(fields)[i]) && IsLower(CleanFields(fields)[i]) {
      CleanTagFacts(fields[i]);
    }
  }

  /** Cleaning twice is cleaning once. */
  lemma CleanTagsIdempotent(tagString: string)
    ensures CleanTags(CleanTags(tagString)) == CleanTags(tagString)
  {
    CleanTagsFields(tagString);
    var fields := Split(tagString, ',');
    forall i | 0 <= i < |fields| ensures CleanTag(CleanFields(fields)[i]) == CleanFields(fields)[i] {
      CleanTagFacts(fields[i]);
    }
    assert CleanFields(CleanFields(fields)) == CleanFields(fields);
  }

  /** Cleaning a join of comma-free fields cleans each field. */
  lemma CleanTagsOfJoin(fields: seq<string>)
    requires |fields| >= 1 && forall i :: 0 <= i < |fields| ==> ',' !in fields[i]
    ensures CleanTags(Join(fields, ',')) == Join(CleanFields(fields), ',')
  {
    SplitJoin(fields, ',');
  }

  /** Joining a field, an empty field and a field puts two separators between them. */
  lemma JoinEmptyMiddle(x: string, z: string, sep: char)
    ensures Join([x, "", z], sep) == x + [sep, sep] + z
  {
    assert [x, "", z][1..] == ["", z] && ["", z][1..] == [z];
    assert Join(["", z], sep) == [sep] + z;
    assert x + [sep] + ([sep] + z) == x + [sep, sep] + z;
  }

  lemma CleanTagOfEmpty()
    ensures CleanTag("") == ""
  {
    StripStripped("");
  }

  /** The empty tag string stays empty. */
  lemma CleanTagsOfEmpty()
    ensures CleanTags("") == ""
  {
    CleanTagOfEmpty();
    assert CleanFields([""]) == [""];
  }

  /**
   * Empty and repeated fields are kept: a field and an empty field and a field
   * that cleans to the same tag come out as that tag, an empty tag, and that tag again.
   */
  lemma CleanTagsKeepsEmptyAndRepeated(t: string, u: string)
    requires ',' !in t && ',' !in u && CleanTag(u) == CleanTag(t)
    ensures CleanTags(t + [',', ','] + u) == CleanTag(t) + [',', ','] + CleanTag(t)
  {
    calc {
      CleanTags(t + [',', ','] + u);
      { JoinEmptyMiddle(t, u, ','); }
      CleanTags(Join([t, "", u], ','));
      { CleanTagsOfJoin([t, "", u]); }
      Join(CleanFields([t, "", u]), ',');
      { CleanFieldsEmptyMiddle(t, u); }
      Join([CleanTag(t), "", CleanTag(t)], ',');
      { JoinEmptyMiddle(CleanTag(t), CleanTag(t), ','); }
      CleanTag(t) + [',', ','] + CleanTag(t);
    }
  }

  lemma CleanFieldsEmptyMiddle(t: string, u: string)
    requires CleanTag(u) == CleanTag(t)
    ensures CleanFields([t, "", u]) == [CleanTag(t), "", CleanTag(t)]
  {
    CleanTagOfEmpty();
    assert [t, "", u][1..] == ["", u] && ["", u][1..] == [u] && [u][1..] == [];
  }
}
