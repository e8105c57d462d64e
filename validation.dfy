/**
 * The pure input checks of the upload and search forms: the file-name extension test and the
 * tag-string parser (app/app.py, `get_extension`, `is_filename_image`, `parse_tags_string`).
 */
module Validation {
  import opened Wrappers
  import opened Seqs
  import opened Text

  /** Index of the last '.' in `s`. */
  function LastDot(s: string): (r: nat)
    requires '.' in s
    ensures r < |s| && s[r] == '.' && '.' !in s[r + 1..]
    decreases |s|
  {
    if s[|s| - 1] == '.' then |s| - 1
    else
      assert '.' in s[..|s| - 1] by {
        var k :| 0 <= k < |s| && s[k] == '.';
        assert s[..|s| - 1][k] == '.';
      }
      var r := LastDot(s[..|s| - 1]);
      assert s[r + 1..] == s[..|s| - 1][r + 1..] + [s[|s| - 1]];
      r
  }

  /** A '.' after which no other '.' follows is the last one. */
  lemma LastDotUnique(s: string, k: nat)
    requires k < |s| && s[k] == '.' && '.' !in s[k + 1..]
    ensures LastDot(s) == k
  {
  }

  /** `get_extension`: the lower-cased text after the last '.' of the name, if any. */
  function GetExtension(filename: string): Option<string> {
    if '.' !in filename then None
    else
      var parts := Split(filename, '.');
      if |parts| < 2 then None
      else Some(Lower(parts[|parts| - 1]))
  }

  /** `is_filename_image`: the extension is one of jpg, jpeg, png. */
  predicate IsFilenameImage(filename: string) {
    var extension := GetExtension(filename);
    extension.Some? && extension.value in ["jpg", "jpeg", "png"]
  }

  /**
   * No '.' means no extension; otherwise the extension is the lower-cased text after the
   * last '.', which itself holds no '.'.
   */
  lemma GetExtensionSpec(filename: string)
    ensures GetExtension(filename).None? <==> '.' !in filename
    ensures '.' in filename ==>
      && GetExtension(filename) == Some(Lower(filename[LastDot(filename) + 1..]))
      && '.' !in GetExtension(filename).value
  {
    if '.' in filename {
      var i := LastDot(filename);
      SplitLast(filename, '.', i);
      SplitCount(filename, '.');
      assert filename[i] in filename;
      assert multiset(filename)['.'] >= 1;
      var parts := Split(filename, '.');
      assert |parts| >= 2;
      LowerKeepsDots(filename[i + 1..]);
    }
  }

  /** Lower-casing keeps every '.' where it was and adds none. */
  lemma LowerKeepsDots(s: string)
    ensures forall k :: 0 <= k < |s| ==> (Lower(s)[k] == '.' <==> s[k] == '.')
    ensures '.' in Lower(s) <==> '.' in s
  {
    var low := Lower(s);
    if '.' in s {
      var k :| 0 <= k < |s| && s[k] == '.';
      assert low[k] == '.';
    }
    if '.' in low {
      var k :| 0 <= k < |low| && low[k] == '.';
      assert s[k] == '.';
    }
  }

  /** The image test ignores letter case: a name and its lower-cased form agree. */
  lemma IsFilenameImageCaseInsensitive(filename: string)
    ensures IsFilenameImage(Lower(filename)) == IsFilenameImage(filename)
  {
    ExtensionOfLower(filename);
  }

  /** Lower-casing a name does not change its extension. */
  lemma ExtensionOfLower(filename: string)
    ensures GetExtension(Lower(filename)) == GetExtension(filename)
  {
    if '.' in filename {
      DottedExtensionOfLower(filename);
    } else {
      LowerKeepsDots(filename);
      GetExtensionSpec(filename);
      GetExtensionSpec(Lower(filename));
    }
  }

  /** With a '.', both extensions are the lower-cased text after the same last '.'. */
  lemma DottedExtensionOfLower(filename: string)
    requires '.' in filename
    ensures GetExtension(Lower(filename)) == GetExtension(filename)
  {
    var low := Lower(filename);
    var i := LastDot(filename);
    var ext := Lower(filename[i + 1..]);
    assert GetExtension(filename) == Some(ext) by {
      GetExtensionSpec(filename);
    }
    assert '.' in low && LastDot(low) == i by {
      LastDotOfLower(filename);
    }
    assert GetExtension(low) == Some(Lower(low[i + 1..])) by {
      GetExtensionSpec(low);
    }
    assert Lower(low[i + 1..]) == ext by {
      LowerSuffix(filename, i + 1);
      LowerIdempotent(filename[i + 1..]);
    }
  }

  /** The last '.' of a lower-cased name is where it was. */
  lemma LastDotOfLower(filename: string)
    requires '.' in filename
    ensures '.' in Lower(filename) && LastDot(Lower(filename)) == LastDot(filename)
  {
    var i := LastDot(filename);
    LowerKeepsDots(filename);
    LowerSuffix(filename, i + 1);
    LowerKeepsDots(filename[i + 1..]);
    LastDotUnique(Lower(filename), i);
  }

  /** `x.lower().strip()`: a token that neither starts nor ends with whitespace. */
  function NormalizeToken(token: string): (t: string)
    ensures t == [] || !IsSpace(t[|t| - 1])
  {
    Strip(Lower(token))
  }

  /** `map(lambda x: x.lower().strip(), tags_string.split(' '))`. */
  function NormalizedTokens(tagsString: string): (tokens: seq<string>)
    ensures |tokens| >= 1
    ensures tagsString == "" ==> tokens == [""]
  {
    MapSeq(Split(tagsString, ' '), NormalizeToken)
  }

  /**
   * `parse_tags_string`: the distinct normalized tokens, or None as soon as one of them is
   * not matched by `^[a-z]+$`. Python builds the list from a set, so its order is not
   * defined; the model keeps first occurrences in input order.
   */
  function ParseTagsString(tagsString: string): Option<seq<string>> {
    var labels := Distinct(NormalizedTokens(tagsString));
    if forall t | t in labels :: MatchesTagPattern(t) then Some(labels) else None
  }

  /** Every normalized token is stripped, so the regular expression accepts exactly the words. */
  lemma TokensMatchIffWords(tagsString: string)
    ensures forall t :: t in NormalizedTokens(tagsString) ==> (MatchesTagPattern(t) <==> IsLowerWord(t))
  {
    var pieces := Split(tagsString, ' ');
    var tokens := NormalizedTokens(tagsString);
    forall t | t in tokens
      ensures MatchesTagPattern(t) <==> IsLowerWord(t)
    {
      var j :| 0 <= j < |tokens| && tokens[j] == t;
      assert t == NormalizeToken(pieces[j]);
      StrippedTagPattern(t);
    }
  }

  /**
   * All or nothing: the parse fails iff some token (the empty one of a double, leading or
   * trailing space included) is not a lower-case word.
   */
  lemma ParseFailsIff(tagsString: string)
    ensures ParseTagsString(tagsString).None? <==>
      exists t :: t in NormalizedTokens(tagsString) && !IsLowerWord(t)
  {
    TokensMatchIffWords(tagsString);
  }

  /**
   * A successful parse yields every normalized token exactly once, at least one of them,
   * and nothing but lower-case words.
   */
  lemma ParseSucceeds(tagsString: string)
    requires ParseTagsString(tagsString).Some?
    ensures
      var labels := ParseTagsString(tagsString).value;
      && |labels| >= 1
      && NoDuplicates(labels)
      && (forall t :: t in labels ==> IsLowerWord(t))
      && (forall t :: t in labels <==> t in NormalizedTokens(tagsString))
  {
    var tokens := NormalizedTokens(tagsString);
    TokensMatchIffWords(tagsString);
    assert tokens[0] in Distinct(tokens);
  }
}
