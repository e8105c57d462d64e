/**
 * The Python string primitives the validation helpers use: `str.lower()` on ASCII letters,
 * `str.strip()` with Python's whitespace set, `str.split(sep)` with a one-character separator,
 * and the tag regular expression `^[a-z]+$` as `re.match` reads it.
 */
module Text {

  /** `str.isspace()` for one character: the characters `str.strip()` removes. */
  predicate IsSpace(c: char) {
    var n := c as int;
    || (0x09 <= n <= 0x0D) || (0x1C <= n <= 0x20) || n == 0x85 || n == 0xA0 || n == 0x1680
    || (0x2000 <= n <= 0x200A) || n == 0x2028 || n == 0x2029 || n == 0x202F || n == 0x205F
    || n == 0x3000
  }

  function LowerChar(c: char): char {
    if 'A' <= c <= 'Z' then (c as int + 32) as char else c
  }

  /** `str.lower()`, restricted to the ASCII letters. */
  function Lower(s: string): (r: string)
    ensures |r| == |s|
    ensures forall i {:trigger r[i]} :: 0 <= i < |s| ==> r[i] == LowerChar(s[i])
  {
    seq(|s|, i requires 0 <= i < |s| => LowerChar(s[i]))
  }

  /** Lower-casing twice is lower-casing once. */
  lemma LowerIdempotent(s: string)
    ensures Lower(Lower(s)) == Lower(s)
  {
    var once := Lower(s);
    assert forall i :: 0 <= i < |s| ==> Lower(once)[i] == once[i];
  }

  /** Lower-casing commutes with taking a suffix. */
  lemma LowerSuffix(s: string, k: nat)
    requires k <= |s|
    ensures Lower(s)[k..] == Lower(s[k..])
  {
    assert forall i :: 0 <= i < |s| - k ==> Lower(s)[k..][i] == Lower(s[k..])[i];
  }

  /** Leading whitespace removed: the result is a suffix of `s`. */
  function TrimStart(s: string): (r: string)
    ensures |r| <= |s| && r == s[|s| - |r|..]
    ensures r == [] || !IsSpace(r[0])
    ensures forall i :: 0 <= i < |s| - |r| ==> IsSpace(s[i])
    decreases |s|
  {
    if s != [] && IsSpace(s[0]) then TrimStart(s[1..]) else s
  }

  /** Trailing whitespace removed: the result is a prefix of `s`. */
  function TrimEnd(s: string): (r: string)
    ensures |r| <= |s| && r == s[..|r|]
    ensures r == [] || !IsSpace(r[|r| - 1])
    ensures forall i :: |r| <= i < |s| ==> IsSpace(s[i])
    decreases |s|
  {
    if s != [] && IsSpace(s[|s| - 1]) then TrimEnd(s[..|s| - 1]) else s
  }

  /** `str.strip()`: an infix of `s` that neither starts nor ends with whitespace. */
  function Strip(s: string): (r: string)
    ensures |r| <= |s|
    ensures r == [] || (!IsSpace(r[0]) && !IsSpace(r[|r| - 1]))
    ensures (forall i :: 0 <= i < |s| ==> !IsSpace(s[i])) ==> r == s
  {
    TrimEnd(TrimStart(s))
  }

  /** One or more lower-case ASCII letters, nothing else. */
  predicate IsLowerWord(s: string) {
    |s| > 0 && forall i :: 0 <= i < |s| ==> 'a' <= s[i] <= 'z'
  }

  /**
   * `re.match(r'^[a-z]+$', s)`: `re.match` anchors at the start, and `$` matches at the end
   * of the string or just before a newline that ends it.
   */
  predicate MatchesTagPattern(s: string) {
    || IsLowerWord(s)
    || (|s| >= 2 && s[|s| - 1] == '\n' && IsLowerWord(s[..|s| - 1]))
  }

  /** On a stripped token the newline allowance of `$` never applies. */
  lemma StrippedTagPattern(s: string)
    requires s == [] || !IsSpace(s[|s| - 1])
    ensures MatchesTagPattern(s) <==> IsLowerWord(s)
  {
  }

  /** `sub` occurs in `s` as a contiguous piece (`s like '%' || sub || '%'` without wildcards). */
  predicate Contains(s: string, sub: string)
    decreases |s|
  {
    sub <= s || (|s| > 0 && Contains(s[1..], sub))
  }

  /** `s.split(sep)`: the pieces between separators, always at least one (possibly empty). */
  function Split(s: string, sep: char): (parts: seq<string>)
    ensures |parts| >= 1
    ensures forall i :: 0 <= i < |parts| ==> sep !in parts[i]
    decreases |s|
  {
    if s == [] then [[]]
    else
      var rest := Split(s[1..], sep);
      if s[0] == sep then [[]] + rest else [[s[0]] + rest[0]] + rest[1..]
  }

  /** `sep.join(parts)`. */
  function Join(parts: seq<string>, sep: char): string
    requires |parts| >= 1
    decreases |parts|
  {
    if |parts| == 1 then parts[0] else parts[0] + [sep] + Join(parts[1..], sep)
  }

  /** Splitting loses nothing: joining the pieces back gives the input. */
  lemma {:induction false} JoinSplit(s: string, sep: char)
    ensures Join(Split(s, sep), sep) == s
    decreases |s|
  {
    if s != [] {
      var rest := Split(s[1..], sep);
      JoinSplit(s[1..], sep);
      if s[0] != sep {
        if |rest| == 1 {
          assert Split(s, sep) == [[s[0]] + rest[0]];
        } else {
          assert Split(s, sep)[1..] == rest[1..];
        }
      }
    }
  }

  /** Splitting a string that starts with `c`: a new piece if `c` is the separator, else `c` joins the first piece. */
  lemma SplitCons(c: char, s: string, sep: char)
    ensures var rest := Split(s, sep);
      Split([c] + s, sep) == if c == sep then [[]] + rest else [[c] + rest[0]] + rest[1..]
  {
    assert ([c] + s)[1..] == s;
  }

  /** Joining pieces whose first one is non-empty starts with that piece's first character. */
  lemma JoinHead(parts: seq<string>, sep: char)
    requires |parts| >= 1 && |parts[0]| > 0
    ensures Join(parts, sep) == [parts[0][0]] + Join([parts[0][1..]] + parts[1..], sep)
  {
    var tail := [parts[0][1..]] + parts[1..];
    if |parts| == 1 {
      assert parts[0] == [parts[0][0]] + parts[0][1..];
    } else {
      assert tail[1..] == parts[1..];
      assert parts[0] == [parts[0][0]] + parts[0][1..];
    }
  }

  /** Splitting inverts joining when no piece holds the separator. */
  lemma {:induction false} SplitJoin(parts: seq<string>, sep: char)
    requires |parts| >= 1
    requires forall i :: 0 <= i < |parts| ==> sep !in parts[i]
    ensures Split(Join(parts, sep), sep) == parts
    decreases |parts|, |parts[0]|
  {
    var head := parts[0];
    if |head| > 0 {
      var tail := [head[1..]] + parts[1..];
      JoinHead(parts, sep);
      SplitJoin(tail, sep);
      assert head[0] != sep by { assert head[0] in head; }
      SplitCons(head[0], Join(tail, sep), sep);
      assert [head[0]] + head[1..] == head;
      assert parts == [head] + parts[1..];
    } else if |parts| > 1 {
      SplitJoin(parts[1..], sep);
      assert Join(parts, sep) == [sep] + Join(parts[1..], sep);
      SplitCons(sep, Join(parts[1..], sep), sep);
      assert parts == [[]] + parts[1..];
    }
  }

  /** There is one piece more than there are separators. */
  lemma {:induction false} SplitCount(s: string, sep: char)
    ensures |Split(s, sep)| == multiset(s)[sep] + 1
    decreases |s|
  {
    if s != [] {
      SplitCount(s[1..], sep);
      assert s == [s[0]] + s[1..];
    }
  }

  /** The last piece is the text after the last separator. */
  lemma {:induction false} SplitLast(s: string, sep: char, i: nat)
    requires i < |s| && s[i] == sep && sep !in s[i + 1..]
    ensures Split(s, sep)[|Split(s, sep)| - 1] == s[i + 1..]
    decreases |s|
  {
    var rest := Split(s[1..], sep);
    if i == 0 {
      NoSeparatorSplit(s[1..], sep);
    } else {
      assert s[1..][i - 1 + 1..] == s[i + 1..];
      SplitLast(s[1..], sep, i - 1);
      SplitCount(s[1..], sep);
      assert s[1..][i - 1] == sep;
      assert sep in s[1..];
      assert |rest| >= 2;
    }
  }

  /** Without a separator, the whole string is the only piece. */
  lemma {:induction false} NoSeparatorSplit(s: string, sep: char)
    requires sep !in s
    ensures Split(s, sep) == [s]
    decreases |s|
  {
    if s != [] {
      NoSeparatorSplit(s[1..], sep);
      assert s == [s[0]] + s[1..];
    }
  }
}
