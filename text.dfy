/**
 * String helpers with the semantics of the JavaScript built-ins the crawler
 * calls: `startsWith`, `endsWith`, `slice`, `split` on a one-character
 * separator, and the regular expression `/\.\w+$/`.
 */
module Text {

  /** `s.startsWith(p)`. */
  predicate StartsWith<T(==)>(s: seq<T>, p: seq<T>)
  {
    |p| <= |s| && s[..|p|] == p
  }

  /** `s.endsWith(p)`. */
  predicate EndsWith<T(==)>(s: seq<T>, p: seq<T>)
  {
    |p| <= |s| && s[|s| - |p|..] == p
  }

  /** `s.slice(n)` for a non-negative `n`: empty when `n` is past the end. */
  function SliceFrom<T>(s: seq<T>, n: nat): (r: seq<T>)
    ensures n <= |s| ==> s == s[..n] + r
    ensures n >= |s| ==> r == []
  {
    if n <= |s| then s[n..] else []
  }

  /**
   * `s.split(c)` for a one-character separator: the maximal pieces between
   * occurrences of `c`, so "a//b" gives ["a", "", "b"] and "" gives [""].
   */
  function Split(s: string, c: char): (parts: seq<string>)
    ensures |parts| >= 1
    ensures forall k :: 0 <= k < |parts| ==> c !in parts[k]
    decreases |s|
  {
    if |s| == 0 then [""]
    else
      var rest := Split(s[1..], c);
      if s[0] == c then [""] + rest
      else [[s[0]] + rest[0]] + rest[1..]
  }

  /** `parts.join(c)`: the inverse of `Split`. */
  function Join(parts: seq<string>, c: char): string
    requires |parts| >= 1
    decreases |parts|
  {
    if |parts| == 1 then parts[0] else parts[0] + [c] + Join(parts[1..], c)
  }

  /** `s.split(c)[0]`: the text before the first `c`. */
  function BeforeFirst(s: string, c: char): string
  {
    Split(s, c)[0]
  }

  /** `parts[parts.length - 1]` of `s.split(c)`: the text after the last `c`. */
  function AfterLast(s: string, c: char): string
  {
    var parts := Split(s, c);
    parts[|parts| - 1]
  }

  /** Joining the pieces of a split gives back the original string. */
  lemma {:induction false} JoinSplit(s: string, c: char)
    ensures Join(Split(s, c), c) == s
    decreases |s|
  {
    if |s| > 0 {
      var rest := Split(s[1..], c);
      JoinSplit(s[1..], c);
      if s[0] == c {
        assert ([""] + rest)[1..] == rest;
      } else if |rest| == 1 {
        assert [s[0]] + rest[0] == s;
      } else {
        var parts := [[s[0]] + rest[0]] + rest[1..];
        assert parts[1..] == rest[1..];
        assert Join(rest, c) == rest[0] + [c] + Join(rest[1..], c);
        assert Join(parts, c) == [s[0]] + Join(rest, c);
        assert [s[0]] + s[1..] == s;
      }
    }
  }

  /** Splitting a string that starts with a separator-free prefix `a`. */
  lemma {:induction false} SplitPrefix(a: string, t: string, c: char)
    requires c !in a
    ensures Split(a + t, c) == [a + Split(t, c)[0]] + Split(t, c)[1..]
    decreases |a|
  {
    if |a| > 0 {
      SplitPrefix(a[1..], t, c);
      assert (a + t)[1..] == a[1..] + t;
      assert (a + t)[0] == a[0];
      assert [a[0]] + (a[1..] + Split(t, c)[0]) == a + Split(t, c)[0];
    } else {
      assert a + t == t;
      assert a + Split(t, c)[0] == Split(t, c)[0];
      assert Split(t, c) == [Split(t, c)[0]] + Split(t, c)[1..];
    }
  }

  /** Splitting at the first separator, when `a` holds none. */
  lemma SplitAtFirst(a: string, c: char, b: string)
    requires c !in a
    ensures Split(a + [c] + b, c) == [a] + Split(b, c)
  {
    SplitPrefix(a, [c] + b, c);
    assert ([c] + b)[1..] == b;
    assert Split([c] + b, c) == [""] + Split(b, c);
    assert a + [c] + b == a + ([c] + b);
    assert a + "" == a;
  }

  /** A string without the separator is a single piece. */
  lemma SplitWithout(a: string, c: char)
    requires c !in a
    ensures Split(a, c) == [a]
  {
    SplitPrefix(a, "", c);
    assert a + "" == a;
  }

  /** The text before the first `c` when `a` holds no `c`. */
  lemma BeforeFirstOf(a: string, c: char, b: string)
    requires c !in a
    ensures BeforeFirst(a + [c] + b, c) == a
    ensures BeforeFirst(a, c) == a
  {
    SplitAtFirst(a, c, b);
    SplitWithout(a, c);
  }

  /** The text before the first `c` is a prefix without `c`. */
  lemma BeforeFirstIsPrefix(s: string, c: char)
    ensures StartsWith(s, BeforeFirst(s, c)) && c !in BeforeFirst(s, c)
    ensures c in s ==> StartsWith(s, BeforeFirst(s, c) + [c])
  {
    var parts := Split(s, c);
    JoinSplit(s, c);
    if |parts| > 1 {
      assert Join(parts, c) == parts[0] + ([c] + Join(parts[1..], c));
      assert s[..|parts[0]| + 1] == parts[0] + [c];
    }
  }

  /** The text after the last `c` is a suffix without `c`. */
  lemma {:induction false} AfterLastIsSuffix(s: string, c: char)
    ensures EndsWith(s, AfterLast(s, c)) && c !in AfterLast(s, c)
    decreases |s|
  {
    var parts := Split(s, c);
    if c in s {
      SplitAtSeparator(s, c);
      JoinSplit(s, c);
      var a, b := parts[0], Join(parts[1..], c);
      assert s == a + [c] + b;
      SplitAtFirst(a, c, b);
      AfterLastIsSuffix(b, c);
      var r := AfterLast(b, c);
      assert s[|s| - |r|..] == b[|b| - |r|..];
    } else {
      SplitWithout(s, c);
    }
  }

  /** A string that contains the separator splits into at least two pieces. */
  lemma SplitAtSeparator(s: string, c: char)
    requires c in s
    ensures |Split(s, c)| >= 2
  {
    JoinSplit(s, c);
  }

  /** The text after the last `c` when `b` holds no `c`. */
  lemma {:induction false} AfterLastOf(a: string, c: char, b: string)
    requires c !in b
    ensures AfterLast(a + [c] + b, c) == b
    decreases |a|
  {
    var s := a + [c] + b;
    if |a| == 0 {
      assert s == [c] + b;
      assert s[1..] == b;
      SplitPrefix(b, "", c);
      assert b + "" == b;
    } else {
      assert s[1..] == a[1..] + [c] + b;
      AfterLastOf(a[1..], c, b);
      assert s[|a|] == c;
      assert s[1..][|a| - 1] == c;
      SplitAtSeparator(s[1..], c);
    }
  }

  /** A word character of regular expressions: `\w`, that is `[A-Za-z0-9_]`. */
  predicate IsWordChar(ch: char)
  {
    ('a' <= ch <= 'z') || ('A' <= ch <= 'Z') || ('0' <= ch <= '9') || ch == '_'
  }

  /**
   * The regular expression `/\.\w+$/` tests true: the string ends in a dot
   * followed by one or more word characters.
   */
  predicate HasExtension(s: string)
  {
    exists j :: 0 <= j < |s| - 1 && s[j] == '.' && forall m :: j < m < |s| ==> IsWordChar(s[m])
  }

  /** Appending a dot and a non-empty run of word characters gives an extension. */
  lemma ExtensionOfSuffix(s: string, ext: string)
    requires |ext| >= 1
    requires forall m :: 0 <= m < |ext| ==> IsWordChar(ext[m])
    ensures HasExtension(s + "." + ext)
  {
    var t := s + "." + ext;
    assert t[|s|] == '.';
    forall m | |s| < m < |t| ensures IsWordChar(t[m]) {
      assert t[m] == ext[m - |s| - 1];
    }
  }

  /** ASCII lower-casing: the case folding of a case-insensitive regular expression on ASCII letters. */
  function Lower(ch: char): char
  {
    if 'A' <= ch <= 'Z' then (ch as int + 32) as char else ch
  }

  /** `a` equals `b` up to the case of ASCII letters. */
  predicate EqualsIgnoringCase(a: string, b: string)
  {
    |a| == |b| && forall i :: 0 <= i < |a| ==> Lower(a[i]) == Lower(b[i])
  }
}
