/** The parts of Python's `pathlib` and `str` that the augmenter relies on:
    a path as a sequence of components, the final component's stem and
    suffix (the `0 < i < len(name) - 1` rule of `PurePath.suffix`), and
    lower-casing of a suffix. */
module Paths {

  /** A filesystem path as its sequence of components; `a / b` is `a + b`. */
  type Path = seq<string>

  /** The parent of a path (`Path.parent`): every component but the last. */
  function Parent(p: Path): (r: Path)
    requires |p| > 0
    ensures r + [p[|p| - 1]] == p
  {
    p[..|p| - 1]
  }

  /** Lower-casing of one character, ASCII letters only. */
  function LowerChar(c: char): char
  {
    if 'A' <= c <= 'Z' then (c as int + ('a' as int - 'A' as int)) as char else c
  }

  /** `s.lower()` restricted to ASCII letters. */
  function Lower(s: string): (r: string)
    ensures |r| == |s|
    ensures forall i :: 0 <= i < |s| ==> r[i] == LowerChar(s[i])
  {
    if s == [] then [] else [LowerChar(s[0])] + Lower(s[1..])
  }

  lemma LowerIdempotent(s: string)
    ensures Lower(Lower(s)) == Lower(s)
  {
  }

  /** Lower-casing never creates or removes a dot. */
  lemma LowerCharDot(c: char)
    ensures LowerChar(c) == '.' <==> c == '.'
  {
  }

  /** `s.rfind(c)`: the last index of `c` in `s`, or -1 when there is none. */
  function LastIndexOf(s: string, c: char): (i: int)
    ensures -1 <= i < |s|
    ensures i >= 0 ==> s[i] == c
    ensures forall k :: i < k < |s| ==> s[k] != c
  {
    if s == [] then -1
    else if s[|s| - 1] == c then |s| - 1
    else LastIndexOf(s[..|s| - 1], c)
  }

  /** The three properties of `LastIndexOf` determine it. */
  lemma LastIndexOfUnique(s: string, c: char, i: int)
    requires -1 <= i < |s|
    requires i >= 0 ==> s[i] == c
    requires forall k :: i < k < |s| ==> s[k] != c
    ensures LastIndexOf(s, c) == i
  {
  }

  /** `True` when the last dot of `name` makes a suffix, the rule shared by
      `PurePath.suffix` and `PurePath.stem`. */
  predicate HasSuffix(name: string)
  {
    0 < LastIndexOf(name, '.') < |name| - 1
  }

  /** `PurePath.suffix`: from the last dot on, provided that dot is neither
      the first nor the last character; otherwise empty. */
  function Suffix(name: string): (r: string)
    ensures r == "" <==> !HasSuffix(name)
    ensures r != "" ==> 2 <= |r| <= |name| && r[0] == '.' && r == name[|name| - |r|..]
    ensures forall k :: 0 < k < |r| ==> r[k] != '.'
  {
    var i := LastIndexOf(name, '.');
    if 0 < i < |name| - 1 then name[i..] else ""
  }

  /** `PurePath.stem`: the name without its suffix. */
  function Stem(name: string): (r: string)
    ensures r + Suffix(name) == name
    ensures HasSuffix(name) ==> |r| > 0
  {
    var i := LastIndexOf(name, '.');
    if 0 < i < |name| - 1 then name[..i] else name
  }

  /** The suffix of a lower-cased name is the lower-cased suffix, so a
      suffix test on `Lower(Suffix(name))` only sees the name up to case. */
  lemma SuffixOfLower(name: string)
    ensures Suffix(Lower(name)) == Lower(Suffix(name))
  {
    var i := LastIndexOf(name, '.');
    var ln := Lower(name);
    forall k | 0 <= k < |ln| ensures ln[k] == '.' <==> name[k] == '.' {
      LowerCharDot(name[k]);
    }
    LastIndexOfUnique(ln, '.', i);
    if 0 < i < |name| - 1 {
      assert Lower(name[i..]) == ln[i..];
    }
  }

  /** Two names equal up to ASCII case have equal lower-cased suffixes. */
  lemma SuffixIgnoresCase(n1: string, n2: string)
    requires Lower(n1) == Lower(n2)
    ensures Lower(Suffix(n1)) == Lower(Suffix(n2))
  {
    SuffixOfLower(n1);
    SuffixOfLower(n2);
  }

  /** If `b` starts with the only dot it holds, the last dot of `a + b` is the
      first character of `b`. */
  lemma LastDotOfAppend(a: string, b: string)
    requires |b| > 0 && b[0] == '.'
    requires forall k :: 0 < k < |b| ==> b[k] != '.'
    ensures LastIndexOf(a + b, '.') == |a|
  {
    LastIndexOfUnique(a + b, '.', |a|);
  }

  /** A name built as `prefix + ext`, with `ext` a proper suffix, has `ext`
      as its suffix and `prefix` as its stem. */
  lemma SuffixOfAppend(prefix: string, ext: string)
    requires |prefix| > 0 && |ext| >= 2 && ext[0] == '.'
    requires forall k :: 0 < k < |ext| ==> ext[k] != '.'
    ensures Suffix(prefix + ext) == ext
    ensures Stem(prefix + ext) == prefix
  {
    LastDotOfAppend(prefix, ext);
    assert (prefix + ext)[|prefix|..] == ext;
    assert (prefix + ext)[..|prefix|] == prefix;
  }
}
