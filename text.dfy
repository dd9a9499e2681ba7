/**
  The handful of JavaScript string operations the terminal relies on:
  `trim`, `split` on one character, `Array.prototype.join`, `padEnd`
  with spaces and `replace` of the first occurrence of a literal string.
  Lengths are counted in characters.
 */
module Text {
  import opened Wrappers

  /** The characters `String.prototype.trim` removes: the WhiteSpace and
      LineTerminator productions of ECMA-262 (sections 12.2 and 12.3),
      with the Unicode space separators (category Zs) written out. */
  predicate IsJsWhitespace(c: char) {
    || c == '\t' || c == '\U{000B}' || c == '\U{000C}' || c == ' '
    || c == '\U{00A0}' || c == '\U{FEFF}' || c == '\U{1680}'
    || ('\U{2000}' <= c <= '\U{200A}')
    || c == '\U{202F}' || c == '\U{205F}' || c == '\U{3000}'
    || c == '\n' || c == '\r' || c == '\U{2028}' || c == '\U{2029}'
  }

  /** Every character of `s` in positions `i` to `j - 1` is whitespace. */
  predicate WhitespaceIn(s: string, i: nat, j: nat) {
    forall k :: i <= k < j && k < |s| ==> IsJsWhitespace(s[k])
  }

  predicate AllWhitespace(s: string) {
    WhitespaceIn(s, 0, |s|)
  }

  /** Neither the first nor the last character is whitespace. */
  predicate IsTrimmed(s: string) {
    s == [] || (!IsJsWhitespace(s[0]) && !IsJsWhitespace(s[|s| - 1]))
  }

  /** The first position at or after `i` that does not hold whitespace, or the end. */
  function SkipForward(s: string, i: nat): (e: nat)
    requires i <= |s|
    ensures i <= e <= |s|
    ensures WhitespaceIn(s, i, e)
    ensures e < |s| ==> !IsJsWhitespace(s[e])
    decreases |s| - i
  {
    if i == |s| || !IsJsWhitespace(s[i]) then i else SkipForward(s, i + 1)
  }

  /** Going back from `j` but not below `lo`: the position right after the
      last character that is not whitespace, or `lo`. */
  function SkipBackward(s: string, lo: nat, j: nat): (b: nat)
    requires lo <= j <= |s|
    ensures lo <= b <= j
    ensures WhitespaceIn(s, b, j)
    ensures b > lo ==> !IsJsWhitespace(s[b - 1])
    decreases j
  {
    if j == lo || !IsJsWhitespace(s[j - 1]) then j else SkipBackward(s, lo, j - 1)
  }

  /** `s.trim()`: the infix of `s` left after removing whitespace at both
      ends; only whitespace is removed and the result has none at its ends. */
  function Trim(s: string): (r: string)
    ensures exists i, j :: 0 <= i <= j <= |s| && r == s[i..j]
                           && WhitespaceIn(s, 0, i) && WhitespaceIn(s, j, |s|)
    ensures IsTrimmed(r)
  {
    var i := SkipForward(s, 0);
    var j := SkipBackward(s, i, |s|);
    assert IsTrimmed(s[i..j]) by {
      if i < j {
        assert s[i..j][0] == s[i] && s[i..j][j - i - 1] == s[j - 1];
      }
    }
    s[i..j]
  }

  lemma TrimOfTrimmed(s: string)
    requires IsTrimmed(s)
    ensures Trim(s) == s
  {
  }

  /** Trimming twice is trimming once. */
  lemma TrimIdempotent(s: string)
    ensures Trim(Trim(s)) == Trim(s)
  {
    TrimOfTrimmed(Trim(s));
  }

  /** `s.split(sep)` for a one-character separator: the pieces between
      occurrences of `sep`, empty pieces included; `""` splits into `[""]`. */
  function Split(s: string, sep: char): (r: seq<string>)
    ensures |r| >= 1
    ensures forall k :: 0 <= k < |r| ==> sep !in r[k]
  {
    if |s| == 0 then [""]
    else
      var rest := Split(s[1..], sep);
      if s[0] == sep then [""] + rest else [[s[0]] + rest[0]] + rest[1..]
  }

  /** There is one more piece than there are separators. */
  lemma {:induction false} SplitCount(s: string, sep: char)
    ensures |Split(s, sep)| == multiset(s)[sep] + 1
  {
    if |s| > 0 {
      SplitCount(s[1..], sep);
      assert s == [s[0]] + s[1..];
    }
  }

  /** `xs.join(sep)`. */
  function Join(xs: seq<string>, sep: string): string {
    if |xs| == 0 then ""
    else if |xs| == 1 then xs[0]
    else xs[0] + sep + Join(xs[1..], sep)
  }

  /** Joining a list of two or more pieces starts with the first piece and the separator. */
  lemma JoinCons(x: string, xs: seq<string>, sep: string)
    requires |xs| >= 1
    ensures Join([x] + xs, sep) == x + sep + Join(xs, sep)
  {
    assert ([x] + xs)[1..] == xs;
  }

  /** Putting a character in front of the first piece puts it in front of the join. */
  lemma JoinPrependToHead(c: char, xs: seq<string>, sep: string)
    requires |xs| >= 1
    ensures Join([[c] + xs[0]] + xs[1..], sep) == [c] + Join(xs, sep)
  {
    if |xs| > 1 {
      JoinCons([c] + xs[0], xs[1..], sep);
      assert [xs[0]] + xs[1..] == xs;
      JoinCons(xs[0], xs[1..], sep);
    }
  }

  /** Joining the pieces of a split with the separator gives back the string. */
  lemma {:induction false} JoinSplit(s: string, sep: char)
    ensures Join(Split(s, sep), [sep]) == s
  {
    if |s| > 0 {
      var rest := Split(s[1..], sep);
      JoinSplit(s[1..], sep);
      assert [s[0]] + s[1..] == s;
      if s[0] == sep {
        JoinCons("", rest, [sep]);
      } else {
        JoinPrependToHead(s[0], rest, [sep]);
      }
    }
  }

  /** Splitting `x + t` where `x` holds no separator glues `x` to the first piece of `t`. */
  lemma {:induction false} SplitPrefix(x: string, t: string, sep: char)
    requires sep !in x
    ensures Split(x + t, sep) == [x + Split(t, sep)[0]] + Split(t, sep)[1..]
  {
    if |x| > 0 {
      var u := x + t;
      var pieces := Split(t, sep);
      SplitPrefix(x[1..], t, sep);
      assert u[1..] == x[1..] + t;
      var rest := Split(u[1..], sep);
      assert rest == [x[1..] + pieces[0]] + pieces[1..];
      assert rest[0] == x[1..] + pieces[0] && rest[1..] == pieces[1..];
      assert u[0] == x[0] && x[0] != sep;
      assert Split(u, sep) == [[u[0]] + rest[0]] + rest[1..];
      assert [x[0]] + (x[1..] + pieces[0]) == x + pieces[0];
    } else {
      assert x + t == t;
      assert x + Split(t, sep)[0] == Split(t, sep)[0];
      assert [Split(t, sep)[0]] + Split(t, sep)[1..] == Split(t, sep);
    }
  }

  /** A string without the separator is a single piece. */
  lemma SplitNoSeparator(x: string, sep: char)
    requires sep !in x
    ensures Split(x, sep) == [x]
  {
    SplitPrefix(x, "", sep);
    assert x + "" == x;
  }

  /** A separator right after a separator-free `x` ends the first piece. */
  lemma SplitAtFirstSeparator(x: string, t: string, sep: char)
    requires sep !in x
    ensures Split(x + [sep] + t, sep) == [x] + Split(t, sep)
  {
    SplitPrefix(x, [sep] + t, sep);
    assert x + [sep] + t == x + ([sep] + t);
    assert ([sep] + t)[1..] == t;
    assert x + "" == x;
  }

  /** Splitting a join of separator-free pieces gives back the pieces. */
  lemma {:induction false} SplitJoin(xs: seq<string>, sep: char)
    requires |xs| >= 1
    requires forall k :: 0 <= k < |xs| ==> sep !in xs[k]
    ensures Split(Join(xs, [sep]), sep) == xs
  {
    if |xs| == 1 {
      SplitNoSeparator(xs[0], sep);
    } else {
      SplitJoin(xs[1..], sep);
      SplitAtFirstSeparator(xs[0], Join(xs[1..], [sep]), sep);
      assert [xs[0]] + xs[1..] == xs;
    }
  }

  /** A string of `n` spaces. */
  function Spaces(n: nat): (r: string)
    ensures |r| == n
    ensures forall k :: 0 <= k < n ==> r[k] == ' '
  {
    if n == 0 then "" else " " + Spaces(n - 1)
  }

  /** `s.padEnd(width)`: `s` followed by spaces up to `width` characters;
      a string already that long is returned unchanged. */
  function PadEnd(s: string, width: nat): (r: string)
    ensures |r| == if |s| >= width then |s| else width
    ensures r[..|s|] == s
    ensures forall k :: |s| <= k < |r| ==> r[k] == ' '
  {
    if |s| >= width then s else s + Spaces(width - |s|)
  }

  /** `pat` occurs in `s` at position `k`. */
  predicate OccursAt(s: string, pat: string, k: nat) {
    k + |pat| <= |s| && s[k..k + |pat|] == pat
  }

  /** `s.indexOf(pat, from)`: the first position at or after `from` where `pat` occurs. */
  function IndexOf(s: string, pat: string, from: nat): (r: Option<nat>)
    requires from <= |s|
    ensures r.Some? ==> from <= r.value && OccursAt(s, pat, r.value)
    ensures r.Some? ==> forall k :: from <= k < r.value ==> !OccursAt(s, pat, k)
    ensures r.None? ==> forall k :: from <= k ==> !OccursAt(s, pat, k)
    decreases |s| - from
  {
    if from + |pat| > |s| then None
    else if s[from..from + |pat|] == pat then Some(from)
    else IndexOf(s, pat, from + 1)
  }

  /** `s.replace(pat, rep)` with a literal string pattern: only the first
      occurrence is replaced; a string that starts with `pat` loses that prefix. */
  function ReplaceFirst(s: string, pat: string, rep: string): (r: string)
    requires '$' !in rep
    ensures OccursAt(s, pat, 0) ==> r == rep + s[|pat|..]
    ensures (forall k :: !OccursAt(s, pat, k)) ==> r == s
  {
    match IndexOf(s, pat, 0)
    case None => s
    case Some(k) => s[..k] + rep + s[k + |pat|..]
  }
}
