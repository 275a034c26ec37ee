/** The .NET string operations the ticket format relies on:
    `string.IsNullOrWhiteSpace`, `string.Split(char)` and `string.Join`. */
module Text {
  import opened Wrappers

  /** `char.IsWhiteSpace`: the characters with the Unicode White_Space property. */
  predicate IsWhiteSpace(c: char) {
    || ('\U{9}' <= c <= '\U{D}')
    || c == ' ' || c == '\U{85}' || c == '\U{A0}' || c == '\U{1680}'
    || ('\U{2000}' <= c <= '\U{200A}')
    || c == '\U{2028}' || c == '\U{2029}' || c == '\U{202F}' || c == '\U{205F}' || c == '\U{3000}'
  }

  /** `string.IsNullOrWhiteSpace`: null, empty, or made of white space only. */
  predicate IsNullOrWhiteSpace(s: Option<string>) {
    s.None? || forall i :: 0 <= i < |s.value| ==> IsWhiteSpace(s.value[i])
  }

  /** Number of occurrences of `c` in `s`. */
  function Count(s: string, c: char): (n: nat)
    ensures n <= |s|
    ensures n == 0 <==> c !in s
  {
    if s == [] then 0 else (if s[0] == c then 1 else 0) + Count(s[1..], c)
  }

  lemma {:induction false} CountAppend(a: string, b: string, c: char)
    ensures Count(a + b, c) == Count(a, c) + Count(b, c)
  {
    if a == [] {
      assert a + b == b;
    } else {
      assert (a + b)[1..] == a[1..] + b;
      CountAppend(a[1..], b, c);
    }
  }

  /** Index of the first `c` in `s`, or `|s|` when there is none. */
  function FirstIndex(s: string, c: char): (i: nat)
    ensures i <= |s|
    ensures c !in s[..i]
    ensures i < |s| <==> c in s
    ensures i < |s| ==> s[i] == c
  {
    if s == [] then 0
    else if s[0] == c then 0
    else
      var j := FirstIndex(s[1..], c);
      assert s[1..][..j] == s[1..j + 1];
      assert s[..j + 1] == [s[0]] + s[1..j + 1];
      j + 1
  }

  /** `parts` joined with `sep`, as `string.Join(sep, parts)`. */
  function Join(sep: char, parts: seq<string>): string
  {
    if parts == [] then []
    else if |parts| == 1 then parts[0]
    else parts[0] + [sep] + Join(sep, parts[1..])
  }

  /** `s.Split(sep)` with default options: every segment is kept, empty ones included,
      so an empty string splits into one empty segment. */
  function Split(s: string, sep: char): (parts: seq<string>)
    ensures |parts| == Count(s, sep) + 1
    ensures forall i :: 0 <= i < |parts| ==> sep !in parts[i]
    ensures Join(sep, parts) == s
    ensures parts[0] == s[..FirstIndex(s, sep)]
    decreases |s|
  {
    var i := FirstIndex(s, sep);
    if i == |s| then
      assert s[..i] == s;
      [s]
    else
      var rest := Split(s[i + 1..], sep);
      assert s == s[..i] + [sep] + s[i + 1..];
      CountAppend(s[..i] + [sep], s[i + 1..], sep);
      CountAppend(s[..i], [sep], sep);
      [s[..i]] + rest
  }

  /** Splitting joined text gives the parts back when no part contains the separator. */
  lemma {:induction false} SplitJoin(sep: char, parts: seq<string>)
    requires parts != []
    requires forall i :: 0 <= i < |parts| ==> sep !in parts[i]
    ensures Split(Join(sep, parts), sep) == parts
  {
    if |parts| == 1 {
      SplitNoSeparator(parts[0], sep);
    } else {
      SplitJoin(sep, parts[1..]);
      SplitPrefix(parts[0], sep, Join(sep, parts[1..]));
      assert [parts[0]] + parts[1..] == parts;
    }
  }

  /** A string without the separator is its own single segment. */
  lemma {:induction false} SplitNoSeparator(s: string, sep: char)
    requires sep !in s
    ensures Split(s, sep) == [s]
  {
    assert FirstIndex(s, sep) == |s|;
    assert s[..|s|] == s;
  }

  /** Splitting `p + [sep] + r`, when `p` has no separator, puts `p` in front of the split of `r`. */
  lemma {:induction false} SplitPrefix(p: string, sep: char, r: string)
    requires sep !in p
    ensures Split(p + [sep] + r, sep) == [p] + Split(r, sep)
  {
    var s := p + [sep] + r;
    var i := FirstIndex(s, sep);
    assert s[|p|] == sep;
    assert s[..|p|] == p && s[|p| + 1..] == r;
  }

  /** The separators of a join: at least one between each two parts, and exactly those
      when no part contains the separator itself. */
  lemma {:induction false} CountJoin(sep: char, parts: seq<string>)
    requires parts != []
    ensures Count(Join(sep, parts), sep) >= |parts| - 1
    ensures Count(Join(sep, parts), sep) == |parts| - 1 <==> forall i :: 0 <= i < |parts| ==> sep !in parts[i]
  {
    if |parts| > 1 {
      CountJoin(sep, parts[1..]);
      CountAppend(parts[0] + [sep], Join(sep, parts[1..]), sep);
      CountAppend(parts[0], [sep], sep);
      assert forall i :: 1 <= i < |parts| ==> parts[i] == parts[1..][i - 1];
    }
  }

  /** The segments after the first are those of the text after the first separator. */
  lemma {:induction false} SplitRest(s: string, sep: char)
    requires sep in s
    ensures Split(s, sep)[1..] == Split(s[FirstIndex(s, sep) + 1..], sep)
  {
  }

  /** The first occurrence in a concatenation lies in the left part when it has one. */
  lemma {:induction false} FirstIndexAppend(a: string, b: string, c: char)
    ensures FirstIndex(a + b, c) == if c in a then FirstIndex(a, c) else |a| + FirstIndex(b, c)
  {
    if a == [] {
      assert a + b == b;
    } else if a[0] != c {
      assert (a + b)[1..] == a[1..] + b;
      FirstIndexAppend(a[1..], b, c);
      assert c in a <==> c in a[1..];
    }
  }

  /** The first `c` in `a + [c] + b` is inside `a` when `a` has one, right after it otherwise. */
  lemma {:induction false} FirstIndexAround(a: string, c: char, b: string)
    ensures var s := a + [c] + b; var i := FirstIndex(s, c);
      if c in a then i == FirstIndex(a, c) < |a|
      else i == |a| && s[..i] == a && s[i + 1..] == b
  {
    var s, tail := a + [c] + b, [c] + b;
    assert s == a + tail;
    FirstIndexAppend(a, tail, c);
    if c !in a {
      assert FirstIndex(tail, c) == 0;
      assert s[..|a|] == a;
      assert s[|a| + 1..] == b;
    }
  }
}
