/** String operations the revset builders and the Mercurial helpers rely on,
    written to behave like the Python built-ins they stand for
    (`sub in s`, `s.find`, `sep.join`, `s.split(sep)`, `s.strip()`). */
module Text {

  datatype Option<T> = None | Some(value: T)

  /** `sub` occurs in `s` starting at index `i`. */
  ghost predicate OccursAt(s: string, sub: string, i: int)
  {
    0 <= i && i + |sub| <= |s| && s[i..i + |sub|] == sub
  }

  /** Python's `sub in s` for strings: substring containment. */
  function Contains(s: string, sub: string): (b: bool)
    ensures b <==> exists i :: OccursAt(s, sub, i)
    decreases |s|
  {
    if |sub| > |s| then
      false
    else if s[..|sub|] == sub then
      assert OccursAt(s, sub, 0);
      true
    else
      var rest := Contains(s[1..], sub);
      assert forall i :: OccursAt(s[1..], sub, i) ==> OccursAt(s, sub, i + 1) by {
        forall i | OccursAt(s[1..], sub, i) ensures OccursAt(s, sub, i + 1) {
          assert s[i + 1..i + 1 + |sub|] == s[1..][i..i + |sub|];
        }
      }
      assert forall i :: OccursAt(s, sub, i) && i > 0 ==> OccursAt(s[1..], sub, i - 1) by {
        forall i | OccursAt(s, sub, i) && i > 0 ensures OccursAt(s[1..], sub, i - 1) {
          assert s[1..][i - 1..i - 1 + |sub|] == s[i..i + |sub|];
        }
      }
      rest
  }

  /** `s.find(sub)`: the first index at which `sub` occurs, or -1 when none does. */
  function Find(s: string, sub: string): (i: int)
    ensures -1 <= i < |s| + 1
    ensures i == -1 <==> !Contains(s, sub)
    ensures i >= 0 ==> OccursAt(s, sub, i) && forall j :: 0 <= j < i ==> !OccursAt(s, sub, j)
  {
    var i := FindFrom(s, sub, 0);
    assert i >= 0 ==> OccursAt(s, sub, i);
    i
  }

  function FindFrom(s: string, sub: string, from: nat): (i: int)
    ensures i >= -1
    ensures i == -1 ==> forall j :: from <= j ==> !OccursAt(s, sub, j)
    ensures i >= 0 ==> from <= i && OccursAt(s, sub, i) && forall j :: from <= j < i ==> !OccursAt(s, sub, j)
    decreases |s| + 1 - from
  {
    if from + |sub| > |s| then -1
    else if s[from..from + |sub|] == sub then from
    else FindFrom(s, sub, from + 1)
  }

  /** `s.find(c)` for a single character, as an option: the first index of `c`. */
  function IndexOfChar(s: string, c: char): (r: Option<nat>)
    ensures r.None? <==> c !in s
    ensures r.Some? ==> r.value < |s| && s[r.value] == c && c !in s[..r.value]
  {
    if |s| == 0 then None
    else if s[0] == c then Some(0)
    else
      match IndexOfChar(s[1..], c)
      case None => None
      case Some(k) =>
        assert s[..k + 1] == [s[0]] + s[1..][..k];
        Some(k + 1)
  }

  /** The first `c` in `a + t` is the first character of `t` when `a` has none. */
  lemma IndexOfCharAfter(a: string, t: string, c: char)
    requires c !in a
    requires |t| > 0 && t[0] == c
    ensures IndexOfChar(a + t, c) == Some(|a|)
  {
    assert (a + t)[|a|] == c;
    assert (a + t)[..|a|] == a;
  }

  /** The number of occurrences of the character `c` in `s`. */
  function CountChar(s: string, c: char): (n: nat)
    ensures n <= |s|
    ensures n == 0 <==> c !in s
  {
    if |s| == 0 then 0
    else CountChar(s[1..], c) + (if s[0] == c then 1 else 0)
  }

  lemma {:induction false} CountCharAppend(a: string, b: string, c: char)
    ensures CountChar(a + b, c) == CountChar(a, c) + CountChar(b, c)
  {
    if |a| > 0 {
      assert (a + b)[1..] == a[1..] + b;
      CountCharAppend(a[1..], b, c);
    } else {
      assert a + b == b;
    }
  }

  /** Python's `sep.join(parts)`. */
  function Join(sep: string, parts: seq<string>): (r: string)
    ensures parts == [] ==> r == ""
    ensures |parts| == 1 ==> r == parts[0]
  {
    if |parts| == 0 then ""
    else if |parts| == 1 then parts[0]
    else parts[0] + sep + Join(sep, parts[1..])
  }

  /** Joining one more part adds exactly one separator before it. */
  lemma {:induction false} JoinSnoc(sep: string, parts: seq<string>, p: string)
    requires |parts| > 0
    ensures Join(sep, parts + [p]) == Join(sep, parts) + sep + p
  {
    if |parts| > 1 {
      assert (parts + [p])[1..] == parts[1..] + [p];
      JoinSnoc(sep, parts[1..], p);
    } else {
      assert parts + [p] == [parts[0], p];
      assert [parts[0], p][1..] == [p];
    }
  }

  /** Python's `s.split(c)` for a one-character separator: the piece before the first
      `c`, then the pieces of the rest; empty pieces are kept. */
  function Split(s: string, c: char): (parts: seq<string>)
    ensures |parts| >= 1
    ensures forall k :: 0 <= k < |parts| ==> c !in parts[k]
    decreases |s|
  {
    match IndexOfChar(s, c)
    case None => [s]
    case Some(k) => [s[..k]] + Split(s[k + 1..], c)
  }

  /** Counting around one occurrence of `c`. */
  lemma CountCharAround(s: string, k: nat, c: char)
    requires k < |s| && s[k] == c
    ensures CountChar(s, c) == CountChar(s[..k], c) + 1 + CountChar(s[k + 1..], c)
  {
    assert s == s[..k] + ([c] + s[k + 1..]);
    CountCharAppend(s[..k], [c] + s[k + 1..], c);
    assert ([c] + s[k + 1..])[1..] == s[k + 1..];
  }

  /** There is always one more piece than there are separators. */
  lemma {:induction false} SplitCount(s: string, c: char)
    ensures |Split(s, c)| == CountChar(s, c) + 1
    decreases |s|
  {
    match IndexOfChar(s, c)
    case None =>
    case Some(k) =>
      SplitCount(s[k + 1..], c);
      CountCharAround(s, k, c);
  }

  /** Splitting and joining back with the same separator gives the original string. */
  lemma {:induction false} SplitJoin(s: string, c: char)
    ensures Join([c], Split(s, c)) == s
    decreases |s|
  {
    match IndexOfChar(s, c)
    case None =>
    case Some(k) =>
      var rest := Split(s[k + 1..], c);
      SplitJoin(s[k + 1..], c);
      assert ([s[..k]] + rest)[1..] == rest;
      assert s == s[..k] + [c] + s[k + 1..];
  }

  /** A string without the separator is a single piece. */
  lemma SplitNoSeparator(s: string, c: char)
    requires c !in s
    ensures Split(s, c) == [s]
  {
  }

  /** The first separator of `a + [c] + b` is the one after `a` when `a` has none. */
  lemma SplitAroundFirst(a: string, b: string, c: char)
    requires c !in a
    ensures Split(a + [c] + b, c) == [a] + Split(b, c)
  {
    var s := a + [c] + b;
    IndexOfCharAfter(a, [c] + b, c);
    assert s == a + ([c] + b);
    assert s[..|a|] == a;
    assert s[|a| + 1..] == b;
  }

  /** Appending never moves the first `c` of a string that has one. */
  lemma IndexOfCharPrefix(a: string, t: string, c: char, k: nat)
    requires IndexOfChar(a, c) == Some(k)
    ensures IndexOfChar(a + t, c) == Some(k)
  {
    var s := a + t;
    assert s[k] == c;
    assert s[..k] == a[..k];
  }

  /** Otherwise the first separator of `a + [c] + b` is the first one of `a`. */
  lemma SplitAroundLater(a: string, b: string, c: char, k: nat)
    requires IndexOfChar(a, c) == Some(k)
    ensures Split(a + [c] + b, c) == [a[..k]] + Split(a[k + 1..] + [c] + b, c)
  {
    IndexOfCharPrefix(a, [c], c, k);
    IndexOfCharPrefix(a + [c], b, c, k);
    SplitAt(a + [c] + b, c, k);
    SliceAround(a, b, c, k);
  }

  /** One step of `Split` at a known first separator. */
  lemma SplitAt(s: string, c: char, k: nat)
    requires IndexOfChar(s, c) == Some(k)
    ensures Split(s, c) == [s[..k]] + Split(s[k + 1..], c)
  {
  }

  /** Cutting `a + [c] + b` at a position inside `a`. */
  lemma SliceAround(a: string, b: string, c: char, k: nat)
    requires k < |a|
    ensures (a + [c] + b)[..k] == a[..k]
    ensures (a + [c] + b)[k + 1..] == a[k + 1..] + [c] + b
  {
  }

  /** Splitting distributes over a separator: the pieces of `a + [c] + b` are the pieces
      of `a` followed by the pieces of `b`. */
  lemma {:induction false} SplitAround(a: string, b: string, c: char)
    ensures Split(a + [c] + b, c) == Split(a, c) + Split(b, c)
    decreases |a|
  {
    match IndexOfChar(a, c)
    case None =>
      SplitAroundFirst(a, b, c);
    case Some(k) =>
      SplitAroundLater(a, b, c, k);
      SplitAround(a[k + 1..], b, c);
  }

  /** Python's `str.isspace()` for one character: the characters `str.strip()`
      removes when called without arguments. */
  predicate IsSpace(ch: char)
  {
    ('\t' <= ch <= '\r') || ('\U{1c}' <= ch <= ' ') || ch == '\U{85}' || ch == '\U{a0}' ||
    ch == '\U{1680}' || ('\U{2000}' <= ch <= '\U{200a}') || ch == '\U{2028}' || ch == '\U{2029}' ||
    ch == '\U{202f}' || ch == '\U{205f}' || ch == '\U{3000}'
  }

  /** The number of white-space characters `s` starts with, counted from `i`. */
  function LeadingSpaceFrom(s: string, i: nat): (n: nat)
    requires i <= |s|
    ensures i <= n <= |s|
    ensures forall k :: i <= k < n ==> IsSpace(s[k])
    ensures n == |s| || !IsSpace(s[n])
    decreases |s| - i
  {
    if i < |s| && IsSpace(s[i]) then LeadingSpaceFrom(s, i + 1) else i
  }

  /** Where the white space that ends `s` begins, looking no further left than `lo`. */
  function TrailingSpaceFrom(s: string, lo: nat, j: nat): (n: nat)
    requires lo <= j <= |s|
    ensures lo <= n <= j
    ensures forall k :: n <= k < j ==> IsSpace(s[k])
    ensures n == lo || !IsSpace(s[n - 1])
    decreases j
  {
    if lo < j && IsSpace(s[j - 1]) then TrailingSpaceFrom(s, lo, j - 1) else j
  }

  /** `r` is `s[i..j]` and everything outside that piece is white space. */
  ghost predicate StrippedAt(s: string, r: string, i: int, j: int)
  {
    0 <= i <= j <= |s| && r == s[i..j] &&
    (forall k :: 0 <= k < i ==> IsSpace(s[k])) && (forall k :: j <= k < |s| ==> IsSpace(s[k]))
  }

  /** `s.strip()`: `s` without its leading and trailing white space. The result is a
      contiguous piece of `s`, everything cut off is white space, and the result
      neither starts nor ends with white space. */
  function Strip(s: string): (r: string)
    ensures exists i, j :: StrippedAt(s, r, i, j)
    ensures r == [] || (!IsSpace(r[0]) && !IsSpace(r[|r| - 1]))
  {
    var i := LeadingSpaceFrom(s, 0);
    var j := TrailingSpaceFrom(s, i, |s|);
    assert StrippedAt(s, s[i..j], i, j);
    s[i..j]
  }

  /** A single non-space character surrounded by white space strips to itself. */
  lemma StripPadded(pre: string, x: char, post: string)
    requires forall k :: 0 <= k < |pre| ==> IsSpace(pre[k])
    requires forall k :: 0 <= k < |post| ==> IsSpace(post[k])
    requires !IsSpace(x)
    ensures Strip(pre + [x] + post) == [x]
  {
    var s := pre + [x] + post;
    var r := Strip(s);
    var i, j :| StrippedAt(s, r, i, j);
    var n := |pre|;
    assert s[n] == x;
    assert forall k :: 0 <= k < |s| && k != n ==> IsSpace(s[k]) by {
      forall k | 0 <= k < |s| && k != n ensures IsSpace(s[k]) {
        if k < n {
          assert s[k] == pre[k];
        } else {
          assert s[k] == post[k - n - 1];
        }
      }
    }
    assert i <= n < j;
    assert r[0] == s[i] && r[|r| - 1] == s[j - 1];
    assert i == n && j == n + 1;
  }

  /** The three pieces of `x + y + z` are found again at their offsets. */
  lemma Sandwich(x: string, y: string, z: string)
    ensures var s := x + y + z;
            s[..|x|] == x && s[|x|..|x| + |y|] == y && s[|x| + |y|..] == z
  {
  }

  /** A trailing separator adds one empty piece. */
  lemma SplitTrailing(s: string, c: char)
    ensures Split(s + [c], c) == Split(s, c) + [""]
  {
    SplitAround(s, "", c);
    assert s + [c] + "" == s + [c];
  }
}
