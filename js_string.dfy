/**
 * The JavaScript string operations the components rely on: `trim`, `startsWith`,
 * `endsWith`, `includes`, `replace` with a string pattern (first occurrence only),
 * `toLowerCase` (ASCII letters only), `split` and `join` on one character, and a
 * global replacement of one character.
 */
module JsString {
  import opened Types

  /** The characters `String.prototype.trim` strips: ECMAScript WhiteSpace and LineTerminator. */
  predicate IsWhitespace(c: char)
  {
    c == '\t' || c == '\n' || c == '\U{000B}' || c == '\U{000C}' || c == '\r' || c == ' '
    || c == '\U{00A0}' || c == '\U{1680}' || ('\U{2000}' <= c <= '\U{200A}')
    || c == '\U{2028}' || c == '\U{2029}' || c == '\U{202F}' || c == '\U{205F}'
    || c == '\U{3000}' || c == '\U{FEFF}'
  }

  predicate AllWhitespace(s: string)
  {
    forall i :: 0 <= i < |s| ==> IsWhitespace(s[i])
  }

  /** The first index at or after `i` that does not hold whitespace (or `|s|`). */
  function SkipLeading(s: string, i: nat): (n: nat)
    requires i <= |s|
    decreases |s| - i
    ensures i <= n <= |s|
    ensures forall q :: i <= q < n ==> IsWhitespace(s[q])
    ensures n < |s| ==> !IsWhitespace(s[n])
  {
    if i < |s| && IsWhitespace(s[i]) then SkipLeading(s, i + 1) else i
  }

  /** Walking back from `j`, but not past `lo`: where the trailing whitespace starts. */
  function SkipTrailing(s: string, lo: nat, j: nat): (m: nat)
    requires lo <= j <= |s|
    decreases j - lo
    ensures lo <= m <= j
    ensures forall q :: m <= q < j ==> IsWhitespace(s[q])
    ensures lo < m ==> !IsWhitespace(s[m - 1])
  {
    if lo < j && IsWhitespace(s[j - 1]) then SkipTrailing(s, lo, j - 1) else j
  }

  /** `s.trim()`: the part of `s` between its leading and its trailing whitespace. */
  function Trim(s: string): (r: string)
    ensures |r| <= |s|
    ensures r == [] <==> AllWhitespace(s)
    ensures r != [] ==> !IsWhitespace(r[0]) && !IsWhitespace(r[|r| - 1])
  {
    var a := SkipLeading(s, 0);
    var m := SkipTrailing(s, a, |s|);
    assert a < |s| ==> !IsWhitespace(s[a]);
    s[a..m]
  }

  /** What `trim` drops on either side is whitespace, and what it keeps is contiguous. */
  lemma TrimSpan(s: string)
    ensures exists a, m ::
      && 0 <= a <= m <= |s|
      && Trim(s) == s[a..m]
      && AllWhitespace(s[..a])
      && AllWhitespace(s[m..])
  {
    var a := SkipLeading(s, 0);
    var m := SkipTrailing(s, a, |s|);
    assert AllWhitespace(s[..a]);
    assert AllWhitespace(s[m..]);
  }

  /** Whitespace around a word whose ends are not whitespace is exactly what `trim` drops. */
  lemma TrimAround(pre: string, core: string, post: string)
    requires AllWhitespace(pre) && AllWhitespace(post)
    requires core != [] && !IsWhitespace(core[0]) && !IsWhitespace(core[|core| - 1])
    ensures Trim(pre + core + post) == core
  {
    var s := pre + core + post;
    var a := SkipLeading(s, 0);
    assert s[|pre|] == core[0];
    assert a == |pre|;
    var m := SkipTrailing(s, a, |s|);
    var e := |pre| + |core|;
    assert s[e - 1] == core[|core| - 1];
    assert m == e;
    assert s[a..m] == core;
  }

  /** `!s.trim()`: the string is empty after trimming. */
  predicate IsBlank(s: string)
  {
    Trim(s) == []
  }

  predicate StartsWith(s: string, p: string)
  {
    |p| <= |s| && s[..|p|] == p
  }

  predicate EndsWith(s: string, p: string)
  {
    |p| <= |s| && s[|s| - |p|..] == p
  }

  /** `p` occurs in `s` starting at index `i`. */
  predicate OccursAt(s: string, p: string, i: nat)
  {
    i + |p| <= |s| && s[i..i + |p|] == p
  }

  /** `s.indexOf(p, from)`: the first index at or after `from` where `p` occurs. */
  function IndexOf(s: string, p: string, from: nat): (r: Option<nat>)
    requires from <= |s|
    decreases |s| - from
    ensures r.Some? ==> from <= r.value && OccursAt(s, p, r.value)
    ensures r.Some? ==> forall k :: from <= k < r.value ==> !OccursAt(s, p, k)
    ensures r.None? ==> forall k :: from <= k ==> !OccursAt(s, p, k)
  {
    if OccursAt(s, p, from) then Some(from)
    else if from == |s| then None
    else IndexOf(s, p, from + 1)
  }

  /** `s.includes(p)`. */
  predicate Includes(s: string, p: string)
  {
    IndexOf(s, p, 0).Some?
  }

  /** An occurrence anywhere means `includes` holds. */
  lemma OccursIncludes(s: string, p: string, i: nat)
    requires OccursAt(s, p, i)
    ensures Includes(s, p)
  {
  }

  /** `p` occurs at `i` and nowhere before. */
  predicate FirstAt(s: string, p: string, i: nat)
  {
    OccursAt(s, p, i) && forall k :: 0 <= k < i ==> !OccursAt(s, p, k)
  }

  /** `s.replace(p, rep)` with a string pattern: only the first occurrence is replaced. */
  function ReplaceFirst(s: string, p: string, rep: string): (r: string)
    ensures !Includes(s, p) ==> r == s
    ensures Includes(s, p) ==> exists i: nat :: FirstAt(s, p, i) && r == s[..i] + rep + s[i + |p|..]
    ensures StartsWith(s, p) ==> r == rep + s[|p|..]
    ensures Includes(s, p) ==> |r| == |s| - |p| + |rep|
  {
    match IndexOf(s, p, 0)
    case None => s
    case Some(i) =>
      assert StartsWith(s, p) ==> OccursAt(s, p, 0);
      assert FirstAt(s, p, i);
      s[..i] + rep + s[i + |p|..]
  }

  /**
   * When the first occurrence of `p` in `a + p + b` is the one after `a`, that is
   * the one replaced, wherever `a` ends.
   */
  lemma ReplaceFirstAt(a: string, p: string, b: string, rep: string)
    requires forall k :: 0 <= k < |a| ==> !OccursAt(a + p + b, p, k)
    ensures ReplaceFirst(a + p + b, p, rep) == a + rep + b
  {
    var s := a + p + b;
    assert s[|a|..|a| + |p|] == p;
    OccursIncludes(s, p, |a|);
    var i := IndexOf(s, p, 0).value;
    assert i == |a|;
    assert s[..|a|] == a && s[|a| + |p|..] == b;
  }

  /** Removing the first `p` found after `a`, then a `q` the rest does not hold. */
  lemma RemoveFirstThenAbsent(a: string, p: string, b: string, q: string)
    requires forall k :: 0 <= k < |a| ==> !OccursAt(a + p + b, p, k)
    requires !Includes(a + b, q)
    ensures ReplaceFirst(ReplaceFirst(a + p + b, p, ""), q, "") == a + b
  {
    ReplaceFirstAt(a, p, b, "");
    assert a + "" + b == a + b;
  }

  /** Finding no `p`, then removing the first `q` found after `a`. */
  lemma AbsentThenRemoveFirst(a: string, p: string, b: string, q: string)
    requires !Includes(a + q + b, p)
    requires forall k :: 0 <= k < |a| ==> !OccursAt(a + q + b, q, k)
    ensures ReplaceFirst(ReplaceFirst(a + q + b, p, ""), q, "") == a + b
  {
    ReplaceFirstAt(a, q, b, "");
    assert a + "" + b == a + b;
  }

  function LowerChar(c: char): char
  {
    if 'A' <= c <= 'Z' then (c as int + 32) as char else c
  }

  /** `s.toLowerCase()` restricted to the ASCII letters. */
  function ToLower(s: string): (r: string)
    ensures |r| == |s|
    ensures forall i :: 0 <= i < |s| ==> r[i] == LowerChar(s[i])
  {
    seq(|s|, i requires 0 <= i < |s| => LowerChar(s[i]))
  }

  /** Number of occurrences of `c` in `s`. */
  function Count(s: string, c: char): nat
  {
    if s == [] then 0 else (if s[0] == c then 1 else 0) + Count(s[1..], c)
  }

  /** `s.split(sep)` for a one-character separator. */
  function Split(s: string, sep: char): (r: seq<string>)
    ensures |r| == Count(s, sep) + 1
    ensures forall i :: 0 <= i < |r| ==> sep !in r[i]
  {
    if s == [] then [[]]
    else
      var rest := Split(s[1..], sep);
      if s[0] == sep then [[]] + rest
      else [[s[0]] + rest[0]] + rest[1..]
  }

  /** `parts.join(sep)` for a one-character separator. */
  function Join(parts: seq<string>, sep: char): string
  {
    if parts == [] then []
    else if |parts| == 1 then parts[0]
    else parts[0] + [sep] + Join(parts[1..], sep)
  }

  /** Joining the pieces of a split gives back the original string. */
  lemma {:induction false} JoinSplit(s: string, sep: char)
    ensures Join(Split(s, sep), sep) == s
  {
    if s != [] {
      JoinSplit(s[1..], sep);
      var rest := Split(s[1..], sep);
      if s[0] != sep {
        if |rest| > 1 {
          assert Join(rest, sep) == rest[0] + [sep] + Join(rest[1..], sep);
        }
        assert Join(Split(s, sep), sep) == [s[0]] + Join(rest, sep);
      }
    }
  }

  /** Splitting a join of separator-free pieces gives back the pieces. */
  lemma {:induction false} SplitJoin(parts: seq<string>, sep: char)
    requires |parts| >= 1
    requires forall i :: 0 <= i < |parts| ==> sep !in parts[i]
    ensures Split(Join(parts, sep), sep) == parts
  {
    if |parts| == 1 {
      SplitPlain(parts[0], [], sep);
      assert parts[0] + [] == parts[0];
    } else {
      SplitJoin(parts[1..], sep);
      SplitPlain(parts[0], [sep] + Join(parts[1..], sep), sep);
      assert parts[0] + [sep] + Join(parts[1..], sep) == parts[0] + ([sep] + Join(parts[1..], sep));
      SplitSep(Join(parts[1..], sep), sep);
      assert parts[0] + [] == parts[0];
      assert parts == [parts[0]] + parts[1..];
    }
  }

  /** A separator-free head is glued onto the first piece of what follows. */
  lemma {:induction false} SplitPlain(a: string, b: string, sep: char)
    requires sep !in a
    ensures Split(a + b, sep) == [a + Split(b, sep)[0]] + Split(b, sep)[1..]
  {
    if a != [] {
      SplitPlain(a[1..], b, sep);
      assert (a + b)[1..] == a[1..] + b;
      assert (a + b)[0] == a[0] && a[0] != sep;
      assert a + Split(b, sep)[0] == [a[0]] + (a[1..] + Split(b, sep)[0]);
    } else {
      assert a + b == b;
      var r := Split(b, sep);
      assert r == [r[0]] + r[1..];
      assert a + r[0] == r[0];
    }
  }

  lemma SplitSep(b: string, sep: char)
    ensures Split([sep] + b, sep) == [[]] + Split(b, sep)
  {
    assert ([sep] + b)[1..] == b;
  }

  /** A character absent from `s` is absent from every piece of its split. */
  lemma {:induction false} SplitPiecesOmit(s: string, sep: char, c: char)
    requires c !in s
    ensures forall i :: 0 <= i < |Split(s, sep)| ==> c !in Split(s, sep)[i]
  {
    if s != [] {
      assert c !in s[1..] by {
        forall d | d in s[1..] ensures d != c { assert d in s; }
      }
      SplitPiecesOmit(s[1..], sep, c);
      assert s[0] in s;
    }
  }

  /** `s.replace(/c/g, rep)`: every occurrence of the character `c` replaced by `rep`. */
  function ReplaceAllChar(s: string, c: char, rep: string): (r: string)
    ensures c !in s ==> r == s
    ensures c !in rep ==> c !in r
    ensures |r| == |s| + Count(s, c) * (|rep| - 1)
  {
    if s == [] then []
    else (if s[0] == c then rep else [s[0]]) + ReplaceAllChar(s[1..], c, rep)
  }
}
