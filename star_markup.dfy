/**
 * The star-markup rewriting the components apply before handing text to the browser:
 * a global, non-greedy `s.replace(/D(.*?)D/g, open + '$1' + close)` where the
 * delimiter D is `**` or `*`.  As in JavaScript, `.` does not match a line
 * terminator, the lazy group ends at the first delimiter after the opening one, and
 * the scan resumes right after the closing delimiter.
 *
 * `Restore` is the inverse view: it turns every known tag back into the delimiter (or
 * character) it stands for.  The lemmas show that a rewrite never loses or reorders
 * text: restoring the output gives back the input.
 */
module StarMarkup {
  import opened Types
  import opened JsString

  /** The characters JavaScript's `.` does not match. */
  predicate IsLineTerminator(c: char)
  {
    c == '\n' || c == '\r' || c == '\U{2028}' || c == '\U{2029}'
  }

  /** One global replacement: `delim` around a lazy group, replaced by `open`, the group, `close`. */
  datatype Pass = Pass(delim: string, open: string, close: string)

  predicate ValidPass(p: Pass)
  {
    |p.delim| > 0
  }

  /**
   * Where the lazy group that starts at `j` ends: the first index at or after `j`
   * at which `d` occurs, provided no line terminator lies in between.
   */
  function FindClose(s: string, d: string, j: nat): (r: Option<nat>)
    requires |d| > 0 && j <= |s|
    decreases |s| - j
    ensures r.Some? ==> j <= r.value && OccursAt(s, d, r.value)
    ensures r.Some? ==> forall m :: j <= m < r.value ==> !OccursAt(s, d, m) && !IsLineTerminator(s[m])
    ensures r.None? ==> forall m :: j <= m && OccursAt(s, d, m) ==>
      exists q :: j <= q < m && IsLineTerminator(s[q])
  {
    if OccursAt(s, d, j) then Some(j)
    else if j == |s| || IsLineTerminator(s[j]) then None
    else FindClose(s, d, j + 1)
  }

  /** Where the span opened by a delimiter at the start of `s` closes, if it does. */
  function MatchAt(s: string, p: Pass): (r: Option<nat>)
    requires ValidPass(p)
    ensures r.Some? ==> |p.delim| <= r.value && OccursAt(s, p.delim, 0) && OccursAt(s, p.delim, r.value)
    ensures r.Some? ==> s != [] && s[0] == p.delim[0]
    ensures r.Some? ==> forall m :: |p.delim| <= m < r.value ==> !OccursAt(s, p.delim, m) && !IsLineTerminator(s[m])
    ensures r.None? ==> !OccursAt(s, p.delim, 0) || forall m :: |p.delim| <= m && OccursAt(s, p.delim, m) ==>
      exists q :: |p.delim| <= q < m && IsLineTerminator(s[q])
  {
    if OccursAt(s, p.delim, 0) then
      OccursHead(s, p.delim, 0);
      FindClose(s, p.delim, |p.delim|)
    else None
  }

  /** The whole global replacement of one pass over `s`. */
  function Rewrite(s: string, p: Pass): (r: string)
    requires ValidPass(p)
    decreases |s|
  {
    if s == [] then []
    else match MatchAt(s, p)
      case Some(k) =>
        p.open + s[|p.delim|..k] + p.close + Rewrite(s[k + |p.delim|..], p)
      case None => [s[0]] + Rewrite(s[1..], p)
  }

  lemma OccursHead(s: string, d: string, i: nat)
    requires |d| > 0 && OccursAt(s, d, i)
    ensures s[i] == d[0]
  {
    assert s[i..i + |d|][0] == s[i];
  }

  /**
   * The lazy match: a delimited span whose body holds neither the delimiter's first
   * character nor a line terminator is replaced as a whole, and the scan goes on after it.
   */
  lemma RewriteSpan(x: string, y: string, p: Pass)
    requires ValidPass(p)
    requires p.delim[0] !in x
    requires forall i :: 0 <= i < |x| ==> !IsLineTerminator(x[i])
    ensures Rewrite(p.delim + x + p.delim + y, p) == p.open + x + p.close + Rewrite(y, p)
  {
    var d := p.delim;
    var s := d + x + d + y;
    var e := |d| + |x|;
    Glued(d, x, y);
    forall m | |d| <= m < e ensures s[m] != d[0] && !IsLineTerminator(s[m]) {
      assert s[m] == x[m - |d|];
      assert x[m - |d|] in x;
    }
    ClosesAt(s, d, |d|, e);
    assert MatchAt(s, p) == Some(e);
    SpanShape(s, p);
    calc {
      Rewrite(s, p);
      p.open + s[|d|..e] + p.close + Rewrite(s[e + |d|..], p);
      { assert s[|d|..e] == x && s[e + |d|..] == y; }
      p.open + x + p.close + Rewrite(y, p);
    }
  }

  /** A delimited span on its own becomes the open tag, the group, the close tag. */
  lemma SpanAlone(x: string, p: Pass)
    requires ValidPass(p) && p.delim[0] !in x
    requires forall i :: 0 <= i < |x| ==> !IsLineTerminator(x[i])
    ensures Rewrite(p.delim + x + p.delim, p) == p.open + x + p.close
  {
    RewriteSpan(x, [], p);
    var input := p.delim + x + p.delim;
    var output := p.open + x + p.close;
    assert input + [] == input;
    assert output + Rewrite([], p) == output;
  }

  /** Where the pieces of `d + x + d + y` sit. */
  lemma Glued(d: string, x: string, y: string)
    ensures var s := d + x + d + y; var e := |d| + |x|;
      && OccursAt(s, d, 0) && OccursAt(s, d, e)
      && s[|d|..e] == x && s[e + |d|..] == y
  {
    var s := d + x + d + y;
    var e := |d| + |x|;
    assert s[..|d|] == d;
    assert s[e..e + |d|] == d;
  }

  /** With no delimiter character and no line terminator before `e`, the group closes at `e`. */
  lemma ClosesAt(s: string, d: string, j: nat, e: nat)
    requires |d| > 0 && j <= e && OccursAt(s, d, e)
    requires forall m :: j <= m < e ==> s[m] != d[0] && !IsLineTerminator(s[m])
    ensures FindClose(s, d, j) == Some(e)
  {
    var c := FindClose(s, d, j);
    assert c.Some?;
    OccursHead(s, d, c.value);
  }

  /** Text holding no delimiter character is left as it is. */
  lemma {:induction false} RewriteIdentity(s: string, p: Pass)
    requires ValidPass(p) && p.delim[0] !in s
    ensures Rewrite(s, p) == s
  {
    RewritePlainPrefix(s, [], p);
    assert s + [] == s;
  }

  /** Text before the first delimiter character is copied unchanged. */
  lemma {:induction false} RewritePlainPrefix(x: string, y: string, p: Pass)
    requires ValidPass(p)
    requires p.delim[0] !in x
    ensures Rewrite(x + y, p) == x + Rewrite(y, p)
  {
    if x == [] {
      assert x + y == y;
    } else {
      var xy := x + y;
      assert xy[0] == x[0];
      assert MatchAt(xy, p).None?;
      assert xy[1..] == x[1..] + y;
      RewritePlainPrefix(x[1..], y, p);
      calc {
        Rewrite(xy, p);
        [x[0]] + Rewrite(x[1..] + y, p);
        [x[0]] + (x[1..] + Rewrite(y, p));
        { assert [x[0]] + x[1..] == x; }
        x + Rewrite(y, p);
      }
    }
  }

  // ---------------------------------------------------------------------------
  // Restoring the delimiters from the tags

  /** A tag stands for `text`. */
  datatype Rule = Rule(tag: string, text: string)

  /** An HTML tag `<…>` with no angle bracket inside. */
  predicate IsTag(t: string)
  {
    |t| >= 2 && t[0] == '<' && t[|t| - 1] == '>'
    && forall i :: 0 < i < |t| - 1 ==> t[i] != '<' && t[i] != '>'
  }

  /** Every rule has a proper tag, and no two rules share a tag. */
  predicate ValidRules(rules: seq<Rule>)
  {
    && (forall i :: 0 <= i < |rules| ==> IsTag(rules[i].tag))
    && (forall i, j :: 0 <= i < j < |rules| ==> rules[i].tag != rules[j].tag)
  }

  /** The index of the first rule at or after `k` whose tag begins `x`. */
  function MatchFrom(x: string, rules: seq<Rule>, k: nat): (r: Option<nat>)
    requires k <= |rules|
    decreases |rules| - k
    ensures r.Some? ==> k <= r.value < |rules| && StartsWith(x, rules[r.value].tag)
  {
    if k == |rules| then None
    else if StartsWith(x, rules[k].tag) then Some(k)
    else MatchFrom(x, rules, k + 1)
  }

  /** The index of the first rule whose tag begins `x`. */
  function MatchRule(x: string, rules: seq<Rule>): (r: Option<nat>)
    ensures r.Some? ==> r.value < |rules| && StartsWith(x, rules[r.value].tag)
  {
    MatchFrom(x, rules, 0)
  }

  /** Every tag is replaced by the text it stands for; everything else is copied. */
  function Restore(x: string, rules: seq<Rule>): string
    requires ValidRules(rules)
    decreases |x|
  {
    if x == [] then []
    else match MatchRule(x, rules)
      case Some(j) =>
        assert IsTag(rules[j].tag);
        rules[j].text + Restore(x[|rules[j].tag|..], rules)
      case None => [x[0]] + Restore(x[1..], rules)
  }

  /** The `<` at index `i` of `x`, if there is one, begins one of the tags. */
  predicate AlignedAt(x: string, i: nat, rules: seq<Rule>)
    requires i < |x|
  {
    x[i] == '<' ==> MatchRule(x[i..], rules).Some?
  }

  /** Every `<` in `x` begins one of the tags. */
  predicate TagAligned(x: string, rules: seq<Rule>)
  {
    forall i :: 0 <= i < |x| ==> AlignedAt(x, i, rules)
  }

  /** Two tags that both begin the same string are the same tag. */
  lemma TagsAgree(t1: string, t2: string, x: string)
    requires IsTag(t1) && IsTag(t2)
    requires StartsWith(x, t1) && StartsWith(x, t2)
    ensures t1 == t2
  {
    var m := if |t1| < |t2| then |t1| else |t2|;
    assert t1[m - 1] == x[m - 1] == t2[m - 1];
    assert |t1| == |t2|;
    assert t1 == x[..|t1|] == t2;
  }

  /** A rule at or after `k` whose tag begins `x` is found. */
  lemma {:induction false} MatchFromFinds(x: string, rules: seq<Rule>, k: nat, j: nat)
    requires k <= j < |rules| && StartsWith(x, rules[j].tag)
    ensures MatchFrom(x, rules, k).Some?
    decreases j - k
  {
    if k < j && !StartsWith(x, rules[k].tag) {
      MatchFromFinds(x, rules, k + 1, j);
    }
  }

  /** Whichever rule's tag begins `x`, it is the one `MatchRule` finds. */
  lemma MatchUnique(x: string, rules: seq<Rule>, j: nat)
    requires ValidRules(rules)
    requires j < |rules| && StartsWith(x, rules[j].tag)
    ensures MatchRule(x, rules) == Some(j)
  {
    MatchFromFinds(x, rules, 0, j);
    var m := MatchRule(x, rules).value;
    assert IsTag(rules[m].tag) && IsTag(rules[j].tag);
    TagsAgree(rules[m].tag, rules[j].tag, x);
  }

  /** Only a `<` can begin a tag, and a matched tag is a proper tag. */
  lemma MatchStartsTag(x: string, rules: seq<Rule>)
    requires ValidRules(rules)
    ensures MatchRule(x, rules).Some? ==>
      x != [] && x[0] == '<' && IsTag(rules[MatchRule(x, rules).value].tag)
  {
    if MatchRule(x, rules).Some? {
      var t := rules[MatchRule(x, rules).value].tag;
      assert IsTag(t);
      assert x[..|t|][0] == x[0];
    }
  }

  lemma AlignedSuffix(x: string, k: nat, rules: seq<Rule>)
    requires k <= |x| && TagAligned(x, rules)
    ensures TagAligned(x[k..], rules)
  {
    forall i | 0 <= i < |x[k..]| ensures AlignedAt(x[k..], i, rules) {
      assert AlignedAt(x, k + i, rules);
      assert x[k..][i..] == x[k + i..];
    }
  }

  lemma AlignedConcat(a: string, b: string, rules: seq<Rule>)
    requires ValidRules(rules) && TagAligned(a, rules) && TagAligned(b, rules)
    ensures TagAligned(a + b, rules)
  {
    forall i | 0 <= i < |a + b| ensures AlignedAt(a + b, i, rules) {
      if i < |a| {
        assert AlignedAt(a, i, rules);
        assert (a + b)[i..] == a[i..] + b;
        if a[i] == '<' {
          var m := MatchRule(a[i..], rules).value;
          assert (a[i..] + b)[..|rules[m].tag|] == a[i..][..|rules[m].tag|];
          MatchUnique((a + b)[i..], rules, m);
        }
      } else {
        assert AlignedAt(b, i - |a|, rules);
        assert (a + b)[i..] == b[i - |a|..];
      }
    }
  }

  /** A character that begins no tag is copied. */
  lemma RestoreChar(x: string, rules: seq<Rule>)
    requires ValidRules(rules) && x != [] && x[0] != '<'
    ensures Restore(x, rules) == [x[0]] + Restore(x[1..], rules)
  {
    MatchStartsTag(x, rules);
  }

  /** Text with no `<` holds no tag: it is aligned and restores to itself. */
  lemma {:induction false} PlainRestores(s: string, rules: seq<Rule>)
    requires ValidRules(rules) && '<' !in s
    ensures TagAligned(s, rules) && Restore(s, rules) == s
  {
    forall i | 0 <= i < |s| ensures AlignedAt(s, i, rules) {
      assert s[i] in s;
    }
    if s != [] {
      RestoreChar(s, rules);
      assert s[0] in s;
      PlainRestores(s[1..], rules);
    }
  }

  /** A tag is aligned on its own. */
  lemma TagIsAligned(j: nat, rules: seq<Rule>)
    requires ValidRules(rules) && j < |rules|
    ensures TagAligned(rules[j].tag, rules)
  {
    var t := rules[j].tag;
    assert IsTag(t);
    forall i | 0 <= i < |t| ensures AlignedAt(t, i, rules) {
      if i == 0 {
        assert t[0..] == t;
        MatchUnique(t, rules, j);
      }
    }
  }

  /** A tag followed by anything restores to its text followed by the restored rest. */
  lemma TagRestores(j: nat, y: string, rules: seq<Rule>)
    requires ValidRules(rules) && j < |rules|
    ensures Restore(rules[j].tag + y, rules) == rules[j].text + Restore(y, rules)
  {
    var t := rules[j].tag;
    assert StartsWith(t + y, t) by { assert (t + y)[..|t|] == t; }
    MatchUnique(t + y, rules, j);
    assert IsTag(t);
    assert (t + y)[|t|..] == y;
  }

  /** The string a rule matched is its tag followed by the rest. */
  lemma TagSplit(x: string, rules: seq<Rule>)
    requires MatchRule(x, rules).Some?
    ensures var t := rules[MatchRule(x, rules).value].tag; |t| <= |x| && x == t + x[|t|..]
  {
    var t := rules[MatchRule(x, rules).value].tag;
    assert x[..|t|] == t;
  }

  /** Restoring an aligned prefix never looks past it. */
  lemma {:induction false} RestoreConcat(a: string, b: string, rules: seq<Rule>)
    requires ValidRules(rules) && TagAligned(a, rules)
    ensures Restore(a + b, rules) == Restore(a, rules) + Restore(b, rules)
    decreases |a|
  {
    if a == [] {
      assert a + b == b;
    } else {
      assert AlignedAt(a, 0, rules);
      assert a[0..] == a;
      if a[0] == '<' {
        RestoreConcatTag(a, b, rules);
      } else {
        RestoreConcatChar(a, b, rules);
      }
    }
  }

  lemma {:induction false} RestoreConcatTag(a: string, b: string, rules: seq<Rule>)
    requires ValidRules(rules) && TagAligned(a, rules)
    requires MatchRule(a, rules).Some?
    ensures Restore(a + b, rules) == Restore(a, rules) + Restore(b, rules)
    decreases |a|, 0
  {
    var j := MatchRule(a, rules).value;
    var a' := a[|rules[j].tag|..];
    TagSplit(a, rules);
    AlignedSuffix(a, |rules[j].tag|, rules);
    RestoreConcat(a', b, rules);
    TagPrefixConcat(j, a', b, rules);
  }

  /** The tag case of `RestoreConcat`, once the rest is known to split. */
  lemma TagPrefixConcat(j: nat, a': string, b: string, rules: seq<Rule>)
    requires ValidRules(rules) && j < |rules|
    requires Restore(a' + b, rules) == Restore(a', rules) + Restore(b, rules)
    ensures Restore(rules[j].tag + a' + b, rules) == Restore(rules[j].tag + a', rules) + Restore(b, rules)
  {
    var t := rules[j].tag;
    var x := t + a' + b;
    assert x == t + (a' + b);
    TagRestores(j, a' + b, rules);
    assert Restore(x, rules) == rules[j].text + Restore(a' + b, rules);
    TagRestores(j, a', rules);
  }

  lemma {:induction false} RestoreConcatChar(a: string, b: string, rules: seq<Rule>)
    requires ValidRules(rules) && TagAligned(a, rules)
    requires a != [] && a[0] != '<'
    ensures Restore(a + b, rules) == Restore(a, rules) + Restore(b, rules)
    decreases |a|, 0
  {
    RestoreChar(a, rules);
    RestoreChar(a + b, rules);
    AlignedSuffix(a, 1, rules);
    RestoreConcat(a[1..], b, rules);
    assert (a + b)[1..] == a[1..] + b;
  }

  /**
   * The pass's delimiter holds no `<`; rules `o` and `c` turn its open and close
   * tags back into the delimiter; and no tag holds the delimiter's first character.
   */
  predicate Fits(p: Pass, rules: seq<Rule>, o: nat, c: nat)
  {
    && ValidPass(p)
    && '<' !in p.delim
    && o < |rules| && rules[o] == Rule(p.open, p.delim)
    && c < |rules| && rules[c] == Rule(p.close, p.delim)
    && forall i :: 0 <= i < |rules| ==> p.delim[0] !in rules[i].tag
  }

  /** Inside a delimited span, every tag also ends before the closing delimiter. */
  lemma InnerAligned(t: string, lo: nat, k: nat, p: Pass, rules: seq<Rule>, o: nat, c: nat)
    requires ValidRules(rules) && Fits(p, rules, o, c)
    requires lo <= k && OccursAt(t, p.delim, k) && TagAligned(t, rules)
    ensures TagAligned(t[lo..k], rules)
  {
    var inner := t[lo..k];
    OccursHead(t, p.delim, k);
    forall i | 0 <= i < |inner| ensures AlignedAt(inner, i, rules) {
      assert AlignedAt(t, lo + i, rules);
      if inner[i] == '<' {
        InnerTag(t, lo, k, i, p, rules, o, c);
      }
    }
  }

  lemma InnerTag(t: string, lo: nat, k: nat, i: nat, p: Pass, rules: seq<Rule>, o: nat, c: nat)
    requires ValidRules(rules) && Fits(p, rules, o, c)
    requires lo + i < k < |t| && t[k] == p.delim[0]
    requires MatchRule(t[lo + i..], rules).Some?
    ensures MatchRule(t[lo..k][i..], rules).Some?
  {
    var j := MatchRule(t[lo + i..], rules).value;
    var tag := rules[j].tag;
    assert p.delim[0] !in tag;
    forall q | lo + i <= q < lo + i + |tag| ensures t[q] != p.delim[0] {
      assert t[q] == t[lo + i..][..|tag|][q - lo - i];
    }
    assert lo + i + |tag| <= k;
    assert t[lo..k][i..][..|tag|] == tag;
    MatchUnique(t[lo..k][i..], rules, j);
  }

  /**
   * One pass loses no text: on aligned input (in particular, input without `<`),
   * restoring the rewritten text gives what restoring the input gives, and the
   * output is aligned again, so passes can be chained.
   */
  lemma {:induction false} RewriteRestores(t: string, p: Pass, rules: seq<Rule>, o: nat, c: nat)
    requires ValidRules(rules) && Fits(p, rules, o, c) && TagAligned(t, rules)
    ensures TagAligned(Rewrite(t, p), rules)
    ensures Restore(Rewrite(t, p), rules) == Restore(t, rules)
    decreases |t|, 1
  {
    if t == [] {
    } else if MatchAt(t, p).Some? {
      RewriteRestoresSpan(t, p, rules, o, c);
    } else {
      assert AlignedAt(t, 0, rules);
      assert t[0..] == t;
      if t[0] == '<' {
        RewriteRestoresTag(t, p, rules, o, c);
      } else {
        RewriteRestoresChar(t, p, rules, o, c);
      }
    }
  }

  lemma {:induction false} RewriteRestoresSpan(t: string, p: Pass, rules: seq<Rule>, o: nat, c: nat)
    requires ValidRules(rules) && Fits(p, rules, o, c) && TagAligned(t, rules)
    requires MatchAt(t, p).Some?
    ensures TagAligned(Rewrite(t, p), rules)
    ensures Restore(Rewrite(t, p), rules) == Restore(t, rules)
    decreases |t|, 0
  {
    var d := p.delim;
    var k := MatchAt(t, p).value;
    var inner := t[|d|..k];
    var rest := t[k + |d|..];
    AlignedSuffix(t, k + |d|, rules);
    RewriteRestores(rest, p, rules, o, c);
    InnerAligned(t, |d|, k, p, rules, o, c);
    SpanShape(t, p);
    SpanRestores(d, inner, rest, Rewrite(rest, p), p, rules, o, c);
  }

  /** A matched span: the delimiter, the group, the delimiter, and the rest, rewritten as such. */
  lemma SpanShape(t: string, p: Pass)
    requires ValidPass(p) && MatchAt(t, p).Some?
    ensures var d := p.delim; var k := MatchAt(t, p).value;
      && t == d + t[|d|..k] + d + t[k + |d|..]
      && Rewrite(t, p) == p.open + t[|d|..k] + p.close + Rewrite(t[k + |d|..], p)
  {
    var d := p.delim;
    var k := MatchAt(t, p).value;
    Pieces(t, |d|, k, k + |d|);
  }

  /** Cutting a sequence at three points and gluing the four pieces back. */
  lemma Pieces(t: string, i: nat, j: nat, k: nat)
    requires i <= j <= k <= |t|
    ensures t == t[..i] + t[i..j] + t[j..k] + t[k..]
  {
    assert t[..j] == t[..i] + t[i..j];
    assert t[..k] == t[..j] + t[j..k];
    assert t == t[..k] + t[k..];
  }

  /** A span and its rewriting restore alike, once the rest after it does. */
  lemma SpanRestores(d: string, inner: string, rest: string, r: string, p: Pass, rules: seq<Rule>, o: nat, c: nat)
    requires ValidRules(rules) && Fits(p, rules, o, c) && d == p.delim
    requires TagAligned(inner, rules) && TagAligned(r, rules)
    requires Restore(r, rules) == Restore(rest, rules)
    ensures TagAligned(p.open + inner + p.close + r, rules)
    ensures Restore(p.open + inner + p.close + r, rules) == Restore(d + inner + d + rest, rules)
  {
    PlainRestores(d, rules);
    TagIsAligned(o, rules);
    TagIsAligned(c, rules);
    AlignedConcat(p.close, r, rules);
    AlignedConcat(inner, p.close + r, rules);
    AlignedConcat(p.open, inner + (p.close + r), rules);
    assert p.open + inner + p.close + r == p.open + (inner + (p.close + r));
    assert d + inner + d + rest == d + (inner + (d + rest));
    calc {
      Restore(p.open + (inner + (p.close + r)), rules);
      { TagRestores(o, inner + (p.close + r), rules); }
      d + Restore(inner + (p.close + r), rules);
      { RestoreConcat(inner, p.close + r, rules); }
      d + (Restore(inner, rules) + Restore(p.close + r, rules));
      { TagRestores(c, r, rules); }
      d + (Restore(inner, rules) + (d + Restore(rest, rules)));
      { RestoreConcat(d, rest, rules); }
      d + (Restore(inner, rules) + Restore(d + rest, rules));
      { RestoreConcat(inner, d + rest, rules); }
      d + Restore(inner + (d + rest), rules);
      { RestoreConcat(d, inner + (d + rest), rules); }
      Restore(d + (inner + (d + rest)), rules);
    }
  }

  lemma {:induction false} RewriteRestoresTag(t: string, p: Pass, rules: seq<Rule>, o: nat, c: nat)
    requires ValidRules(rules) && Fits(p, rules, o, c) && TagAligned(t, rules)
    requires MatchRule(t, rules).Some?
    ensures TagAligned(Rewrite(t, p), rules)
    ensures Restore(Rewrite(t, p), rules) == Restore(t, rules)
    decreases |t|, 0
  {
    var j := MatchRule(t, rules).value;
    var tag := rules[j].tag;
    var rest := t[|tag|..];
    TagSplit(t, rules);
    assert p.delim[0] !in tag;
    RewritePlainPrefix(tag, rest, p);
    AlignedSuffix(t, |tag|, rules);
    RewriteRestores(rest, p, rules, o, c);
    TagRestores(j, Rewrite(rest, p), rules);
    TagRestores(j, rest, rules);
    TagIsAligned(j, rules);
    AlignedConcat(tag, Rewrite(rest, p), rules);
  }

  lemma {:induction false} RewriteRestoresChar(t: string, p: Pass, rules: seq<Rule>, o: nat, c: nat)
    requires ValidRules(rules) && Fits(p, rules, o, c) && TagAligned(t, rules)
    requires t != [] && t[0] != '<' && MatchAt(t, p).None?
    ensures TagAligned(Rewrite(t, p), rules)
    ensures Restore(Rewrite(t, p), rules) == Restore(t, rules)
    decreases |t|, 0
  {
    var ch := [t[0]];
    assert t == ch + t[1..];
    PlainRestores(ch, rules);
    AlignedSuffix(t, 1, rules);
    RewriteRestores(t[1..], p, rules, o, c);
    assert Rewrite(t, p) == ch + Rewrite(t[1..], p);
    RestoreConcat(ch, Rewrite(t[1..], p), rules);
    RestoreConcat(ch, t[1..], rules);
    AlignedConcat(ch, Rewrite(t[1..], p), rules);
  }

  // ---------------------------------------------------------------------------
  // The passes the components use, and the tags they can produce

  /** The chat view's bold pass: a span between double stars becomes `<strong>`. */
  const Strong := Pass("**", "<strong>", "</strong>")

  /** The chat view's italic pass, applied after the bold one: a span between single stars becomes `<em>`. */
  const Emphasis := Pass("*", "<em>", "</em>")

  /** The analysis view's bold pass, whose opening tag carries a colour class. */
  const Highlight := Pass("**", "<strong class=\"text-blue-400\">", "</strong>")

  /** Every tag the formatting can emit, with the source text it replaced. */
  const MarkupRules: seq<Rule> := [
    Rule("<strong>", "**"),
    Rule("</strong>", "**"),
    Rule("<em>", "*"),
    Rule("</em>", "*"),
    Rule("<br />", "\n"),
    Rule("<strong class=\"text-blue-400\">", "**")
  ]

  lemma MarkupRulesValid()
    ensures ValidRules(MarkupRules)
  {
    MarkupTagsWellFormed();
    MarkupTagsDistinct();
  }

  lemma MarkupTagsWellFormed()
    ensures forall i :: 0 <= i < |MarkupRules| ==> IsTag(MarkupRules[i].tag)
  {
    StrongTagsWellFormed();
    OtherTagsWellFormed();
  }

  lemma StrongTagsWellFormed()
    ensures IsTag("<strong>") && IsTag("</strong>") && IsTag("<strong class=\"text-blue-400\">")
    ensures '*' !in "<strong>" && '*' !in "</strong>" && '*' !in "<strong class=\"text-blue-400\">"
  {
  }

  lemma OtherTagsWellFormed()
    ensures IsTag("<em>") && IsTag("</em>") && IsTag("<br />")
    ensures '*' !in "<em>" && '*' !in "</em>" && '*' !in "<br />"
  {
  }

  /** The six tags have six different lengths. */
  lemma MarkupTagsDistinct()
    ensures forall i, j :: 0 <= i < j < |MarkupRules| ==> MarkupRules[i].tag != MarkupRules[j].tag
  {
    var lengths := [8, 9, 4, 5, 6, 30];
    forall i | 0 <= i < |MarkupRules| ensures |MarkupRules[i].tag| == lengths[i] {
    }
  }

  /** Each pass's tags are among the rules, and no tag holds a `*`. */
  lemma PassesFit()
    ensures Fits(Strong, MarkupRules, 0, 1)
    ensures Fits(Emphasis, MarkupRules, 2, 3)
    ensures Fits(Highlight, MarkupRules, 5, 1)
  {
    NoStarInTags();
  }

  lemma NoStarInTags()
    ensures forall i :: 0 <= i < |MarkupRules| ==> '*' !in MarkupRules[i].tag
  {
    StrongTagsWellFormed();
    OtherTagsWellFormed();
    forall i | 0 <= i < |MarkupRules| ensures '*' !in MarkupRules[i].tag {
    }
  }
}
