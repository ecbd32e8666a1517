/**
 * The JavaScript built-ins the data modeller relies on, on strings as `seq<char>`
 * and arrays as `seq`: `startsWith`, `includes`, `indexOf`, `replace` with a string
 * pattern, `split` destructured into two names, `trim`, `filter` and
 * `[...new Set(xs)]`.
 */
module JsSemantics {
  import opened Wrappers

  // ---------------------------------------------------------------------------
  // Prefix and substring tests

  /** `s.startsWith(p)`. */
  predicate StartsWith(s: string, p: string) {
    |p| <= |s| && s[..|p|] == p
  }

  /** `s.indexOf(p)`, with `None` for -1: the index of the first occurrence of `p`. */
  function IndexOf(s: string, p: string): (r: Option<nat>)
    decreases |s|
    ensures r.Some? ==> r.value + |p| <= |s| && s[r.value..r.value + |p|] == p
  {
    if StartsWith(s, p) then Some(0)
    else if s == [] then None
    else
      match IndexOf(s[1..], p)
      case None => None
      case Some(i) =>
        assert s[i + 1..i + 1 + |p|] == s[1..][i..i + |p|];
        Some(i + 1)
  }

  /** `indexOf` finds the first occurrence: `p` starts at no earlier position, and nowhere at all when it reports -1. */
  lemma {:induction false} IndexOfIsFirst(s: string, p: string)
    decreases |s|
    ensures IndexOf(s, p).Some? ==> forall j :: 0 <= j < IndexOf(s, p).value ==> !StartsWith(s[j..], p)
    ensures IndexOf(s, p).None? ==> forall j :: 0 <= j <= |s| ==> !StartsWith(s[j..], p)
  {
    if !StartsWith(s, p) && s != [] {
      IndexOfIsFirst(s[1..], p);
      assert forall j :: 1 <= j <= |s| ==> s[j..] == s[1..][j - 1..];
    }
  }

  /** `s.includes(p)`: `p` occurs somewhere in `s` (the empty string occurs everywhere). */
  predicate Includes(s: string, p: string)
    decreases |s|
  {
    StartsWith(s, p) || (|s| > 0 && Includes(s[1..], p))
  }

  /** `includes` and `indexOf` agree: `p` occurs exactly when it has a first position. */
  lemma {:induction false} IncludesIffIndexOf(s: string, p: string)
    decreases |s|
    ensures Includes(s, p) <==> IndexOf(s, p).Some?
  {
    if !StartsWith(s, p) && s != [] {
      IncludesIffIndexOf(s[1..], p);
    }
  }

  /** `includes` means an occurrence at some position. */
  lemma {:induction false} IncludesAt(s: string, p: string, i: nat)
    requires i + |p| <= |s| && s[i..i + |p|] == p
    ensures Includes(s, p)
    decreases i
  {
    if i > 0 {
      assert s[1..][i - 1..i - 1 + |p|] == s[i..i + |p|];
      IncludesAt(s[1..], p, i - 1);
    }
  }

  // ---------------------------------------------------------------------------
  // String.prototype.replace with a string pattern

  /**
   * The text `replace` puts in place of a match of a string pattern (the GetSubstitution
   * operation of ECMA-262, with no capture groups): in `q`, `$$` stands for `$`, `$&` for the
   * matched text, `` $` `` for the text before the match and `$'` for the text after it; every
   * other character, any other `$` included, stands for itself.
   */
  function Substitute(q: string, matched: string, before: string, after: string): string
    decreases |q|
  {
    if q == [] then []
    else if |q| >= 2 && q[0] == '$' && q[1] == '$' then "$" + Substitute(q[2..], matched, before, after)
    else if |q| >= 2 && q[0] == '$' && q[1] == '&' then matched + Substitute(q[2..], matched, before, after)
    else if |q| >= 2 && q[0] == '$' && q[1] == '`' then before + Substitute(q[2..], matched, before, after)
    else if |q| >= 2 && q[0] == '$' && q[1] == '\'' then after + Substitute(q[2..], matched, before, after)
    else [q[0]] + Substitute(q[1..], matched, before, after)
  }

  /** A replacement without `$` is inserted literally. */
  lemma {:induction false} SubstituteLiteral(q: string, matched: string, before: string, after: string)
    requires '$' !in q
    ensures Substitute(q, matched, before, after) == q
    decreases |q|
  {
    if q != [] {
      SubstituteLiteral(q[1..], matched, before, after);
    }
  }

  /** `q` with every `$` doubled, the form that makes `replace` insert `q` literally. */
  function EscapeDollars(q: string): string
    decreases |q|
  {
    if q == [] then []
    else (if q[0] == '$' then "$$" else [q[0]]) + EscapeDollars(q[1..])
  }

  /** `replace` expands an escaped replacement back to the text it escapes. */
  lemma {:induction false} SubstituteEscaped(q: string, matched: string, before: string, after: string)
    ensures Substitute(EscapeDollars(q), matched, before, after) == q
    decreases |q|
  {
    if q != [] {
      SubstituteEscaped(q[1..], matched, before, after);
      var rest := EscapeDollars(q[1..]);
      if q[0] == '$' {
        assert EscapeDollars(q) == "$$" + rest;
        assert ("$$" + rest)[2..] == rest;
      } else {
        assert EscapeDollars(q) == [q[0]] + rest;
        assert ([q[0]] + rest)[1..] == rest;
      }
    }
  }

  /**
   * `s.replace(p, q)` with a string pattern: only the FIRST occurrence of `p` is replaced, by
   * `q` with its `$` patterns expanded; without an occurrence `s` is returned as it is.
   */
  function ReplaceFirst(s: string, p: string, q: string): (r: string)
    ensures IndexOf(s, p).None? ==> r == s
  {
    match IndexOf(s, p)
    case None => s
    case Some(i) => s[..i] + Substitute(q, p, s[..i], s[i + |p|..]) + s[i + |p|..]
  }

  /** With a `$`-free replacement, `replace` splices `q` in literally at the first occurrence. */
  lemma ReplaceFirstSplices(s: string, p: string, q: string, i: nat)
    requires IndexOf(s, p) == Some(i) && '$' !in q
    ensures i + |p| <= |s| && ReplaceFirst(s, p, q) == s[..i] + q + s[i + |p|..]
  {
    ReplaceFirstAt(s, p, q, i);
    SubstituteLiteral(q, p, s[..i], s[i + |p|..]);
  }

  /** At the first occurrence, `replace` puts the expanded replacement between the text around it. */
  lemma ReplaceFirstAt(s: string, p: string, q: string, i: nat)
    requires IndexOf(s, p) == Some(i)
    ensures i + |p| <= |s| && ReplaceFirst(s, p, q) == s[..i] + Substitute(q, p, s[..i], s[i + |p|..]) + s[i + |p|..]
  {
  }

  /** A string that starts with `p` gets exactly that leading `p` replaced. */
  lemma ReplaceFirstAtStart(p: string, rest: string, q: string)
    ensures ReplaceFirst(p + rest, p, q) == Substitute(q, p, "", rest) + rest
  {
    assert StartsWith(p + rest, p);
    assert (p + rest)[..0] == "";
    assert (p + rest)[|p|..] == rest;
  }

  /** Replacing a `$`-free pattern by itself changes nothing. */
  lemma ReplaceFirstSelf(s: string, p: string)
    requires '$' !in p
    ensures ReplaceFirst(s, p, p) == s
  {
    match IndexOf(s, p)
    case None =>
    case Some(i) =>
      ReplaceFirstSplices(s, p, p, i);
      SliceThree(s, i, i + |p|);
  }

  /** A string is the concatenation of its three slices at `i` and `j`. */
  lemma SliceThree(s: string, i: nat, j: nat)
    requires i <= j <= |s|
    ensures s == s[..i] + s[i..j] + s[j..]
  {
    assert s[..j] == s[..i] + s[i..j];
  }

  // ---------------------------------------------------------------------------
  // String.prototype.split destructured into two names

  /** The text of `s` before the first `c` (all of `s` when `c` does not occur). */
  function TakeUntil(s: string, c: char): (r: string)
    ensures c !in r && StartsWith(s, r)
    ensures |r| < |s| ==> s[|r|] == c
  {
    if s == [] || s[0] == c then [] else [s[0]] + TakeUntil(s[1..], c)
  }

  /**
   * `const [a, b] = s.split(c)`: `a` is the text before the first `c`; `b` is the text
   * between the first and the second `c` (or to the end), and undefined when `c` does not occur.
   */
  function SplitFirstTwo(s: string, c: char): (r: (string, Option<string>))
    ensures c !in r.0
    ensures r.1.None? <==> c !in s
    ensures r.1.None? ==> r.0 == s
    ensures r.1.Some? ==> c !in r.1.value && StartsWith(s, r.0 + [c] + r.1.value)
    ensures r.1.Some? ==> |r.0| + 1 + |r.1.value| == |s| || s[|r.0| + 1 + |r.1.value|] == c
  {
    var a := TakeUntil(s, c);
    if |a| == |s| then
      assert a == s;
      (s, None)
    else
      var b := TakeUntil(s[|a| + 1..], c);
      assert s[..|a| + 1 + |b|] == a + [c] + b by {
        assert s[..|a|] == a;
        assert s[|a| + 1..][..|b|] == b;
      }
      assert c in s by { assert s[|a|] == c; }
      (a, Some(b))
  }

  /** Splitting `a + c + b` with no other `c` gives back `a` and `b`. */
  lemma {:induction false} SplitJoin(a: string, b: string, c: char)
    requires c !in a && c !in b
    ensures SplitFirstTwo(a + [c] + b, c) == (a, Some(b))
  {
    var s := a + [c] + b;
    assert s == a + ([c] + b);
    TakeUntilStops(a, [c] + b, c);
    assert s[|a| + 1..] == b + [];
    TakeUntilStops(b, [], c);
  }

  /** `TakeUntil` stops at the first `c` after a `c`-free prefix. */
  lemma {:induction false} TakeUntilStops(a: string, rest: string, c: char)
    requires c !in a
    requires rest == [] || rest[0] == c
    ensures TakeUntil(a + rest, c) == a
    decreases |a|
  {
    if a != [] {
      assert (a + rest)[1..] == a[1..] + rest;
      TakeUntilStops(a[1..], rest, c);
    }
  }

  /** JavaScript's template rendering `${x}` of a possibly undefined string. */
  function Show(x: Option<string>): (r: string)
    ensures x.Some? ==> r == x.value
    ensures x.None? ==> r == "undefined"
  {
    match x
    case Some(v) => v
    case None => "undefined"
  }

  // ---------------------------------------------------------------------------
  // String.prototype.trim

  /**
   * The characters `trim` removes: ECMAScript WhiteSpace and LineTerminator code points
   * (tab, line feed, vertical tab, form feed and carriage return are U+0009 to U+000D).
   */
  predicate IsJsWhitespace(ch: char) {
    || ('\t' <= ch <= '\r') || ch == ' ' || ch == '\U{00A0}' || ch == '\U{1680}'
    || ('\U{2000}' <= ch <= '\U{200A}') || ('\U{2028}' <= ch <= '\U{2029}')
    || ch == '\U{202F}' || ch == '\U{205F}' || ch == '\U{3000}' || ch == '\U{FEFF}'
  }

  /** `s` with its leading whitespace removed. */
  function TrimStart(s: string): (r: string)
    ensures |r| <= |s| && r == s[|s| - |r|..]
  {
    if s != [] && IsJsWhitespace(s[0]) then TrimStart(s[1..]) else s
  }

  /** What `trimStart` removes is whitespace. */
  lemma {:induction false} TrimStartLeading(s: string)
    ensures forall i :: 0 <= i < |s| - |TrimStart(s)| ==> IsJsWhitespace(s[i])
    decreases |s|
  {
    if s != [] && IsJsWhitespace(s[0]) {
      var u := s[1..];
      TrimStartLeading(u);
      forall i | 0 < i < |s| - |TrimStart(s)| ensures IsJsWhitespace(s[i]) {
        assert s[i] == u[i - 1];
      }
    }
  }

  /** `trimStart` removes all the leading whitespace. */
  lemma {:induction false} TrimStartFirst(s: string)
    ensures TrimStart(s) != [] ==> !IsJsWhitespace(TrimStart(s)[0])
    decreases |s|
  {
    if s != [] && IsJsWhitespace(s[0]) {
      TrimStartFirst(s[1..]);
    }
  }

  /** `s` with its trailing whitespace removed. */
  function TrimEnd(s: string): (r: string)
    ensures |r| <= |s| && r == s[..|r|]
  {
    if s != [] && IsJsWhitespace(s[|s| - 1]) then TrimEnd(s[..|s| - 1]) else s
  }

  /** What `trimEnd` removes is whitespace. */
  lemma {:induction false} TrimEndTrailing(s: string)
    ensures forall i :: |TrimEnd(s)| <= i < |s| ==> IsJsWhitespace(s[i])
    decreases |s|
  {
    if s != [] && IsJsWhitespace(s[|s| - 1]) {
      var u := s[..|s| - 1];
      TrimEndTrailing(u);
      forall i | |TrimEnd(s)| <= i < |s| - 1 ensures IsJsWhitespace(s[i]) {
        assert s[i] == u[i];
      }
    }
  }

  /** `trimEnd` removes all the trailing whitespace. */
  lemma {:induction false} TrimEndLast(s: string)
    ensures TrimEnd(s) != [] ==> !IsJsWhitespace(TrimEnd(s)[|TrimEnd(s)| - 1])
    decreases |s|
  {
    if s != [] && IsJsWhitespace(s[|s| - 1]) {
      TrimEndLast(s[..|s| - 1]);
    }
  }

  /** `s.trim()`. */
  function Trim(s: string): (r: string)
  {
    TrimEnd(TrimStart(s))
  }

  /** Everything after the trimmed slice is whitespace. */
  lemma TrimTrailing(s: string)
    ensures forall k :: |s| - |TrimStart(s)| + |Trim(s)| <= k < |s| ==> IsJsWhitespace(s[k])
  {
    forall k | |s| - |TrimStart(s)| + |Trim(s)| <= k < |s| ensures IsJsWhitespace(s[k]) {
      TrimTrailingAt(s, k);
    }
  }

  /** One character after the trimmed slice is whitespace. */
  lemma TrimTrailingAt(s: string, k: nat)
    requires |s| - |TrimStart(s)| + |Trim(s)| <= k < |s|
    ensures IsJsWhitespace(s[k])
  {
    var t := TrimStart(s);
    TrimEndTrailing(t);
    assert s[k] == t[k - (|s| - |t|)];
  }

  /** The trimmed string does not start with whitespace. */
  lemma TrimFirst(s: string)
    ensures Trim(s) != [] ==> !IsJsWhitespace(Trim(s)[0])
  {
    var t := TrimStart(s);
    var r := TrimEnd(t);
    TrimStartFirst(s);
    if r != [] {
      assert r[0] == t[0];
    }
  }

  /** The trimmed string does not end with whitespace. */
  lemma TrimLast(s: string)
    ensures Trim(s) != [] ==> !IsJsWhitespace(Trim(s)[|Trim(s)| - 1])
  {
    TrimEndLast(TrimStart(s));
  }

  /** `trim` is idempotent. */
  lemma TrimIdempotent(s: string)
    ensures Trim(Trim(s)) == Trim(s)
  {
    var r := Trim(s);
    if r != [] {
      TrimFirst(s);
      TrimLast(s);
      assert TrimStart(r) == r;
      assert TrimEnd(r) == r;
    }
  }

  /** `!s || s.trim() === ""`: the string is empty or whitespace only. */
  predicate IsBlank(s: string) {
    Trim(s) == ""
  }

  /** A string is blank exactly when every character in it is whitespace. */
  lemma BlankIffAllWhitespace(s: string)
    ensures IsBlank(s) <==> forall i :: 0 <= i < |s| ==> IsJsWhitespace(s[i])
  {
    if forall i :: 0 <= i < |s| ==> IsJsWhitespace(s[i]) {
      AllWhitespaceTrimsStart(s);
    }
    if IsBlank(s) {
      TrimStartLeading(s);
      TrimTrailing(s);
    }
  }

  lemma {:induction false} AllWhitespaceTrimsStart(s: string)
    requires forall i :: 0 <= i < |s| ==> IsJsWhitespace(s[i])
    ensures TrimStart(s) == ""
  {
    if s != [] {
      AllWhitespaceTrimsStart(s[1..]);
    }
  }

  // ---------------------------------------------------------------------------
  // Arrays: filter and Set-based de-duplication

  /** A non-empty sequence is all but its last element, then that element. */
  lemma InitLast<T>(s: seq<T>)
    requires s != []
    ensures s[..|s| - 1] + [s[|s| - 1]] == s
  {
  }

  /** No element occurs twice. */
  predicate Distinct<T(==)>(xs: seq<T>) {
    forall i, j :: 0 <= i < j < |xs| ==> xs[i] != xs[j]
  }

  /** `xs.filter(p)`. */
  function Filter<T(!new)>(xs: seq<T>, p: T -> bool): (r: seq<T>)
    ensures |r| <= |xs|
    ensures forall x :: x in r <==> x in xs && p(x)
  {
    if xs == [] then []
    else Filter(xs[..|xs| - 1], p) + (if p(xs[|xs| - 1]) then [xs[|xs| - 1]] else [])
  }

  /** `filter` keeps the relative order: it distributes over concatenation. */
  lemma {:induction false} FilterConcat<T(!new)>(a: seq<T>, b: seq<T>, p: T -> bool)
    ensures Filter(a + b, p) == Filter(a, p) + Filter(b, p)
    decreases |b|
  {
    if b != [] {
      var b' := b[..|b| - 1];
      assert (a + b)[..|a + b| - 1] == a + b';
      FilterConcat(a, b', p);
    } else {
      assert a + b == a;
    }
  }

  /** `filter` with a predicate every element meets changes nothing. */
  lemma {:induction false} FilterKeepsAll<T(!new)>(xs: seq<T>, p: T -> bool)
    requires forall i :: 0 <= i < |xs| ==> p(xs[i])
    ensures Filter(xs, p) == xs
  {
    if xs != [] {
      var init := xs[..|xs| - 1];
      forall i | 0 <= i < |init| ensures p(init[i]) {
        assert init[i] == xs[i];
      }
      FilterKeepsAll(init, p);
      assert p(xs[|xs| - 1]);
      InitLast(xs);
    }
  }

  /** `filter` with a predicate no element meets gives the empty array. */
  lemma FilterNone<T(!new)>(xs: seq<T>, p: T -> bool)
    requires forall i :: 0 <= i < |xs| ==> !p(xs[i])
    ensures Filter(xs, p) == []
  {
  }

  /** `[...new Set(xs)]`: the first occurrence of each element, in order. */
  function Dedup<T(==,!new)>(xs: seq<T>): (r: seq<T>)
    ensures Distinct(r)
    ensures forall x :: x in r <==> x in xs
    ensures |r| <= |xs|
  {
    if xs == [] then []
    else
      var d := Dedup(xs[..|xs| - 1]);
      var x := xs[|xs| - 1];
      if x in d then d else d + [x]
  }

  /** De-duplicating a sequence that has no duplicates changes nothing. */
  lemma {:induction false} DedupOfDistinct<T(!new)>(xs: seq<T>)
    requires Distinct(xs)
    ensures Dedup(xs) == xs
  {
    if xs != [] {
      var init := xs[..|xs| - 1];
      DedupOfDistinct(init);
      assert xs[|xs| - 1] !in init;
      assert init + [xs[|xs| - 1]] == xs;
    }
  }

  /**
   * Appending elements that are already present adds nothing: the union of a
   * duplicate-free `xs` with a `ys` drawn from it is `xs` itself, in `xs`'s order.
   */
  lemma {:induction false} DedupAbsorbs<T(!new)>(xs: seq<T>, ys: seq<T>)
    requires Distinct(xs)
    requires forall y :: y in ys ==> y in xs
    ensures Dedup(xs + ys) == xs
    decreases |ys|
  {
    if ys == [] {
      assert xs + ys == xs;
      DedupOfDistinct(xs);
    } else {
      var ys' := ys[..|ys| - 1];
      assert (xs + ys)[..|xs + ys| - 1] == xs + ys';
      DedupAbsorbs(xs, ys');
    }
  }

  /** The position of the first occurrence of `x` in `xs`. */
  function FirstIndex<T(==)>(xs: seq<T>, x: T): (r: nat)
    requires x in xs
    ensures r < |xs| && xs[r] == x && x !in xs[..r]
  {
    if xs[0] == x then 0 else 1 + FirstIndex(xs[1..], x)
  }

  /**
   * De-duplication keeps first-occurrence order: an element listed before another in the
   * result occurs for the first time earlier in the input.
   */
  lemma {:induction false} DedupKeepsFirstOrder<T(!new)>(xs: seq<T>, i: nat, j: nat)
    requires i < j < |Dedup(xs)|
    ensures FirstIndex(xs, Dedup(xs)[i]) < FirstIndex(xs, Dedup(xs)[j])
    decreases |xs|
  {
    var init := xs[..|xs| - 1];
    var d := Dedup(init);
    var x := xs[|xs| - 1];
    var r := Dedup(xs);
    assert r[i] in init by {
      if j < |d| { assert r[i] == d[i]; } else { assert r[i] == d[i]; }
    }
    FirstIndexInPrefix(xs, init, r[i]);
    if j < |d| {
      assert r[j] == d[j] && r[i] == d[i];
      DedupKeepsFirstOrder(init, i, j);
      FirstIndexInPrefix(xs, init, r[j]);
    } else {
      assert r[j] == x && x !in init;
      assert FirstIndex(xs, x) == |xs| - 1 by {
        var k := FirstIndex(xs, x);
      }
    }
  }

  /** First positions agree between a sequence and a prefix that already holds the element. */
  lemma FirstIndexInPrefix<T>(xs: seq<T>, init: seq<T>, x: T)
    requires |init| <= |xs| && init == xs[..|init|] && x in init
    ensures FirstIndex(xs, x) == FirstIndex(init, x)
  {
    var a, b := FirstIndex(xs, x), FirstIndex(init, x);
    assert xs[b] == init[b];
  }

  /** `xs.findIndex(p)`, with `None` for -1. */
  function FindIndex<T>(xs: seq<T>, p: T -> bool): (r: Option<nat>)
    ensures r.Some? ==> r.value < |xs| && p(xs[r.value])
    ensures r.Some? ==> forall j :: 0 <= j < r.value ==> !p(xs[j])
    ensures r.None? ==> forall j :: 0 <= j < |xs| ==> !p(xs[j])
  {
    if xs == [] then None
    else if p(xs[0]) then Some(0)
    else
      match FindIndex(xs[1..], p)
      case None => None
      case Some(i) => Some(i + 1)
  }

  // ---------------------------------------------------------------------------
  // Objects with string keys, as association lists in insertion order

  /** `Object.keys(obj)`. */
  function Keys<V>(kvs: seq<(string, V)>): (r: seq<string>)
    ensures |r| == |kvs|
  {
    if kvs == [] then [] else [kvs[0].0] + Keys(kvs[1..])
  }

  /** The i-th key is the key of the i-th entry. */
  lemma {:induction false} KeysAt<V>(kvs: seq<(string, V)>, i: nat)
    requires i < |kvs|
    ensures Keys(kvs)[i] == kvs[i].0
  {
    if i > 0 {
      KeysAt(kvs[1..], i - 1);
    }
  }

  /** `Object.keys` distributes over concatenation. */
  lemma {:induction false} KeysConcat<V>(a: seq<(string, V)>, b: seq<(string, V)>)
    ensures Keys(a + b) == Keys(a) + Keys(b)
  {
    if a != [] {
      assert (a + b)[1..] == a[1..] + b;
      KeysConcat(a[1..], b);
    } else {
      assert a + b == b;
    }
  }

  /** `obj[k]`, `None` for undefined: the value under the first entry with key `k`. */
  function Lookup<V>(kvs: seq<(string, V)>, k: string): (r: Option<V>)
    ensures r.None? <==> k !in Keys(kvs)
  {
    if kvs == [] then None
    else if kvs[0].0 == k then Some(kvs[0].1)
    else Lookup(kvs[1..], k)
  }

  /** Reading a key from two lists joined: the first list wins where it holds the key. */
  lemma {:induction false} LookupConcat<V>(a: seq<(string, V)>, b: seq<(string, V)>, k: string)
    ensures Lookup(a + b, k) == if k in Keys(a) then Lookup(a, k) else Lookup(b, k)
  {
    if a == [] {
      assert a + b == b;
    } else {
      assert (a + b)[1..] == a[1..] + b;
      assert Keys(a) == [a[0].0] + Keys(a[1..]);
      LookupConcat(a[1..], b, k);
    }
  }

  /** Reading a key from a non-empty list: the entries before the last win where they hold the key. */
  lemma LookupSnoc<V>(kvs: seq<(string, V)>, k: string)
    requires kvs != []
    ensures var init := kvs[..|kvs| - 1];
            var last := kvs[|kvs| - 1];
            Lookup(kvs, k) == if k in Keys(init) then Lookup(init, k) else if k == last.0 then Some(last.1) else None
  {
    var init := kvs[..|kvs| - 1];
    var last := kvs[|kvs| - 1];
    InitLast(kvs);
    LookupConcat(init, [last], k);
  }

  /** The keys of a list are the keys of all but its last entry, then the last key. */
  lemma KeysSnoc<V>(kvs: seq<(string, V)>)
    requires kvs != []
    ensures Keys(kvs) == Keys(kvs[..|kvs| - 1]) + [kvs[|kvs| - 1].0]
    ensures Distinct(Keys(kvs)) ==> Distinct(Keys(kvs[..|kvs| - 1])) && kvs[|kvs| - 1].0 !in Keys(kvs[..|kvs| - 1])
  {
    var init := kvs[..|kvs| - 1];
    InitLast(kvs);
    KeysConcat(init, [kvs[|kvs| - 1]]);
    assert Keys([kvs[|kvs| - 1]]) == [kvs[|kvs| - 1].0];
    if Distinct(Keys(kvs)) {
      DistinctSnoc(Keys(init), kvs[|kvs| - 1].0);
    }
  }

  /** Dropping the last element keeps a sequence duplicate-free, and that element is not among the rest. */
  lemma DistinctSnoc<T>(xs: seq<T>, x: T)
    requires Distinct(xs + [x])
    ensures Distinct(xs) && x !in xs
  {
    var ys := xs + [x];
    forall i, j | 0 <= i < j < |xs| ensures xs[i] != xs[j] {
      assert xs[i] == ys[i] && xs[j] == ys[j];
    }
    forall i | 0 <= i < |xs| ensures xs[i] != x {
      assert xs[i] == ys[i] && x == ys[|xs|];
    }
  }

  /** Appending an element not yet present keeps a sequence duplicate-free. */
  lemma DistinctAppend<T>(xs: seq<T>, x: T)
    requires Distinct(xs) && x !in xs
    ensures Distinct(xs + [x])
  {
    var ys := xs + [x];
    forall i, j | 0 <= i < j < |ys| ensures ys[i] != ys[j] {
      if j < |xs| {
        assert ys[i] == xs[i] && ys[j] == xs[j];
      } else {
        assert ys[i] == xs[i] && ys[j] == x;
      }
    }
  }

  /**
   * `obj[k] = v`: a new key is appended at the end of the insertion order; an existing
   * key keeps its position and gets the new value.
   */
  function Put<V>(kvs: seq<(string, V)>, k: string, v: V): (r: seq<(string, V)>)
  {
    if kvs == [] then [(k, v)]
    else if kvs[0].0 == k then [(k, v)] + kvs[1..]
    else [kvs[0]] + Put(kvs[1..], k, v)
  }

  /** A key not yet present is appended; a present key keeps the key order. */
  lemma {:induction false} PutKeys<V>(kvs: seq<(string, V)>, k: string, v: V)
    ensures k !in Keys(kvs) ==> Put(kvs, k, v) == kvs + [(k, v)]
    ensures k in Keys(kvs) ==> Keys(Put(kvs, k, v)) == Keys(kvs)
  {
    if kvs != [] && kvs[0].0 != k {
      PutKeys(kvs[1..], k, v);
      assert Put(kvs, k, v) == [kvs[0]] + Put(kvs[1..], k, v);
      assert Keys(Put(kvs, k, v)) == [kvs[0].0] + Keys(Put(kvs[1..], k, v));
      assert kvs == [kvs[0]] + kvs[1..];
    }
  }

  /** Assigning the last entry of a duplicate-free list to the rest of it gives the list back. */
  lemma PutLast<V>(kvs: seq<(string, V)>)
    requires kvs != [] && Distinct(Keys(kvs))
    ensures Put(kvs[..|kvs| - 1], kvs[|kvs| - 1].0, kvs[|kvs| - 1].1) == kvs
  {
    var init := kvs[..|kvs| - 1];
    var last := kvs[|kvs| - 1];
    KeysSnoc(kvs);
    PutKeys(init, last.0, last.1);
    InitLast(kvs);
  }

  /** Assigning key after key gives the keys in order of first assignment. */
  lemma PutDedupKeys<V>(kvs: seq<(string, V)>, names: seq<string>, k: string, v: V)
    requires Keys(kvs) == Dedup(names)
    ensures Keys(Put(kvs, k, v)) == Dedup(names + [k])
  {
    PutKeys(kvs, k, v);
    assert (names + [k])[..|names|] == names;
    if k !in Keys(kvs) {
      KeysConcat(kvs, [(k, v)]);
    }
  }

  /** Assignment keeps the keys duplicate-free, and reading the key back gives the value just written. */
  lemma {:induction false} PutSpec<V>(kvs: seq<(string, V)>, k: string, v: V)
    requires Distinct(Keys(kvs))
    ensures Distinct(Keys(Put(kvs, k, v)))
    ensures Lookup(Put(kvs, k, v), k) == Some(v)
    ensures forall k' :: k' != k ==> Lookup(Put(kvs, k, v), k') == Lookup(kvs, k')
  {
    if kvs != [] {
      var tail := kvs[1..];
      assert Keys(tail) == Keys(kvs)[1..];
      if kvs[0].0 == k {
        assert Put(kvs, k, v)[1..] == tail;
      } else {
        PutSpec(tail, k, v);
        PutKeys(tail, k, v);
        var r := Put(kvs, k, v);
        assert r[1..] == Put(tail, k, v);
        assert Keys(r) == [kvs[0].0] + Keys(Put(tail, k, v));
        if k in Keys(tail) {
          assert Keys(Put(tail, k, v)) == Keys(tail);
        } else {
          KeysConcat(tail, [(k, v)]);
          assert Keys(Put(tail, k, v)) == Keys(tail) + [k];
        }
      }
    }
  }

  /** In a duplicate-free association list, looking up the i-th key gives the i-th value. */
  lemma {:induction false} LookupDistinct<V>(kvs: seq<(string, V)>, i: nat)
    requires Distinct(Keys(kvs)) && i < |kvs|
    ensures Lookup(kvs, kvs[i].0) == Some(kvs[i].1)
  {
    KeysAt(kvs, i);
    KeysAt(kvs, 0);
    if i > 0 {
      assert Keys(kvs[1..]) == Keys(kvs)[1..];
      LookupDistinct(kvs[1..], i - 1);
    }
  }
}
