/** Character classes and small string operations shared by the query
    rewriters and the answer renderer. Strings are `seq<char>`. */
module Text {

  /** Appending is associative; stated once so that proofs can cite it
      instead of rediscovering it among many sequence terms. */
  lemma AppendAssoc<T>(a: seq<T>, b: seq<T>, c: seq<T>)
    ensures a + (b + c) == (a + b) + c
  {
  }

  /** The character right after a prefix `a` of `s` is the first character
      of what follows `a`. */
  lemma CharAfterPrefix(s: string, a: string, b: string)
    requires a + b <= s && |b| > 0
    ensures |a| < |s| && s[|a|] == b[0]
  {
    assert (a + b)[|a|] == b[0];
  }

  /** The text `(<v>:<l>)` of a node reference followed by `t`, grouped
      three ways. */
  lemma NodeReferenceForms(v: string, l: string, t: string)
    ensures "(" + (v + ":" + l + ")") + t == "(" + v + ":" + l + ")" + t
    ensures "(" + (v + ":" + l + ")") + t == "(" + (v + (":" + (l + (")" + t))))
  {
    var p := v + ":" + l + ")";
    AppendAssoc("(", v + ":" + l, ")");
    AppendAssoc("(", v + ":", l);
    AppendAssoc("(", v, ":");
    AppendAssoc("(", p, t);
    AppendAssoc(v + ":" + l, ")", t);
    AppendAssoc(v + ":", l, ")" + t);
    AppendAssoc(v, ":", l + (")" + t));
  }

  /** A non-empty prefix of `[c] + y` is `c` followed by a prefix of `y`. */
  lemma PrefixOfCons(x: string, c: char, y: string)
    requires |x| > 0 && x <= [c] + y
    ensures x[0] == c && x[1..] <= y
  {
    assert x[1..] == ([c] + y)[1..|x|];
  }

  /** Text that agrees with `s` on its first character and whose rest is a
      prefix of the rest of `s` is a prefix of `s`. */
  lemma PrefixFromRest(x: string, s: string)
    requires |x| > 0 && |s| > 0 && x[0] == s[0] && x[1..] <= s[1..]
    ensures x <= s
  {
    assert forall i :: 1 <= i < |x| ==> x[i] == x[1..][i - 1];
  }

  /** Python's `\w`, restricted to ASCII: letters, digits and underscore.
      (Python also counts every Unicode letter and digit; see README.) */
  predicate IsWordChar(c: char) {
    ('a' <= c <= 'z') || ('A' <= c <= 'Z') || ('0' <= c <= '9') || c == '_'
  }

  /** Python's `\s` on `str` patterns: exactly the characters for which
      `str.isspace()` holds. */
  predicate IsSpace(c: char) {
    ('\U{9}' <= c <= '\U{D}') || ('\U{1C}' <= c <= '\U{20}')
    || c == '\U{85}' || c == '\U{A0}' || c == '\U{1680}'
    || ('\U{2000}' <= c <= '\U{200A}') || c == '\U{2028}' || c == '\U{2029}'
    || c == '\U{202F}' || c == '\U{205F}' || c == '\U{3000}'
  }

  /** The character classes the two patterns use: `\w`, `\s` and `[^)]`. */
  datatype Class = Word | Space | NotClose

  predicate In(c: char, k: Class) {
    match k
    case Word => IsWordChar(c)
    case Space => IsSpace(c)
    case NotClose => c != ')'
  }

  /** Every character of `s` belongs to the class `k`. */
  predicate All(s: string, k: Class) {
    forall i :: 0 <= i < |s| ==> In(s[i], k)
  }

  /** The length of the longest prefix of `s` inside class `k`: how far a
      greedy `k*` advances. */
  function Span(s: string, k: Class): (n: nat)
    ensures n <= |s|
    ensures All(s[..n], k)
    ensures n < |s| ==> !In(s[n], k)
  {
    if |s| > 0 && In(s[0], k) then 1 + Span(s[1..], k) else 0
  }

  /** A run `p` of class characters that is a prefix of `s` and is followed
      by a non-class character (or by the end) is exactly what `Span` finds. */
  lemma SpanOfDelimitedRun(s: string, p: string, k: Class)
    requires p <= s && All(p, k)
    requires |p| == |s| || !In(s[|p|], k)
    ensures Span(s, k) == |p|
  {
  }

  /** A run of class characters at the front of `s` is covered by `Span`. */
  lemma SpanCoversRun(s: string, p: string, k: Class)
    requires p <= s && All(p, k)
    ensures Span(s, k) >= |p|
  {
  }

  /** The ASCII lower-case form of a character. */
  function Lower(c: char): char {
    if 'A' <= c <= 'Z' then (c as int + 32) as char else c
  }

  /** Whether `c` matches the pattern character `p` under Python's
      `re.IGNORECASE` on `str` patterns, for a pattern character of the
      union pattern: both ASCII cases, and the long s (U+017F), which
      Python's `re` folds to `s` (the `S` of `AS`). The other non-ASCII
      partners Python knows are for `k` and `i`, which the pattern does not
      contain. */
  predicate CaseFoldMatches(c: char, p: char) {
    Lower(c) == Lower(p)
    || (Lower(p) == 's' && c == '\U{17F}')
  }

  /** `s` matches the literal `keyword` case-insensitively. */
  predicate CaseFoldEqual(s: string, keyword: string) {
    |s| == |keyword| && forall k :: 0 <= k < |s| ==> CaseFoldMatches(s[k], keyword[k])
  }

  /** `sep` occurs in `t` starting at index `k`. */
  predicate OccursAt(t: string, sep: string, k: int) {
    0 <= k && k + |sep| <= |t| && t[k..k + |sep|] == sep
  }

  /** Python's `t.split(sep)[0]` for a non-empty separator: the text before
      the first occurrence of `sep`, or all of `t` when `sep` does not occur. */
  function SplitHead(t: string, sep: string): (r: string)
    requires sep != []
    ensures r <= t
    ensures forall k :: 0 <= k < |r| ==> !OccursAt(t, sep, k)
    ensures r == t || OccursAt(t, sep, |r|)
    decreases |t|
  {
    if OccursAt(t, sep, 0) then []
    else if t == [] then []
    else
      var r' := SplitHead(t[1..], sep);
      assert forall k :: 1 <= k ==> (OccursAt(t, sep, k) <==> OccursAt(t[1..], sep, k - 1)) by {
        forall k | 1 <= k
          ensures OccursAt(t, sep, k) <==> OccursAt(t[1..], sep, k - 1)
        {
          if k + |sep| <= |t| {
            assert t[1..][k - 1..k - 1 + |sep|] == t[k..k + |sep|];
          }
        }
      }
      [t[0]] + r'
  }

  /** The split head is the only prefix before which `sep` does not occur
      and at which `sep` starts (or which is all of `t`). */
  lemma SplitHeadUnique(t: string, sep: string, p: string)
    requires sep != []
    requires p <= t
    requires forall k :: 0 <= k < |p| ==> !OccursAt(t, sep, k)
    requires p == t || OccursAt(t, sep, |p|)
    ensures SplitHead(t, sep) == p
  {
  }

  /** Python's `sep.join(xs)` on a list of strings. */
  function Join(sep: string, xs: seq<string>): string
  {
    if |xs| == 0 then ""
    else if |xs| == 1 then xs[0]
    else xs[0] + sep + Join(sep, xs[1..])
  }

  /** Joining a concatenation puts exactly one separator between the two
      joined halves. */
  lemma {:induction false} JoinAppend(sep: string, xs: seq<string>, ys: seq<string>)
    requires |xs| > 0 && |ys| > 0
    ensures Join(sep, xs + ys) == Join(sep, xs) + sep + Join(sep, ys)
  {
    if |xs| == 1 {
      assert (xs + ys)[1..] == ys;
    } else {
      JoinAppend(sep, xs[1..], ys);
      assert (xs + ys)[1..] == xs[1..] + ys;
    }
  }

  /** Decimal rendering of a natural number, as Python's `%zd`. */
  function Decimal(n: nat): string
    decreases n
  {
    if n < 10 then [('0' as int + n) as char]
    else Decimal(n / 10) + [('0' as int + n % 10) as char]
  }

  /** A literal character other than a letter matches only itself. */
  lemma CaseFoldNonLetter(c: char, p: char)
    requires !('a' <= p <= 'z') && !('A' <= p <= 'Z')
    ensures CaseFoldMatches(c, p) <==> c == p
  {
  }

  /** An occurrence of `sep` at `k` starts with the first character of `sep`. */
  lemma OccursAtFirstChar(t: string, sep: string, k: int)
    requires sep != []
    ensures OccursAt(t, sep, k) ==> t[k] == sep[0]
  {
    if OccursAt(t, sep, k) {
      assert t[k..k + |sep|][0] == t[k];
    }
  }

  /** `sep` does not occur before position `n` when its first character does
      not appear there. */
  lemma NoOccurrenceWithoutFirstChar(t: string, sep: string, n: nat)
    requires sep != [] && n <= |t| && sep[0] !in t[..n]
    ensures forall k :: 0 <= k < n ==> !OccursAt(t, sep, k)
  {
    forall k | 0 <= k < n
      ensures !OccursAt(t, sep, k)
    {
      OccursAtFirstChar(t, sep, k);
      assert t[..n][k] == t[k];
    }
  }

  /** Every character an occurrence covers is a character of `sep`. */
  lemma CharOfOccurrence(t: string, sep: string, k: int, i: int)
    requires k <= i < k + |sep|
    ensures OccursAt(t, sep, k) ==> t[i] in sep
  {
    if OccursAt(t, sep, k) {
      assert t[k..k + |sep|][i - k] == t[i];
    }
  }

  /** An occurrence that ends within `a` is an occurrence in `a`. */
  lemma OccurrenceInFront(a: string, b: string, sep: string, k: int)
    requires 0 <= k && k + |sep| <= |a|
    ensures OccursAt(a + b, sep, k) ==> OccursAt(a, sep, k)
  {
    assert (a + b)[k..k + |sep|] == a[k..k + |sep|];
  }

  /** An occurrence that starts after `a` is an occurrence in `b`. */
  lemma OccurrenceBehind(a: string, b: string, sep: string, k: int)
    requires |a| <= k
    ensures OccursAt(a + b, sep, k) ==> OccursAt(b, sep, k - |a|)
  {
    if k + |sep| <= |a + b| {
      assert (a + b)[k..k + |sep|] == b[k - |a|..k - |a| + |sep|];
    }
  }

  /** `sep` occurs nowhere in `t`. */
  predicate Lacks(t: string, sep: string) {
    forall k :: 0 <= k <= |t| ==> !OccursAt(t, sep, k)
  }

  /** Text without the first character of `sep` lacks `sep`. */
  lemma LacksWithoutFirstChar(t: string, sep: string)
    requires sep != [] && sep[0] !in t
    ensures Lacks(t, sep)
  {
    assert t[..|t|] == t;
    NoOccurrenceWithoutFirstChar(t, sep, |t|);
  }

  /** An occurrence cannot straddle a character that `sep` does not hold:
      when `a` lacks `sep` and `t` has no occurrence before `n`, then
      `a`, `c`, `t` has none before `|a| + 1 + n`. */
  lemma NoOccurrenceAcross(a: string, c: char, t: string, sep: string, n: nat)
    requires |sep| > 0 && c !in sep && Lacks(a, sep)
    requires n <= |t| && forall k :: 0 <= k < n ==> !OccursAt(t, sep, k)
    ensures forall k :: 0 <= k < |a| + 1 + n ==> !OccursAt(a + ([c] + t), sep, k)
  {
    var s := a + ([c] + t);
    forall k | 0 <= k < |a| + 1 + n
      ensures !OccursAt(s, sep, k)
    {
      if k + |sep| <= |a| {
        OccurrenceInFront(a, [c] + t, sep, k);
      } else if k <= |a| {
        assert s[|a|] == c;
        CharOfOccurrence(s, sep, k, |a|);
      } else {
        OccurrenceBehind(a, [c] + t, sep, k);
        OccurrenceBehind([c], t, sep, k - |a|);
      }
    }
  }

  /** Python's `s.split(c)` for a one-character separator: the pieces
      between consecutive occurrences of `c`. */
  function SplitOn(s: string, c: char): (r: seq<string>)
    ensures |r| >= 1
  {
    if s == [] then [[]]
    else
      var rest := SplitOn(s[1..], c);
      if s[0] == c then [[]] + rest else [[s[0]] + rest[0]] + rest[1..]
  }

  /** Text without the separator splits into itself. */
  lemma {:induction false} SplitOnWithout(x: string, c: char)
    requires c !in x
    ensures SplitOn(x, c) == [x]
  {
    if x != [] {
      assert c !in x[1..];
      SplitOnWithout(x[1..], c);
      assert [x[0]] + x[1..] == x;
    }
  }

  /** Splitting stops at the first separator. */
  lemma {:induction false} SplitOnFirst(x: string, c: char, y: string)
    requires c !in x
    ensures SplitOn(x + [c] + y, c) == [x] + SplitOn(y, c)
  {
    if x == [] {
      assert x + [c] + y == [c] + y;
      assert ([c] + y)[1..] == y;
    } else {
      assert c !in x[1..];
      SplitOnFirst(x[1..], c, y);
      assert (x + [c] + y)[1..] == x[1..] + [c] + y;
      assert [x[0]] + x[1..] == x;
    }
  }

  /** Splitting undoes joining with a one-character separator, provided no
      joined piece contains the separator. */
  lemma {:induction false} SplitOnJoin(c: char, xs: seq<string>)
    requires |xs| >= 1
    requires forall k :: 0 <= k < |xs| ==> c !in xs[k]
    ensures SplitOn(Join([c], xs), c) == xs
  {
    if |xs| == 1 {
      SplitOnWithout(xs[0], c);
    } else {
      SplitOnJoin(c, xs[1..]);
      SplitOnFirst(xs[0], c, Join([c], xs[1..]));
      assert [xs[0]] + xs[1..] == xs;
    }
  }

  /** `s` without its trailing whitespace: Python's `s.rstrip()`. */
  function StripEnd(s: string): (r: string)
    ensures r <= s
    ensures forall i :: |r| <= i < |s| ==> IsSpace(s[i])
    ensures r != [] ==> !IsSpace(r[|r| - 1])
  {
    if |s| > 0 && IsSpace(s[|s| - 1]) then StripEnd(s[..|s| - 1]) else s
  }

  /** Python's `s.strip()`: `s` without its leading and trailing whitespace.
      What is left starts where the leading whitespace ends. */
  function PyStrip(s: string): (r: string)
    ensures All(s[..Span(s, Space)], Space)
    ensures r <= s[Span(s, Space)..]
    ensures forall i :: Span(s, Space) + |r| <= i < |s| ==> IsSpace(s[i])
    ensures r != [] ==> !IsSpace(r[0]) && !IsSpace(r[|r| - 1])
  {
    var lead := Span(s, Space);
    var r := StripEnd(s[lead..]);
    assert forall i :: lead + |r| <= i < |s| ==> s[i] == s[lead..][i - lead];
    r
  }

  /** Text with no whitespace at either end is left alone by `strip`. */
  lemma PyStripKeepsTrimmed(s: string)
    requires s != [] ==> !IsSpace(s[0]) && !IsSpace(s[|s| - 1])
    ensures PyStrip(s) == s
  {
    if s != [] {
      assert Span(s, Space) == 0;
    }
  }

  /** Stripping twice is stripping once. */
  lemma PyStripIdempotent(s: string)
    ensures PyStrip(PyStrip(s)) == PyStrip(s)
  {
    PyStripKeepsTrimmed(PyStrip(s));
  }
}
