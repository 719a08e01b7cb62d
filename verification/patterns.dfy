/** The fragment of Python's regular expressions that the union pattern is
    written in: a sequence of literals, matched under `re.IGNORECASE`, and
    greedy runs of a character class. */
module Patterns {
  import opened Results
  import opened Text

  /** One element: a literal, or a greedy run `k*` (`k+` when `nonEmpty`). */
  datatype Elem = Lit(text: string) | Run(cls: Class, nonEmpty: bool)

  /** The piece of text `p` is in the language of the element `e`. */
  predicate PieceMatches(e: Elem, p: string) {
    match e
    case Lit(t) => CaseFoldEqual(p, t)
    case Run(k, nonEmpty) => All(p, k) && (nonEmpty ==> |p| > 0)
  }

  /** Piece `i` is in the language of element `i`, for every `i`. */
  predicate Matches(es: seq<Elem>, ps: seq<string>) {
    |es| == |ps| && forall i :: 0 <= i < |es| ==> PieceMatches(es[i], ps[i])
  }

  function Concat(ps: seq<string>): string {
    if |ps| == 0 then [] else ps[0] + Concat(ps[1..])
  }

  /** Position `n` of `s` is where a greedy run of `k` stops. */
  predicate RunEndsAt(s: string, n: nat, k: Class) {
    n == |s| || (n < |s| && !In(s[n], k))
  }

  /** When the last element is a run, it stops at position `n` of `s`. */
  predicate GreedyEnd(es: seq<Elem>, s: string, n: nat) {
    |es| > 0 && es[|es| - 1].Run? ==> RunEndsAt(s, n, es[|es| - 1].cls)
  }

  /** Tries one element at the start of `s`. */
  function MatchElem(e: Elem, s: string): (r: Option<string>)
    ensures r.Some? ==> PieceMatches(e, r.value) && r.value <= s
    ensures r.Some? && e.Run? ==> RunEndsAt(s, |r.value|, e.cls)
  {
    match e
    case Lit(t) =>
      if |t| <= |s| && CaseFoldEqual(s[..|t|], t) then Some(s[..|t|]) else None
    case Run(k, nonEmpty) =>
      var n := Span(s, k);
      if nonEmpty && n == 0 then None else Some(s[..n])
  }

  /** Tries the elements in order at the start of `s`, each at the position
      where the previous one stopped, and returns the matched pieces. */
  function MatchSeq(es: seq<Elem>, s: string): (r: Option<seq<string>>)
    ensures r.Some? ==> Matches(es, r.value) && Concat(r.value) <= s
    ensures r.Some? ==> GreedyEnd(es, s, |Concat(r.value)|)
    decreases |es|
  {
    if |es| == 0 then Some([])
    else
      match MatchElem(es[0], s)
      case None => None
      case Some(p) =>
        match MatchSeq(es[1..], s[|p|..])
        case None => None
        case Some(ps) =>
          assert ([p] + ps)[1..] == ps;
          assert s == p + s[|p|..];
          Some([p] + ps)
  }

  /** No text in the language of `e` starts with a character of class `k`. */
  ghost predicate StartsOutside(e: Elem, k: Class) {
    match e
    case Lit(t) => |t| > 0 && forall c :: CaseFoldMatches(c, t[0]) ==> !In(c, k)
    case Run(k2, nonEmpty) => nonEmpty && forall c :: In(c, k2) ==> !In(c, k)
  }

  /** Every run is followed by an element that cannot start inside the run's
      class, so each greedy run is the only choice a backtracking matcher
      could make. */
  ghost predicate Separated(es: seq<Elem>) {
    forall i :: 0 <= i < |es| - 1 && es[i].Run? ==> StartsOutside(es[i + 1], es[i].cls)
  }

  /** For a separated pattern, every decomposition of a prefix of `s` into
      pieces of the elements, with a maximal last run, is the one found. */
  lemma {:induction false} MatchSeqFindsEveryMatch(es: seq<Elem>, ps: seq<string>, s: string)
    requires Separated(es) && Matches(es, ps)
    requires Concat(ps) <= s && GreedyEnd(es, s, |Concat(ps)|)
    ensures MatchSeq(es, s) == Some(ps)
    decreases |es|
  {
    if |es| > 0 {
      var p := ps[0];
      assert Concat(ps) == p + Concat(ps[1..]);
      assert p <= s;
      MatchElemFindsPiece(es, ps, s);
      var rest := s[|p|..];
      assert Concat(ps[1..]) <= rest;
      assert Separated(es[1..]);
      assert Matches(es[1..], ps[1..]);
      if |es| > 1 && es[|es| - 1].Run? {
        var n := |Concat(ps)|;
        assert n == |p| + |Concat(ps[1..])|;
        assert n < |s| ==> rest[n - |p|] == s[n];
      }
      MatchSeqFindsEveryMatch(es[1..], ps[1..], rest);
      assert [p] + ps[1..] == ps;
    }
  }

  /** The first piece of such a decomposition is what the first element
      matches. */
  lemma MatchElemFindsPiece(es: seq<Elem>, ps: seq<string>, s: string)
    requires |es| > 0 && Separated(es) && Matches(es, ps)
    requires Concat(ps) <= s && GreedyEnd(es, s, |Concat(ps)|)
    ensures MatchElem(es[0], s) == Some(ps[0])
  {
    var p := ps[0];
    assert Concat(ps) == p + Concat(ps[1..]);
    match es[0]
    case Lit(t) =>
      assert |p| == |t| && p <= s;
      assert s[..|t|] == p;
    case Run(k, nonEmpty) =>
      if |es| > 1 {
        var q := ps[1];
        assert Concat(ps[1..]) == q + Concat(ps[2..]);
        assert StartsOutside(es[1], k);
        assert |q| > 0;
        assert s[|p|] == q[0];
        match es[1]
        case Lit(t) =>
          assert CaseFoldMatches(q[0], t[0]);
        case Run(k2, _) =>
          assert In(q[0], k2);
      } else {
        assert ps[1..] == [];
      }
      SpanOfDelimitedRun(s, p, k);
      assert s[..|p|] == p;
  }

  /** The pieces from index `i` on are piece `i` followed by those after it. */
  lemma ConcatFrom(ps: seq<string>, i: nat)
    requires i < |ps|
    ensures Concat(ps[i..]) == ps[i] + Concat(ps[i + 1..])
  {
    assert ps[i..][1..] == ps[i + 1..];
  }

  /** The pieces before index `i`, piece `i` and the pieces after it make up
      the whole text. */
  lemma {:induction false} ConcatAround(ps: seq<string>, i: nat)
    requires i < |ps|
    ensures Concat(ps) == Concat(ps[..i]) + ps[i] + Concat(ps[i + 1..])
    decreases i
  {
    if i > 0 {
      ConcatAround(ps[1..], i - 1);
      assert ps[1..][..i - 1] == ps[..i][1..];
      assert ps[1..][i - 1 + 1..] == ps[i + 1..];
    } else {
      assert ps[..0] == [];
    }
  }

  /** Continues a match of a first part of a pattern with the rest of the
      pattern, from where the first part stopped. */
  function Continue(first: Option<seq<string>>, es: seq<Elem>, s: string): Option<seq<string>>
  {
    if first.None? || |Concat(first.value)| > |s| then None
    else
      var rest := MatchSeq(es, s[|Concat(first.value)|..]);
      if rest.None? then None else Some(first.value + rest.value)
  }

  lemma {:induction false} ConcatCons(p: string, ps: seq<string>)
    ensures Concat([p] + ps) == p + Concat(ps)
  {
    assert ([p] + ps)[1..] == ps;
  }

  /** The text of two lists of pieces is the text of the first followed by
      the text of the second. */
  lemma {:induction false} ConcatAppend(a: seq<string>, b: seq<string>)
    ensures Concat(a + b) == Concat(a) + Concat(b)
  {
    if |a| > 0 {
      assert (a + b)[1..] == a[1..] + b;
      ConcatAppend(a[1..], b);
    } else {
      assert a + b == b;
    }
  }

  /** Matching two patterns in sequence is matching the first and then the
      second where the first stopped. */
  lemma {:induction false} MatchSeqAppend(es1: seq<Elem>, es2: seq<Elem>, s: string)
    ensures MatchSeq(es1 + es2, s) == Continue(MatchSeq(es1, s), es2, s)
    decreases |es1|
  {
    if |es1| == 0 {
      assert es1 + es2 == es2;
      assert MatchSeq(es1, s) == Some([]);
      assert s[|Concat([])|..] == s;
      var r := MatchSeq(es2, s);
      if r.Some? {
        assert [] + r.value == r.value;
      }
    } else {
      var es := es1 + es2;
      assert es[0] == es1[0];
      assert es[1..] == es1[1..] + es2;
      var e := MatchElem(es1[0], s);
      if e.Some? {
        var p := e.value;
        var s' := s[|p|..];
        MatchSeqAppend(es1[1..], es2, s');
        var r1 := MatchSeq(es1[1..], s');
        assert MatchSeq(es, s) == (var t := MatchSeq(es1[1..] + es2, s'); if t.None? then None else Some([p] + t.value));
        assert MatchSeq(es1, s) == (if r1.None? then None else Some([p] + r1.value));
        if r1.Some? {
          var ps := r1.value;
          ConcatCons(p, ps);
          assert |Concat([p] + ps)| <= |s|;
          assert s[|Concat([p] + ps)|..] == s'[|Concat(ps)|..];
          var r2 := MatchSeq(es2, s'[|Concat(ps)|..]);
          assert Continue(MatchSeq(es1, s), es2, s) == (if r2.None? then None else Some(([p] + ps) + r2.value));
          assert Continue(r1, es2, s') == (if r2.None? then None else Some(ps + r2.value));
          if r2.Some? {
            var t := ps + r2.value;
            assert MatchSeq(es1[1..] + es2, s') == Some(t);
            AppendAssoc([p], ps, r2.value);
          } else {
            assert MatchSeq(es1[1..] + es2, s') == None;
          }
        } else {
          assert MatchSeq(es1[1..] + es2, s') == None;
        }
      }
    }
  }
}
