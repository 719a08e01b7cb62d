/** `strip_bad_labels`: the substitution that rewrites a node reference
    `(<var>:<Label>)` to `(<var>)` when `<Label>` is one of the five node
    categories of the knowledge graph. */
module LabelStrip {
  import opened Results
  import opened Text

  /** The five categories the substitution removes, matched case-sensitively. */
  const KnownLabels: seq<string> := ["Shield", "Spell", "Weapon", "Gift", "Entity"]

  /** One occurrence of `\((\w+):(?:Shield|Spell|Weapon|Gift|Entity)\)`. */
  datatype LabelOccurrence = LabelOccurrence(variable: string, nodeLabel: string)

  /** The text an occurrence spans. */
  function OccurrenceText(o: LabelOccurrence): string {
    "(" + o.variable + ":" + o.nodeLabel + ")"
  }

  /** The occurrence is in the language of the pattern. */
  predicate WellFormed(o: LabelOccurrence) {
    |o.variable| > 0 && All(o.variable, Word) && o.nodeLabel in KnownLabels
  }

  /** The text the substitution puts in place of an occurrence: `(\1)`. */
  function Stripped(o: LabelOccurrence): string {
    "(" + o.variable + ")"
  }

  /** Tries the pattern at the start of `s`. `\w+` is greedy and followed by
      `:`, so it takes the whole run of word characters; the alternation is
      followed by `)` and no category contains `)`, so it matches exactly when
      the text up to the next `)` is one of the categories. */
  function OccurrenceAt(s: string): (r: Option<LabelOccurrence>)
    ensures r.Some? ==> WellFormed(r.value) && OccurrenceText(r.value) <= s
  {
    if |s| == 0 || s[0] != '(' then None
    else
      var v := s[1..];
      var n := Span(v, Word);
      if n == 0 || n == |v| || v[n] != ':' then None
      else
        var w := v[n + 1..];
        var k := Span(w, NotClose);
        if k == |w| || w[..k] !in KnownLabels then None
        else
          ReferenceAtFront(s, n, k);
          Some(LabelOccurrence(v[..n], w[..k]))
  }

  /** Text made of `(`, a run, `:`, a run and `)` starts with the reference
      those parts spell. */
  lemma ReferenceAtFront(s: string, n: nat, k: nat)
    requires |s| > 0 && s[0] == '('
    requires n < |s[1..]| && s[1..][n] == ':'
    requires k < |s[1..][n + 1..]| && s[1..][n + 1..][k] == ')'
    ensures "(" + s[1..][..n] + ":" + s[1..][n + 1..][..k] + ")" <= s
  {
    var v := s[1..];
    var w := v[n + 1..];
    assert s == "(" + v[..n] + ":" + w[..k] + ")" + w[k + 1..];
  }

  /** Text starting with an occurrence, split at the occurrence's parts. */
  lemma OccurrenceParts(s: string, o: LabelOccurrence)
    requires OccurrenceText(o) <= s
    ensures s[0] == '('
    ensures s[1..] == o.variable + (":" + (o.nodeLabel + (")" + s[|OccurrenceText(o)|..])))
  {
    var t := s[|OccurrenceText(o)|..];
    assert s == OccurrenceText(o) + t;
    NodeReferenceForms(o.variable, o.nodeLabel, t);
  }

  /** A run of class characters followed by the delimiter `d` outside the
      class is read back by `Span`, with the text after the delimiter. */
  lemma RunBeforeDelimiter(w: string, p: string, d: char, rest: string, k: Class)
    requires w == p + ([d] + rest) && All(p, k) && !In(d, k)
    ensures Span(w, k) == |p| < |w|
    ensures w[..|p|] == p && w[|p|] == d && w[|p| + 1..] == rest
  {
    SpanOfDelimitedRun(w, p, k);
  }

  /** The matcher's reading of text whose parts are already known. */
  lemma OccurrenceAtReads(s: string, w: string, rest: string, v: string, l: string)
    requires |s| > 0 && s[0] == '(' && w == s[1..]
    requires 0 < |v| == Span(w, Word) < |w| && w[|v|] == ':' && w[..|v|] == v
    requires rest == w[|v| + 1..]
    requires Span(rest, NotClose) == |l| < |rest| && rest[..|l|] == l && l in KnownLabels
    ensures OccurrenceAt(s) == Some(LabelOccurrence(v, l))
  {
  }

  /** Every well-formed occurrence at the front of `s` is the one found:
      the matcher misses nothing and reads each occurrence the same way. */
  lemma OccurrenceAtFindsEveryOccurrence(s: string, o: LabelOccurrence)
    requires WellFormed(o) && OccurrenceText(o) <= s
    ensures OccurrenceAt(s) == Some(o)
  {
    var t := s[|OccurrenceText(o)|..];
    var rest := o.nodeLabel + (")" + t);
    OccurrenceParts(s, o);
    RunBeforeDelimiter(s[1..], o.variable, ':', rest, Word);
    assert All(o.nodeLabel, NotClose) by {
      assert forall l :: l in KnownLabels ==> ')' !in l;
    }
    RunBeforeDelimiter(rest, o.nodeLabel, ')', t, NotClose);
    OccurrenceAtReads(s, s[1..], rest, o.variable, o.nodeLabel);
  }

  /** There is no occurrence anywhere in `s`. */
  ghost predicate LabelFree(s: string) {
    forall i :: 0 <= i <= |s| ==> OccurrenceAt(s[i..]).None?
  }

  /** `re.sub` of the pattern by `(\1)`: scanning left to right, each
      occurrence found at the current position is replaced and the scan resumes
      after it; otherwise one character is copied. */
  function Strip(s: string): (r: string)
    ensures |r| <= |s|
    decreases |s|
  {
    if |s| == 0 then []
    else
      match OccurrenceAt(s)
      case Some(o) => Stripped(o) + Strip(s[|OccurrenceText(o)|..])
      case None => [s[0]] + Strip(s[1..])
  }

  /** Text without `(` is copied unchanged: no occurrence can start in it. */
  lemma {:induction false} StripCopiesParenFreeText(p: string, t: string)
    requires '(' !in p
    ensures Strip(p + t) == p + Strip(t)
    decreases |p|
  {
    if |p| > 0 {
      var s := p + t;
      assert s[0] == p[0] != '(';
      assert OccurrenceAt(s).None?;
      assert Strip(s) == [s[0]] + Strip(s[1..]);
      assert s[1..] == p[1..] + t;
      StripCopiesParenFreeText(p[1..], t);
    } else {
      assert p + t == t;
    }
  }

  /** An occurrence at the front is replaced by `(<var>)` and the rest of the
      text is processed after it. */
  lemma StripReplacesOccurrence(o: LabelOccurrence, t: string)
    requires WellFormed(o)
    ensures Strip(OccurrenceText(o) + t) == Stripped(o) + Strip(t)
  {
    var s := OccurrenceText(o) + t;
    OccurrenceAtFindsEveryOccurrence(s, o);
    assert s[|OccurrenceText(o)|..] == t;
  }

  /** No occurrence starts at a node reference whose text between `:` and
      the next `)` is not one of the five categories. */
  lemma NoOccurrenceAtUnknownLabel(s: string, v: string, l: string, t: string)
    requires All(v, Word) && ')' !in l && l !in KnownLabels
    requires s == "(" + (v + (":" + (l + (")" + t))))
    ensures OccurrenceAt(s).None?
  {
    var w := s[1..];
    assert w == v + (":" + (l + (")" + t)));
    SpanOfDelimitedRun(w, v, Word);
    if |v| > 0 {
      var rest := w[|v| + 1..];
      assert rest == l + (")" + t);
      SpanOfDelimitedRun(rest, l, NotClose);
      assert rest[..|l|] == l;
    }
  }

  /** A first character at which no occurrence starts, followed by
      `(`-free text, is copied together with that text. */
  lemma StripCopiesAfterNonOccurrence(s: string, p: string, t: string)
    requires |s| > 0 && OccurrenceAt(s).None?
    requires s[1..] == p + t && '(' !in p
    ensures Strip(s) == [s[0]] + (p + Strip(t))
  {
    StripFirstChar(s);
    StripCopiesParenFreeText(p, t);
  }

  /** A node reference with a label outside the five, grouped as `"(" + p`,
      is copied with the text `p` after its `(`. */
  lemma StripCopiesUnknownReference(v: string, l: string, t: string)
    requires All(v, Word) && '(' !in l && ')' !in l && l !in KnownLabels
    ensures Strip("(" + (v + ":" + l + ")") + t) == "(" + ((v + ":" + l + ")") + Strip(t))
  {
    var p := v + ":" + l + ")";
    var s := "(" + p + t;
    NodeReferenceForms(v, l, t);
    NoOccurrenceAtUnknownLabel(s, v, l, t);
    assert '(' !in v by {
      assert !IsWordChar('(');
    }
    AppendAssoc("(", p, t);
    StripCopiesAfterNonOccurrence(s, p, t);
  }

  /** A node reference whose text between `:` and the next `)` is not one of
      the five categories (another label, another letter case, or a label
      followed by properties) is copied unchanged. */
  lemma StripKeepsUnknownLabel(v: string, l: string, t: string)
    requires All(v, Word) && '(' !in l && ')' !in l && l !in KnownLabels
    ensures Strip("(" + v + ":" + l + ")" + t) == "(" + v + ":" + l + ")" + Strip(t)
  {
    StripCopiesUnknownReference(v, l, t);
    NodeReferenceForms(v, l, t);
    NodeReferenceForms(v, l, Strip(t));
    AppendAssoc("(", v + ":" + l + ")", Strip(t));
  }

  /** The same, for a node reference given by its text `r`. */
  lemma StripKeepsUnknownReference(r: string, v: string, l: string, t: string)
    requires All(v, Word) && '(' !in l && ')' !in l && l !in KnownLabels
    requires r == "(" + v + ":" + l + ")"
    ensures Strip(r + t) == r + Strip(t)
  {
    StripKeepsUnknownLabel(v, l, t);
  }

  /** The same, for an occurrence given by its text `r`. */
  lemma StripReplacesReference(r: string, o: LabelOccurrence, t: string)
    requires WellFormed(o) && r == OccurrenceText(o)
    ensures Strip(r + t) == Stripped(o) + Strip(t)
  {
    StripReplacesOccurrence(o, t);
  }

  /** The output of a non-empty input starts with `(` when an occurrence
      starts the input, and with the copied first character otherwise. */
  lemma StripFirstChar(u: string)
    ensures |u| > 0 && OccurrenceAt(u).Some? ==> |Strip(u)| > 0 && Strip(u)[0] == '('
    ensures |u| > 0 && OccurrenceAt(u).None? ==> Strip(u) == [u[0]] + Strip(u[1..])
  {
  }

  /** If the output starts with `(`-free text `q`, so does the input: the
      scan only ever writes a `(` where the input had one. */
  lemma {:induction false} StripReflectsParenFreePrefix(u: string, q: string)
    requires q <= Strip(u) && '(' !in q
    ensures q <= u
    decreases |u|
  {
    if |q| > 0 {
      StripFirstChar(u);
      if OccurrenceAt(u).None? {
        assert q[1..] <= Strip(u[1..]);
        StripReflectsParenFreePrefix(u[1..], q[1..]);
      }
    }
  }

  /** No occurrence starts at the front of a stripped replacement `(<var>)`
      followed by anything. */
  lemma NoOccurrenceAtStripped(o: LabelOccurrence, t: string)
    requires WellFormed(o)
    ensures OccurrenceAt(Stripped(o) + t).None?
  {
    var s := Stripped(o) + t;
    var v := s[1..];
    assert o.variable + ")" <= v;
    SpanOfDelimitedRun(v, o.variable, Word);
  }

  /** A replacement `(<var>)` put in front of occurrence-free text leaves it
      occurrence-free. */
  lemma StrippedKeepsLabelFree(o: LabelOccurrence, t: string)
    requires WellFormed(o) && LabelFree(t)
    ensures LabelFree(Stripped(o) + t)
  {
    var h := Stripped(o);
    var r := h + t;
    forall i | 0 <= i <= |r|
      ensures OccurrenceAt(r[i..]).None?
    {
      if i == 0 {
        NoOccurrenceAtStripped(o, t);
      } else if i < |h| {
        assert r[i..][0] == h[i] != '(';
      } else {
        assert r[i..] == t[i - |h|..];
      }
    }
  }

  /** An occurrence at the front of the copied character and the stripped
      rest is already an occurrence at the front of the input. */
  lemma CopiedOccurrenceWasInInput(s: string, o: LabelOccurrence)
    requires |s| > 0 && WellFormed(o)
    requires OccurrenceText(o) <= [s[0]] + Strip(s[1..])
    ensures OccurrenceAt(s) == Some(o)
  {
    var x := OccurrenceText(o);
    PrefixOfCons(x, s[0], Strip(s[1..]));
    OccurrenceTailParenFree(o);
    StripReflectsParenFreePrefix(s[1..], x[1..]);
    PrefixFromRest(x, s);
    OccurrenceAtFindsEveryOccurrence(s, o);
  }

  /** Where no occurrence starts in the input, none starts in the output:
      an occurrence after a copied character would have to be `(`-free text
      that the scan copied from the input, where it would have matched. */
  lemma NoOccurrenceAtCopiedChar(s: string)
    requires |s| > 0 && OccurrenceAt(s).None?
    ensures OccurrenceAt([s[0]] + Strip(s[1..])).None?
  {
    var r := [s[0]] + Strip(s[1..]);
    if OccurrenceAt(r).Some? {
      CopiedOccurrenceWasInInput(s, OccurrenceAt(r).value);
    }
  }

  /** Only the first character of an occurrence is `(`. */
  lemma OccurrenceTailParenFree(o: LabelOccurrence)
    requires WellFormed(o)
    ensures '(' !in OccurrenceText(o)[1..]
  {
    assert OccurrenceText(o)[1..] == o.variable + ":" + o.nodeLabel + ")";
    assert '(' !in o.nodeLabel by {
      assert forall l :: l in KnownLabels ==> '(' !in l;
    }
  }

  /** Copying the first character of `s`, where no occurrence starts, in
      front of the stripped rest creates no occurrence there. */
  lemma CopiedCharKeepsLabelFree(s: string)
    requires |s| > 0 && OccurrenceAt(s).None?
    requires LabelFree(Strip(s[1..]))
    ensures LabelFree([s[0]] + Strip(s[1..]))
  {
    var t := Strip(s[1..]);
    var r := [s[0]] + t;
    forall i | 0 <= i <= |r|
      ensures OccurrenceAt(r[i..]).None?
    {
      if i == 0 {
        NoOccurrenceAtCopiedChar(s);
      } else {
        assert r[i..] == t[i - 1..];
      }
    }
  }

  /** The output of `Strip` contains no occurrence: every occurrence is
      rewritten, and no rewrite creates a new one. */
  lemma {:induction false} StripLeavesNoOccurrence(s: string)
    ensures LabelFree(Strip(s))
    decreases |s|
  {
    if |s| > 0 {
      match OccurrenceAt(s)
      case Some(o) =>
        var rest := s[|OccurrenceText(o)|..];
        StripLeavesNoOccurrence(rest);
        StrippedKeepsLabelFree(o, Strip(rest));
      case None =>
        StripLeavesNoOccurrence(s[1..]);
        CopiedCharKeepsLabelFree(s);
    }
  }

  /** Text free of occurrences passes through unchanged. */
  lemma {:induction false} StripKeepsLabelFreeText(s: string)
    requires LabelFree(s)
    ensures Strip(s) == s
    decreases |s|
  {
    if |s| > 0 {
      assert OccurrenceAt(s[0..]).None?;
      assert s[0..] == s;
      assert LabelFree(s[1..]) by {
        forall i | 0 <= i <= |s[1..]|
          ensures OccurrenceAt(s[1..][i..]).None?
        {
          assert s[1..][i..] == s[i + 1..];
        }
      }
      StripKeepsLabelFreeText(s[1..]);
    }
  }

  /** An occurrence anywhere makes the output strictly shorter: the scan
      either rewrites it or rewrites an earlier occurrence overlapping it. */
  lemma {:induction false} StripShortensAtOccurrence(s: string, i: nat)
    requires i <= |s| && OccurrenceAt(s[i..]).Some?
    ensures |Strip(s)| < |s|
    decreases |s|
  {
    if |s| == 0 {
      assert false;
    }
    match OccurrenceAt(s)
    case Some(o) =>
      assert |Stripped(o)| < |OccurrenceText(o)|;
    case None =>
      assert i != 0;
      assert s[1..][i - 1..] == s[i..];
      StripShortensAtOccurrence(s[1..], i - 1);
  }

  /** `strip_bad_labels` changes its input exactly when the input contains an
      occurrence. */
  lemma StripChangesExactlyOccurrences(s: string)
    ensures Strip(s) == s <==> LabelFree(s)
  {
    if LabelFree(s) {
      StripKeepsLabelFreeText(s);
    } else {
      var i :| 0 <= i <= |s| && OccurrenceAt(s[i..]).Some?;
      StripShortensAtOccurrence(s, i);
    }
  }

  /** Applying `strip_bad_labels` twice is the same as applying it once. */
  lemma StripIdempotent(s: string)
    ensures Strip(Strip(s)) == Strip(s)
  {
    StripLeavesNoOccurrence(s);
    StripKeepsLabelFreeText(Strip(s));
  }
}
