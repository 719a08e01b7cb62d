/** The query repair of `answer_question`: the generated query is first
    stripped of known labels and then has its union projections
    canonicalised. */
module Normalize {
  import opened Results
  import opened Text
  import opened Patterns
  import opened LabelStrip
  import opened UnionReturns

  /** `standardize_union_returns(strip_bad_labels(raw_query))`. When no
      union branch is left after stripping, the union rewrite changes
      nothing and the query is only stripped. */
  function NormalizeQuery(q: string): (r: string)
    ensures UnionFree(Strip(q)) ==> r == Strip(q)
  {
    Standardize(Strip(q))
  }

  /** After the keyword and the spaces that follow it, a match continues
      with its node reference. */
  lemma NodeReferenceAfterKeyword(s: string, m: seq<string>)
    requires IsUnionMatch(m) && Concat(m) <= s
    ensures |m[0]| + |m[1]| <= |s|
    ensures s[|m[0]| + |m[1]|..] == ("(" + m[3] + ":" + m[LabelPiece] + ")") + (Concat(m[7..]) + s[|Concat(m)|..])
  {
    MatchPieces(m);
    MatchNodeText(m);
    var c := Concat(m);
    var j := |m[0]| + |m[1]|;
    assert c[j..] == ("(" + m[3] + ":" + m[LabelPiece] + ")") + Concat(m[7..]);
    assert s == c + s[|c|..];
  }

  /** The node reference `(<var>:<label>)` at the head of a match is an
      occurrence of the label-stripping pattern when its label is one of the
      five categories. */
  lemma MatchHeadIsOccurrence(s: string)
    requires MatchAt(s).Some?
    requires MatchAt(s).value[LabelPiece] in KnownLabels
    ensures
      var m := MatchAt(s).value;
      OccurrenceAt(s[|m[0]| + |m[1]|..]) == Some(LabelOccurrence(m[3], m[5]))
  {
    var m := MatchAt(s).value;
    var o := LabelOccurrence(m[3], m[5]);
    MatchPieces(m);
    NodeReferenceAfterKeyword(s, m);
    OccurrenceAtFindsEveryOccurrence(s[|m[0]| + |m[1]|..], o);
  }

  /** No canonical projection that the pipeline writes names one of the five
      categories: in the stripped query no match starts whose first node
      carries one of them, since stripping has removed every such label. */
  lemma NormalizeNeverInjectsKnownLabel(q: string, i: nat)
    requires i <= |Strip(q)| && MatchAt(Strip(q)[i..]).Some?
    ensures MatchAt(Strip(q)[i..]).value[LabelPiece] !in KnownLabels
  {
    var s := Strip(q)[i..];
    var m := MatchAt(s).value;
    if m[LabelPiece] in KnownLabels {
      StripLeavesNoOccurrence(q);
      var j := |m[0]| + |m[1]|;
      assert s[j..] == Strip(q)[i + j..];
      MatchHeadIsOccurrence(s);
    }
  }

  /** Query text with no labelled reference to strip and no union branch to
      canonicalise passes through the pipeline unchanged. */
  lemma NormalizeKeepsCleanQuery(q: string)
    requires LabelFree(q) && UnionFree(q)
    ensures NormalizeQuery(q) == q
  {
    StripKeepsLabelFreeText(q);
  }
}
