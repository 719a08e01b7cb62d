/** `standardize_union_returns`: the case-insensitive substitution of
    `MATCH\s*\(\w+:(\w+)\)[^)]+?\)\s*RETURN\s*(\w+)\.name\s+AS\s+\w+`
    that rewrites a branch's projection to
    `RETURN <var>.name AS item, '<Label>' AS type`. */
module UnionReturns {
  import opened Results
  import opened Text
  import opened Patterns

  /** The pattern, element by element. The lazy `[^)]+?` is written as the
      greedy `[^)]+`: neither can pass the `)` that follows it, so both stop
      at the first `)`. */
  const UnionPattern: seq<Elem> := [
    Lit("MATCH"), Run(Space, false), Lit("("), Run(Word, true), Lit(":"),
    Run(Word, true), Lit(")"),
    Run(NotClose, true), Lit(")"),
    Run(Space, false), Lit("RETURN"), Run(Space, false), Run(Word, true), Lit(".name"),
    Run(Space, true), Lit("AS"), Run(Space, true), Run(Word, true)]

  /** `MATCH\s*\(\w+:(\w+)\)`: a `MATCH` directly followed by a labelled
      node without properties. */
  const HeadPattern: seq<Elem> := UnionPattern[..7]
  /** `[^)]+?\)`: a non-empty run of non-`)` characters, then `)`. */
  const BodyPattern: seq<Elem> := UnionPattern[7..9]
  /** `\s*RETURN\s*(\w+)\.name\s+AS\s+\w+`: the projection. */
  const TailPattern: seq<Elem> := UnionPattern[9..]

  /** Indices of the pieces that carry group 1 (the label), the `RETURN`
      keyword, group 2 (the projected variable) and the discarded alias. */
  const LabelPiece := 5
  const ReturnPiece := 10
  const VariablePiece := 12

  /** A match: the text matched by each element of the pattern. */
  predicate IsUnionMatch(m: seq<string>) {
    Matches(UnionPattern, m)
  }

  /** Every run of the pattern is followed by something that cannot extend
      it, so the greedy reading is the only one. */
  lemma UnionPatternSeparated()
    ensures Separated(UnionPattern)
  {
    forall i | 0 <= i < |UnionPattern| - 1 && UnionPattern[i].Run?
      ensures StartsOutside(UnionPattern[i + 1], UnionPattern[i].cls)
    {
      forall c | CaseFoldMatches(c, 'R') || CaseFoldMatches(c, 'A')
        ensures !IsSpace(c)
      {
      }
    }
  }

  /** Tries the pattern at the start of `s`. */
  function MatchAt(s: string): (r: Option<seq<string>>)
    ensures r.Some? ==> IsUnionMatch(r.value) && Concat(r.value) <= s
    ensures r.Some? ==> RunEndsAt(s, |Concat(r.value)|, Word)
    ensures r.Some? ==> |Concat(r.value)| >= 5
  {
    var r := MatchSeq(UnionPattern, s);
    if r.Some? then
      assert Concat(r.value) == r.value[0] + Concat(r.value[1..]);
      r
    else r
  }

  /** The projection that replaces the matched one. The projected variable
      and the node label can be read back at fixed offsets. */
  function CanonicalReturn(variable: string, nodeLabel: string): (r: string)
    ensures |r| == 7 + |variable| + 16 + |nodeLabel| + 9
    ensures r[..7] == "RETURN "
    ensures r[7..7 + |variable|] == variable
    ensures r[|r| - 9 - |nodeLabel|..|r| - 9] == nodeLabel
  {
    "RETURN " + variable + ".name AS item, '" + nodeLabel + "' AS type"
  }

  /** `m.group(0).split('RETURN')[0]` followed by the canonical projection:
      the match up to its first `RETURN` (all of it when there is none),
      then the projection. */
  function Replacement(m: seq<string>): (r: string)
    requires IsUnionMatch(m)
    ensures var c := CanonicalReturn(m[VariablePiece], m[LabelPiece]);
      |c| <= |r| && r[|r| - |c|..] == c
      && r[..|r| - |c|] <= Concat(m)
      && (forall k :: 0 <= k < |r| - |c| ==> !OccursAt(Concat(m), "RETURN", k))
      && (r[..|r| - |c|] == Concat(m) || OccursAt(Concat(m), "RETURN", |r| - |c|))
  {
    SplitHead(Concat(m), "RETURN") + CanonicalReturn(m[VariablePiece], m[LabelPiece])
  }

  /** `pattern.sub(...)`: scanning left to right, each match found at the
      current position is replaced and the scan resumes after it; otherwise
      one character is copied. Text in which no match starts passes through
      unchanged. */
  function Standardize(s: string): (r: string)
    ensures UnionFree(s) ==> r == s
    decreases |s|
  {
    if |s| == 0 then []
    else
      match MatchAt(s)
      case Some(m) =>
        assert s[0..] == s;
        Replacement(m) + Standardize(s[|Concat(m)|..])
      case None =>
        UnionFreeTail(s);
        [s[0]] + Standardize(s[1..])
  }

  /** No match starts anywhere in `s`. */
  ghost predicate UnionFree(s: string) {
    forall i :: 0 <= i <= |s| ==> MatchAt(s[i..]).None?
  }

  /** Dropping the first character keeps text free of matches. */
  lemma UnionFreeTail(s: string)
    requires |s| > 0
    ensures UnionFree(s) ==> UnionFree(s[1..])
  {
    forall i | 0 <= i <= |s[1..]|
      ensures s[1..][i..] == s[i + 1..]
    {
    }
  }

  /** Every match at the front of `s` whose alias is not followed by a
      further word character is the one found. */
  lemma MatchAtFindsEveryMatch(s: string, m: seq<string>)
    requires IsUnionMatch(m) && Concat(m) <= s
    requires RunEndsAt(s, |Concat(m)|, Word)
    ensures MatchAt(s) == Some(m)
  {
    UnionPatternSeparated();
    MatchSeqFindsEveryMatch(UnionPattern, m, s);
  }

  /** The pattern is tried in three stages: the head, then the body where
      the head stopped, then the projection where the body stopped. */
  lemma MatchAtStages(s: string)
    ensures MatchAt(s) == Continue(Continue(MatchSeq(HeadPattern, s), BodyPattern, s), TailPattern, s)
  {
    assert UnionPattern == (HeadPattern + BodyPattern) + TailPattern;
    MatchSeqAppend(HeadPattern + BodyPattern, TailPattern, s);
    MatchSeqAppend(HeadPattern, BodyPattern, s);
  }

  /** Pieces whose first one is `MATCH` in some letter case start with `M`
      or `m`. */
  lemma KeywordStartsPieces(s: string, m: seq<string>)
    requires |m| > 0 && CaseFoldEqual(m[0], "MATCH") && Concat(m) <= s
    ensures s[0] == 'M' || s[0] == 'm'
  {
    assert CaseFoldMatches(m[0][0], 'M');
    assert m[0..] == m;
    ConcatFrom(m, 0);
    CharAfterPrefix(s, [], Concat(m));
  }

  /** Every match starts with the keyword `MATCH` in some letter case. */
  lemma MatchStartsWithKeyword(s: string)
    requires MatchAt(s).Some?
    ensures s[0] == 'M' || s[0] == 'm'
  {
    var m := MatchAt(s).value;
    assert PieceMatches(UnionPattern[0], m[0]);
    KeywordStartsPieces(s, m);
  }

  /** A match followed by a non-word character is replaced, and the scan
      resumes right after it. */
  lemma StandardizeRewritesMatch(m: seq<string>, t: string)
    requires IsUnionMatch(m)
    requires t == [] || !IsWordChar(t[0])
    ensures Standardize(Concat(m) + t) == Replacement(m) + Standardize(t)
  {
    var s := Concat(m) + t;
    assert |Concat(m)| == |s| || s[|Concat(m)|] == t[0];
    MatchAtFindsEveryMatch(s, m);
    assert s[|Concat(m)|..] == t;
  }

  /** Where no match starts, the first character is copied and the scan
      moves on by one. */
  lemma StandardizeCopiesFirst(s: string)
    requires |s| > 0 && MatchAt(s).None?
    ensures Standardize(s) == [s[0]] + Standardize(s[1..])
  {
  }

  /** No match starts at a character other than `M` and `m`. */
  lemma NoMatchWithoutKeyword(s: string)
    requires |s| > 0 && s[0] != 'M' && s[0] != 'm'
    ensures MatchAt(s).None?
  {
    if MatchAt(s).Some? {
      MatchStartsWithKeyword(s);
    }
  }

  /** Text without the letter `m` in either case is copied unchanged: no
      match can start in it. */
  lemma {:induction false} StandardizeCopiesKeywordFreeText(p: string, t: string)
    requires 'M' !in p && 'm' !in p
    ensures Standardize(p + t) == p + Standardize(t)
    decreases |p|
  {
    if |p| > 0 {
      StandardizeCopiesKeywordFreeChar(p, t);
      StandardizeCopiesKeywordFreeText(p[1..], t);
      assert [p[0]] + p[1..] == p;
      AppendAssoc([p[0]], p[1..], Standardize(t));
    } else {
      assert p + t == t;
    }
  }

  /** One step of that copy: the first character of `p` is copied and the
      scan goes on in the rest of `p`, then `t`. */
  lemma StandardizeCopiesKeywordFreeChar(p: string, t: string)
    requires |p| > 0 && p[0] != 'M' && p[0] != 'm'
    ensures Standardize(p + t) == [p[0]] + Standardize(p[1..] + t)
  {
    var s := p + t;
    NoMatchWithoutKeyword(s);
    StandardizeCopiesFirst(s);
    assert s[1..] == p[1..] + t;
  }

  /** Where no `MATCH` is directly followed by a labelled node without
      properties, the text is unchanged. */
  lemma StandardizeKeepsTextWithoutUnionHead(s: string)
    requires forall i :: 0 <= i <= |s| ==> MatchSeq(HeadPattern, s[i..]).None?
    ensures Standardize(s) == s
  {
    forall i | 0 <= i <= |s|
      ensures MatchAt(s[i..]).None?
    {
      MatchAtStages(s[i..]);
    }
  }

  /** When the keyword of the projection is written `RETURN` and no earlier
      `RETURN` occurs in the match, the replacement keeps the match up to the
      keyword and puts the canonical projection after it: the variable is
      the projected one, the type is the label of the first node, and the
      alias is dropped. */
  lemma ReplacementKeepsTextBeforeReturn(m: seq<string>)
    requires IsUnionMatch(m) && m[ReturnPiece] == "RETURN"
    requires forall k :: 0 <= k < |Concat(m[..ReturnPiece])| ==> !OccursAt(Concat(m), "RETURN", k)
    ensures Replacement(m) == Concat(m[..ReturnPiece]) + CanonicalReturn(m[VariablePiece], m[LabelPiece])
  {
    var p := Concat(m[..ReturnPiece]);
    ConcatAround(m, ReturnPiece);
    assert Concat(m) == p + ("RETURN" + Concat(m[ReturnPiece + 1..]));
    assert OccursAt(Concat(m), "RETURN", |p|);
    SplitHeadUnique(Concat(m), "RETURN", p);
  }

  /** When no `RETURN` in upper case occurs in the match (the keyword was
      written in another case), the whole match is kept and the canonical
      projection is appended after the original one. */
  lemma ReplacementKeepsMatchWithoutUpperReturn(m: seq<string>)
    requires IsUnionMatch(m)
    requires forall k :: 0 <= k <= |Concat(m)| ==> !OccursAt(Concat(m), "RETURN", k)
    ensures Replacement(m) == Concat(m) + CanonicalReturn(m[VariablePiece], m[LabelPiece])
  {
    SplitHeadUnique(Concat(m), "RETURN", Concat(m));
  }

  /** A match closes the first node with `)` and then closes the body with a
      later `)`. */
  lemma MatchHasTwoCloses(s: string)
    requires MatchAt(s).Some?
    ensures exists j, k :: 0 <= j < k < |s| && s[j] == ')' && s[k] == ')'
  {
    var m := MatchAt(s).value;
    MatchPieces(m);
    var lead := Concat(m[..6]);
    var tail := Concat(m[9..]);
    ConcatAround(m, 6);
    ConcatFrom(m, 7);
    ConcatFrom(m, 8);
    var body := m[7] + (")" + tail);
    AppendAssoc(lead, ")", body);
    CharAfterPrefix(s, lead, ")" + body);
    AppendAssoc(lead + ")", m[7], ")" + tail);
    CharAfterPrefix(s, lead + ")" + m[7], ")" + tail);
  }

  /** `s` holds at most one `)`. */
  predicate AtMostOneClose(s: string) {
    forall j, k :: 0 <= j < k < |s| && s[j] == ')' ==> s[k] != ')'
  }

  /** No match fits in text with at most one `)`. */
  lemma NoMatchWithOneClose(s: string)
    requires AtMostOneClose(s)
    ensures MatchAt(s).None?
  {
    if MatchAt(s).Some? {
      MatchHasTwoCloses(s);
    }
  }

  /** Text with at most one `)` is unchanged. */
  lemma StandardizeKeepsTextWithOneClose(s: string)
    requires AtMostOneClose(s)
    ensures Standardize(s) == s
  {
    forall i | 0 <= i <= |s|
      ensures MatchAt(s[i..]).None?
    {
      assert AtMostOneClose(s[i..]) by {
        forall j, k | 0 <= j < k < |s[i..]| && s[i..][j] == ')'
          ensures s[i..][k] != ')'
        {
          assert s[i + j] == ')';
        }
      }
      NoMatchWithOneClose(s[i..]);
    }
  }

  /** The pieces of a match that the pattern fixes to one character, and
      the two word runs of the node reference. */
  lemma MatchPieces(m: seq<string>)
    requires IsUnionMatch(m)
    ensures |m| == 18 && m[2] == "(" && m[4] == ":" && m[6] == ")" && m[8] == ")"
    ensures |m[3]| > 0 && All(m[3], Word) && |m[LabelPiece]| > 0 && All(m[LabelPiece], Word)
  {
    assert PieceMatches(UnionPattern[2], m[2]);
    assert PieceMatches(UnionPattern[4], m[4]);
    assert PieceMatches(UnionPattern[6], m[6]);
    assert PieceMatches(UnionPattern[8], m[8]);
    CaseFoldNonLetter(m[2][0], '(');
    CaseFoldNonLetter(m[4][0], ':');
    CaseFoldNonLetter(m[6][0], ')');
    CaseFoldNonLetter(m[8][0], ')');
  }

  /** A match starts with the keyword, the spaces after it and the node
      reference `(<var>:<label>)`. */
  lemma MatchNodeText(m: seq<string>)
    requires |m| == 18 && m[2] == "(" && m[4] == ":" && m[6] == ")"
    ensures Concat(m) == m[0] + (m[1] + (("(" + m[3] + ":" + m[LabelPiece] + ")") + Concat(m[7..])))
  {
    var r := Concat(m[7..]);
    assert m[0..] == m;
    ConcatFrom(m, 0);
    ConcatFrom(m, 1);
    ConcatFrom(m, 2);
    ConcatFrom(m, 3);
    ConcatFrom(m, 4);
    ConcatFrom(m, 5);
    ConcatFrom(m, 6);
    NodeReferenceForms(m[3], m[5], r);
  }

  /** The union branch in the form the system prompt asks the model to
      write: `MATCH (<v>:<label>)<path>)<gap>RETURN <v>.name AS item,
      '<label>' AS type`. */
  function PromptedBranch(v: string, nodeLabel: string, path: string, gap: string): string {
    BranchLead(v, nodeLabel, path, gap) + CanonicalReturn(v, nodeLabel)
  }

  /** The part of a prompted branch before its projection. */
  function BranchLead(v: string, nodeLabel: string, path: string, gap: string): string {
    "MATCH (" + v + ":" + nodeLabel + ")" + path + ")" + gap
  }

  /** The type column the canonical projection appends after the alias. */
  function TypeColumn(nodeLabel: string): string {
    ", '" + nodeLabel + "' AS type"
  }

  /** The pieces in which the pattern matches a prompted branch up to its
      alias `item`. */
  function BranchPieces(v: string, nodeLabel: string, path: string, gap: string): seq<string> {
    ["MATCH", " ", "(", v, ":", nodeLabel, ")", path, ")", gap]
    + ["RETURN", " ", v, ".name", " ", "AS", " ", "item"]
  }

  lemma BranchLeadText(v: string, nodeLabel: string, path: string, gap: string)
    ensures Concat(["MATCH", " ", "(", v, ":", nodeLabel, ")", path, ")", gap]) == BranchLead(v, nodeLabel, path, gap)
  {
    var a := ["MATCH", " ", "(", v, ":", nodeLabel, ")", path, ")", gap];
    assert a[0..] == a;
    ConcatFrom(a, 0);
    ConcatFrom(a, 1);
    ConcatFrom(a, 2);
    ConcatFrom(a, 3);
    ConcatFrom(a, 4);
    ConcatFrom(a, 5);
    ConcatFrom(a, 6);
    ConcatFrom(a, 7);
    ConcatFrom(a, 8);
    ConcatFrom(a, 9);
    assert a[10..] == [];
    var r5 := nodeLabel + (")" + (path + (")" + gap)));
    assert Concat(a) == "MATCH (" + (v + (":" + r5));
    AppendAssoc("MATCH (", v, ":" + r5);
    AppendAssoc("MATCH (" + v, ":", r5);
    AppendAssoc("MATCH (" + v + ":", nodeLabel, ")" + (path + (")" + gap)));
    AppendAssoc("MATCH (" + v + ":" + nodeLabel, ")", path + (")" + gap));
    AppendAssoc("MATCH (" + v + ":" + nodeLabel + ")", path, ")" + gap);
    AppendAssoc("MATCH (" + v + ":" + nodeLabel + ")" + path, ")", gap);
  }

  lemma BranchProjectionText(v: string)
    ensures Concat(["RETURN", " ", v, ".name", " ", "AS", " ", "item"]) == "RETURN " + v + ".name AS item"
  {
    var a := ["RETURN", " ", v, ".name", " ", "AS", " ", "item"];
    assert a[0..] == a;
    ConcatFrom(a, 0);
    ConcatFrom(a, 1);
    ConcatFrom(a, 2);
    ConcatFrom(a, 3);
    ConcatFrom(a, 4);
    ConcatFrom(a, 5);
    ConcatFrom(a, 6);
    ConcatFrom(a, 7);
    assert a[8..] == [];
  }

  /** A prompted branch is matched up to its alias, and the text before the
      projection holds no `RETURN`. */
  lemma BranchMatch(v: string, nodeLabel: string, path: string, gap: string)
    requires |v| > 0 && All(v, Word) && |nodeLabel| > 0 && All(nodeLabel, Word)
    requires |path| > 0 && All(path, NotClose) && All(gap, Space)
    ensures
      var m := BranchPieces(v, nodeLabel, path, gap);
      IsUnionMatch(m)
      && Concat(m) == BranchLead(v, nodeLabel, path, gap) + ("RETURN " + v + ".name AS item")
      && Concat(m[..ReturnPiece]) == BranchLead(v, nodeLabel, path, gap)
  {
    var m := BranchPieces(v, nodeLabel, path, gap);
    var a := ["MATCH", " ", "(", v, ":", nodeLabel, ")", path, ")", gap];
    var b := ["RETURN", " ", v, ".name", " ", "AS", " ", "item"];
    assert m[..ReturnPiece] == a;
    BranchLeadText(v, nodeLabel, path, gap);
    BranchProjectionText(v);
    ConcatAppend(a, b);
    forall i | 0 <= i < |UnionPattern|
      ensures PieceMatches(UnionPattern[i], m[i])
    {
      if i == 0 || i == 10 || i == 13 || i == 15 {
        assert CaseFoldEqual(m[i], UnionPattern[i].text);
      }
    }
  }

  /** A prompted branch followed by `tail`, grouped from the right at the
      characters that separate its parts. */
  lemma BranchLeadNested(v: string, nodeLabel: string, path: string, gap: string, tail: string)
    ensures BranchLead(v, nodeLabel, path, gap) + tail
            == "MATCH " + ("(" + (v + (":" + (nodeLabel + (")" + (path + (")" + (gap + tail))))))))
  {
  }

  /** Before its projection, a prompted branch holds no `RETURN` when its
      variable, label and path hold none: every other character of its lead
      is a space or a character that `RETURN` does not contain. */
  lemma BranchLeadHasNoReturn(v: string, nodeLabel: string, path: string, gap: string, tail: string)
    requires All(gap, Space)
    requires Lacks(v, "RETURN") && Lacks(nodeLabel, "RETURN") && Lacks(path, "RETURN")
    ensures forall k :: 0 <= k < |BranchLead(v, nodeLabel, path, gap)|
              ==> !OccursAt(BranchLead(v, nodeLabel, path, gap) + tail, "RETURN", k)
  {
    var t0 := gap + tail;
    assert t0[..|gap|] == gap;
    assert !IsSpace('R');
    NoOccurrenceWithoutFirstChar(t0, "RETURN", |gap|);
    var n0 := |gap|;
    NoOccurrenceAcross(path, ')', t0, "RETURN", n0);
    var t1 := path + (")" + t0);
    var n1 := |path| + 1 + n0;
    NoOccurrenceAcross(nodeLabel, ')', t1, "RETURN", n1);
    var t2 := nodeLabel + (")" + t1);
    var n2 := |nodeLabel| + 1 + n1;
    NoOccurrenceAcross(v, ':', t2, "RETURN", n2);
    var t3 := v + (":" + t2);
    var n3 := |v| + 1 + n2;
    LacksWithoutFirstChar("MATCH ", "RETURN");
    NoOccurrenceAcross("MATCH ", '(', t3, "RETURN", n3);
    BranchLeadNested(v, nodeLabel, path, gap, tail);
  }

  /** The canonical projection is `RETURN <v>.name AS item` followed by the
      type column. */
  lemma CanonicalReturnSplit(v: string, nodeLabel: string, lead: string)
    ensures lead + CanonicalReturn(v, nodeLabel) == (lead + ("RETURN " + v + ".name AS item")) + TypeColumn(nodeLabel)
  {
    assert CanonicalReturn(v, nodeLabel) == ("RETURN " + v + ".name AS item") + TypeColumn(nodeLabel);
  }

  /** The replacement of a prompted branch keeps everything before its
      projection. */
  lemma BranchReplacement(v: string, nodeLabel: string, path: string, gap: string)
    requires |v| > 0 && All(v, Word) && |nodeLabel| > 0 && All(nodeLabel, Word)
    requires |path| > 0 && All(path, NotClose) && All(gap, Space)
    requires Lacks(v, "RETURN") && Lacks(nodeLabel, "RETURN") && Lacks(path, "RETURN")
    ensures
      var m := BranchPieces(v, nodeLabel, path, gap);
      IsUnionMatch(m)
      && Replacement(m) == BranchLead(v, nodeLabel, path, gap) + CanonicalReturn(v, nodeLabel)
      && PromptedBranch(v, nodeLabel, path, gap) == Concat(m) + TypeColumn(nodeLabel)
      && Replacement(m) == Concat(m) + TypeColumn(nodeLabel)
  {
    var m := BranchPieces(v, nodeLabel, path, gap);
    BranchMatch(v, nodeLabel, path, gap);
    BranchLeadHasNoReturn(v, nodeLabel, path, gap, "RETURN " + v + ".name AS item");
    assert m[ReturnPiece] == "RETURN" && m[VariablePiece] == v && m[LabelPiece] == nodeLabel;
    ReplacementKeepsTextBeforeReturn(m);
    CanonicalReturnSplit(v, nodeLabel, BranchLead(v, nodeLabel, path, gap));
  }

  /** A match followed by text without `)` becomes its replacement followed
      by that text: no match fits in the text. */
  lemma StandardizeMatchThenCloseFreeText(m: seq<string>, u: string)
    requires IsUnionMatch(m)
    requires u == [] || !IsWordChar(u[0])
    requires ')' !in u
    ensures Standardize(Concat(m) + u) == Replacement(m) + u
  {
    StandardizeRewritesMatch(m, u);
    StandardizeKeepsTextWithOneClose(u);
  }

  /** The type column holds no `)`: its label is a word. */
  lemma TypeColumnHasNoClose(nodeLabel: string)
    requires All(nodeLabel, Word)
    ensures ')' !in TypeColumn(nodeLabel)
  {
    assert !IsWordChar(')');
  }

  /** A match whose replacement is the match followed by text `t` that
      cannot extend the alias and holds no `)`, followed by copies of `t`,
      grows by one more copy of `t` under the rewrite. */
  lemma StandardizeRepeatsSuffix(m: seq<string>, t: string, u: string)
    requires IsUnionMatch(m) && |t| > 0 && !IsWordChar(t[0])
    requires ')' !in t
    requires Replacement(m) == Concat(m) + t
    requires u == t || u == t + t
    ensures Standardize(Concat(m) + u) == Concat(m) + t + u
  {
    assert u[0] == t[0];
    StandardizeMatchThenCloseFreeText(m, u);
  }

  /** Text that the rewrite extends by `t` is extended by `t` again when
      rewritten a second time. */
  lemma StandardizeRewritesTwice(m: seq<string>, t: string, x: string)
    requires IsUnionMatch(m) && |t| > 0 && !IsWordChar(t[0])
    requires ')' !in t
    requires Replacement(m) == Concat(m) + t
    requires x == Concat(m) + t
    ensures Standardize(x) == x + t
    ensures Standardize(Standardize(x)) == x + t + t
  {
    var c := Concat(m);
    StandardizeRepeatsSuffix(m, t, t);
    AppendAssoc(c, t, t);
    StandardizeRepeatsSuffix(m, t, t + t);
    AppendAssoc(c + t, t, t);
  }

  /** The branch the system prompt asks for is rewritten again: a second
      type column is appended after the first, and rewriting the result once
      more appends a third, so the rewrite is not idempotent. */
  lemma StandardizeNotIdempotent(x: string, v: string, nodeLabel: string, path: string, gap: string)
    requires |v| > 0 && All(v, Word) && |nodeLabel| > 0 && All(nodeLabel, Word)
    requires |path| > 0 && All(path, NotClose) && All(gap, Space)
    requires Lacks(v, "RETURN") && Lacks(nodeLabel, "RETURN") && Lacks(path, "RETURN")
    requires x == PromptedBranch(v, nodeLabel, path, gap)
    ensures Standardize(x) == x + TypeColumn(nodeLabel)
    ensures Standardize(Standardize(x)) == x + TypeColumn(nodeLabel) + TypeColumn(nodeLabel)
    ensures Standardize(Standardize(x)) != Standardize(x)
  {
    var m := BranchPieces(v, nodeLabel, path, gap);
    var t := TypeColumn(nodeLabel);
    BranchReplacement(v, nodeLabel, path, gap);
    TypeColumnHasNoClose(nodeLabel);
    StandardizeRewritesTwice(m, t, x);
  }
}
