/** Worked instances of the label-stripping laws on the node references
    the system prompt and the comments of `strip_bad_labels` name. */
module StripExamples {
  import opened Text
  import opened LabelStrip

  /** `(s:Shield)` loses its label, whatever follows it. */
  lemma StripRemovesShieldLabel(t: string)
    ensures Strip("(s:Shield)" + t) == "(s)" + Strip(t)
  {
    var o := LabelOccurrence("s", "Shield");
    assert WellFormed(o) by {
      assert All("s", Word) && "Shield" in KnownLabels;
    }
    assert OccurrenceText(o) == "(s:Shield)";
    assert Stripped(o) == "(s)";
    StripReplacesReference("(s:Shield)", o, t);
  }

  /** A label outside the five is left alone. */
  lemma StripKeepsRingLabel(t: string)
    ensures Strip("(x:Ring)" + t) == "(x:Ring)" + Strip(t)
  {
    StripKeepsUnknownReference("(x:Ring)", "x", "Ring", t);
  }

  /** A known label in another letter case is left alone: the match is
      case-sensitive. */
  lemma StripKeepsLowerCaseLabel(t: string)
    ensures Strip("(x:shield)" + t) == "(x:shield)" + Strip(t)
  {
    StripKeepsUnknownReference("(x:shield)", "x", "shield", t);
  }

  /** The text between `:` and `)` in the Anor Londo node reference. */
  const AnorLondoLabel := "Entity {name: 'Anor Londo'}"

  /** The node reference `(e:Entity {name: 'Anor Londo'})` of the system
      prompt's union example. */
  const AnorLondoNode := "(e:" + AnorLondoLabel + ")"

  /** That label text holds no parenthesis. */
  lemma AnorLondoLabelHasNoParens()
    ensures '(' !in AnorLondoLabel && ')' !in AnorLondoLabel
  {
  }

  /** That label text is none of the five categories. */
  lemma AnorLondoLabelIsUnknown()
    ensures AnorLondoLabel !in KnownLabels
  {
    assert |AnorLondoLabel| == 27;
  }

  /** A known label followed by properties is left alone: the pattern wants
      `)` right after the label. */
  lemma StripKeepsLabelWithProperties(t: string)
    ensures Strip(AnorLondoNode + t) == AnorLondoNode + Strip(t)
  {
    AnorLondoLabelHasNoParens();
    AnorLondoLabelIsUnknown();
    assert All("e", Word);
    assert AnorLondoNode == "(" + "e" + ":" + AnorLondoLabel + ")";
    StripKeepsUnknownReference(AnorLondoNode, "e", AnorLondoLabel, t);
  }
}

/** Worked instances of the union-rewriting laws on the branch the system
    prompt asks for and on a branch without a path. */
module StandardizeExamples {
  import opened Text
  import opened UnionReturns

  /** The path of the first branch of the union the system prompt shows. */
  const PromptPath := "-[:FOUND_IN]->(e:Entity {name: 'Anor Londo'}"

  /** The path holds neither `)` nor `R`. */
  lemma PromptPathChars()
    ensures |PromptPath| > 0 && All(PromptPath, NotClose) && 'R' !in PromptPath
  {
  }

  /** The path is a non-empty run without `)` and without `RETURN`. */
  lemma PromptPathFacts()
    ensures |PromptPath| > 0 && All(PromptPath, NotClose) && Lacks(PromptPath, "RETURN")
  {
    PromptPathChars();
    LacksWithoutFirstChar(PromptPath, "RETURN");
  }

  /** The variable, label and gap of that branch fit the pattern. */
  lemma PromptBranchFacts()
    ensures |"s"| > 0 && All("s", Word) && |"Shield"| > 0 && All("Shield", Word)
    ensures Lacks("s", "RETURN") && Lacks("Shield", "RETURN")
    ensures All(" \n", Space)
    ensures TypeColumn("Shield") == ", 'Shield' AS type"
  {
    LacksWithoutFirstChar("s", "RETURN");
    LacksWithoutFirstChar("Shield", "RETURN");
  }

  /** The first branch of the union the system prompt shows, with its path
      `-[:FOUND_IN]->(e:Entity {name: 'Anor Londo'})` and the line break
      before `RETURN`, is not left alone by `standardize_union_returns`: it
      gains a second type column, and a third on a second application. */
  lemma PromptExampleNotIdempotent(x: string)
    requires x == PromptedBranch("s", "Shield", PromptPath, " \n")
    ensures Standardize(x) == x + ", 'Shield' AS type"
    ensures Standardize(Standardize(x)) != Standardize(x)
  {
    PromptPathFacts();
    PromptBranchFacts();
    StandardizeNotIdempotent(x, "s", "Shield", PromptPath, " \n");
  }

  /** A path over the `CREATED_BY` relationship the system prompt lists: it
      holds an `R`, but no `RETURN`. */
  const CreatedByPath := "-[:CREATED_BY]->(e"

  /** The path is a non-empty run without `)` that holds an `R` but no
      `RETURN`: split at its `A`, which `RETURN` does not hold, neither side
      holds `RETURN`. */
  lemma CreatedByPathFacts()
    ensures |CreatedByPath| > 0 && All(CreatedByPath, NotClose) && 'R' in CreatedByPath
    ensures Lacks(CreatedByPath, "RETURN")
  {
    var a, t := "-[:CRE", "TED_BY]->(e";
    assert CreatedByPath == a + ("A" + t) && CreatedByPath[4] == 'R';
    assert Lacks(a, "RETURN") by {
      CharOfOccurrence(a, "RETURN", 0, 0);
    }
    LacksWithoutFirstChar(t, "RETURN");
    NoOccurrenceAcross(a, 'A', t, "RETURN", |t|);
  }

  /** A branch `MATCH (p:Spell)-[:CREATED_BY]->(e) RETURN p.name AS item,
      'Spell' AS type` is rewritten like the prompt's own branch: the `R` of
      its relationship does not shorten the kept text. */
  lemma CreatedByBranchGainsTypeColumn(x: string)
    requires x == PromptedBranch("p", "Spell", CreatedByPath, " ")
    ensures Standardize(x) == x + ", 'Spell' AS type"
    ensures Standardize(Standardize(x)) != Standardize(x)
  {
    CreatedByPathFacts();
    LacksWithoutFirstChar("p", "RETURN");
    LacksWithoutFirstChar("Spell", "RETURN");
    assert All("p", Word) && All("Spell", Word) && All(" ", Space);
    assert TypeColumn("Spell") == ", 'Spell' AS type";
    StandardizeNotIdempotent(x, "p", "Spell", CreatedByPath, " ");
  }

  /** A node without a path after it is not a union branch. */
  lemma StandardizeKeepsBranchWithoutPath()
    ensures Standardize("MATCH (s:Shield) RETURN s.name AS x") == "MATCH (s:Shield) RETURN s.name AS x"
  {
    OneClose("MATCH (s:Shield", " RETURN s.name AS x");
    StandardizeKeepsTextWithOneClose("MATCH (s:Shield) RETURN s.name AS x");
  }

  /** Text made of `)`-free parts around one `)` holds one `)`. */
  lemma OneClose(a: string, b: string)
    requires ')' !in a && ')' !in b
    ensures AtMostOneClose(a + ")" + b)
  {
    var s := a + ")" + b;
    forall j, k | 0 <= j < k < |s| && s[j] == ')'
      ensures s[k] != ')'
    {
      assert j == |a|;
      assert s[k] == b[k - |a| - 1];
    }
  }
}
