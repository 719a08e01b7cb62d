/** The answer synthesiser of `answer_question`: the choice of summary
    strategy from the shape of the rows, the rendering of the value list and
    of the pair bullets, the two summary prompts, and the outcome strings.
    The question-to-query chain, the graph database and the language model
    are parameters; a Python exception is a `Raised` result. */
module Answer {
  import opened Results
  import opened Text
  import opened Shaping
  import opened Normalize

  const NoResultAnswer := "No result found in the graph."
  const UnsupportedAnswer := "Unsupported result format returned from the graph."
  const ErrorPrefix := "Error running Cypher query: "

  /** `str(e)` of the `IndexError` raised by `values[0]` on an empty list. */
  const EmptyIndexError := "list index out of range"

  /** The summary strategy a shaped result set selects. */
  datatype Strategy =
    | ListSummary(values: seq<Value>)
    | PairSummary(pairs: seq<Row>)
    | UnsupportedFormat

  /** The first value of every row: `[r[0] for r in rows]`. */
  function FirstValues(shaped: seq<Row>): (r: seq<Value>)
    requires forall k :: 0 <= k < |shaped| ==> |shaped[k]| >= 1
    ensures |r| == |shaped|
    ensures forall k :: 0 <= k < |r| ==> r[k] == shaped[k][0]
  {
    if shaped == [] then [] else [shaped[0][0]] + FirstValues(shaped[1..])
  }

  /** All rows have one value: a list summary (also when there is no row at
      all, since Python's `all` of nothing holds). All rows have two values:
      a pair summary. Anything else is unsupported. */
  function Select(shaped: seq<Row>): (r: Strategy)
    ensures r.ListSummary? <==> forall k :: 0 <= k < |shaped| ==> |shaped[k]| == 1
    ensures r.PairSummary? <==> shaped != [] && forall k :: 0 <= k < |shaped| ==> |shaped[k]| == 2
    ensures r.ListSummary? ==> |r.values| == |shaped|
                               && forall k :: 0 <= k < |shaped| ==> r.values[k] == shaped[k][0]
    ensures r.PairSummary? ==> r.pairs == shaped
  {
    if forall k :: 0 <= k < |shaped| ==> |shaped[k]| == 1 then ListSummary(FirstValues(shaped))
    else if forall k :: 0 <= k < |shaped| ==> |shaped[k]| == 2 then PairSummary(shaped)
    else UnsupportedFormat
  }

  /** The position of the first value that is not a string, if any. */
  function FirstNonStr(vs: seq<Value>): (r: Option<nat>)
    ensures r.None? <==> forall k :: 0 <= k < |vs| ==> vs[k].Str?
    ensures r.Some? ==> r.value < |vs| && !vs[r.value].Str?
                        && forall k :: 0 <= k < r.value ==> vs[k].Str?
  {
    if vs == [] then None
    else if !vs[0].Str? then Some(0)
    else match FirstNonStr(vs[1..])
      case None => None
      case Some(i) => Some(i + 1)
  }

  /** The texts of a list of string values. */
  function Texts(vs: seq<Value>): (r: seq<string>)
    requires forall k :: 0 <= k < |vs| ==> vs[k].Str?
    ensures |r| == |vs|
    ensures forall k :: 0 <= k < |vs| ==> r[k] == vs[k].s
  {
    if vs == [] then [] else [vs[0].s] + Texts(vs[1..])
  }

  /** The message of the `TypeError` that `str.join` raises at item `i`. */
  function JoinTypeError(i: nat, v: Value): string {
    "sequence item " + Decimal(i) + ": expected str instance, " + TypeName(v) + " found"
  }

  /** Python's `sep.join(vs)`: the joined texts when every item is a string,
      otherwise a `TypeError` naming the first item that is not. */
  function PyJoin(sep: string, vs: seq<Value>): (r: Result<string>)
    ensures r.Ok? <==> forall k :: 0 <= k < |vs| ==> vs[k].Str?
    ensures r.Raised? ==> exists i :: 0 <= i < |vs| && !vs[i].Str?
                                      && (forall k :: 0 <= k < i ==> vs[k].Str?)
                                      && r.message == JoinTypeError(i, vs[i])
  {
    match FirstNonStr(vs)
    case None => Ok(Join(sep, Texts(vs)))
    case Some(i) => Raised(JoinTypeError(i, vs[i]))
  }

  /** The rendered value list, `value_list`: one value bare; several as the
      first ones joined by `", "`, then `", and "`, then the last one. An empty
      list raises `IndexError`, and a non-string value before the last one
      makes the join raise `TypeError`. */
  function ValueList(values: seq<Value>, repr: Value -> string): (r: Result<string>)
    ensures r.Ok? <==> |values| >= 1 && forall k :: 0 <= k < |values| - 1 ==> values[k].Str?
    ensures values == [] ==> r == Raised(EmptyIndexError)
    ensures |values| == 1 ==> r == Ok(PyStr(values[0], repr))
    ensures r.Raised? && values != [] ==>
              exists i :: 0 <= i < |values| - 1 && !values[i].Str? && r.message == JoinTypeError(i, values[i])
  {
    if |values| > 1 then
      match PyJoin(", ", values[..|values| - 1])
      case Raised(m) => Raised(m)
      case Ok(head) => Ok(head + ", and " + PyStr(values[|values| - 1], repr))
    else if |values| == 1 then Ok(PyStr(values[0], repr))
    else Raised(EmptyIndexError)
  }

  /** Reference reading of a value list: the last two items are separated by
      `", and "` and every earlier item is followed by `", "`. */
  function Listing(xs: seq<string>): string
    requires |xs| >= 1
  {
    if |xs| == 1 then xs[0]
    else if |xs| == 2 then xs[0] + ", and " + xs[1]
    else xs[0] + ", " + Listing(xs[1..])
  }

  /** Joining all but the last item and appending `", and "` and the last item
      is the reference listing. */
  lemma {:induction false} JoinedListing(xs: seq<string>)
    requires |xs| >= 2
    ensures Join(", ", xs[..|xs| - 1]) + ", and " + xs[|xs| - 1] == Listing(xs)
  {
    var n := |xs|;
    if n > 2 {
      JoinedListing(xs[1..]);
      assert xs[..n - 1][1..] == xs[1..][..n - 2];
      var rest := Join(", ", xs[1..][..n - 2]);
      assert Join(", ", xs[..n - 1]) == xs[0] + ", " + rest;
      AppendAssoc(xs[0] + ", ", rest, ", and " + xs[n - 1]);
      AppendAssoc(rest, ", and ", xs[n - 1]);
      AppendAssoc(xs[0] + ", " + rest, ", and ", xs[n - 1]);
    }
  }

  /** Joining string values joins their texts. */
  lemma PyJoinStrings(sep: string, vs: seq<Value>)
    requires forall k :: 0 <= k < |vs| ==> vs[k].Str?
    ensures PyJoin(sep, vs) == Ok(Join(sep, Texts(vs)))
  {
  }

  /** The texts of all but the last value are all but the last text. */
  lemma TextsOfInit(vs: seq<Value>)
    requires |vs| >= 1 && forall k :: 0 <= k < |vs| ==> vs[k].Str?
    ensures Texts(vs[..|vs| - 1]) == Texts(vs)[..|vs| - 1]
  {
  }

  /** On string values the rendered value list is the reference listing. */
  lemma ValueListIsListing(values: seq<Value>, repr: Value -> string)
    requires |values| >= 1 && forall k :: 0 <= k < |values| ==> values[k].Str?
    ensures ValueList(values, repr) == Ok(Listing(Texts(values)))
  {
    if |values| > 1 {
      var init := values[..|values| - 1];
      PyJoinStrings(", ", init);
      TextsOfInit(values);
      JoinedListing(Texts(values));
    }
  }

  /** A non-string value before the last one fails the list summary with the
      join's `TypeError`, naming the first such value. */
  lemma ValueListTypeError(values: seq<Value>, repr: Value -> string, i: nat)
    requires i < |values| - 1 && !values[i].Str?
    requires forall k :: 0 <= k < i ==> values[k].Str?
    ensures ValueList(values, repr) == Raised(JoinTypeError(i, values[i]))
  {
    var init := values[..|values| - 1];
    assert init[i] == values[i];
    assert FirstNonStr(init) == Some(i) by {
      assert forall k :: 0 <= k < i ==> init[k].Str?;
    }
  }

  /** One bullet line, `f"- {a} → {b}"`. */
  function Bullet(a: Value, b: Value, repr: Value -> string): string {
    "- " + PyStr(a, repr) + " \U{2192} " + PyStr(b, repr)
  }

  /** The bullet line of every pair, in order. */
  function BulletLines(pairs: seq<Row>, repr: Value -> string): (r: seq<string>)
    requires forall k :: 0 <= k < |pairs| ==> |pairs[k]| == 2
    ensures |r| == |pairs|
    ensures forall k :: 0 <= k < |pairs| ==> r[k] == Bullet(pairs[k][0], pairs[k][1], repr)
  {
    if pairs == [] then [] else [Bullet(pairs[0][0], pairs[0][1], repr)] + BulletLines(pairs[1..], repr)
  }

  /** The rendered pair list, `bullet_list`: the bullet lines joined by
      newlines. */
  function Bullets(pairs: seq<Row>, repr: Value -> string): (r: string)
    requires forall k :: 0 <= k < |pairs| ==> |pairs[k]| == 2
    ensures r == [] <==> pairs == []
    ensures pairs != [] ==> Bullet(pairs[0][0], pairs[0][1], repr) <= r
  {
    Join("\n", BulletLines(pairs, repr))
  }

  /** The value `v` renders without a newline. */
  predicate SingleLine(v: Value, repr: Value -> string) {
    '\n' !in PyStr(v, repr)
  }

  /** A bullet of single-line values is itself a single line. */
  lemma BulletIsOneLine(a: Value, b: Value, repr: Value -> string)
    requires SingleLine(a, repr) && SingleLine(b, repr)
    ensures '\n' !in Bullet(a, b, repr)
  {
  }

  /** When no rendered component holds a newline, splitting the pair list
      at newlines gives back exactly one bullet line per pair. */
  lemma BulletsSplitIntoLines(pairs: seq<Row>, repr: Value -> string)
    requires pairs != []
    requires forall k :: 0 <= k < |pairs| ==> |pairs[k]| == 2
    requires forall k :: 0 <= k < |pairs| ==> SingleLine(pairs[k][0], repr) && SingleLine(pairs[k][1], repr)
    ensures SplitOn(Bullets(pairs, repr), '\n') == BulletLines(pairs, repr)
  {
    var lines := BulletLines(pairs, repr);
    forall k | 0 <= k < |lines|
      ensures '\n' !in lines[k]
    {
      BulletIsOneLine(pairs[k][0], pairs[k][1], repr);
    }
    SplitOnJoin('\n', lines);
  }

  /** The pair list of two result sets is the two pair lists on separate
      lines. */
  lemma BulletsAppend(a: seq<Row>, b: seq<Row>, repr: Value -> string)
    requires a != [] && b != []
    requires forall k :: 0 <= k < |a| ==> |a[k]| == 2
    requires forall k :: 0 <= k < |b| ==> |b[k]| == 2
    ensures forall k :: 0 <= k < |a + b| ==> |(a + b)[k]| == 2
    ensures Bullets(a + b, repr) == Bullets(a, repr) + "\n" + Bullets(b, repr)
  {
    assert forall k :: 0 <= k < |a + b| ==> |(a + b)[k]| == 2 by {
      forall k | 0 <= k < |a + b|
        ensures |(a + b)[k]| == 2
      {
        if k >= |a| {
          assert (a + b)[k] == b[k - |a|];
        }
      }
    }
    assert BulletLines(a + b, repr) == BulletLines(a, repr) + BulletLines(b, repr);
    JoinAppend("\n", BulletLines(a, repr), BulletLines(b, repr));
  }

  const ListLead := "\nYou are a Dark Souls lore expert. The user asked:\n\n\""
  const ListMiddle := "\"\n\nThese are the relevant items or entities:\n"
  const ListTail := "\n\nWrite a natural language summary listing these items.\n"

  /** The prompt of the list summary: the question in quotes, then the
      rendered value list. Both can be read back at fixed offsets. */
  function ListPrompt(question: string, valueList: string): (r: string)
    ensures |r| == |ListLead| + |question| + |ListMiddle| + |valueList| + |ListTail|
    ensures r[|ListLead|..|ListLead| + |question|] == question
    ensures r[|ListLead| + |question| + |ListMiddle|..|r| - |ListTail|] == valueList
  {
    ListLead + question + ListMiddle + valueList + ListTail
  }

  const PairLead := "\nYou are a Dark Souls lore expert.\n\nGiven the user's question and these subject\U{2013}object pairs, summarize the relationships in a clear sentence.\n\nQuestion:\n"
  const PairMiddle := "\n\nPairs:\n"
  const PairTail := "\n\nSummary:\n"

  /** The prompt of the pair summary: the question, then the bullet lines.
      Both can be read back at fixed offsets. */
  function PairPrompt(question: string, bullets: string): (r: string)
    ensures |r| == |PairLead| + |question| + |PairMiddle| + |bullets| + |PairTail|
    ensures r[|PairLead|..|PairLead| + |question|] == question
    ensures r[|PairLead| + |question| + |PairMiddle|..|r| - |PairTail|] == bullets
  {
    PairLead + question + PairMiddle + bullets + PairTail
  }

  /** `llm.predict(prompt).strip()`: the stripped completion, or the
      exception of the model call. */
  function Summary(completion: Result<string>): (r: Result<string>)
    ensures r.Ok? <==> completion.Ok?
    ensures r.Ok? ==> r.value == PyStrip(completion.value)
    ensures r.Raised? ==> r.message == completion.message
  {
    match completion
    case Ok(text) => Ok(PyStrip(text))
    case Raised(m) => Raised(m)
  }

  /** The list branch: the value list, then the model asked the list
      prompt. It fails with the `IndexError` of an empty list, the
      `TypeError` of the join, or an exception of the model call. */
  function ListAnswer(question: string, values: seq<Value>, llm: string -> Result<string>,
                      repr: Value -> string): (r: Result<string>)
    ensures values == [] ==> r == Raised(EmptyIndexError)
    ensures r.Ok? ==> exists p :: llm(p).Ok? && r.value == PyStrip(llm(p).value)
    ensures r.Raised? ==> r.message == EmptyIndexError
                          || (exists i: nat, v :: r.message == JoinTypeError(i, v))
                          || exists p :: llm(p) == Raised(r.message)
  {
    match ValueList(values, repr)
    case Raised(m) => Raised(m)
    case Ok(valueList) =>
      var reply := llm(ListPrompt(question, valueList));
      Summary(reply)
  }

  /** The pair branch: the model asked the pair prompt over the bullet
      lines. Its only failure is an exception of the model call. */
  function PairAnswer(question: string, pairs: seq<Row>, llm: string -> Result<string>,
                      repr: Value -> string): (r: Result<string>)
    requires forall k :: 0 <= k < |pairs| ==> |pairs[k]| == 2
    ensures r.Ok? ==> exists p :: llm(p).Ok? && r.value == PyStrip(llm(p).value)
    ensures r.Raised? ==> exists p :: llm(p) == Raised(r.message)
  {
    var reply := llm(PairPrompt(question, Bullets(pairs, repr)));
    Summary(reply)
  }

  /** The body of the `try` after the graph has answered with `rows`: an
      answer, or the exception that leaves the `try`. An answer is one of the
      two fixed messages or a stripped completion of the model; an exception
      is the `IndexError` of a result whose rows were all dropped, the
      `TypeError` of the join, or an exception of the model call. */
  function Synthesize(question: string, rows: seq<Row>, llm: string -> Result<string>,
                      repr: Value -> string): (r: Result<string>)
    ensures rows != [] && Shape(rows, repr) == [] ==> r == Raised(EmptyIndexError)
    ensures r.Ok? ==> r.value == NoResultAnswer || r.value == UnsupportedAnswer
                      || exists p :: llm(p).Ok? && r.value == PyStrip(llm(p).value)
    ensures r.Raised? ==> r.message == EmptyIndexError
                          || (exists i: nat, v :: r.message == JoinTypeError(i, v))
                          || exists p :: llm(p) == Raised(r.message)
  {
    if rows == [] then Ok(NoResultAnswer)
    else
      match Select(Shape(rows, repr))
      case ListSummary(values) => ListAnswer(question, values, llm, repr)
      case PairSummary(pairs) => PairAnswer(question, pairs, llm, repr)
      case UnsupportedFormat => Ok(UnsupportedAnswer)
  }

  /** The answer string for the candidate query `rawQuery`: it is repaired,
      run on the graph and summarised; any exception on the way becomes the
      error answer. Every answer is a fixed message, an error report or a
      stripped completion of the model. */
  function AnswerFor(question: string, rawQuery: string, graph: string -> Result<seq<Row>>,
                     llm: string -> Result<string>, repr: Value -> string): (r: string)
    ensures r == NoResultAnswer || r == UnsupportedAnswer || ErrorPrefix <= r
            || exists p :: llm(p).Ok? && r == PyStrip(llm(p).value)
  {
    Reported(
      match graph(NormalizeQuery(rawQuery))
      case Raised(m) => Raised(m)
      case Ok(rows) => Synthesize(question, rows, llm, repr))
  }

  /** The `except` of `answer_question`: the outcome of the `try` is its
      answer, or the error answer for its exception. */
  function Reported(attempt: Result<string>): string {
    match attempt
    case Ok(answer) => answer
    case Raised(m) => ErrorPrefix + m
  }

  /** The pair `answer_question` returns. */
  datatype Response = Response(rawQuery: string, answer: string)

  /** `answer_question`: the chain turns the question into a candidate
      query; a failure there propagates to the caller, every later failure
      is reported in the answer. */
  function AnswerQuestion(question: string, chain: string -> Result<string>,
                          graph: string -> Result<seq<Row>>, llm: string -> Result<string>,
                          repr: Value -> string): (r: Result<Response>)
    ensures r.Ok? <==> chain(question).Ok?
    ensures r.Raised? ==> r.message == chain(question).message
    ensures r.Ok? ==> r.value.rawQuery == chain(question).value
  {
    match chain(question)
    case Raised(m) => Raised(m)
    case Ok(rawQuery) => Ok(Response(rawQuery, AnswerFor(question, rawQuery, graph, llm, repr)))
  }

  /** The graph is only ever asked the repaired query: two graphs that agree
      on it give the same answer. */
  lemma GraphSeesOnlyNormalizedQuery(question: string, rawQuery: string,
                                     graph1: string -> Result<seq<Row>>, graph2: string -> Result<seq<Row>>,
                                     llm: string -> Result<string>, repr: Value -> string)
    requires graph1(NormalizeQuery(rawQuery)) == graph2(NormalizeQuery(rawQuery))
    ensures AnswerFor(question, rawQuery, graph1, llm, repr) == AnswerFor(question, rawQuery, graph2, llm, repr)
  {
  }

  /** A graph failure is reported with the error prefix and its message. */
  lemma GraphFailureReported(question: string, rawQuery: string, graph: string -> Result<seq<Row>>,
                             llm: string -> Result<string>, repr: Value -> string, m: string)
    requires graph(NormalizeQuery(rawQuery)) == Raised(m)
    ensures AnswerFor(question, rawQuery, graph, llm, repr) == ErrorPrefix + m
  {
  }

  /** An empty graph result gives the no-result answer, whatever the
      language model would have said. */
  lemma EmptyResultSkipsModel(question: string, rawQuery: string, graph: string -> Result<seq<Row>>,
                              llm: string -> Result<string>, repr: Value -> string)
    requires graph(NormalizeQuery(rawQuery)) == Ok([])
    ensures AnswerFor(question, rawQuery, graph, llm, repr) == NoResultAnswer
  {
  }

  /** A result with a one-value row and a two-value row has mixed arity: the
      answer is the unsupported-format answer, whatever the model. */
  lemma MixedArityUnsupported(question: string, rawQuery: string, graph: string -> Result<seq<Row>>,
                              llm: string -> Result<string>, repr: Value -> string,
                              rows: seq<Row>, i: nat, j: nat)
    requires graph(NormalizeQuery(rawQuery)) == Ok(rows)
    requires i < |rows| && j < |rows| && |rows[i]| == 1 && |rows[j]| == 2
    ensures AnswerFor(question, rawQuery, graph, llm, repr) == UnsupportedAnswer
  {
    var shaped := Shape(rows, repr);
    ShapePreservesOrder(rows, repr, i);
    ShapePreservesOrder(rows, repr, j);
    assert |shaped[KeptCount(rows[..i])]| == 1;
    assert |shaped[KeptCount(rows[..j])]| == 2;
    assert Select(shaped).UnsupportedFormat?;
  }

  /** A non-empty result none of whose rows has one or two values leaves
      nothing after shaping, and `values[0]` then raises: the answer is the
      error answer for an `IndexError`. */
  lemma AllRowsDroppedIsIndexError(question: string, rawQuery: string, graph: string -> Result<seq<Row>>,
                                   llm: string -> Result<string>, repr: Value -> string, rows: seq<Row>)
    requires graph(NormalizeQuery(rawQuery)) == Ok(rows)
    requires rows != [] && forall k :: 0 <= k < |rows| ==> !Kept(rows[k])
    ensures AnswerFor(question, rawQuery, graph, llm, repr) == ErrorPrefix + EmptyIndexError
  {
    ShapeKeepsKeptRows(rows, repr);
    assert Select(Shape(rows, repr)) == ListSummary([]);
  }

  /** Once the graph has answered with `rows`, the answer is what the
      summarising step reports. */
  lemma AnswerForRows(question: string, rawQuery: string, graph: string -> Result<seq<Row>>,
                      llm: string -> Result<string>, repr: Value -> string, rows: seq<Row>)
    requires graph(NormalizeQuery(rawQuery)) == Ok(rows)
    ensures AnswerFor(question, rawQuery, graph, llm, repr) == Reported(Synthesize(question, rows, llm, repr))
  {
  }

  /** The names a one-value result set is summarised by. */
  function ShapedValues(rows: seq<Row>, repr: Value -> string): (r: seq<Value>)
    requires forall k :: 0 <= k < |rows| ==> |rows[k]| == 1
    ensures |r| == |rows|
    ensures forall k :: 0 <= k < |rows| ==> r[k] == ShapeRow(rows[k], repr).value[0]
  {
    ShapeKeepsAllRows(rows, repr);
    FirstValues(Shape(rows, repr))
  }

  /** A result set of one-value rows selects the list summary of its names. */
  lemma OneValueRowsSelectList(rows: seq<Row>, repr: Value -> string)
    requires forall k :: 0 <= k < |rows| ==> |rows[k]| == 1
    ensures Select(Shape(rows, repr)) == ListSummary(ShapedValues(rows, repr))
  {
    ShapeKeepsAllRows(rows, repr);
    var shaped := Shape(rows, repr);
    assert forall k :: 0 <= k < |shaped| ==> |shaped[k]| == 1;
    assert Select(shaped).values == ShapedValues(rows, repr);
  }

  /** A result set of two-value rows selects the pair summary of its shaped
      rows. */
  lemma TwoValueRowsSelectPairs(rows: seq<Row>, repr: Value -> string)
    requires rows != [] && forall k :: 0 <= k < |rows| ==> |rows[k]| == 2
    ensures forall k :: 0 <= k < |Shape(rows, repr)| ==> |Shape(rows, repr)[k]| == 2
    ensures Select(Shape(rows, repr)) == PairSummary(Shape(rows, repr))
  {
    ShapeKeepsAllRows(rows, repr);
    var shaped := Shape(rows, repr);
    assert forall k :: 0 <= k < |shaped| ==> |shaped[k]| == 2;
    assert |shaped[0]| != 1;
  }

  /** When every row has one value and every shaped value is a string, the
      model is asked the list prompt holding the reference listing of those
      strings, and the answer is its stripped completion (or the error
      answer when the call fails). */
  lemma ListResultSummarised(question: string, rawQuery: string, graph: string -> Result<seq<Row>>,
                             llm: string -> Result<string>, repr: Value -> string, rows: seq<Row>)
    requires graph(NormalizeQuery(rawQuery)) == Ok(rows)
    requires rows != [] && forall k :: 0 <= k < |rows| ==> |rows[k]| == 1
    requires forall k :: 0 <= k < |rows| ==> ShapedValues(rows, repr)[k].Str?
    ensures AnswerFor(question, rawQuery, graph, llm, repr)
            == Reported(Summary(llm(ListPrompt(question, Listing(Texts(ShapedValues(rows, repr)))))))
  {
    AnswerForRows(question, rawQuery, graph, llm, repr, rows);
    OneValueRowsSelectList(rows, repr);
    ValueListIsListing(ShapedValues(rows, repr), repr);
  }

  /** When every row has two values, the model is asked the pair prompt
      holding the bullet lines of the shaped pairs. */
  lemma PairResultSummarised(question: string, rawQuery: string, graph: string -> Result<seq<Row>>,
                             llm: string -> Result<string>, repr: Value -> string, rows: seq<Row>)
    requires graph(NormalizeQuery(rawQuery)) == Ok(rows)
    requires rows != [] && forall k :: 0 <= k < |rows| ==> |rows[k]| == 2
    ensures forall k :: 0 <= k < |Shape(rows, repr)| ==> |Shape(rows, repr)[k]| == 2
    ensures AnswerFor(question, rawQuery, graph, llm, repr)
            == Reported(Summary(llm(PairPrompt(question, Bullets(Shape(rows, repr), repr)))))
  {
    AnswerForRows(question, rawQuery, graph, llm, repr, rows);
    TwoValueRowsSelectPairs(rows, repr);
  }

  /** In a one-value result, a shaped value before the last one that is not
      a string makes the join fail; the answer names the first such value. */
  lemma ListJoinFailureReported(question: string, rawQuery: string, graph: string -> Result<seq<Row>>,
                                llm: string -> Result<string>, repr: Value -> string, rows: seq<Row>, i: nat)
    requires graph(NormalizeQuery(rawQuery)) == Ok(rows)
    requires forall k :: 0 <= k < |rows| ==> |rows[k]| == 1
    requires i < |rows| - 1 && !ShapedValues(rows, repr)[i].Str?
    requires forall k :: 0 <= k < i ==> ShapedValues(rows, repr)[k].Str?
    ensures AnswerFor(question, rawQuery, graph, llm, repr)
            == ErrorPrefix + JoinTypeError(i, ShapedValues(rows, repr)[i])
  {
    AnswerForRows(question, rawQuery, graph, llm, repr, rows);
    OneValueRowsSelectList(rows, repr);
    ValueListTypeError(ShapedValues(rows, repr), repr, i);
  }
}
