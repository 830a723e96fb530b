/**
 * ThaiNLPSystem: scoring the entries of a loaded mapping table against an input,
 * picking the first best-scoring entry, and the fixed fallback replies.
 * Confidence is counted in tenths: 10 for an exact match, 5 to 8 for containment
 * (one tenth per agreeing context field), 0 otherwise.
 */
module ThaiNLPSystem {
  import opened Strings
  import opened ThaiNLPAnalyzer

  datatype Option<T> = None | Some(value: T)

  /** The optional `context` of a mapping entry; a field that is missing, or that
      holds a JSON value of another type, never equals the input's context. */
  datatype MappingContext = MappingContext(
    sentiment: Option<string>, politeness: Option<string>, isQuestion: Option<bool>)

  datatype Mapping = Mapping(target: string, replacement: string, context: Option<MappingContext>)

  /** The context `processInput` builds from an analysis. */
  datatype Context = Context(sentiment: SentimentLabel, politeness: PolitenessLevel, isQuestion: bool)

  datatype Response = Response(response: string)

  /** The string the analysis record holds for a sentiment label. */
  function SentimentName(l: SentimentLabel): string {
    match l
    case Positive => "positive"
    case Negative => "negative"
    case Neutral => "neutral"
  }

  /** The string the analysis record holds for a politeness level. */
  function PolitenessName(l: PolitenessLevel): string {
    match l
    case VeryPolite => "very polite"
    case Polite => "polite"
    case Casual => "casual"
  }

  /** Distinct labels have distinct names, so comparing names compares labels. */
  lemma NamesDistinct(a: SentimentLabel, b: SentimentLabel, p: PolitenessLevel, q: PolitenessLevel)
    ensures SentimentName(a) == SentimentName(b) <==> a == b
    ensures PolitenessName(p) == PolitenessName(q) <==> p == q
  {
    if a != b {
      assert SentimentName(a)[2] != SentimentName(b)[2];
    }
    if p != q {
      assert PolitenessName(p)[0] != PolitenessName(q)[0] || |PolitenessName(p)| != |PolitenessName(q)|;
    }
  }

  // ---------------------------------------------------------------------------
  // calculateConfidence.

  function Agree<T(==)>(field: Option<T>, value: T): nat {
    if field == Some(value) then 1 else 0
  }

  /** The tenths added by an entry's context: one per field equal to the input's. */
  function ContextBonus(mc: Option<MappingContext>, ctx: Context): (b: nat)
    ensures b <= 3
    ensures mc == None ==> b == 0
    ensures b == 3 <==> mc == Some(MappingContext(Some(SentimentName(ctx.sentiment)),
                                                  Some(PolitenessName(ctx.politeness)),
                                                  Some(ctx.isQuestion)))
  {
    match mc
    case None => 0
    case Some(c) =>
      Agree(c.sentiment, SentimentName(ctx.sentiment))
      + Agree(c.politeness, PolitenessName(ctx.politeness))
      + Agree(c.isQuestion, ctx.isQuestion)
  }

  /** `calculateConfidence`, in tenths. */
  function Confidence(input: string, m: Mapping, ctx: Context): (c: nat)
    ensures c == 10 <==> m.target == input
    ensures c == 0 <==> !Contains(input, m.target) && !Contains(m.target, input)
    ensures c != 0 && c != 10 ==> 5 <= c <= 8
  {
    ContainsEmptyAndSelf(input);
    if m.target == input then 10
    else if Contains(input, m.target) || Contains(m.target, input) then 5 + ContextBonus(m.context, ctx)
    else 0
  }

  /** An entry with an empty target, and every entry scored against the empty input,
      reaches at least the containment level. */
  lemma EmptyStringScores(input: string, m: Mapping, ctx: Context)
    requires input == [] || m.target == []
    ensures Confidence(input, m, ctx) >= 5
  {
    ContainsEmptyAndSelf(input);
    ContainsEmptyAndSelf(m.target);
  }

  /** A contained target without a context scores exactly the base level. */
  lemma ContainedWithoutContext(input: string, m: Mapping, ctx: Context)
    requires m.target != input && m.context == None
    requires Contains(input, m.target) || Contains(m.target, input)
    ensures Confidence(input, m, ctx) == 5
  {
  }

  // ---------------------------------------------------------------------------
  // generateResponse.

  /** The confidence of each entry, in table order. */
  function Scores(input: string, ctx: Context, ms: seq<Mapping>): (cs: seq<nat>)
    ensures |cs| == |ms|
    ensures forall i :: 0 <= i < |ms| ==> cs[i] == Confidence(input, ms[i], ctx)
  {
    seq(|ms|, i requires 0 <= i < |ms| => Confidence(input, ms[i], ctx))
  }

  /** The index the strict-`>` scan over the scores `cs` keeps: the first maximal
      score, provided that score is positive. */
  function BestIndex(cs: seq<nat>): (r: Option<nat>)
    ensures r == None <==> forall i :: 0 <= i < |cs| ==> cs[i] == 0
    ensures r != None ==>
              && r.value < |cs|
              && cs[r.value] > 0
              && (forall i :: 0 <= i < |cs| ==> cs[i] <= cs[r.value])
              && (forall i :: 0 <= i < r.value ==> cs[i] < cs[r.value])
  {
    if cs == [] then None
    else
      var prev := BestIndex(cs[..|cs| - 1]);
      var highest := if prev == None then 0 else cs[prev.value];
      if cs[|cs| - 1] > highest then Some(|cs| - 1) else prev
  }

  /** The index of the entry `generateResponse` keeps: the first entry of maximal
      confidence, provided that confidence is positive. */
  function BestMatch(input: string, ctx: Context, ms: seq<Mapping>): (r: Option<nat>)
    ensures r == None <==> forall i :: 0 <= i < |ms| ==> Confidence(input, ms[i], ctx) == 0
    ensures r != None ==>
              && r.value < |ms|
              && Confidence(input, ms[r.value], ctx) > 0
              && (forall i :: 0 <= i < |ms| ==>
                    Confidence(input, ms[i], ctx) <= Confidence(input, ms[r.value], ctx))
              && (forall i :: 0 <= i < r.value ==>
                    Confidence(input, ms[i], ctx) < Confidence(input, ms[r.value], ctx))
  {
    BestIndex(Scores(input, ctx, ms))
  }

  /** `getDefaultResponse`: chosen by whether the input is a question and whether it
      is very polite. */
  function DefaultResponse(ctx: Context): string {
    if ctx.isQuestion then
      if ctx.politeness == VeryPolite then
        "ขออภัยค่ะ/ครับ " + "ดิฉัน/ผมไม่แน่ใจในคำตอบ " + "กรุณาถามใหม่อีกครั้ง"
      else "ขอโทษนะ ไม่แน่ใจ ลองถามใหม่ได้ไหม"
    else
      if ctx.politeness == VeryPolite then "ขอบคุณที่แจ้งให้ทราบค่ะ/ครับ"
      else "เข้าใจแล้ว ขอบคุณนะ"
  }

  /** The first three characters of each default reply, which already tell the four
      apart. */
  lemma DefaultPrefix(ctx: Context)
    ensures |DefaultResponse(ctx)| >= 3
    ensures DefaultResponse(ctx)[..3] ==
              if ctx.isQuestion then (if ctx.politeness == VeryPolite then "ขออ" else "ขอโ")
              else (if ctx.politeness == VeryPolite then "ขอบ" else "เข้")
  {
  }

  /** The four default replies are distinct: two contexts get the same default
      exactly when they agree on being a question and on being very polite. */
  lemma DefaultResponseDecidedBy(c1: Context, c2: Context)
    ensures DefaultResponse(c1) == DefaultResponse(c2) <==>
              c1.isQuestion == c2.isQuestion
              && (c1.politeness == VeryPolite <==> c2.politeness == VeryPolite)
  {
    if c1.isQuestion != c2.isQuestion || (c1.politeness == VeryPolite) != (c2.politeness == VeryPolite) {
      DefaultPrefix(c1);
      DefaultPrefix(c2);
      assert DefaultResponse(c1)[..3] != DefaultResponse(c2)[..3];
    }
  }

  /** What `generateResponse` answers. */
  function ResponseFor(input: string, ctx: Context, ms: seq<Mapping>): string {
    match BestMatch(input, ctx, ms)
    case None => DefaultResponse(ctx)
    case Some(i) => ms[i].replacement
  }

  method GenerateResponse(input: string, ctx: Context, ms: seq<Mapping>) returns (response: string)
    ensures response == ResponseFor(input, ctx, ms)
  {
    ghost var cs := Scores(input, ctx, ms);
    var bestMatch: Option<nat> := None;
    var highestConfidence := 0;
    var i := 0;
    while i < |ms|
      invariant 0 <= i <= |ms|
      invariant bestMatch == BestIndex(cs[..i])
      invariant highestConfidence == if bestMatch == None then 0 else cs[bestMatch.value]
    {
      assert cs[..i + 1][..i] == cs[..i];
      var confidence := Confidence(input, ms[i], ctx);
      if confidence > highestConfidence {
        highestConfidence := confidence;
        bestMatch := Some(i);
      }
      i := i + 1;
    }
    assert cs[..|ms|] == cs;
    response := if bestMatch == None then DefaultResponse(ctx) else ms[bestMatch.value].replacement;
  }

  /** The default is the answer when no entry scores above zero, in particular for an
      empty table; otherwise the answer is the replacement of the first entry of
      maximal confidence. */
  lemma ResponseChoice(input: string, ctx: Context, ms: seq<Mapping>)
    ensures (forall i :: 0 <= i < |ms| ==> Confidence(input, ms[i], ctx) == 0)
              ==> ResponseFor(input, ctx, ms) == DefaultResponse(ctx)
    ensures forall k :: 0 <= k < |ms| && Confidence(input, ms[k], ctx) > 0
              && (forall i :: 0 <= i < |ms| ==> Confidence(input, ms[i], ctx) <= Confidence(input, ms[k], ctx))
              && (forall i :: 0 <= i < k ==> Confidence(input, ms[i], ctx) < Confidence(input, ms[k], ctx))
              ==> ResponseFor(input, ctx, ms) == ms[k].replacement
  {
    forall k | 0 <= k < |ms| && Confidence(input, ms[k], ctx) > 0
              && (forall i :: 0 <= i < |ms| ==> Confidence(input, ms[i], ctx) <= Confidence(input, ms[k], ctx))
              && (forall i :: 0 <= i < k ==> Confidence(input, ms[i], ctx) < Confidence(input, ms[k], ctx))
      ensures ResponseFor(input, ctx, ms) == ms[k].replacement
    {
      var j := BestMatch(input, ctx, ms).value;
      if j < k {
      } else if k < j {
      }
    }
  }

  /** An exact match is never displaced: the first entry whose target equals the
      input supplies the answer. */
  lemma ExactMatchWins(input: string, ctx: Context, ms: seq<Mapping>, k: nat)
    requires k < |ms| && ms[k].target == input
    requires forall i :: 0 <= i < k ==> ms[i].target != input
    ensures ResponseFor(input, ctx, ms) == ms[k].replacement
  {
    ResponseChoice(input, ctx, ms);
  }

  /** Every target contains the empty input, so a non-empty table always answers
      from the table for the empty input. */
  lemma EmptyInputNeverDefaults(ctx: Context, ms: seq<Mapping>)
    requires ms != []
    ensures BestMatch([], ctx, ms) != None
  {
    EmptyStringScores([], ms[0], ctx);
  }

  // ---------------------------------------------------------------------------
  // processInput.

  /** The context is read off the sentiment label, the politeness level and the
      question flag of the analysis, and nothing else. */
  function ContextOf(a: Analysis): Context {
    Context(a.sentiment.kind, a.style.politeness.level, a.questionAnalysis.isQuestion)
  }

  /** What `processInput` answers for `input` against the table `ms`. */
  function Process(input: string, ms: seq<Mapping>): string {
    ResponseFor(input, ContextOf(Analyze(input)), ms)
  }

  method ProcessInput(input: string, ms: seq<Mapping>) returns (r: Response)
    ensures r == Response(Process(input, ms))
  {
    var nlpResult := AnalyzeText(input);
    var context := Context(
      nlpResult.sentiment.kind, nlpResult.style.politeness.level,
      nlpResult.questionAnalysis.isQuestion);
    var response := GenerateResponse(input, context, ms);
    r := Response(response);
  }

  /** The answer depends on the input only through the context and through which
      targets equal it, contain it or are contained in it. */
  lemma SameMatchesSameResponse(x: string, y: string, ctx: Context, ms: seq<Mapping>)
    requires forall i :: 0 <= i < |ms| ==> (ms[i].target == x <==> ms[i].target == y)
    requires forall i :: 0 <= i < |ms| ==>
               ((Contains(x, ms[i].target) || Contains(ms[i].target, x)) <==>
                (Contains(y, ms[i].target) || Contains(ms[i].target, y)))
    ensures ResponseFor(x, ctx, ms) == ResponseFor(y, ctx, ms)
  {
    forall i | 0 <= i < |ms|
      ensures Confidence(x, ms[i], ctx) == Confidence(y, ms[i], ctx)
    {
    }
    SameConfidencesSameMatch(x, y, ctx, ms);
  }

  lemma SameConfidencesSameMatch(x: string, y: string, ctx: Context, ms: seq<Mapping>)
    requires forall i :: 0 <= i < |ms| ==> Confidence(x, ms[i], ctx) == Confidence(y, ms[i], ctx)
    ensures BestMatch(x, ctx, ms) == BestMatch(y, ctx, ms)
  {
    assert Scores(x, ctx, ms) == Scores(y, ctx, ms);
  }

  /** With no table, the empty input is answered with the casual, non-question
      default. */
  lemma ProcessEmpty()
    ensures Process([], []) == "เข้าใจแล้ว ขอบคุณนะ"
  {
    var ctx := Context(Neutral, Casual, false);
    assert ContextOf(Analyze([])) == ctx by { AnalyzeEmpty(); }
    assert BestMatch([], ctx, []) == None;
    assert DefaultResponse(ctx) == "เข้าใจแล้ว ขอบคุณนะ";
  }
}
