/**
 * ThaiNLPAnalyzer.analyzeText: word statistics, character classes, sentiment,
 * politeness and question markers of one input text, gathered into one record.
 */
module ThaiNLPAnalyzer {
  import opened Strings
  import opened Tallies
  import opened ThaiWordSegmentation

  const QuestionLexicon: seq<string> := [
    "ไหม", "หรือ", "ใคร", "อะไร", "ที่ไหน",
    "เมื่อไร", "อย่างไร", "ทำไม", "ได้ไหม"
  ]

  const PositiveLexicon: seq<string> := [
    "ดี", "สวัสดี", "ขอบคุณ", "ยินดี", "รัก",
    "ชอบ", "เยี่ยม", "สุข", "สนุก"
  ]

  const NegativeLexicon: seq<string> := [
    "แย่", "เสียใจ", "โกรธ", "เกลียด", "ไม่",
    "ผิด", "แก้", "เลว", "กลัว", "เศร้า"
  ]

  const PoliteLexicon: seq<string> := [
    "ครับ", "ค่ะ", "คะ", "นะ", "ขอบคุณ",
    "ขอโทษ", "ขออนุญาต", "รบกวน"
  ]

  // ---------------------------------------------------------------------------
  // Character classes.

  datatype CharClass = Consonant | Vowel | Tone | Special | Other

  /** The first range test that holds decides; the special set is consulted last. */
  function Classify(c: char): CharClass {
    if IsThaiConsonant(c) then Consonant
    else if IsThaiVowel(c) then Vowel
    else if IsThaiToneMark(c) then Tone
    else if c in SpecialChars then Special
    else Other
  }

  /** The three ranges are disjoint, so each class is exactly its own test; of the
      special set only ฯ (U+0E2F, between the consonant and vowel ranges) and ์
      (U+0E4C, just past the tone range) are ever classified as special. */
  lemma ClassifyExactly(c: char)
    ensures Classify(c) == Consonant <==> IsThaiConsonant(c)
    ensures Classify(c) == Vowel <==> IsThaiVowel(c)
    ensures Classify(c) == Tone <==> IsThaiToneMark(c)
    ensures Classify(c) == Special <==> c == 'ฯ' || c == '์'
    ensures Classify(c) == Other <==>
              !IsThaiConsonant(c) && !IsThaiVowel(c) && !IsThaiToneMark(c) && c !in SpecialChars
  {
  }

  /** ๆ and ฿ fall in the vowel range and ็ ่ ้ ๊ ๋ in the tone range, so their
      membership in the special set is never consulted. */
  lemma SpecialCharsShadowed()
    ensures Classify('ๆ') == Vowel && Classify('฿') == Vowel
    ensures forall c :: c in SpecialChars && c != 'ๆ' && c != '฿' && c != 'ฯ' && c != '์'
                        ==> Classify(c) == Tone
  {
  }

  /** `Array.from(text).map(classify)`. */
  function CharTypes(text: string): (types: seq<CharClass>)
    ensures |types| == |text|
    ensures forall i :: 0 <= i < |text| ==> types[i] == Classify(text[i])
  {
    seq(|text|, i requires 0 <= i < |text| => Classify(text[i]))
  }

  datatype CharacterAnalysis = CharacterAnalysis(
    consonants: nat, vowels: nat, tones: nat, special: nat,
    distribution: map<CharClass, nat>)

  /** The four `filter(...).length` counts and the `reduce` tally of all classes. */
  function AnalyzeCharacters(text: string): CharacterAnalysis {
    var types := CharTypes(text);
    var m := multiset(types);
    CharacterAnalysis(m[Consonant], m[Vowel], m[Tone], m[Special], Tally(types))
  }

  /** Every character falls in exactly one class, so the five class counts add up
      to the number of characters. */
  lemma {:induction false} ClassCountsSum(types: seq<CharClass>)
    ensures var m := multiset(types);
            m[Consonant] + m[Vowel] + m[Tone] + m[Special] + m[Other] == |types|
    decreases |types|
  {
    if types != [] {
      var init := types[..|types| - 1];
      var last := types[|types| - 1];
      ClassCountsSum(init);
      assert types == init + [last];
      var m, m0 := multiset(types), multiset(init);
      assert m == m0 + multiset{last};
      match last {
        case Consonant => assert m[Consonant] == m0[Consonant] + 1;
        case Vowel => assert m[Vowel] == m0[Vowel] + 1;
        case Tone => assert m[Tone] == m0[Tone] + 1;
        case Special => assert m[Special] == m0[Special] + 1;
        case Other => assert m[Other] == m0[Other] + 1;
      }
    }
  }

  /** The four counts of the record, with the uncounted class "other", add up to the
      number of characters of the text. */
  lemma CharacterCountsSum(text: string)
    ensures var a := AnalyzeCharacters(text);
            a.consonants + a.vowels + a.tones + a.special
              + multiset(CharTypes(text))[Other] == |text|
  {
    ClassCountsSum(CharTypes(text));
  }

  /** The distribution counts every character once and has a key for exactly the
      classes that occur in the text, each mapped to that class's count. */
  lemma DistributionConsistent(text: string)
    ensures var a := AnalyzeCharacters(text);
            && SumValues(a.distribution) == |text|
            && (forall c :: c in a.distribution <==>
                              exists i :: 0 <= i < |text| && Classify(text[i]) == c)
            && (Consonant in a.distribution ==> a.distribution[Consonant] == a.consonants)
            && (Vowel in a.distribution ==> a.distribution[Vowel] == a.vowels)
            && (Tone in a.distribution ==> a.distribution[Tone] == a.tones)
            && (Special in a.distribution ==> a.distribution[Special] == a.special)
  {
    var types := CharTypes(text);
    TallySum(types);
    forall c ensures c in types <==> exists i :: 0 <= i < |text| && Classify(text[i]) == c {
      if c in types {
        var i :| 0 <= i < |types| && types[i] == c;
        assert Classify(text[i]) == c;
      }
    }
  }

  // ---------------------------------------------------------------------------
  // Sentiment and politeness.

  /** `lexicon.some(w => word.includes(w))`. */
  predicate ContainsAny(word: string, lexicon: seq<string>) {
    exists i :: 0 <= i < |lexicon| && Contains(word, lexicon[i])
  }

  /** What one word adds to the sentiment score: +1 if it contains a positive entry,
      -1 if it contains a negative one (both may apply and cancel). */
  function WordSentiment(word: string): int {
    (if ContainsAny(word, PositiveLexicon) then 1 else 0)
    - (if ContainsAny(word, NegativeLexicon) then 1 else 0)
  }

  function SentimentScore(words: seq<string>): int {
    if words == [] then 0
    else SentimentScore(words[..|words| - 1]) + WordSentiment(words[|words| - 1])
  }

  function PolitenessScore(words: seq<string>): int {
    if words == [] then 0
    else PolitenessScore(words[..|words| - 1])
         + (if ContainsAny(words[|words| - 1], PoliteLexicon) then 1 else 0)
  }

  /** The sentiment score lies between minus the number of words and the number of words. */
  lemma {:induction false} SentimentBounded(words: seq<string>)
    ensures -|words| <= SentimentScore(words) <= |words|
    decreases |words|
  {
    if words != [] {
      SentimentBounded(words[..|words| - 1]);
    }
  }

  /** The politeness score counts polite words, so it lies between 0 and the number
      of words. */
  lemma {:induction false} PolitenessBounded(words: seq<string>)
    ensures 0 <= PolitenessScore(words) <= |words|
    decreases |words|
  {
    if words != [] {
      PolitenessBounded(words[..|words| - 1]);
    }
  }

  datatype SentimentLabel = Positive | Negative | Neutral

  function SentimentLabelOf(score: int): SentimentLabel {
    if score > 0 then Positive else if score < 0 then Negative else Neutral
  }

  datatype PolitenessLevel = VeryPolite | Polite | Casual

  function PolitenessLevelOf(score: int): PolitenessLevel {
    if score > 2 then VeryPolite else if score > 0 then Polite else Casual
  }

  // ---------------------------------------------------------------------------
  // Question markers.

  /** The markers a `forEach` over `lexicon` adds to an insertion-ordered Set when the
      text includes them: a marker already present is not added again. */
  function MarkersIn(lexicon: seq<string>, text: string): seq<string> {
    if lexicon == [] then []
    else
      var found := MarkersIn(lexicon[..|lexicon| - 1], text);
      var q := lexicon[|lexicon| - 1];
      if Contains(text, q) && q !in found then found + [q] else found
  }

  /** The entries of `lexicon` that occur in `text`, in lexicon order. */
  function Occurring(lexicon: seq<string>, text: string): seq<string> {
    if lexicon == [] then []
    else
      Occurring(lexicon[..|lexicon| - 1], text)
      + (if Contains(text, lexicon[|lexicon| - 1]) then [lexicon[|lexicon| - 1]] else [])
  }

  predicate Distinct(xs: seq<string>) {
    forall i, j :: 0 <= i < j < |xs| ==> xs[i] != xs[j]
  }

  /** The markers found are exactly the lexicon entries the text contains, each once. */
  lemma {:induction false} MarkersInMembers(lexicon: seq<string>, text: string)
    ensures forall q :: q in MarkersIn(lexicon, text) <==> q in lexicon && Contains(text, q)
    ensures Distinct(MarkersIn(lexicon, text))
    decreases |lexicon|
  {
    if lexicon != [] {
      var init := lexicon[..|lexicon| - 1];
      MarkersInMembers(init, text);
      assert lexicon == init + [lexicon[|lexicon| - 1]];
    }
  }

  /** Over a lexicon without repeats, the Set adds nothing beyond a plain filter: the
      markers are the occurring entries in lexicon order. */
  lemma {:induction false} MarkersInIsOccurring(lexicon: seq<string>, text: string)
    requires Distinct(lexicon)
    ensures MarkersIn(lexicon, text) == Occurring(lexicon, text)
    decreases |lexicon|
  {
    if lexicon != [] {
      var init := lexicon[..|lexicon| - 1];
      var q := lexicon[|lexicon| - 1];
      assert Distinct(init);
      MarkersInIsOccurring(init, text);
      MarkersInMembers(init, text);
      assert q !in init;
    }
  }

  lemma QuestionLexiconDistinct()
    ensures Distinct(QuestionLexicon)
  {
  }

  function QuestionMarkers(text: string): seq<string> {
    MarkersIn(QuestionLexicon, text)
  }

  // ---------------------------------------------------------------------------
  // The analysis record.

  datatype Sentiment = Sentiment(score: int, kind: SentimentLabel)
  datatype Politeness = Politeness(score: int, level: PolitenessLevel)
  datatype Style = Style(politeness: Politeness)
  datatype QuestionAnalysis = QuestionAnalysis(isQuestion: bool, questionWords: seq<string>)

  datatype Analysis = Analysis(
    text: string,
    length: nat,
    words: seq<string>,
    wordCount: nat,
    uniqueWords: nat,
    wordFrequency: map<string, nat>,
    characterAnalysis: CharacterAnalysis,
    sentiment: Sentiment,
    style: Style,
    questionAnalysis: QuestionAnalysis)

  /** What `analyzeText` returns for `text`. */
  function Analyze(text: string): Analysis {
    var words := Segment(WordBreakRules, text);
    var freq := Tally(words);
    var s := SentimentScore(words);
    var p := PolitenessScore(words);
    var markers := QuestionMarkers(text);
    Analysis(text, |text|, words, |words|, |freq|, freq, AnalyzeCharacters(text),
             Sentiment(s, SentimentLabelOf(s)),
             Style(Politeness(p, PolitenessLevelOf(p))),
             QuestionAnalysis(|markers| > 0, markers))
  }

  /** The `words.forEach` pass that scores sentiment and politeness word by word. */
  method ScoreWords(words: seq<string>) returns (sentimentScore: int, politenessScore: int)
    ensures sentimentScore == SentimentScore(words)
    ensures politenessScore == PolitenessScore(words)
  {
    sentimentScore, politenessScore := 0, 0;
    var i := 0;
    while i < |words|
      invariant 0 <= i <= |words|
      invariant sentimentScore == SentimentScore(words[..i])
      invariant politenessScore == PolitenessScore(words[..i])
    {
      assert words[..i + 1][..i] == words[..i];
      var word := words[i];
      if ContainsAny(word, PositiveLexicon) { sentimentScore := sentimentScore + 1; }
      if ContainsAny(word, NegativeLexicon) { sentimentScore := sentimentScore - 1; }
      if ContainsAny(word, PoliteLexicon) { politenessScore := politenessScore + 1; }
      i := i + 1;
    }
    assert words[..|words|] == words;
  }

  /** The `questions.forEach` pass that adds each marker the text includes to a Set. */
  method FindQuestionWords(text: string) returns (questionTypes: seq<string>)
    ensures questionTypes == QuestionMarkers(text)
  {
    questionTypes := [];
    var k := 0;
    while k < |QuestionLexicon|
      invariant 0 <= k <= |QuestionLexicon|
      invariant questionTypes == MarkersIn(QuestionLexicon[..k], text)
    {
      assert QuestionLexicon[..k + 1][..k] == QuestionLexicon[..k];
      var q := QuestionLexicon[k];
      if Contains(text, q) && q !in questionTypes {
        questionTypes := questionTypes + [q];
      }
      k := k + 1;
    }
    assert QuestionLexicon[..|QuestionLexicon|] == QuestionLexicon;
  }

  /** The `words.forEach` pass that fills `wordFreq`. */
  method CountWords(words: seq<string>) returns (wordFreq: map<string, nat>)
    ensures wordFreq == Tally(words)
  {
    wordFreq := map[];
    var j := 0;
    while j < |words|
      invariant 0 <= j <= |words|
      invariant wordFreq == Tally(words[..j])
    {
      var word := words[j];
      assert words[..j + 1] == words[..j] + [word];
      TallySnoc(words[..j], word);
      wordFreq := wordFreq[word := (if word in wordFreq then wordFreq[word] else 0) + 1];
      j := j + 1;
    }
    assert words[..|words|] == words;
  }

  method AnalyzeText(text: string) returns (r: Analysis)
    ensures r == Analyze(text)
  {
    var words := SegmentWords(WordBreakRules, text);
    var sentimentScore, politenessScore := ScoreWords(words);
    var questionTypes := FindQuestionWords(text);
    var wordFreq := CountWords(words);
    r := Analysis(
      text, |text|, words, |words|, |wordFreq|, wordFreq, AnalyzeCharacters(text),
      Sentiment(sentimentScore, SentimentLabelOf(sentimentScore)),
      Style(Politeness(politenessScore, PolitenessLevelOf(politenessScore))),
      QuestionAnalysis(|questionTypes| > 0, questionTypes));
  }

  // ---------------------------------------------------------------------------
  // Consistency of the analysis record.

  /** The word frequencies add up to the word count, count each word's occurrences,
      and have one key per distinct word. */
  lemma WordStatsConsistent(text: string)
    ensures var a := Analyze(text);
            && a.wordCount == |a.words|
            && SumValues(a.wordFrequency) == a.wordCount
            && a.wordFrequency.Keys == set w | w in a.words
            && a.uniqueWords == |set w | w in a.words|
            && forall w :: w in a.wordFrequency ==> a.wordFrequency[w] == multiset(a.words)[w]
  {
    TallySum(Analyze(text).words);
  }

  /** The sentiment score moves by at most one per word and the label follows its
      sign. */
  lemma SentimentConsistent(text: string)
    ensures var a := Analyze(text);
            var s := a.sentiment.score;
            && -(a.wordCount as int) <= s <= a.wordCount
            && (a.sentiment.kind == Positive <==> s > 0)
            && (a.sentiment.kind == Negative <==> s < 0)
            && (a.sentiment.kind == Neutral <==> s == 0)
  {
    var a := Analyze(text);
    assert a.sentiment.score == SentimentScore(a.words) && a.wordCount == |a.words|;
    SentimentBounded(a.words);
  }

  /** The politeness score counts polite words and the level follows it. */
  lemma PolitenessConsistent(text: string)
    ensures var a := Analyze(text);
            var p := a.style.politeness.score;
            && 0 <= p <= a.wordCount
            && (a.style.politeness.level == VeryPolite <==> p > 2)
            && (a.style.politeness.level == Polite <==> 1 <= p <= 2)
            && (a.style.politeness.level == Casual <==> p == 0)
  {
    PolitenessBounded(Segment(WordBreakRules, text));
  }

  /** The question words are exactly the question-lexicon entries the raw text
      contains, in lexicon order, and the text is a question iff there is one. */
  lemma QuestionsConsistent(text: string)
    ensures var qa := Analyze(text).questionAnalysis;
            && qa.questionWords == Occurring(QuestionLexicon, text)
            && (forall q :: q in qa.questionWords <==> q in QuestionLexicon && Contains(text, q))
            && (qa.isQuestion <==> exists i :: 0 <= i < |QuestionLexicon| && Contains(text, QuestionLexicon[i]))
  {
    var ms := QuestionMarkers(text);
    assert Analyze(text).questionAnalysis == QuestionAnalysis(|ms| > 0, ms);
    QuestionMarkersExact(text);
  }

  /** The markers `analyzeText` reports, independently of the rest of the record. */
  lemma QuestionMarkersExact(text: string)
    ensures var ms := QuestionMarkers(text);
            && ms == Occurring(QuestionLexicon, text)
            && (forall q :: q in ms <==> q in QuestionLexicon && Contains(text, q))
            && (|ms| > 0 <==> exists i :: 0 <= i < |QuestionLexicon| && Contains(text, QuestionLexicon[i]))
  {
    var ms := QuestionMarkers(text);
    assert ms == Occurring(QuestionLexicon, text) by {
      QuestionLexiconDistinct();
      MarkersInIsOccurring(QuestionLexicon, text);
    }
    MarkersInMembers(QuestionLexicon, text);
    if |ms| > 0 {
      var q := ms[0];
      assert q in ms;
      var i :| 0 <= i < |QuestionLexicon| && QuestionLexicon[i] == q;
    }
  }

  /** The empty text has no words, a neutral sentiment, a casual style and no question
      marker. */
  lemma AnalyzeEmpty()
    ensures var a := Analyze([]);
            && a.words == [] && a.wordCount == 0 && a.uniqueWords == 0 && a.length == 0
            && a.sentiment == Sentiment(0, Neutral)
            && a.style.politeness == Politeness(0, Casual)
            && a.questionAnalysis == QuestionAnalysis(false, [])
  {
    var a := Analyze([]);
    assert a.words == [] by { SegmentEmpty(WordBreakRules); }
    assert QuestionMarkers([]) == [] by {
      QuestionMarkersExact([]);
      assert forall i :: 0 <= i < |QuestionLexicon| ==> QuestionLexicon[i] != [];
    }
  }
}
