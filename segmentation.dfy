/**
 * ThaiWordSegmentation: the flat word-break rule table, the Thai character-range
 * predicates, and the single-pass greedy segmenter `segmentWords`.
 */
module ThaiWordSegmentation {
  import opened Strings

  const Prefixes: seq<string> := [
    "การ", "ความ", "น่า", "จะ", "แสน", "ใน", "นัก", "ช่าง",
    "พระ", "นาง", "นาย", "เด็ก", "คน", "คุณ", "หมอ"
  ]

  const Suffixes: seq<string> := [
    "ๆ", "นะ", "ครับ", "ค่ะ", "คะ", "ไหม", "เลย", "มาก",
    "จัง", "อยู่", "แล้ว", "ด้วย", "เช่นกัน", "ทีเดียว"
  ]

  const Conjunctions: seq<string> := [
    "และ", "หรือ", "แต่", "ที่", "ซึ่ง", "เพราะ", "ฉะนั้น",
    "ดังนั้น", "เพื่อ", "เมื่อ", "ถ้า", "จน", "เพราะว่า"
  ]

  /** `wordBreakRules`: the rule categories in the order the segmenter visits them. */
  const WordBreakRules: seq<seq<string>> := [Prefixes, Suffixes, Conjunctions]

  /** ๆ ฯ ฿ ็ ์ ่ ้ ๊ ๋ */
  const SpecialChars: set<char> := {
    'ๆ', 'ฯ', '฿', '็', '์', '่', '้', '๊', '๋'
  }

  /** Membership in the flat union of the rule categories: some category lists `w`. */
  predicate IsRuleWord(rules: seq<seq<string>>, w: string) {
    exists j :: 0 <= j < |rules| && w in rules[j]
  }

  /** What the segmenter's guarantees need of a rule table: every rule word is
      non-empty and contains no whitespace. */
  predicate ValidRules(rules: seq<seq<string>>) {
    forall j, w :: 0 <= j < |rules| && w in rules[j] ==> w != [] && NoWhitespace(w)
  }

  /** A character of the Thai Unicode block U+0E00..U+0E7F. */
  predicate IsThaiBlock(c: char) {
    0x0E00 <= c as int <= 0x0E7F
  }

  predicate ThaiWord(w: string) {
    w != [] && forall i :: 0 <= i < |w| ==> IsThaiBlock(w[i])
  }

  predicate ThaiWords(ws: seq<string>) {
    forall n :: 0 <= n < |ws| ==> ThaiWord(ws[n])
  }

  predicate IsThaiConsonant(c: char) {
    3585 <= c as int <= 3630
  }

  predicate IsThaiVowel(c: char) {
    3632 <= c as int <= 3654
  }

  predicate IsThaiToneMark(c: char) {
    3655 <= c as int <= 3659
  }

  /** Every word of the table is a non-empty run of characters from the Thai block,
      so it contains no whitespace. */
  lemma WordBreakRulesValid()
    ensures ValidRules(WordBreakRules)
  {
    PrefixesAreThai();
    SuffixesAreThai();
    ConjunctionsAreThai();
    forall j, w | 0 <= j < |WordBreakRules| && w in WordBreakRules[j]
      ensures w != [] && NoWhitespace(w)
    {
      var n :| 0 <= n < |WordBreakRules[j]| && WordBreakRules[j][n] == w;
      assert ThaiWord(w);
    }
  }

  lemma PrefixesAreThai() ensures ThaiWords(Prefixes) { }
  lemma SuffixesAreThai() ensures ThaiWords(Suffixes) { }
  lemma ConjunctionsAreThai() ensures ThaiWords(Conjunctions) { }

  // ---------------------------------------------------------------------------
  // Specification of the segmenter: a fold of Step over the text, then Finish.
  // The rule table is a parameter; the analyzer passes WordBreakRules.

  /** The segmenter's state between two characters: the words emitted so far and
      the buffer accumulated since the last emission. */
  datatype Segmentation = Segmentation(words: seq<string>, buffer: string)

  /** One iteration of the scanning loop: append `c`; emit the buffer if it is a rule
      word; otherwise, if `c` is a literal space and the trimmed buffer is non-empty,
      emit the trimmed buffer. */
  function Step(rules: seq<seq<string>>, st: Segmentation, c: char): Segmentation {
    var buf := st.buffer + [c];
    if IsRuleWord(rules, buf) then Segmentation(st.words + [buf], [])
    else if c == ' ' && Trim(buf) != [] then Segmentation(st.words + [Trim(buf)], [])
    else Segmentation(st.words, buf)
  }

  /** The state after scanning all of `t`. */
  function Run(rules: seq<seq<string>>, t: string): Segmentation
  {
    if t == [] then Segmentation([], [])
    else Step(rules, Run(rules, t[..|t| - 1]), t[|t| - 1])
  }

  /** After the loop, a buffer whose trimmed form is non-empty becomes the last word. */
  function Finish(st: Segmentation): seq<string> {
    if Trim(st.buffer) != [] then st.words + [Trim(st.buffer)] else st.words
  }

  function Segment(rules: seq<seq<string>>, text: string): seq<string> {
    Finish(Run(rules, text))
  }

  // ---------------------------------------------------------------------------
  // The segmenter as the source writes it.

  method SegmentWords(rules: seq<seq<string>>, text: string) returns (words: seq<string>)
    ensures words == Segment(rules, text)
  {
    words := [];
    var current: string := [];
    var i := 0;
    while i < |text|
      invariant 0 <= i <= |text|
      invariant Segmentation(words, current) == Run(rules, text[..i])
    {
      assert text[..i + 1][..i] == text[..i];
      current := current + [text[i]];
      ghost var before, candidate := words, current;
      var isWord := false;
      var k := 0;
      while k < |rules| && !isWord
        invariant 0 <= k <= |rules|
        invariant !isWord ==> words == before && current == candidate
                              && forall j :: 0 <= j < k ==> candidate !in rules[j]
        invariant isWord ==> IsRuleWord(rules, candidate)
                             && words == before + [candidate] && current == []
      {
        if current in rules[k] {
          words := words + [current];
          current := [];
          isWord := true;
        }
        k := k + 1;
      }
      if text[i] == ' ' && Trim(current) != [] {
        if !isWord {
          words := words + [Trim(current)];
          current := [];
        }
      }
      i := i + 1;
    }
    assert text[..|text|] == text;
    if Trim(current) != [] {
      words := words + [Trim(current)];
    }
  }

  // ---------------------------------------------------------------------------
  // Properties of the segmentation.

  /** A word as emitted: non-empty, with no whitespace at either end. */
  predicate WellFormedWord(w: string) {
    w != [] && !IsWhitespace(w[0]) && !IsWhitespace(w[|w| - 1])
  }

  /** No non-empty prefix of `s` (up to `s` itself) is a rule word. */
  predicate NoRulePrefix(rules: seq<seq<string>>, s: string) {
    forall k :: 0 < k <= |s| ==> !IsRuleWord(rules, s[..k])
  }

  /** No non-empty proper prefix of `w` is a rule word. */
  predicate NoProperRulePrefix(rules: seq<seq<string>>, w: string) {
    forall k :: 0 < k < |w| ==> !IsRuleWord(rules, w[..k])
  }

  predicate NoSpace(t: string) {
    forall i :: 0 <= i < |t| ==> t[i] != ' '
  }

  lemma {:induction false} RunWordsWellFormed(rules: seq<seq<string>>, t: string)
    requires ValidRules(rules)
    ensures forall w :: w in Run(rules, t).words ==> WellFormedWord(w)
    decreases |t|
  {
    if t != [] {
      RunWordsWellFormed(rules, t[..|t| - 1]);
      var buf := Run(rules, t[..|t| - 1]).buffer + [t[|t| - 1]];
      if IsRuleWord(rules, buf) {
        var j :| 0 <= j < |rules| && buf in rules[j];
        assert buf != [] && NoWhitespace(buf);
      }
    }
  }

  /** The buffer never begins with a rule word: the moment it equals one, it is
      emitted, so the shortest matching rule word always fires first. */
  lemma {:induction false} RunBufferHasNoRulePrefix(rules: seq<seq<string>>, t: string)
    ensures NoRulePrefix(rules, Run(rules, t).buffer)
    decreases |t|
  {
    if t != [] {
      var prev := Run(rules, t[..|t| - 1]).buffer;
      RunBufferHasNoRulePrefix(rules, t[..|t| - 1]);
      var buf := prev + [t[|t| - 1]];
      if !IsRuleWord(rules, buf) && Run(rules, t).buffer != [] {
        assert Run(rules, t).buffer == buf;
        forall k | 0 < k <= |buf| ensures !IsRuleWord(rules, buf[..k]) {
          if k < |buf| {
            assert buf[..k] == prev[..k];
          } else {
            assert buf[..k] == buf;
          }
        }
      }
    }
  }

  /** Whatever is emitted, together with the buffer, holds every non-whitespace
      character scanned so far, in order. */
  lemma {:induction false} RunKeepsText(rules: seq<seq<string>>, t: string)
    ensures var st := Run(rules, t);
            StripWhitespace(Concat(st.words) + st.buffer) == StripWhitespace(t)
    decreases |t|
  {
    if t != [] {
      var t', c := t[..|t| - 1], t[|t| - 1];
      var st := Run(rules, t');
      RunKeepsText(rules, t');
      SplitLast([], t);
      StripWhitespaceAppend(t', [c]);
      StripWhitespaceAppend(Concat(st.words) + st.buffer, [c]);
      StepKeepsText(rules, st, c);
    }
  }

  /** One Step keeps the non-whitespace characters of words and buffer, plus `c`. */
  lemma StepKeepsText(rules: seq<seq<string>>, st: Segmentation, c: char)
    ensures var st' := Step(rules, st, c);
            StripWhitespace(Concat(st'.words) + st'.buffer)
              == StripWhitespace(Concat(st.words) + st.buffer + [c])
  {
    var buf := st.buffer + [c];
    assert Concat(st.words) + st.buffer + [c] == Concat(st.words) + buf;
    if IsRuleWord(rules, buf) {
      ConcatAppend(st.words, buf);
      assert Concat(st.words + [buf]) + [] == Concat(st.words + [buf]);
    } else if c == ' ' && Trim(buf) != [] {
      assert Concat(st.words + [Trim(buf)]) + [] == Concat(st.words + [Trim(buf)]);
      ConcatAppend(st.words, Trim(buf));
      StripWhitespaceAppend(Concat(st.words), Trim(buf));
      StripWhitespaceAppend(Concat(st.words), buf);
      StripTrim(buf);
    }
  }

  /** Only the literal space U+0020 ends a word early: without one, every word
      emitted inside the loop is a rule word. */
  lemma {:induction false} RunWithoutSpace(rules: seq<seq<string>>, t: string)
    requires NoSpace(t)
    ensures forall w :: w in Run(rules, t).words ==> IsRuleWord(rules, w)
    decreases |t|
  {
    if t != [] {
      var t' := t[..|t| - 1];
      assert NoSpace(t') by {
        forall j | 0 <= j < |t'| ensures t'[j] != ' ' { assert t'[j] == t[j]; }
      }
      RunWithoutSpace(rules, t[..|t| - 1]);
    }
  }

  /** On text without whitespace the scan is a pure rule-word split: the emitted
      words and the buffer spell out the text, and each emitted word is a rule word
      none of whose proper prefixes is one. */
  lemma {:induction false} RunWithoutWhitespace(rules: seq<seq<string>>, t: string)
    requires NoWhitespace(t)
    ensures Concat(Run(rules, t).words) + Run(rules, t).buffer == t
    ensures forall w :: w in Run(rules, t).words ==> IsRuleWord(rules, w) && NoProperRulePrefix(rules, w)
    decreases |t|
  {
    if t != [] {
      var t', c := t[..|t| - 1], t[|t| - 1];
      var st := Run(rules, t');
      assert NoWhitespace(t') by {
        forall j | 0 <= j < |t'| ensures !IsWhitespace(t'[j]) { assert t'[j] == t[j]; }
      }
      RunWithoutWhitespace(rules, t');
      RunBufferHasNoRulePrefix(rules, t');
      assert !IsWhitespace(c);
      SplitLast([], t);
      StepWithoutWhitespace(rules, st, c);
    }
  }

  /** A Step on a non-whitespace character either extends the buffer or emits it as
      a rule word none of whose proper prefixes is one. */
  lemma StepWithoutWhitespace(rules: seq<seq<string>>, st: Segmentation, c: char)
    requires !IsWhitespace(c) && NoRulePrefix(rules, st.buffer)
    ensures var st' := Step(rules, st, c);
            && Concat(st'.words) + st'.buffer == Concat(st.words) + st.buffer + [c]
            && (st'.words == st.words || st'.words == st.words + [st.buffer + [c]])
            && (st'.words != st.words ==>
                  IsRuleWord(rules, st.buffer + [c]) && NoProperRulePrefix(rules, st.buffer + [c]))
  {
    var buf := st.buffer + [c];
    if IsRuleWord(rules, buf) {
      ConcatAppend(st.words, buf);
      forall k | 0 < k < |buf| ensures !IsRuleWord(rules, buf[..k]) {
        assert buf[..k] == st.buffer[..k];
      }
    }
  }

  /** Every word `segmentWords` returns is non-empty and has no whitespace at either
      end; in particular none is a lone space, so the final filter removes nothing. */
  lemma SegmentWordsWellFormed(rules: seq<seq<string>>, text: string)
    requires ValidRules(rules)
    ensures forall w :: w in Segment(rules, text) ==> WellFormedWord(w) && w != " "
  {
    RunWordsWellFormed(rules, text);
  }

  /** Segmentation loses no non-whitespace character and adds none: deleting the
      whitespace from the joined words gives the text with its whitespace deleted. */
  lemma SegmentKeepsText(rules: seq<seq<string>>, text: string)
    ensures StripWhitespace(Concat(Segment(rules, text))) == StripWhitespace(text)
  {
    var st := Run(rules, text);
    RunKeepsText(rules, text);
    StripWhitespaceAppend(Concat(st.words), st.buffer);
    StripTrim(st.buffer);
    if Trim(st.buffer) != [] {
      ConcatAppend(st.words, Trim(st.buffer));
      StripWhitespaceAppend(Concat(st.words), Trim(st.buffer));
    }
  }

  lemma SegmentEmpty(rules: seq<seq<string>>)
    ensures Segment(rules, []) == []
  {
  }

  /** Tabs, newlines and other whitespace do not split: in text without a literal
      space every word but the last is a rule word. */
  lemma SegmentWithoutSpace(rules: seq<seq<string>>, text: string)
    requires NoSpace(text)
    ensures var ws := Segment(rules, text);
            forall i :: 0 <= i < |ws| - 1 ==> IsRuleWord(rules, ws[i])
  {
    RunWithoutSpace(rules, text);
  }

  /** On text without whitespace, the words spell out the text exactly, every word
      but the last is a rule word, and no word has a rule word as a proper prefix:
      a rule word is emitted only when the whole buffer since the last emission
      equals it, and the shortest such buffer fires first. */
  lemma SegmentWithoutWhitespace(rules: seq<seq<string>>, text: string)
    requires NoWhitespace(text)
    ensures var ws := Segment(rules, text);
            && Concat(ws) == text
            && (forall i :: 0 <= i < |ws| - 1 ==> IsRuleWord(rules, ws[i]))
            && (forall w :: w in ws ==> NoProperRulePrefix(rules, w))
  {
    RunWithoutWhitespace(rules, text);
    RunBufferHasNoRulePrefix(rules, text);
    FinishWithoutWhitespace(rules, Run(rules, text), text);
  }

  /** Finishing a state whose words and buffer spell out whitespace-free text. */
  lemma FinishWithoutWhitespace(rules: seq<seq<string>>, st: Segmentation, text: string)
    requires NoWhitespace(text) && Concat(st.words) + st.buffer == text
    requires forall w :: w in st.words ==> IsRuleWord(rules, w) && NoProperRulePrefix(rules, w)
    requires NoRulePrefix(rules, st.buffer)
    ensures var ws := Finish(st);
            && Concat(ws) == text
            && (forall i :: 0 <= i < |ws| - 1 ==> IsRuleWord(rules, ws[i]))
            && (forall w :: w in ws ==> NoProperRulePrefix(rules, w))
  {
    if st.buffer != [] {
      assert Finish(st) == st.words + [st.buffer] by {
        NoWhitespaceSuffix(Concat(st.words), st.buffer);
        TrimNoWhitespace(st.buffer);
      }
      ConcatAppend(st.words, st.buffer);
      AppendBufferWord(rules, st.words, st.buffer);
    } else {
      assert Trim(st.buffer) == [];
      assert Finish(st) == st.words;
    }
  }

  /** Appending a buffer without a rule prefix to rule words keeps every word but the
      last a rule word, and no word with a rule word as a proper prefix. */
  lemma AppendBufferWord(rules: seq<seq<string>>, words: seq<string>, b: string)
    requires forall w :: w in words ==> IsRuleWord(rules, w) && NoProperRulePrefix(rules, w)
    requires NoRulePrefix(rules, b)
    ensures var ws := words + [b];
            && (forall i :: 0 <= i < |ws| - 1 ==> IsRuleWord(rules, ws[i]))
            && (forall w :: w in ws ==> NoProperRulePrefix(rules, w))
  {
    var ws := words + [b];
    forall i | 0 <= i < |ws| - 1 ensures IsRuleWord(rules, ws[i]) {
      assert ws[i] == words[i] && words[i] in words;
    }
    forall w | w in ws ensures NoProperRulePrefix(rules, w) {
      if w != b {
        assert w in words;
      }
    }
  }

  lemma NoWhitespaceSuffix(a: string, b: string)
    requires NoWhitespace(a + b)
    ensures NoWhitespace(b)
  {
    forall j | 0 <= j < |b| ensures !IsWhitespace(b[j]) {
      assert b[j] == (a + b)[|a| + j];
    }
  }

  /** In text without whitespace the conjunction เพราะว่า is never emitted whole,
      because its prefix เพราะ is a rule word and fires first. */
  lemma BecauseNeverWhole(text: string)
    requires NoWhitespace(text)
    ensures "เพราะว่า" !in Segment(WordBreakRules, text)
  {
    var w := "เพราะว่า";
    assert IsRuleWord(WordBreakRules, w[..5]) by {
      assert w[..5] == "เพราะ" == Conjunctions[5];
      assert WordBreakRules[2] == Conjunctions;
    }
    assert !NoProperRulePrefix(WordBreakRules, w);
    SegmentWithoutWhitespace(WordBreakRules, text);
  }

  /** `s` is listed in no category of WordBreakRules (checked entry by entry). */
  lemma NotInWordBreakRules(s: string)
    requires forall j, n :: 0 <= j < |WordBreakRules| && 0 <= n < |WordBreakRules[j]| ==> WordBreakRules[j][n] != s
    ensures !IsRuleWord(WordBreakRules, s)
  {
  }

  // ---------------------------------------------------------------------------
  // Reset points and worked examples.

  /** Scanning one more character is one more Step. */
  lemma RunSnoc(rules: seq<seq<string>>, t: string, c: char)
    ensures Run(rules, t + [c]) == Step(rules, Run(rules, t), c)
  {
    assert (t + [c])[..|t|] == t;
  }

  /** The scan restarts from scratch after each emission: what follows an empty
      buffer is segmented exactly as if it stood alone. */
  lemma {:induction false} RunRestarts(rules: seq<seq<string>>, t: string, u: string)
    requires Run(rules, t).buffer == []
    ensures Run(rules, t + u) == Segmentation(Run(rules, t).words + Run(rules, u).words, Run(rules, u).buffer)
    decreases |u|
  {
    var w := Run(rules, t).words;
    if u == [] {
      assert t + u == t;
      assert w + [] == w;
    } else {
      var u', c := u[..|u| - 1], u[|u| - 1];
      var before := Run(rules, u');
      SplitLast(t, u);
      RunSnoc(rules, t + u', c);
      RunSnoc(rules, u', c);
      RunRestarts(rules, t, u');
      StepPrefixWords(rules, w, before, c);
    }
  }

  lemma SplitLast(t: string, u: string)
    requires u != []
    ensures t + u == (t + u[..|u| - 1]) + [u[|u| - 1]]
    ensures u == u[..|u| - 1] + [u[|u| - 1]]
  {
  }

  /** Words emitted earlier do not influence a Step. */
  lemma StepPrefixWords(rules: seq<seq<string>>, p: seq<string>, st: Segmentation, c: char)
    ensures var st' := Step(rules, st, c);
            Step(rules, Segmentation(p + st.words, st.buffer), c) == Segmentation(p + st'.words, st'.buffer)
  {
    var buf := st.buffer + [c];
    assert p + st.words + [buf] == p + (st.words + [buf]);
    assert p + st.words + [Trim(buf)] == p + (st.words + [Trim(buf)]);
  }

  /** Text without a space none of whose prefixes is a rule word is only buffered. */
  lemma {:induction false} RunWithoutRulePrefix(rules: seq<seq<string>>, t: string)
    requires NoSpace(t) && NoRulePrefix(rules, t)
    ensures Run(rules, t) == Segmentation([], t)
    decreases |t|
  {
    if t != [] {
      var t' := t[..|t| - 1];
      assert NoSpace(t') by {
        forall j | 0 <= j < |t'| ensures t'[j] != ' ' { assert t'[j] == t[j]; }
      }
      assert NoRulePrefix(rules, t') by {
        forall k | 0 < k <= |t'| ensures !IsRuleWord(rules, t'[..k]) { assert t'[..k] == t[..k]; }
      }
      RunWithoutRulePrefix(rules, t');
      SplitLast([], t);
      assert t[..|t|] == t;
    }
  }

  /** เพราะ is matched on its fifth character. */
  lemma SegmentPrefixBecause() ensures Run(WordBreakRules, "เพราะ") == Segmentation(["เพราะ"], "")
  {
    var R := WordBreakRules;
    var w := "เพรา";
    BecausePrefixesBuffered();
    assert IsRuleWord(R, "เพราะ") by { assert "เพราะ" in R[2]; }
    assert w + ['ะ'] == "เพราะ";
    RunSnoc(R, w, 'ะ');
  }

  /** The first four characters of เพราะ are only buffered. */
  lemma BecausePrefixesBuffered() ensures Run(WordBreakRules, "เพรา") == Segmentation([], "เพรา")
  {
    var R := WordBreakRules;
    var w := "เพรา";
    BecausePrefixesNotRules();
    assert NoRulePrefix(R, w) by {
      forall k | 0 < k <= |w| ensures !IsRuleWord(R, w[..k]) {
        if k == 1 { assert w[..k] == "เ"; }
        else if k == 2 { assert w[..k] == "เพ"; }
        else if k == 3 { assert w[..k] == "เพร"; }
        else { assert w[..k] == "เพรา"; }
      }
    }
    RunWithoutRulePrefix(R, w);
  }

  lemma BecausePrefixesNotRules()
    ensures !IsRuleWord(WordBreakRules, "เ") && !IsRuleWord(WordBreakRules, "เพ")
    ensures !IsRuleWord(WordBreakRules, "เพร") && !IsRuleWord(WordBreakRules, "เพรา")
  {
    assert !IsRuleWord(WordBreakRules, "เ") by { NotInWordBreakRules("เ"); }
    assert !IsRuleWord(WordBreakRules, "เพ") by { NotInWordBreakRules("เพ"); }
    assert !IsRuleWord(WordBreakRules, "เพร") by { NotInWordBreakRules("เพร"); }
    assert !IsRuleWord(WordBreakRules, "เพรา") by { NotInWordBreakRules("เพรา"); }
  }

  lemma SegmentPrefixWa() ensures Run(WordBreakRules, "ว่า") == Segmentation([], "ว่า")
  {
    var R := WordBreakRules;
    var w := "ว่า";
    assert NoRulePrefix(R, w) by {
      forall k | 0 < k <= |w| ensures !IsRuleWord(R, w[..k]) {
        if k == 1 { assert w[..k] == "ว"; NotInWordBreakRules("ว"); }
        else if k == 2 { assert w[..k] == "ว่"; NotInWordBreakRules("ว่"); }
        else { assert w[..k] == "ว่า"; NotInWordBreakRules("ว่า"); }
      }
    }
    RunWithoutRulePrefix(R, w);
  }

  /** After เพราะว่า, เพราะ has been emitted and ว่า is still buffered. */
  lemma RunBecauseThat() ensures Run(WordBreakRules, "เพราะว่า") == Segmentation(["เพราะ"], "ว่า")
  {
    SegmentPrefixBecause();
    SegmentPrefixWa();
    RunRestarts(WordBreakRules, "เพราะ", "ว่า");
    assert "เพราะ" + "ว่า" == "เพราะว่า";
    assert ["เพราะ"] + [] == ["เพราะ"];
  }

  /** The conjunction เพราะว่า on its own is split after เพราะ. */
  lemma SegmentBecauseThat() ensures Segment(WordBreakRules, "เพราะว่า") == ["เพราะ", "ว่า"]
  {
    var st := Run(WordBreakRules, "เพราะว่า");
    RunBecauseThat();
    assert Trim(st.buffer) == "ว่า" by {
      assert NoWhitespace("ว่า");
      TrimNoWhitespace("ว่า");
    }
    assert Finish(st) == ["เพราะ"] + ["ว่า"];
  }

  /** The flip side of the reset points: once the buffer starts with whitespace (a
      space or tab scanned right after an emission, or at the start of the text), it
      can never equal a rule word, so no rule fires until the next literal space. */
  lemma {:induction false} LeadingWhitespaceBlocksRules(rules: seq<seq<string>>, t: string, u: string)
    requires ValidRules(rules)
    requires Run(rules, t).buffer != [] && IsWhitespace(Run(rules, t).buffer[0])
    requires NoSpace(u)
    ensures Run(rules, t + u) == Segmentation(Run(rules, t).words, Run(rules, t).buffer + u)
    decreases |u|
  {
    var st := Run(rules, t);
    if u == [] {
      assert t + u == t;
      assert st.buffer + u == st.buffer;
    } else {
      var u', c := u[..|u| - 1], u[|u| - 1];
      assert NoSpace(u') by {
        forall j | 0 <= j < |u'| ensures u'[j] != ' ' { assert u'[j] == u[j]; }
      }
      LeadingWhitespaceBlocksRules(rules, t, u');
      var mid := Segmentation(st.words, st.buffer + u');
      assert Run(rules, t + u') == mid;
      SplitLast(t, u);
      RunSnoc(rules, t + u', c);
      assert Run(rules, t + u) == Step(rules, mid, c);
      assert c != ' ' by { assert u[|u| - 1] == c; }
      assert mid.buffer[0] == st.buffer[0];
      StepKeepsLeadingWhitespace(rules, mid, c);
      assert mid.buffer + [c] == st.buffer + u;
    }
  }

  /** A buffer that starts with whitespace is never a rule word, so a Step on
      anything but a space only extends it. */
  lemma StepKeepsLeadingWhitespace(rules: seq<seq<string>>, st: Segmentation, c: char)
    requires ValidRules(rules)
    requires st.buffer != [] && IsWhitespace(st.buffer[0]) && c != ' '
    ensures Step(rules, st, c) == Segmentation(st.words, st.buffer + [c])
  {
    var buf := st.buffer + [c];
    assert buf[0] == st.buffer[0];
    assert !NoWhitespace(buf);
  }

  /** A lone space is neither a rule word nor a word once trimmed, so it is buffered. */
  lemma RunSingleSpace(rules: seq<seq<string>>)
    requires ValidRules(rules)
    ensures Run(rules, [' ']) == Segmentation([], [' '])
  {
    var sp := [' '];
    assert IsWhitespace(sp[0]);
    assert !IsRuleWord(rules, sp) by {
      assert !NoWhitespace(sp);
    }
    assert Trim(sp) == [] by {
      assert AllWhitespace(sp);
    }
    assert [] + sp == sp;
    RunSnoc(rules, [], ' ');
  }

  /** Any whitespace-free text after a single leading space comes out as one word,
      whatever rule words it starts with or consists of. */
  lemma SegmentAfterLeadingSpace(rules: seq<seq<string>>, w: string)
    requires ValidRules(rules)
    requires w != [] && NoWhitespace(w)
    ensures Segment(rules, [' '] + w) == [w]
  {
    RunSingleSpace(rules);
    assert NoSpace(w);
    LeadingWhitespaceBlocksRules(rules, [' '], w);
    TrimLeadingWhitespace(' ', w);
    TrimNoWhitespace(w);
  }

  /** Preceded by a space, เพราะว่า is emitted whole: the space stays in the buffer,
      so neither เพราะ nor เพราะว่า is recognised, and the final trim drops it. */
  lemma SegmentSpaceBecauseThat()
    ensures Segment(WordBreakRules, [' '] + "เพราะว่า") == ["เพราะว่า"]
  {
    WordBreakRulesValid();
    SegmentAfterLeadingSpace(WordBreakRules, "เพราะว่า");
  }
}
