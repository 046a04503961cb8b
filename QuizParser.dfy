/**
 * Extraction of a quiz from the free-text reply of the language model. The
 * reply is expected to hold four tagged sections; each is looked up on its
 * own and a missing one degrades to a fixed placeholder.
 */
module QuizParser {
  import opened Wrappers
  import opened Text

  const QuestionStart := "QUESTION_START"
  const QuestionEnd := "QUESTION_END"
  const OptionsStart := "OPTIONS_START"
  const OptionsEnd := "OPTIONS_END"
  const AnswerStart := "ANSWER_START"
  const AnswerEnd := "ANSWER_END"
  const ExplanationStart := "EXPLANATION_START"
  const ExplanationEnd := "EXPLANATION_END"

  const Tags := [QuestionStart, QuestionEnd, OptionsStart, OptionsEnd,
                 AnswerStart, AnswerEnd, ExplanationStart, ExplanationEnd]

  const QuestionPlaceholder := "題目解析失敗"
  const OptionsPlaceholder := "選項解析失敗"
  const AnswerPlaceholder := "?"
  const ExplanationPlaceholder := "解說解析失敗"

  /** The fields returned when the model call itself raised. */
  const GenerationFailedQuestion := "產生題目失敗"
  const GenerationFailedOptions := "選項產生失敗"

  datatype Quiz = Quiz(question: string, options: string, answer: string, explanation: string)

  /**
   * What the lazy pattern `start \s*(.*?)\s* end` (dot matching line breaks)
   * spans before `.strip()`. Since both tags begin with a letter, the search
   * succeeds exactly when an end tag follows the FIRST start tag, and the
   * span is the text between that start tag and the nearest end tag after it.
   */
  function TagSpan(text: string, startTag: string, endTag: string): Option<string> {
    match IndexOf(text, startTag, 0)
    case None => None
    case Some(p) =>
      var from := p + |startTag|;
      match IndexOf(text, endTag, from)
      case None => None
      case Some(q) => Some(text[from..q])
  }

  /** The captured group after `.strip()`: the whitespace the pattern's `\s*`
      would skip is removed along with any other surrounding whitespace. */
  function TagContent(text: string, startTag: string, endTag: string): (r: Option<string>)
    requires |endTag| > 0
    ensures r.Some? ==> NoSurroundingSpace(r.value)
  {
    match TagSpan(text, startTag, endTag)
    case None => None
    case Some(s) => Some(Strip(s))
  }

  /** A field is found only if its start tag occurs and an end tag follows. */
  lemma FieldNeedsBothTags(text: string, startTag: string, endTag: string)
    requires |endTag| > 0
    ensures !Contains(text, startTag) ==> TagContent(text, startTag, endTag).None?
    ensures NoOcc(text, endTag) ==> TagContent(text, startTag, endTag).None?
  {
    match IndexOf(text, startTag, 0)
    case None =>
    case Some(p) =>
      var from := p + |startTag|;
      match IndexOf(text, endTag, from)
      case None =>
      case Some(q) =>
        assert OccursAt(text, endTag, q);
  }

  /** The span between the tags never holds the end tag: the match is lazy. */
  lemma SpanHoldsNoEndTag(text: string, startTag: string, endTag: string)
    requires |endTag| > 0
    ensures TagSpan(text, startTag, endTag).Some? ==> NoOcc(TagSpan(text, startTag, endTag).value, endTag)
  {
    match IndexOf(text, startTag, 0)
    case None =>
    case Some(p) =>
      var from := p + |startTag|;
      match IndexOf(text, endTag, from)
      case None =>
      case Some(q) => NoOccWindow(text, endTag, from, q);
  }

  /** Hence a field never holds its own end tag. */
  lemma FieldHoldsNoEndTag(text: string, startTag: string, endTag: string)
    requires |endTag| > 0
    ensures TagContent(text, startTag, endTag).Some? ==> NoOcc(TagContent(text, startTag, endTag).value, endTag)
  {
    SpanHoldsNoEndTag(text, startTag, endTag);
    var span := TagSpan(text, startTag, endTag);
    if span.Some? {
      NoOccStrip(span.value, endTag);
    }
  }

  /** The span runs from the first start tag, at `p`, to the nearest end tag
      after it, at `q`. */
  lemma TagSpanFirst(text: string, startTag: string, endTag: string, p: nat, q: nat)
    requires |endTag| > 0
    requires OccursAt(text, startTag, p) && forall i :: 0 <= i < p ==> !OccursAt(text, startTag, i)
    requires p + |startTag| <= q && OccursAt(text, endTag, q)
    requires forall i :: p + |startTag| <= i < q ==> !OccursAt(text, endTag, i)
    ensures TagSpan(text, startTag, endTag) == Some(text[p + |startTag|..q])
  {
    IndexOfFirst(text, startTag, 0, p);
    IndexOfFirst(text, endTag, p + |startTag|, q);
  }

  /** The field is the stripped text between the first start tag, at `p`, and
      the nearest end tag after it, at `q`, whatever else the reply holds. */
  lemma TagContentFound(text: string, startTag: string, endTag: string, p: nat, q: nat)
    requires |endTag| > 0
    requires OccursAt(text, startTag, p) && forall i :: 0 <= i < p ==> !OccursAt(text, startTag, i)
    requires p + |startTag| <= q && OccursAt(text, endTag, q)
    requires forall i :: p + |startTag| <= i < q ==> !OccursAt(text, endTag, i)
    ensures TagContent(text, startTag, endTag) == Some(Strip(text[p + |startTag|..q]))
  {
    TagSpanFirst(text, startTag, endTag, p, q);
  }

  /** No field is found when no end tag follows the first start tag, even if
      one follows a later start tag. */
  lemma TagContentUnclosed(text: string, startTag: string, endTag: string, p: nat)
    requires |endTag| > 0
    requires OccursAt(text, startTag, p) && forall i :: 0 <= i < p ==> !OccursAt(text, startTag, i)
    requires forall i :: p + |startTag| <= i ==> !OccursAt(text, endTag, i)
    ensures TagContent(text, startTag, endTag).None?
  {
    IndexOfFirst(text, startTag, 0, p);
  }

  predicate IsAnswerLetter(c: char) {
    'A' <= c <= 'D' || 'a' <= c <= 'd'
  }

  /** `\s*ANSWER_END` at the head of `s`. */
  predicate EndTagFollows(s: string)
    decreases |s|
  {
    if s != [] && IsSpace(s[0]) then EndTagFollows(s[1..]) else OccursAt(s, AnswerEnd, 0)
  }

  /** `\s*([A-Da-d])\s*ANSWER_END` at the head of `s`, yielding the letter
      upper-cased. A letter is never whitespace, so the pattern can only split
      `s` one way and no backtracking is involved. */
  function LetterThenEnd(s: string): (r: Option<char>)
    ensures r.Some? ==> 'A' <= r.value <= 'D'
    decreases |s|
  {
    if s == [] then None
    else if IsSpace(s[0]) then LetterThenEnd(s[1..])
    else if IsAnswerLetter(s[0]) && EndTagFollows(s[1..]) then Some(UpperChar(s[0]))
    else None
  }

  /** Whitespace and then the end tag satisfy `\s*ANSWER_END`. */
  lemma {:induction false} EndTagAfterSpace(w: string, rest: string)
    requires AllSpace(w)
    ensures EndTagFollows(w + AnswerEnd + rest)
    decreases |w|
  {
    var s := w + AnswerEnd + rest;
    if w == [] {
      assert s == AnswerEnd + rest;
      assert s[..|AnswerEnd|] == AnswerEnd;
    } else {
      assert s[0] == w[0];
      assert s[1..] == w[1..] + AnswerEnd + rest;
      EndTagAfterSpace(w[1..], rest);
    }
  }

  /** Conversely, `\s*ANSWER_END` matches only whitespace followed by the end tag. */
  lemma {:induction false} EndTagSplit(s: string) returns (w: string, rest: string)
    requires EndTagFollows(s)
    ensures s == w + AnswerEnd + rest && AllSpace(w)
    decreases |s|
  {
    if s != [] && IsSpace(s[0]) {
      var w', rest' := EndTagSplit(s[1..]);
      w, rest := [s[0]] + w', rest';
      assert s == [s[0]] + s[1..];
      assert forall i :: 1 <= i < |w| ==> w[i] == w'[i - 1];
    } else {
      assert OccursAt(s, AnswerEnd, 0);
      w, rest := [], s[|AnswerEnd|..];
      assert s == s[..|AnswerEnd|] + s[|AnswerEnd|..];
    }
  }

  /** Whitespace, a letter in either case and `\s*ANSWER_END` yield that letter
      upper-cased. */
  lemma {:induction false} LetterAfterSpace(w: string, c: char, tail: string)
    requires AllSpace(w) && IsAnswerLetter(c) && EndTagFollows(tail)
    ensures LetterThenEnd(w + [c] + tail) == Some(UpperChar(c))
    decreases |w|
  {
    var s := w + [c] + tail;
    if w == [] {
      assert s[0] == c && s[1..] == tail;
    } else {
      assert s[0] == w[0] && s[1..] == w[1..] + [c] + tail;
      LetterAfterSpace(w[1..], c, tail);
    }
  }

  /** Conversely, a letter is yielded only for whitespace, a letter and
      `\s*ANSWER_END`, and it is that letter upper-cased. */
  lemma {:induction false} LetterSplit(s: string) returns (w: string, c: char, tail: string)
    requires LetterThenEnd(s).Some?
    ensures s == w + [c] + tail && AllSpace(w) && IsAnswerLetter(c) && EndTagFollows(tail)
    ensures LetterThenEnd(s) == Some(UpperChar(c))
    decreases |s|
  {
    if IsSpace(s[0]) {
      var w', c', tail' := LetterSplit(s[1..]);
      w, c, tail := [s[0]] + w', c', tail';
      assert s == [s[0]] + s[1..];
    } else {
      w, c, tail := [], s[0], s[1..];
      assert s == [s[0]] + s[1..];
    }
  }

  /**
   * The answer pattern `ANSWER_START\s*([A-Da-d])\s*ANSWER_END` tried at index
   * `p`: the start tag, optional whitespace, one letter A-D in either case,
   * optional whitespace and the end tag. Yields the letter upper-cased.
   */
  function AnswerAt(text: string, p: nat): (r: Option<char>)
    ensures r.Some? ==> OccursAt(text, AnswerStart, p) && 'A' <= r.value <= 'D'
  {
    if OccursAt(text, AnswerStart, p) then LetterThenEnd(text[p + |AnswerStart|..]) else None
  }

  /** The answer pattern matches at `p` when the text from `p` on is the start
      tag, whitespace, a letter in either case, whitespace and the end tag,
      and it yields that letter upper-cased. */
  lemma AnswerMatchesSplit(text: string, p: nat, w1: string, c: char, w2: string, rest: string)
    requires p <= |text| && text[p..] == AnswerStart + w1 + [c] + w2 + AnswerEnd + rest
    requires AllSpace(w1) && IsAnswerLetter(c) && AllSpace(w2)
    ensures AnswerAt(text, p) == Some(UpperChar(c))
  {
    var k := |AnswerStart|;
    var tail := w2 + AnswerEnd + rest;
    assert text[p..] == AnswerStart + (w1 + [c] + tail);
    assert text[p..p + k] == text[p..][..k];
    assert OccursAt(text, AnswerStart, p);
    assert text[p + k..] == text[p..][k..] == w1 + [c] + tail;
    EndTagAfterSpace(w2, rest);
    LetterAfterSpace(w1, c, tail);
  }

  /** Conversely, a match at `p` is of that shape. */
  lemma AnswerMatchSplits(text: string, p: nat) returns (w1: string, c: char, w2: string, rest: string)
    requires AnswerAt(text, p).Some?
    ensures p <= |text| && text[p..] == AnswerStart + w1 + [c] + w2 + AnswerEnd + rest
    ensures AllSpace(w1) && IsAnswerLetter(c) && AllSpace(w2)
    ensures AnswerAt(text, p) == Some(UpperChar(c))
  {
    var k := |AnswerStart|;
    var after := text[p + k..];
    var tail;
    w1, c, tail := LetterSplit(after);
    w2, rest := EndTagSplit(tail);
    assert text[p..p + k] == AnswerStart;
    assert text[p..] == text[p..p + k] + after;
    Regroup(AnswerStart, w1, [c], w2 + AnswerEnd + rest);
    Regroup(AnswerStart + w1 + [c], w2, AnswerEnd, rest);
  }

  /** Regrouping the pieces of a split answer block. */
  lemma Regroup(a: string, b: string, c: string, d: string)
    ensures a + (b + c + d) == a + b + c + d
  {
  }

  /** The scan `re.search` performs: the first index from `from` on at which
      the answer pattern matches. Unlike the lazy fields, a start tag that is
      not followed by a letter does not end the search. */
  function FirstAnswerMatch(text: string, from: nat): (r: Option<nat>)
    requires from <= |text|
    ensures r.Some? ==> from <= r.value <= |text| && AnswerAt(text, r.value).Some?
    ensures forall p :: from <= p <= |text| && (r.None? || p < r.value) ==> AnswerAt(text, p).None?
    decreases |text| - from
  {
    if AnswerAt(text, from).Some? then Some(from)
    else if from == |text| then None
    else FirstAnswerMatch(text, from + 1)
  }

  /** One of the letters A to D, or the placeholder "?". */
  predicate IsAnswerField(s: string) {
    s == AnswerPlaceholder || (|s| == 1 && 'A' <= s[0] <= 'D')
  }

  /** The answer field: the matched letter upper-cased, or the placeholder. */
  function ExtractAnswer(text: string): (r: string)
    ensures IsAnswerField(r)
    ensures FirstAnswerMatch(text, 0).Some? ==> r == [AnswerAt(text, FirstAnswerMatch(text, 0).value).value]
    ensures r == AnswerPlaceholder <==> forall p :: 0 <= p <= |text| ==> AnswerAt(text, p).None?
  {
    match FirstAnswerMatch(text, 0)
    case None => AnswerPlaceholder
    case Some(p) =>
      var c := AnswerAt(text, p).value;
      assert [c][0] != AnswerPlaceholder[0];
      [c]
  }

  /** The answer is the letter of the first match, upper-cased: when the
      pattern matches at `p` and nowhere before. */
  lemma ExtractAnswerOfFirstMatch(text: string, p: nat, w1: string, c: char, w2: string, rest: string)
    requires p <= |text| && text[p..] == AnswerStart + w1 + [c] + w2 + AnswerEnd + rest
    requires AllSpace(w1) && IsAnswerLetter(c) && AllSpace(w2)
    requires forall i :: 0 <= i < p ==> AnswerAt(text, i).None?
    ensures ExtractAnswer(text) == [UpperChar(c)]
  {
    AnswerMatchesSplit(text, p, w1, c, w2, rest);
    FirstAnswerMatchAt(text, 0, p);
  }

  lemma PlaceholdersAreStripped()
    ensures NoSurroundingSpace(QuestionPlaceholder) && NoSurroundingSpace(OptionsPlaceholder)
    ensures NoSurroundingSpace(ExplanationPlaceholder)
  {
    assert QuestionPlaceholder[0] == '題' && QuestionPlaceholder[5] == '敗';
    assert OptionsPlaceholder[0] == '選' && OptionsPlaceholder[5] == '敗';
    assert ExplanationPlaceholder[0] == '解' && ExplanationPlaceholder[5] == '敗';
  }

  /** The four fields of a reply, each found independently of the others. */
  function ParseReply(text: string): (q: Quiz)
    ensures IsAnswerField(q.answer)
    ensures NoSurroundingSpace(q.question) && NoSurroundingSpace(q.options)
    ensures NoSurroundingSpace(q.explanation)
  {
    PlaceholdersAreStripped();
    Quiz(
      TagContent(text, QuestionStart, QuestionEnd).GetOr(QuestionPlaceholder),
      TagContent(text, OptionsStart, OptionsEnd).GetOr(OptionsPlaceholder),
      ExtractAnswer(text),
      TagContent(text, ExplanationStart, ExplanationEnd).GetOr(ExplanationPlaceholder))
  }

  /** Each field whose tags are missing falls back to its placeholder. */
  lemma MissingFieldsArePlaceholders(text: string)
    ensures var q := ParseReply(text);
      && (!Contains(text, QuestionStart) || NoOcc(text, QuestionEnd) ==> q.question == QuestionPlaceholder)
      && (!Contains(text, OptionsStart) || NoOcc(text, OptionsEnd) ==> q.options == OptionsPlaceholder)
      && (!Contains(text, ExplanationStart) || NoOcc(text, ExplanationEnd) ==> q.explanation == ExplanationPlaceholder)
      && (!Contains(text, AnswerStart) ==> q.answer == AnswerPlaceholder)
  {
    FieldNeedsBothTags(text, QuestionStart, QuestionEnd);
    FieldNeedsBothTags(text, OptionsStart, OptionsEnd);
    FieldNeedsBothTags(text, ExplanationStart, ExplanationEnd);
    if !Contains(text, AnswerStart) {
      forall p | 0 <= p <= |text| ensures AnswerAt(text, p).None? {
        assert !OccursAt(text, AnswerStart, p);
      }
    }
  }

  /** The recogniser's description reports a failure when it mentions failure
      or error anywhere; both front ends stop there. */
  predicate ReportsFailure(itemResult: string) {
    Contains(itemResult, "失敗") || Contains(itemResult, "錯誤")
  }

  /** Quiz generation after the model call: a reply is parsed, a raised error
      becomes the fixed failure fields with the error text as explanation. */
  function GenerateQuiz(reply: Result<string, string>): (q: Quiz)
    ensures IsAnswerField(q.answer)
    ensures reply.Failure? ==> q == Quiz(GenerationFailedQuestion, GenerationFailedOptions, AnswerPlaceholder, reply.error)
  {
    match reply
    case Success(text) => ParseReply(text)
    case Failure(e) => Quiz(GenerationFailedQuestion, GenerationFailedOptions, AnswerPlaceholder, e)
  }

  // The layout the generation prompt asks for, and the proof that the parser
  // reads it back.

  function Block(startTag: string, body: string, endTag: string): string {
    startTag + "\n" + body + "\n" + endTag
  }

  /** The reply layout the generation prompt asks the model for. */
  function Render(q: Quiz): string {
    Block(QuestionStart, q.question, QuestionEnd) + "\n" +
    Block(OptionsStart, q.options, OptionsEnd) + "\n" +
    Block(AnswerStart, q.answer, AnswerEnd) + "\n" +
    Block(ExplanationStart, q.explanation, ExplanationEnd)
  }

  /** Text that can stand in a field: no surrounding whitespace, no tag. */
  ghost predicate FreeText(s: string) {
    NoSurroundingSpace(s) && forall t :: t in Tags ==> NoOcc(s, t)
  }

  ghost predicate Renderable(q: Quiz) {
    && FreeText(q.question) && FreeText(q.options) && FreeText(q.explanation)
    && |q.answer| == 1 && 'A' <= q.answer[0] <= 'D'
  }

  lemma TagsHaveNoLineBreak()
    ensures forall t :: t in Tags ==> '\n' !in t && |t| > 0
  {
  }

  /** A field wrapped in line breaks holds no tag. */
  lemma NoOccPadded(x: string, pat: string)
    requires '\n' !in pat && |pat| > 0
    requires NoOcc(x, pat)
    ensures NoOcc("\n" + x + "\n", pat)
  {
    NoOccJoin([], x, pat);
    NoOccJoin([] + "\n" + x, [], pat);
    assert [] + "\n" + x + "\n" + [] == "\n" + x + "\n";
  }

  /** A block holds no tag other than its own two, given these do not contain
      the tag and the body holds none. */
  lemma NoOccBlock(startTag: string, body: string, endTag: string, pat: string)
    requires '\n' !in pat && |pat| > 0
    requires NoOcc(startTag, pat) && NoOcc(body, pat) && NoOcc(endTag, pat)
    ensures NoOcc(Block(startTag, body, endTag), pat)
    ensures NoOcc(Block(startTag, body, endTag) + "\n", pat)
  {
    NoOccJoin(startTag, body, pat);
    NoOccJoin(startTag + "\n" + body, endTag, pat);
    NoOccJoin(Block(startTag, body, endTag), [], pat);
    assert Block(startTag, body, endTag) + "\n" + [] == Block(startTag, body, endTag) + "\n";
  }

  /** The span once both tags have been located. */
  lemma TagSpanFound(text: string, startTag: string, endTag: string, p: nat, from: nat, q: nat)
    requires |endTag| > 0 && from == p + |startTag| && from <= q <= |text|
    requires IndexOf(text, startTag, 0) == Some(p)
    requires IndexOf(text, endTag, from) == Some(q)
    ensures TagSpan(text, startTag, endTag) == Some(text[from..q])
  {
  }

  /** The field once its tags are located around a body padded by line breaks. */
  lemma TagContentAt(text: string, startTag: string, endTag: string, p: nat, from: nat, q: nat, body: string)
    requires |endTag| > 0 && NoSurroundingSpace(body)
    requires from == p + |startTag| && q == from + |body| + 2 && q <= |text|
    requires IndexOf(text, startTag, 0) == Some(p)
    requires IndexOf(text, endTag, from) == Some(q)
    requires text[from..q] == "\n" + body + "\n"
    ensures TagContent(text, startTag, endTag) == Some(body)
  {
    TagSpanFound(text, startTag, endTag, p, from, q);
    StripPadded(body);
  }

  /** Splitting a text that holds a block right after its start tag. */
  lemma SplitAtStart(text: string, before: string, startTag: string, body: string, endTag: string, after: string)
    requires text == before + Block(startTag, body, endTag) + after
    ensures text == before + startTag + (("\n" + body + "\n") + endTag + after)
  {
  }

  /** Splitting a text that holds a block right before its end tag. */
  lemma SplitAtEnd(text: string, before: string, startTag: string, body: string, endTag: string, after: string)
    requires text == before + Block(startTag, body, endTag) + after
    ensures text == (before + startTag) + ("\n" + body + "\n") + endTag + after
  {
  }

  /** The first start tag of a text is the one right after `before`, when
      `before` holds none and ends with a line break. */
  lemma StartTagAfter(text: string, before: string, startTag: string, rest: string, p: nat)
    requires text == before + startTag + rest && p == |before|
    requires '\n' !in startTag && |startTag| > 0
    requires before == [] || before[|before| - 1] == '\n'
    requires NoOcc(before, startTag)
    ensures IndexOf(text, startTag, 0) == Some(p)
  {
    assert text == [] + before + startTag + rest;
    FirstOccurrence(text, [], before, startTag, rest);
  }

  /** After `skip`, the first end tag is the one closing a body padded by line
      breaks, when the body holds none. */
  lemma EndTagAfter(text: string, skip: string, body: string, endTag: string, after: string, from: nat, q: nat)
    requires text == skip + ("\n" + body + "\n") + endTag + after
    requires from == |skip| && q == from + |body| + 2
    requires '\n' !in endTag && |endTag| > 0
    requires NoOcc(body, endTag)
    ensures IndexOf(text, endTag, from) == Some(q)
  {
    NoOccPadded(body, endTag);
    FirstOccurrence(text, skip, "\n" + body + "\n", endTag, after);
  }

  /** The padded body of a block sits right after `skip`. */
  lemma PaddedBodyAt(text: string, skip: string, body: string, rest: string, from: nat, q: nat)
    requires text == skip + ("\n" + body + "\n") + rest
    requires from == |skip| && q == from + |body| + 2
    ensures q <= |text| && text[from..q] == "\n" + body + "\n"
  {
    var region := "\n" + body + "\n";
    var w := text[from..q];
    assert forall k :: 0 <= k < |region| ==> w[k] == region[k];
  }

  /** The first start tag of a text holding a block is the block's own, when
      the text before the block holds none. */
  lemma StartOfBlock(text: string, before: string, startTag: string, body: string, endTag: string, after: string, p: nat)
    requires text == before + Block(startTag, body, endTag) + after && p == |before|
    requires '\n' !in startTag && |startTag| > 0
    requires before == [] || before[|before| - 1] == '\n'
    requires NoOcc(before, startTag)
    ensures IndexOf(text, startTag, 0) == Some(p)
  {
    SplitAtStart(text, before, startTag, body, endTag, after);
    StartTagAfter(text, before, startTag, ("\n" + body + "\n") + endTag + after, p);
  }

  /** After the start tag of a block, the first end tag is the block's own,
      when the body holds none. */
  lemma EndOfBlock(text: string, before: string, startTag: string, body: string, endTag: string, after: string,
                   from: nat, q: nat)
    requires text == before + Block(startTag, body, endTag) + after
    requires from == |before| + |startTag| && q == from + |body| + 2
    requires '\n' !in endTag && |endTag| > 0
    requires NoOcc(body, endTag)
    ensures IndexOf(text, endTag, from) == Some(q)
  {
    SplitAtEnd(text, before, startTag, body, endTag, after);
    EndTagAfter(text, before + startTag, body, endTag, after, from, q);
  }

  /** Between the two tags of a block lies its padded body. */
  lemma InteriorOfBlock(text: string, before: string, startTag: string, body: string, endTag: string, after: string,
                        from: nat, q: nat)
    requires text == before + Block(startTag, body, endTag) + after
    requires from == |before| + |startTag| && q == from + |body| + 2
    ensures q <= |text| && text[from..q] == "\n" + body + "\n"
  {
    SplitAtEnd(text, before, startTag, body, endTag, after);
    PaddedBodyAt(text, before + startTag, body, endTag + after, from, q);
  }

  /** The lazy extraction of one block whose start tag is first found at the
      end of `before`, and whose body is free of its end tag. */
  lemma TagContentOfBlock(text: string, before: string, startTag: string, body: string, endTag: string, after: string)
    requires text == before + Block(startTag, body, endTag) + after
    requires '\n' !in startTag && '\n' !in endTag && |startTag| > 0 && |endTag| > 0
    requires before == [] || before[|before| - 1] == '\n'
    requires NoOcc(before, startTag)
    requires NoSurroundingSpace(body) && NoOcc(body, endTag)
    ensures TagContent(text, startTag, endTag) == Some(body)
  {
    var p := |before|;
    var from := p + |startTag|;
    var q := from + |body| + 2;
    StartOfBlock(text, before, startTag, body, endTag, after, p);
    EndOfBlock(text, before, startTag, body, endTag, after, from, q);
    InteriorOfBlock(text, before, startTag, body, endTag, after, from, q);
    TagContentAt(text, startTag, endTag, p, from, q, body);
  }

  /** An answer block seen from just after its start tag; a lower-case letter
      comes out upper-cased. */
  lemma LetterThenEndPadded(c: char, after: string)
    requires IsAnswerLetter(c)
    ensures LetterThenEnd("\n" + [c] + "\n" + AnswerEnd + after) == Some(UpperChar(c))
  {
    var s := "\n" + [c] + "\n" + AnswerEnd + after;
    var u := [c] + "\n" + AnswerEnd + after;
    var v := "\n" + AnswerEnd + after;
    var w := AnswerEnd + after;
    assert s[1..] == u;
    assert u[1..] == v;
    assert v[1..] == w;
    assert w[..|AnswerEnd|] == AnswerEnd;
    assert EndTagFollows(w);
  }

  /** The first index at which the answer pattern matches, once that index
      matches and no earlier one from `from` on does. */
  lemma {:induction false} FirstAnswerMatchAt(text: string, from: nat, k: nat)
    requires from <= k <= |text|
    requires AnswerAt(text, k).Some?
    requires forall p :: from <= p < k ==> AnswerAt(text, p).None?
    ensures FirstAnswerMatch(text, from) == Some(k)
    decreases k - from
  {
    if from < k {
      assert AnswerAt(text, from).None?;
      FirstAnswerMatchAt(text, from + 1, k);
    }
  }

  /** The answer pattern matches where an answer block starts. */
  lemma AnswerMatchesAt(text: string, before: string, c: char, after: string)
    requires text == before + AnswerStart + ("\n" + [c] + "\n" + AnswerEnd + after)
    requires IsAnswerLetter(c)
    ensures AnswerAt(text, |before|) == Some(UpperChar(c))
  {
    var k := |before|;
    assert text[k..k + |AnswerStart|] == AnswerStart;
    assert text[k + |AnswerStart|..] == "\n" + [c] + "\n" + AnswerEnd + after;
    LetterThenEndPadded(c, after);
  }

  /** The answer pattern matches nowhere in a prefix free of its start tag. */
  lemma NoAnswerBefore(text: string, before: string, rest: string)
    requires text == before + AnswerStart + rest
    requires before == [] || before[|before| - 1] == '\n'
    requires NoOcc(before, AnswerStart)
    ensures forall p :: 0 <= p < |before| ==> AnswerAt(text, p).None?
  {
    assert text == [] + before + AnswerStart + rest;
    forall p | 0 <= p < |before| ensures AnswerAt(text, p).None? {
      NoOccBefore([], before, AnswerStart, rest, p);
    }
  }

  /** The answer pattern matches at the start of an answer block, and the
      letter in it, in either case, becomes the upper-case answer. */
  lemma AnswerOfBlock(text: string, before: string, letter: string, after: string)
    requires text == before + Block(AnswerStart, letter, AnswerEnd) + after
    requires before == [] || before[|before| - 1] == '\n'
    requires NoOcc(before, AnswerStart)
    requires |letter| == 1 && IsAnswerLetter(letter[0])
    ensures ExtractAnswer(text) == [UpperChar(letter[0])]
  {
    var c := letter[0];
    assert letter == [c];
    assert text == before + AnswerStart + ("\n" + [c] + "\n" + AnswerEnd + after);
    AnswerMatchesAt(text, before, c, after);
    NoAnswerBefore(text, before, "\n" + [c] + "\n" + AnswerEnd + after);
    FirstAnswerMatchAt(text, 0, |before|);
  }

  /** No tag occurs inside a tag that the layout puts before it. */
  lemma TagsApart()
    ensures NoOcc(QuestionStart, OptionsStart) && NoOcc(QuestionEnd, OptionsStart)
    ensures NoOcc(QuestionStart, AnswerStart) && NoOcc(QuestionEnd, AnswerStart)
    ensures NoOcc(OptionsStart, AnswerStart) && NoOcc(OptionsEnd, AnswerStart)
    ensures NoOcc(QuestionStart, ExplanationStart) && NoOcc(QuestionEnd, ExplanationStart)
    ensures NoOcc(OptionsStart, ExplanationStart) && NoOcc(OptionsEnd, ExplanationStart)
    ensures NoOcc(AnswerStart, ExplanationStart) && NoOcc(AnswerEnd, ExplanationStart)
  {
    NoOccByFirstChar(QuestionStart, OptionsStart);
    NoOccShorter(QuestionEnd, OptionsStart);
    NoOccByFirstChar(QuestionStart, AnswerStart);
    NoOccByFirstChar(QuestionEnd, AnswerStart);
    NoOccByFirstChar(OptionsStart, AnswerStart);
    NoOccShorter(OptionsEnd, AnswerStart);
    NoOccShorter(QuestionStart, ExplanationStart);
    NoOccShorter(QuestionEnd, ExplanationStart);
    NoOccShorter(OptionsStart, ExplanationStart);
    NoOccShorter(OptionsEnd, ExplanationStart);
    NoOccShorter(AnswerStart, ExplanationStart);
    NoOccShorter(AnswerEnd, ExplanationStart);
  }

  /** The ways the round-trip proof splits four blocks joined by line breaks. */
  lemma JoinedLayout(a: string, b: string, c: string, d: string)
    ensures var s := a + "\n" + b + "\n" + c + "\n" + d;
      && s == [] + a + ("\n" + b + "\n" + c + "\n" + d)
      && s == (a + "\n") + b + ("\n" + c + "\n" + d)
      && s == (a + "\n" + (b + "\n")) + c + ("\n" + d)
      && s == (a + "\n" + b + "\n" + (c + "\n")) + d + []
  {
  }

  lemma RenderLayout(q: Quiz)
    ensures var qb, ob, ab, eb := Block(QuestionStart, q.question, QuestionEnd),
        Block(OptionsStart, q.options, OptionsEnd), Block(AnswerStart, q.answer, AnswerEnd),
        Block(ExplanationStart, q.explanation, ExplanationEnd);
      && Render(q) == [] + qb + ("\n" + ob + "\n" + ab + "\n" + eb)
      && Render(q) == (qb + "\n") + ob + ("\n" + ab + "\n" + eb)
      && Render(q) == (qb + "\n" + (ob + "\n")) + ab + ("\n" + eb)
      && Render(q) == (qb + "\n" + ob + "\n" + (ab + "\n")) + eb + []
  {
    JoinedLayout(Block(QuestionStart, q.question, QuestionEnd), Block(OptionsStart, q.options, OptionsEnd),
      Block(AnswerStart, q.answer, AnswerEnd), Block(ExplanationStart, q.explanation, ExplanationEnd));
  }

  lemma QuestionOfRender(q: Quiz)
    requires Renderable(q)
    ensures TagContent(Render(q), QuestionStart, QuestionEnd) == Some(q.question)
  {
    TagsHaveNoLineBreak();
    assert Tags[1] == QuestionEnd;
    RenderLayout(q);
    var ob := Block(OptionsStart, q.options, OptionsEnd);
    var ab := Block(AnswerStart, q.answer, AnswerEnd);
    var eb := Block(ExplanationStart, q.explanation, ExplanationEnd);
    TagContentOfBlock(Render(q), [], QuestionStart, q.question, QuestionEnd, "\n" + ob + "\n" + ab + "\n" + eb);
  }

  lemma OptionsOfRender(q: Quiz)
    requires Renderable(q)
    ensures TagContent(Render(q), OptionsStart, OptionsEnd) == Some(q.options)
  {
    TagsHaveNoLineBreak();
    assert Tags[2] == OptionsStart && Tags[3] == OptionsEnd;
    TagsApart();
    RenderLayout(q);
    var qb := Block(QuestionStart, q.question, QuestionEnd);
    var ab := Block(AnswerStart, q.answer, AnswerEnd);
    var eb := Block(ExplanationStart, q.explanation, ExplanationEnd);
    NoOccBlock(QuestionStart, q.question, QuestionEnd, OptionsStart);
    TagContentOfBlock(Render(q), qb + "\n", OptionsStart, q.options, OptionsEnd, "\n" + ab + "\n" + eb);
  }

  lemma AnswerOfRender(q: Quiz)
    requires Renderable(q)
    ensures ExtractAnswer(Render(q)) == q.answer
  {
    TagsHaveNoLineBreak();
    assert Tags[4] == AnswerStart;
    TagsApart();
    RenderLayout(q);
    var qb := Block(QuestionStart, q.question, QuestionEnd);
    var ob := Block(OptionsStart, q.options, OptionsEnd);
    var eb := Block(ExplanationStart, q.explanation, ExplanationEnd);
    NoOccBlock(QuestionStart, q.question, QuestionEnd, AnswerStart);
    NoOccBlock(OptionsStart, q.options, OptionsEnd, AnswerStart);
    NoOccJoin(qb, ob + "\n", AnswerStart);
    AnswerOfBlock(Render(q), qb + "\n" + (ob + "\n"), q.answer, "\n" + eb);
    assert q.answer == [q.answer[0]] && UpperChar(q.answer[0]) == q.answer[0];
  }

  lemma ExplanationOfRender(q: Quiz)
    requires Renderable(q)
    ensures TagContent(Render(q), ExplanationStart, ExplanationEnd) == Some(q.explanation)
  {
    TagsHaveNoLineBreak();
    assert Tags[6] == ExplanationStart && Tags[7] == ExplanationEnd;
    TagsApart();
    RenderLayout(q);
    var qb := Block(QuestionStart, q.question, QuestionEnd);
    var ob := Block(OptionsStart, q.options, OptionsEnd);
    var ab := Block(AnswerStart, q.answer, AnswerEnd);
    NoOccShorter(q.answer, ExplanationStart);
    NoOccBlock(QuestionStart, q.question, QuestionEnd, ExplanationStart);
    NoOccBlock(OptionsStart, q.options, OptionsEnd, ExplanationStart);
    NoOccBlock(AnswerStart, q.answer, AnswerEnd, ExplanationStart);
    NoOccJoin(qb, ob, ExplanationStart);
    NoOccJoin(qb + "\n" + ob, ab + "\n", ExplanationStart);
    TagContentOfBlock(Render(q), qb + "\n" + ob + "\n" + (ab + "\n"), ExplanationStart, q.explanation, ExplanationEnd, []);
  }

  /** A reply laid out exactly as the prompt asks parses back to its fields. */
  lemma ParseRendered(q: Quiz)
    requires Renderable(q)
    ensures ParseReply(Render(q)) == q
  {
    QuestionOfRender(q);
    OptionsOfRender(q);
    AnswerOfRender(q);
    ExplanationOfRender(q);
  }
}
