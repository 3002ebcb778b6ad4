/** The quiz request: `generate_quiz` refuses empty content, otherwise
    builds a prompt around the first 6000 characters of the content and the
    requested number of questions and returns the language model's answer
    as it is. The model is a parameter. */
module Quiz {
  import opened Wrappers
  import opened Text

  datatype QuizError = EmptyContent

  /** The most characters of content the prompt carries. */
  const ExcerptLength: nat := 6000

  /** The prompt text before the count. */
  const Opening: string := "\nYou are an expert exam question setter.\n\nUsing ONLY the content below, generate "

  /** The prompt text between the count and the content. */
  const Rules: string := " MCQs." + Instructions

  const Instructions: string := "\n\nRules:\n- Each question must be directly from content\n- 4 options (A, B, C, D)\n- Exactly ONE correct answer\n- No placeholders\n- Output STRICT JSON only\n\nCONTENT:\n\"\"\"\n"

  /** The prompt text after the content. */
  const Closing: string := "\n\"\"\"\n"

  /** `content[:6000]`. */
  function Excerpt(content: string): (r: string)
    ensures |r| <= ExcerptLength && r <= content
    ensures |content| <= ExcerptLength ==> r == content
    ensures |content| > ExcerptLength ==> |r| == ExcerptLength
  {
    if |content| <= ExcerptLength then content else content[..ExcerptLength]
  }

  /** What follows the opening: the count, the rules, the excerpt. */
  function Request(count: int, content: string): string {
    IntToString(count) + (Rules + (Excerpt(content) + Closing))
  }

  /** The prompt `generate_quiz` sends. */
  function Prompt(count: int, content: string): (r: string)
    ensures |r| <= |Opening| + |IntToString(count)| + |Rules| + ExcerptLength + |Closing|
    ensures |content| >= ExcerptLength <==>
      |r| == |Opening| + |IntToString(count)| + |Rules| + ExcerptLength + |Closing|
  {
    Opening + Request(count, content)
  }

  /** `generate_quiz`: content that is missing, empty or only whitespace is
      refused before the model is called; otherwise the model's response
      to the prompt is the result, unparsed. The course and topic are only
      logged. */
  function GenerateQuiz(llm: string -> string, courseId: int, topic: string, count: int, content: Option<string>)
    : (r: Result<string, QuizError>)
    ensures r.Failure? <==> content.None? || IsBlank(content.value)
    ensures r.Failure? ==> r.error == EmptyContent
    ensures r.Success? ==> r.value == llm(Prompt(count, content.value))
  {
    if content.None? || content.value == [] || Strip(content.value) == [] then Failure(EmptyContent)
    else Success(llm(Prompt(count, content.value)))
  }

  /** A refused request never reaches the model: the result is the same
      whatever the model would answer. */
  lemma RefusedWithoutModel(llm: string -> string, other: string -> string, courseId: int, topic: string,
                            count: int, content: Option<string>)
    requires content.None? || IsBlank(content.value)
    ensures GenerateQuiz(llm, courseId, topic, count, content) == GenerateQuiz(other, courseId, topic, count, content)
  {
  }

  /** The course id and the topic never change the result. */
  lemma CourseAndTopicIgnored(llm: string -> string, courseId: int, topic: string, otherId: int, otherTopic: string,
                              count: int, content: Option<string>)
    ensures GenerateQuiz(llm, courseId, topic, count, content) == GenerateQuiz(llm, otherId, otherTopic, count, content)
  {
  }

  /** Content that agrees on its first 6000 characters gives the same
      prompt: the rest is cut off. */
  lemma PromptSeesOnlyExcerpt(count: int, content: string, other: string)
    requires |content| >= ExcerptLength && |other| >= ExcerptLength
    requires content[..ExcerptLength] == other[..ExcerptLength]
    ensures Prompt(count, content) == Prompt(count, other)
  {
    assert Excerpt(content) == Excerpt(other);
  }

  /** Each character of `str(n)` is a digit or the sign. */
  predicate Numeral(s: string) {
    forall i | 0 <= i < |s| :: IsDigit(s[i]) || s[i] == '-'
  }

  lemma IntToStringNumeral(n: int)
    ensures Numeral(IntToString(n))
  {
    var s := IntToString(n);
    if n < 0 {
      forall i | 1 <= i < |s| ensures IsDigit(s[i]) {
        assert s[1..][i - 1] == s[i];
      }
    }
  }

  /** A numeral followed by a text starting with a space splits at that
      space in only one way. */
  lemma NumeralSplit(a: string, t: string, b: string, u: string)
    requires Numeral(a) && Numeral(b)
    requires t != [] && t[0] == ' ' && u != [] && u[0] == ' '
    requires a + t == b + u
    ensures a == b && t == u
  {
    FirstSpace(a, t);
    FirstSpace(b, u);
    assert |a| == |b|;
    assert a == (a + t)[..|a|] && b == (b + u)[..|b|];
    assert t == (a + t)[|a|..] && u == (b + u)[|b|..];
  }

  /** In a numeral followed by a text starting with a space, the first
      space is the one right after the numeral. */
  lemma FirstSpace(a: string, t: string)
    requires Numeral(a) && t != [] && t[0] == ' '
    ensures (a + t)[|a|] == ' '
    ensures forall k | 0 <= k < |a| :: (a + t)[k] != ' '
  {
  }

  /** The prompt states the requested count and the excerpt: two requests
      give the same prompt only if they ask for the same number of
      questions about the same excerpt. */
  lemma PromptDeterminesRequest(count: int, content: string, otherCount: int, other: string)
    requires Prompt(count, content) == Prompt(otherCount, other)
    ensures count == otherCount && Excerpt(content) == Excerpt(other)
  {
    var r1, r2 := Request(count, content), Request(otherCount, other);
    assert r1 == Prompt(count, content)[|Opening|..];
    assert r2 == Prompt(otherCount, other)[|Opening|..];
    var t1, t2 := Rules + (Excerpt(content) + Closing), Rules + (Excerpt(other) + Closing);
    assert t1[0] == ' ' && t2[0] == ' ' by {
      assert Rules[0] == " MCQs."[0];
    }
    IntToStringNumeral(count);
    IntToStringNumeral(otherCount);
    NumeralSplit(IntToString(count), t1, IntToString(otherCount), t2);
    IntToStringInjective(count, otherCount);
    var e1, e2 := Excerpt(content) + Closing, Excerpt(other) + Closing;
    assert e1 == t1[|Rules|..] && e2 == t2[|Rules|..];
    assert Excerpt(content) == e1[..|e1| - |Closing|];
    assert Excerpt(other) == e2[..|e2| - |Closing|];
  }
}
