/**
 The score/explanation extraction at the end of `generateEvaluation` in
 app.js: the assistant's free-text reply is split into lines, the first line
 (minus its first `%`, trimmed) is the score, and the remaining lines,
 rejoined and trimmed, are the explanation.
 */
module App {
  import opened JsString

  /** The `{ score, explanation }` object `generateEvaluation` returns. */
  datatype Evaluation = Evaluation(score: seq<char>, explanation: seq<char>)

  /** The text before the first line break, or all of `content` if it has
      none. */
  function FirstLine(content: seq<char>): (line: seq<char>)
    ensures '\n' !in line
    ensures '\n' !in content ==> line == content
    ensures '\n' in content ==>
              |line| < |content| && content[..|line|] == line && content[|line|] == '\n'
  {
    var i := IndexOf(content, '\n');
    if i < 0 then content else content[..i]
  }

  /** `ParseEvaluation(content)` is what `generateEvaluation` returns for the
      message text `content`:
      - the score is the first line with its first `%` removed, trimmed;
      - the explanation is the text after the first line break, trimmed,
        and empty when there is no line break;
      - both come out of `trim`, so neither starts or ends with white space,
        and the score holds no line break. */
  function ParseEvaluation(content: seq<char>): (e: Evaluation)
    ensures e.score == Trim(ReplaceFirst(FirstLine(content), '%', []))
    ensures '\n' !in content ==> e.explanation == []
    ensures '\n' in content ==> e.explanation == Trim(content[|FirstLine(content)| + 1..])
    ensures '\n' !in e.score
    ensures IsTrimmed(e.score) && IsTrimmed(e.explanation)
  {
    var lines := Split(content, '\n');
    var scoreLine := lines[0];
    var explanationLines := lines[1..];
    SplitFirst(content, '\n');
    SplitFirstLine(content);
    var score := Trim(ReplaceFirst(scoreLine, '%', []));
    ScoreHasNoLineBreak(scoreLine);
    Evaluation(score, Trim(Join(explanationLines, '\n')))
  }

  /** The first piece of `split('\n')` is `FirstLine`. */
  lemma SplitFirstLine(content: seq<char>)
    ensures Split(content, '\n')[0] == FirstLine(content)
  {
    SplitFirst(content, '\n');
    var line := FirstLine(content);
    if '\n' in content {
      assert content[|line|] == '\n';
      assert content[..|line|] == line;
    }
  }

  /** Removing a `%` and trimming cannot introduce a line break. */
  lemma ScoreHasNoLineBreak(line: seq<char>)
    requires '\n' !in line
    ensures '\n' !in Trim(ReplaceFirst(line, '%', []))
  {
    RemoveFirstCount(line, '%', '\n');
    TrimCount(ReplaceFirst(line, '%', []), '\n');
  }

  /** Only the first `%` of the first line is dropped: the score holds one
      `%` fewer than the first line, or none if the first line had none. */
  lemma ScorePercentCount(content: seq<char>)
    ensures Count(ParseEvaluation(content).score, '%') ==
              if Count(FirstLine(content), '%') == 0 then 0
              else Count(FirstLine(content), '%') - 1
  {
    var line := FirstLine(content);
    assert ParseEvaluation(content).score == Trim(ReplaceFirst(line, '%', []));
    LinePercentCount(line);
  }

  lemma LinePercentCount(line: seq<char>)
    ensures Count(Trim(ReplaceFirst(line, '%', [])), '%') ==
              if Count(line, '%') == 0 then 0 else Count(line, '%') - 1
  {
    var removed := ReplaceFirst(line, '%', []);
    assert Count(removed, '%') == if Count(line, '%') == 0 then 0 else Count(line, '%') - 1 by {
      RemoveFirstCount(line, '%', '%');
    }
    assert Count(Trim(removed), '%') == Count(removed, '%') by {
      assert !IsWhitespace('%');
      TrimCount(removed, '%');
    }
  }

  /** Interior line breaks of the explanation are those of the reply: when
      the text after the first line break has no leading or trailing white
      space, the explanation is exactly that text. */
  lemma ExplanationKeepsBody(content: seq<char>)
    requires '\n' in content
    requires IsTrimmed(content[|FirstLine(content)| + 1..])
    ensures ParseEvaluation(content).explanation == content[|FirstLine(content)| + 1..]
  {
    TrimOfTrimmed(content[|FirstLine(content)| + 1..]);
  }

  /** The explanation is empty exactly when the reply has no line break or
      only white space follows the first one. */
  lemma ExplanationEmpty(content: seq<char>)
    ensures ParseEvaluation(content).explanation == [] <==>
              '\n' !in content || AllWhitespace(content[|FirstLine(content)| + 1..])
  {
    if '\n' in content {
      TrimEmpty(content[|FirstLine(content)| + 1..]);
    }
  }

  /** A reply made of one line, a line break and a body parses into that
      line (first `%` removed, trimmed) and the trimmed body. */
  lemma ParseLineAndBody(line: seq<char>, body: seq<char>)
    requires '\n' !in line
    ensures ParseEvaluation(line + ['\n'] + body) ==
              Evaluation(Trim(ReplaceFirst(line, '%', [])), Trim(body))
  {
    var content := line + ['\n'] + body;
    var i := |line|;
    IndexOfAt(line, '\n', body);
    assert content[i] == '\n';
    assert content[..i] == line;
    assert content[i + 1..] == body;
  }

  /** The reply in the format the assistant is instructed to produce, a
      bare percentage on the first line followed by the explanation: for
      every explanation text that is already trimmed (such as
      "The report demonstrates..."), the score is "87" and the explanation
      is that text unchanged. */
  lemma TypicalReply(body: seq<char>)
    requires IsTrimmed(body)
    ensures ParseEvaluation("87%\n" + body) == Evaluation("87", body)
  {
    assert "87%\n" + body == "87%" + ['\n'] + body;
    ParseLineAndBody("87%", body);
    TypicalScore();
    TrimOfTrimmed(body);
  }

  /** The example reply itself. */
  lemma ExampleReply()
    ensures ParseEvaluation("87%\nThe report demonstrates...") ==
              Evaluation("87", "The report demonstrates...")
  {
    var body := "The report demonstrates...";
    assert IsTrimmed(body);
    assert "87%\n" + body == "87%\nThe report demonstrates...";
    TypicalReply(body);
  }

  /** The first line "87%" yields the score "87". */
  lemma TypicalScore()
    ensures Trim(ReplaceFirst("87%", '%', [])) == "87"
  {
    assert ReplaceFirst("87%", '%', []) == "87";
    TrimOfTrimmed("87");
  }

  /** A reply without a line break is all score: its first `%` is removed,
      it is trimmed, and the explanation is empty. */
  lemma SingleLineReply(line: seq<char>)
    requires '\n' !in line
    ensures ParseEvaluation(line) == Evaluation(Trim(ReplaceFirst(line, '%', [])), [])
  {
  }

  /** A first line with two `%` signs keeps the second one. */
  lemma SecondPercentKept()
    ensures ParseEvaluation("8%7%") == Evaluation("87%", "")
  {
    var line := "8%7%";
    assert '\n' !in line;
    SingleLineReply(line);
    SecondPercentScore();
  }

  /** The line "8%7%" yields the score "87%". */
  lemma SecondPercentScore()
    ensures Trim(ReplaceFirst("8%7%", '%', [])) == "87%"
  {
    assert ReplaceFirst("8%7%", '%', []) == "87%" by {
      assert IndexOf("8%7%", '%') == 1;
    }
    TrimOfTrimmed("87%");
  }
}
