/**
 * The two prompts the app sends to the generation service: the request
 * for interview questions (app.py lines 53-63), guarded by a check that
 * neither input is blank, and the scoring request (lines 84-86), built by
 * a loop that appends one numbered question/answer block per pair.
 */
module Prompts {
  import opened Seqs
  import opened Text

  /** The fixed instruction that opens the question-generation prompt. */
  const GenerateInstruction: string :=
    "Based on the job description and résumé provided below, generate exactly 5 custom interview questions "
    + "that focus on how the candidate's experience and skills match the requirements of the job description. "
    + "These questions should assess the candidate’s suitability for the role. "
    + "Do not include analysis, commentary, or explanation — only list the 5 questions.\n\n"

  const JobDescriptionLabel: string := "Job Description:\n"
  const ResumeLabel: string := "\n\nRésumé:\n"

  /** The guard of the generate button: both inputs must be non-empty once
      stripped, i.e. it fails exactly when one of them is blank. */
  predicate CanGenerate(jd: string, resume: string)
    ensures CanGenerate(jd, resume) <==> !IsBlank(jd) && !IsBlank(resume)
  {
    Strip(jd) != [] && Strip(resume) != []
  }

  /** The question-generation prompt: the fixed instruction, then each
      input after its label. It ends with the résumé exactly as given. */
  function GenerationPrompt(jd: string, resume: string): (prompt: string)
    ensures |prompt| >= |resume| && prompt[|prompt| - |resume|..] == resume
  {
    GenerateInstruction + JobDescriptionLabel + jd + ResumeLabel + resume
  }

  /** The prompt opens with the fixed instruction, carries the job
      description verbatim right after its label, and follows it with the
      résumé label. */
  lemma GenerationPromptEmbedsInputs(jd: string, resume: string)
    ensures var p := GenerationPrompt(jd, resume);
            var j := |GenerateInstruction| + |JobDescriptionLabel|;
            && |p| == j + |jd| + |ResumeLabel| + |resume|
            && p[..|GenerateInstruction|] == GenerateInstruction
            && p[|GenerateInstruction|..j] == JobDescriptionLabel
            && p[j..j + |jd|] == jd
            && p[j + |jd|..j + |jd| + |ResumeLabel|] == ResumeLabel
  {
    var p := GenerationPrompt(jd, resume);
    assert p == (GenerateInstruction + JobDescriptionLabel) + jd + ResumeLabel + resume;
  }

  /** Different inputs of the same lengths give different prompts: no input
      is lost in the prompt. */
  lemma GenerationPromptInjective(jd1: string, resume1: string, jd2: string, resume2: string)
    requires |jd1| == |jd2| && |resume1| == |resume2|
    requires GenerationPrompt(jd1, resume1) == GenerationPrompt(jd2, resume2)
    ensures jd1 == jd2 && resume1 == resume2
  {
    GenerationPromptEmbedsInputs(jd1, resume1);
    GenerationPromptEmbedsInputs(jd2, resume2);
  }

  /** The fixed instruction that opens the scoring prompt. */
  const ScoreHeader: string :=
    "Please score the following candidate answers on a scale of 1 to 10. "
    + "Just provide the score for each without explanation or commentary.\n"

  /** One block of the scoring prompt: `f"Q{i}: {q}\nA: {a}\n"`. Besides
      the number, the question and the answer it holds eight fixed
      characters; it starts with 'Q' and ends with a line break. */
  function ScoreBlock(i: nat, q: string, a: string): (block: string)
    ensures |block| == |NatToString(i)| + |q| + |a| + 8
    ensures block[0] == 'Q' && block[|block| - 1] == '\n'
  {
    "Q" + NatToString(i) + ": " + q + "\nA: " + a + "\n"
  }

  /** The blocks for the pairs of `zip(questions, answers)`, numbered from
      `i`: there are none exactly when `zip` yields no pair. */
  function ScoreBlocks(questions: seq<string>, answers: seq<string>, i: nat): (text: string)
    ensures text == [] <==> questions == [] || answers == []
    decreases |questions|
  {
    if questions == [] || answers == [] then []
    else ScoreBlock(i, questions[0], answers[0]) + ScoreBlocks(questions[1..], answers[1..], i + 1)
  }

  /** The scoring prompt: the header, then one block per zipped pair,
      numbered from 1. */
  function ScorePrompt(questions: seq<string>, answers: seq<string>): (prompt: string)
    ensures |prompt| >= |ScoreHeader| && prompt[..|ScoreHeader|] == ScoreHeader
  {
    ScoreHeader + ScoreBlocks(questions, answers, 1)
  }

  /** The number of pairs `zip` produces. */
  function PairCount(questions: seq<string>, answers: seq<string>): (m: nat)
    ensures m <= |questions| && m <= |answers|
    ensures m == |questions| || m == |answers|
  {
    if |questions| <= |answers| then |questions| else |answers|
  }

  /** Concatenation of a list of strings. */
  function Concat(parts: seq<string>): string {
    if parts == [] then [] else parts[0] + Concat(parts[1..])
  }

  /** A second, independent reading of the `for i, (q, a) in
      enumerate(zip(...), 1)` loop: the block list, indexed directly. */
  function EnumeratedBlocks(questions: seq<string>, answers: seq<string>, i: nat): (blocks: seq<string>)
    ensures |blocks| == PairCount(questions, answers)
  {
    seq(PairCount(questions, answers),
        k requires 0 <= k < PairCount(questions, answers) => ScoreBlock(i + k, questions[k], answers[k]))
  }

  /** The recursive blocks are exactly the enumerated blocks, concatenated:
      block k (from 0) numbers pair k with `i + k`, for every pair `zip`
      yields and no other. */
  lemma {:induction false} ScoreBlocksEnumerate(questions: seq<string>, answers: seq<string>, i: nat)
    ensures ScoreBlocks(questions, answers, i) == Concat(EnumeratedBlocks(questions, answers, i))
    decreases |questions|
  {
    var e := EnumeratedBlocks(questions, answers, i);
    if questions != [] && answers != [] {
      ScoreBlocksEnumerate(questions[1..], answers[1..], i + 1);
      var e' := EnumeratedBlocks(questions[1..], answers[1..], i + 1);
      assert e[1..] == e';
    } else {
      assert e == [];
    }
  }

  /** `zip` stops at the shorter list: only the first `PairCount` pairs
      reach the prompt. */
  lemma {:induction false} ScoreBlocksZip(questions: seq<string>, answers: seq<string>, i: nat)
    ensures var m := PairCount(questions, answers);
            ScoreBlocks(questions, answers, i) == ScoreBlocks(questions[..m], answers[..m], i)
    decreases |questions|
  {
    var m := PairCount(questions, answers);
    if questions != [] && answers != [] {
      var qm, am := questions[..m], answers[..m];
      ScoreBlocksZip(questions[1..], answers[1..], i + 1);
      assert PairCount(questions[1..], answers[1..]) == m - 1;
      TakeDropHead(questions, m);
      TakeDropHead(answers, m);
      assert qm[0] == questions[0] && am[0] == answers[0];
      assert ScoreBlocks(qm, am, i) == ScoreBlock(i, questions[0], answers[0]) + ScoreBlocks(qm[1..], am[1..], i + 1);
    }
  }

  /** Appending one more pair appends one more block, numbered after the
      ones before it. */
  lemma {:induction false} ScoreBlocksSnoc(questions: seq<string>, answers: seq<string>, i: nat, q: string, a: string)
    requires |questions| == |answers|
    ensures ScoreBlocks(questions + [q], answers + [a], i)
         == ScoreBlocks(questions, answers, i) + ScoreBlock(i + |questions|, q, a)
    decreases |questions|
  {
    if questions == [] {
      assert questions + [q] == [q];
      assert answers + [a] == [a];
    } else {
      DropHeadAppend(questions, [q]);
      DropHeadAppend(answers, [a]);
      ScoreBlocksSnoc(questions[1..], answers[1..], i + 1, q, a);
      AppendAssoc(ScoreBlock(i, questions[0], answers[0]), ScoreBlocks(questions[1..], answers[1..], i + 1),
                  ScoreBlock(i + |questions|, q, a));
    }
  }

  /** The scoring prompt built as app.py builds it: start from the header
      and append one block per zipped pair with `+=`. */
  method BuildScorePrompt(questions: seq<string>, answers: seq<string>) returns (prompt: string)
    ensures prompt == ScorePrompt(questions, answers)
  {
    var m := PairCount(questions, answers);
    prompt := ScoreHeader;
    for i := 0 to m
      invariant prompt == ScoreHeader + ScoreBlocks(questions[..i], answers[..i], 1)
    {
      ScoreBlocksSnoc(questions[..i], answers[..i], 1, questions[i], answers[i]);
      TakeSnoc(questions, i);
      TakeSnoc(answers, i);
      AppendAssoc(ScoreHeader, ScoreBlocks(questions[..i], answers[..i], 1), ScoreBlock(i + 1, questions[i], answers[i]));
      prompt := prompt + ScoreBlock(i + 1, questions[i], answers[i]);
    }
    ScoreBlocksZip(questions, answers, 1);
  }

  /** The two-pair example: both pairs appear, numbered 1 and 2, in order. */
  lemma ScorePromptTwoPairs(q1: string, q2: string, a1: string, a2: string)
    ensures ScorePrompt([q1, q2], [a1, a2]) == ScoreHeader + ScoreBlock(1, q1, a1) + ScoreBlock(2, q2, a2)
    ensures ScoreBlock(1, q1, a1) == "Q1: " + q1 + "\nA: " + a1 + "\n"
    ensures ScoreBlock(2, q2, a2) == "Q2: " + q2 + "\nA: " + a2 + "\n"
  {
    assert [q1, q2][1..] == [q2];
    assert [a1, a2][1..] == [a2];
    assert ScoreBlocks([q2], [a2], 2) == ScoreBlock(2, q2, a2) + ScoreBlocks([], [], 3);
    AppendAssoc(ScoreHeader, ScoreBlock(1, q1, a1), ScoreBlock(2, q2, a2));
    assert NatToString(1) == "1" && NatToString(2) == "2";
  }
}
