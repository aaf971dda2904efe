/**
 * The per-user session state of the app (`st.session_state`, app.py lines
 * 52-109) and the three user actions that touch it: generating questions,
 * editing answers, and scoring. The generation service is not called: each
 * action that would call it receives the service's reply as an input and
 * reports the prompt it would have sent.
 */
module Session {
  import opened Text
  import opened Questions
  import opened Pdf
  import opened Prompts
  import opened Storage

  /** `call_gemini_api` followed by the fixed JSON path (app.py lines
      27-32, 67 and 91): only status 200 yields the generated text; any
      other status is reported and yields nothing. */
  function ApiReply(status: int, generatedText: string): (reply: Option<string>)
    ensures reply.Some? <==> status == 200
    ensures reply.Some? ==> reply.value == generatedText
  {
    if status == 200 then Some(generatedText) else None
  }

  /** An uploaded PDF replaces the pasted résumé even when it yields no
      usable text: with only blank pages, generation is refused whatever
      was pasted. */
  lemma BlankUploadBlocksGenerate(jd: string, pasted: string, pages: seq<string>)
    requires forall k :: 0 <= k < |pages| ==> IsBlank(pages[k])
    ensures !CanGenerate(jd, ResumeText(pasted, Some(pages)))
  {
    ExtractTextBlank(pages);
  }

  /** Without an upload the pasted résumé is used as it is; with one, the
      guard depends only on the PDF's text. */
  lemma ResumeTextChoice(jd: string, pasted: string, upload: Option<seq<string>>)
    ensures upload.None? ==> ResumeText(pasted, upload) == pasted
    ensures upload.Some? ==>
              (CanGenerate(jd, ResumeText(pasted, upload)) <==> !IsBlank(jd) && !IsBlank(ExtractText(upload.value)))
  {
  }

  /** `[""] * n`: one empty answer per question. */
  function BlankAnswers(n: nat): (answers: seq<string>)
    ensures |answers| == n
    ensures forall k :: 0 <= k < n ==> answers[k] == ""
  {
    seq(n, _ => "")
  }

  /** What the answer boxes hold after one pass of the edit loop: box k
      shows `answers[k]` and returns the user's text `typed[k]`, or the shown
      text when the user left the box alone (`None`). */
  function EditedAnswers(answers: seq<string>, typed: seq<Option<string>>): (edited: seq<string>)
    requires |typed| == |answers|
    ensures |edited| == |answers|
    ensures forall k :: 0 <= k < |answers| ==>
              edited[k] == (if typed[k].Some? then typed[k].value else answers[k])
  {
    seq(|answers|, k requires 0 <= k < |answers| =>
                     match typed[k] case Some(t) => t case None => answers[k])
  }

  /** A second pass with the same input changes nothing further. */
  lemma EditedAnswersIdempotent(answers: seq<string>, typed: seq<Option<string>>)
    requires |typed| == |answers|
    ensures EditedAnswers(EditedAnswers(answers, typed), typed) == EditedAnswers(answers, typed)
  {
  }

  /** With every box left alone, the answers stay as they were. */
  lemma EditedAnswersUntouched(answers: seq<string>, typed: seq<Option<string>>)
    requires |typed| == |answers|
    requires forall k :: 0 <= k < |typed| ==> typed[k].None?
    ensures EditedAnswers(answers, typed) == answers
  {
  }

  /** What the save step writes: the file name and the record. */
  datatype SavedSession = SavedSession(filename: string, record: SessionRecord)

  class InterviewSession {
    /** Whether `'questions' in st.session_state`. */
    var hasQuestions: bool
    var questions: seq<string>
    var answers: seq<string>

    /** Answer k answers question k; before the first successful generate
        there are neither. */
    ghost predicate Valid()
      reads this
    {
      && |answers| == |questions|
      && (!hasQuestions ==> questions == [])
    }

    /** A fresh session holds no questions yet. */
    constructor ()
      ensures Valid()
      ensures !hasQuestions && questions == [] && answers == []
    {
      hasQuestions, questions, answers := false, [], [];
    }

    /** The "generate" button (app.py lines 52-70). `sent` is the prompt
        sent to the service, `None` when the blank-input guard stops the
        action before any call; `status` and `generatedText` are the
        service's answer to it, read through `ApiReply`. On status 200 the
        questions parsed from the text replace any earlier ones and every
        answer is reset to the empty string; on any other status nothing
        changes. */
    method Generate(jd: string, resume: string, status: int, generatedText: string)
      returns (sent: Option<string>)
      requires Valid()
      modifies this
      ensures Valid()
      ensures sent == if CanGenerate(jd, resume) then Some(GenerationPrompt(jd, resume)) else None
      ensures sent.Some? && status == 200 ==>
                && hasQuestions
                && questions == ParseQuestions(generatedText)
                && answers == BlankAnswers(|questions|)
      ensures sent.None? || status != 200 ==>
                hasQuestions == old(hasQuestions) && questions == old(questions) && answers == old(answers)
    {
      if Strip(jd) == [] || Strip(resume) == [] {
        sent := None;
      } else {
        sent := Some(GenerationPrompt(jd, resume));
        var reply := ApiReply(status, generatedText);
        if reply.Some? {
          var parsed := ParseQuestions(reply.value);
          hasQuestions := true;
          questions := parsed;
          answers := BlankAnswers(|parsed|);
        }
      }
    }

    /** One iteration of the edit loop (app.py lines 76-80): only answer
        `idx` changes. */
    method SetAnswer(idx: nat, text: string)
      requires Valid() && idx < |answers|
      modifies this
      ensures Valid()
      ensures answers == old(answers)[idx := text]
      ensures questions == old(questions) && hasQuestions == old(hasQuestions)
    {
      answers := answers[idx := text];
    }

    /** The edit loop (app.py lines 74-80): box by box, each answer is
        overwritten with what its box returns. */
    method EditAnswers(typed: seq<Option<string>>)
      requires Valid() && |typed| == |questions|
      modifies this
      ensures Valid()
      ensures answers == EditedAnswers(old(answers), typed)
      ensures questions == old(questions) && hasQuestions == old(hasQuestions)
    {
      for idx := 0 to |questions|
        invariant Valid()
        invariant questions == old(questions) && hasQuestions == old(hasQuestions)
        invariant answers[..idx] == EditedAnswers(old(answers), typed)[..idx]
        invariant answers[idx..] == old(answers)[idx..]
      {
        var text := match typed[idx] case Some(t) => t case None => answers[idx];
        assert answers[idx] == old(answers)[idx];
        SetAnswer(idx, text);
      }
    }

    /** The "score" button (app.py lines 82-109), shown only once questions
        exist. `prompt` is the scoring prompt sent; `status` and
        `generatedText` the service's answer, read through `ApiReply`;
        `entryCount` the number of entries in the storage directory. On
        status 200 the session is saved under the next file name, with the
        generated text as its score; on any other status nothing is saved.
        The session itself is left as it is. */
    method Score(jd: string, resume: string, status: int, generatedText: string, entryCount: nat)
      returns (prompt: string, saved: Option<SavedSession>)
      requires Valid() && hasQuestions
      ensures prompt == ScorePrompt(questions, answers)
      ensures saved.Some? <==> status == 200
      ensures saved.Some? ==>
                && saved.value.filename == SessionFilename(entryCount)
                && saved.value.record == SessionRecord(jd, resume, questions, answers, generatedText)
    {
      prompt := BuildScorePrompt(questions, answers);
      var reply := ApiReply(status, generatedText);
      if reply.Some? {
        var record := SessionRecord(jd, resume, questions, answers, reply.value);
        saved := Some(SavedSession(SessionFilename(entryCount), record));
      } else {
        saved := None;
      }
    }
  }
}
