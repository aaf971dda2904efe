# Interview question app: a Dafny model of its string logic and session state

The app is a single Streamlit script (`app.py`). A user supplies a job
description and a résumé, either pasted or extracted from a PDF. The app asks
a text-generation service for five interview questions, collects an answer to
each, asks the same service to score the answers, and saves the session as a
JSON file. This project models the parts of the script that compute something
or change state:

- `Text.dfy`: the Python string operations the script relies on, written out:
  `str.isspace`, `str.strip()`, `str.split('\n')`, `sep.join(...)` and
  `str(n)`. Each one comes with a partner: a decomposition of `strip`, the
  split/join round trips, and a decimal reader that undoes `str(n)`.
- `Questions.dfy`: how the service's reply becomes the list of questions.
  It is written as the script's list comprehension over the split reply, and
  it is related back to the reply's lines: line order is kept, blank lines
  drop out, and the reply splits into parts at its line breaks.
- `Pdf.dfy`: `parse_pdf`, which joins the non-empty page texts with `'\n'`,
  and the rule that an uploaded PDF replaces the pasted résumé.
- `Prompts.dfy`: the blank-input guard, the question-generation prompt, and
  the scoring prompt. The scoring prompt is specified as a function and built
  by a loop, as the script builds it.
- `Storage.dfy`: the saved record and the `storage/session_{N+1}.json` file
  name, with a reader that recovers the session number from the name.
- `Seqs.dfy`: general facts about sequences that the string proofs use.
- `Session.dfy`: the session state as a class `InterviewSession`, with fields
  `hasQuestions`, `questions` and `answers` and the invariant
  `|answers| == |questions|`. Its methods are the three user actions:
  generate, edit answers, and score.

The generation service, the PDF library and the file system are not called.
The service's answer is two inputs: the HTTP status and the text found at
the reply's fixed JSON path. `Session.ApiReply` turns them into an
`Option<string>`, where `None` stands for a non-200 status, and both service
actions go through it. The per-page texts are a `seq<string>` input. The number of
entries in the storage directory is a `nat` input. Methods that would contact
the service return the prompt they would send instead.

The app itself expects five questions: the button reads "Generate 5
Interview Questions" (app.py:52) and the prompt asks the service to "generate
exactly 5" (app.py:58). The script, however, keeps every non-blank line of the
reply and never checks the count (`Questions.ParseQuestionsCountNotEnforced`).

## Model

| member | source | states |
|---|---|---|
| `Text.Strip` | app.py:53 | `s.strip()` has no whitespace at either end, and it is empty exactly when `s` is all whitespace (Python's `str.isspace` set) |
| `Text.StripDecomposes` | app.py:68 | `s` is a blank prefix, then `s.strip()`, then a blank suffix |
| `Text.StripUnique` | app.py:68 | any split of `s` into blank + trimmed + blank determines `s.strip()` |
| `Text.StripTrimmed` | app.py:68 | a string with no whitespace at either end is its own strip |
| `Text.StripIdempotent` | app.py:68 | stripping twice gives the same result as stripping once |
| `Text.SplitLines` | app.py:68 | `s.split('\n')` always yields at least one piece |
| `Text.SplitLinesAreLines` | app.py:68 | no piece of `s.split('\n')` contains `'\n'` |
| `Text.SplitLinesBlank` | app.py:68 | every piece of a whitespace-only string's split is whitespace-only |
| `Text.JoinSplitLines` | app.py:68 | `'\n'.join(s.split('\n')) == s` |
| `Text.Join` | app.py:37 | joining no parts gives the empty string, joining one part gives that part, and the result is never shorter than its first part |
| `Text.SplitLinesJoin` | app.py:68 | splitting a `'\n'`-join of newline-free pieces gives back the pieces |
| `Text.SplitLinesAppend` | app.py:68 | the pieces of `a + '\n' + b` are the pieces of `a` followed by the pieces of `b` |
| `Text.NatToString` | app.py:86 | `str(n)` is a non-empty string of decimal digits with no leading zero |
| `Text.DecimalValueOfNatToString` | app.py:104-105 | reading the decimal digits of `str(n)` gives back `n` |
| `Text.NatToStringInjective` | app.py:104-105 | different numbers have different decimal strings |
| `Questions.LineQuestion` | app.py:68 | one line contributes at most one question: nothing exactly when the line is blank, and otherwise the line stripped |
| `Questions.StripNonBlank` | app.py:68 | the comprehension keeps at most one question per line |
| `Questions.StripNonBlankWellFormed` | app.py:68 | from newline-free lines, the comprehension keeps only non-empty, trimmed, newline-free strings |
| `Questions.ParseQuestions` | app.py:68 | every parsed question is non-empty, has no whitespace at either end, and contains no `'\n'` |
| `Questions.ParseQuestionsStripped` | app.py:68 | every parsed question equals its own strip |
| `Questions.StripNonBlankAppend` | app.py:68 | the comprehension maps a concatenation of line lists to the concatenation of its results, so line order is kept |
| `Questions.ParseQuestionsOfLines` | app.py:68 | a reply made of any number of newline-free lines, none included, yields exactly those lines, stripped, with the blank ones dropped, in their original order |
| `Questions.ParseQuestionsAppend` | app.py:68 | the questions of `a + "\n" + b` are the questions of `a` followed by those of `b` |
| `Questions.StripNonBlankBlank` | app.py:68 | whitespace-only lines contribute no question |
| `Questions.ParseQuestionsBlankLine` | app.py:68 | a whitespace-only line contributes no question |
| `Questions.ParseQuestionsBlankReply` | app.py:68 | a whitespace-only reply yields no question |
| `Questions.ParseQuestionsOneLine` | app.py:68 | a one-line reply yields that line stripped, or nothing if the line is blank |
| `Questions.ParseQuestionsCountNotEnforced` | app.py:57-68 | the prompt asks for 5 questions, but two non-blank lines separated by a blank line yield exactly 2 questions |
| `Pdf.ResumeText` | app.py:48-49 | without an upload the pasted text is the résumé; with one, the PDF's text replaces it, and that text is empty exactly when every page yields no text |
| `Pdf.NonEmptyPages` | app.py:37 | the kept pages are non-empty pages of the document, and none are kept exactly when every page is empty |
| `Pdf.NonEmptyPagesAppend` | app.py:37 | filtering distributes over concatenation of page runs, so page order is kept |
| `Pdf.NonEmptyPagesKeepsText` | app.py:37 | every page with text is kept |
| `Pdf.ExtractText` | app.py:35-38 | `parse_pdf` returns the empty string exactly when no page yields text |
| `Pdf.ExtractTextSegments` | app.py:37 | for pages without their own line breaks, splitting the result on `'\n'` gives exactly the M non-empty page texts, in page order |
| `Pdf.ExtractTextAppend` | app.py:37 | the text of two page runs is each run's text, joined by one `'\n'` when both have text |
| `Pdf.ExtractTextBlank` | app.py:37 | pages that hold only whitespace give a blank text |
| `Prompts.CanGenerate` | app.py:53 | the generate guard passes exactly when neither input is empty or whitespace-only |
| `Prompts.GenerationPrompt` | app.py:57-63 | the prompt ends with the résumé, verbatim |
| `Prompts.GenerationPromptEmbedsInputs` | app.py:57-63 | the prompt opens with the fixed instruction, then the `Job Description:` label, then the job description verbatim, then a blank line and the `Résumé:` label |
| `Prompts.GenerationPromptInjective` | app.py:57-63 | inputs of the same lengths that give the same prompt are the same inputs |
| `Prompts.ScorePrompt` | app.py:84 | the scoring prompt starts with the fixed header |
| `Prompts.PairCount` | app.py:85 | `zip` yields as many pairs as the shorter list has elements |
| `Prompts.ScoreBlock` | app.py:86 | block i starts with `Q`, ends with a line break, and is as long as `str(i)`, the question and the answer plus the 8 fixed characters of `Q{i}: {q}\nA: {a}\n` |
| `Prompts.ScoreBlocks` | app.py:85-86 | the blocks are empty exactly when either list is empty, since `zip` then yields no pair |
| `Prompts.EnumeratedBlocks` | app.py:85-86 | one block per zipped pair, from `enumerate(zip(...), 1)` |
| `Prompts.ScoreBlocksEnumerate` | app.py:85-86 | the blocks are `Q{i}: {q}\nA: {a}\n` for each zipped pair in index order, numbered from 1 |
| `Prompts.ScoreBlocksZip` | app.py:85 | only the first min(questions, answers) pairs reach the prompt |
| `Prompts.ScoreBlocksSnoc` | app.py:86 | appending one more pair appends one block, numbered after the existing blocks |
| `Prompts.BuildScorePrompt` | app.py:84-86 | the `+=` loop builds exactly the specified scoring prompt |
| `Prompts.ScorePromptTwoPairs` | app.py:84-86 | with two pairs, the prompt is the header, then `Q1: {q1}\nA: {a1}\n`, then `Q2: {q2}\nA: {a2}\n` |
| `Storage.SessionFilename` | app.py:104-105 | the file name carries the number of existing entries plus one, and the number can be read back from it |
| `Storage.SessionFilenameInjective` | app.py:104-105 | different entry counts give different file names |
| `Storage.SessionFilenamesFromEmpty` | app.py:104-105 | with 0 and then 1 existing entries, the names are `storage/session_1.json` and then `storage/session_2.json` |
| `Session.ApiReply` | app.py:27-32 | only status 200 yields the generated text; any other status yields nothing. `Generate` and `Score` read the service's answer through it |
| `Session.BlankUploadBlocksGenerate` | app.py:48-54 | an uploaded PDF with only blank pages blocks generation, whatever résumé text was pasted |
| `Session.ResumeTextChoice` | app.py:44-53 | without an upload the pasted résumé is used; with one, the guard depends only on the PDF's text |
| `Session.BlankAnswers` | app.py:70 | `[""] * n` has length n and every entry is the empty string |
| `Session.EditedAnswers` | app.py:74-80 | box k ends up with the user's text if they typed, and otherwise with the answer it was showing |
| `Session.EditedAnswersIdempotent` | app.py:74-80 | a second pass of the edit loop with the same input changes nothing |
| `Session.EditedAnswersUntouched` | app.py:76-80 | when every box is left alone, the answers are unchanged |
| `Session.InterviewSession.constructor` | app.py:72 | a new session has no questions and no answers |
| `Session.InterviewSession.Generate` | app.py:52-70 | if either input is blank, no prompt is sent and the state is unchanged. With status 200, the questions become the lines parsed from the generated text and the answers become the same number of empty strings. With any other status, the state is left exactly as it was. `|answers| == |questions|` holds in every case |
| `Session.InterviewSession.SetAnswer` | app.py:76-80 | only `answers[idx]` changes; the lengths and the questions stay the same |
| `Session.InterviewSession.EditAnswers` | app.py:74-80 | after the loop, every answer is what its box returned; the questions are unchanged |
| `Session.InterviewSession.Score` | app.py:82-109 | the scoring prompt is the specified one. A record is saved exactly when the status is 200. It holds the job description, résumé, questions, answers and the generated text as the score, under the next file name. The session state is not changed |

## Left out

- Streamlit rendering and widgets (titles, text areas, buttons, spinners,
  warnings, errors and the stop at start-up). Only the state changes they
  trigger are modelled.
- Loading the API key from the environment (app.py:9-13) and the endpoint
  URL: this is configuration and I/O.
- The HTTP request and the JSON response. The reply is modelled as the
  status plus the already-extracted text, so a status-200 input always stands
  for a body that holds the fixed `candidates[0].content.parts[0].text` path.
  When a 200 response lacks that path, the script crashes; that crash is not
  modelled. The script also treats an empty JSON object with status 200 as a
  failure (`if result:`); that case is not modelled either.
- `PdfReader` and `extract_text()`: a foreign library. The page texts are an
  input, and the script's second call to `extract_text()` on each page is
  assumed to return the same text as the first.
- `os.makedirs`, `os.listdir`, `open` and `json.dump` (app.py:18, 104-107):
  file system I/O and JSON encoding. The model computes the file name from a
  given entry count and returns the record to be written. It does not model
  the JSON text or reading a saved record back.
- Concurrent sessions racing for the same file name: this is a concurrency
  concern.
- `Session.InterviewSession.Generate`, `SetAnswer`, `EditAnswers`: the answer
  list is a `seq` field that the methods reassign, not a Python list shared
  by reference. The script never aliases that list, so nothing observable is
  lost.
