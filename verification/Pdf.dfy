/**
 * The résumé text: `parse_pdf` (app.py lines 35-38) joins, with '\n', the
 * extracted text of every page that yields any, in page order; when a PDF
 * is uploaded its text replaces whatever was pasted (lines 45-49). The PDF
 * library itself is outside the model: the per-page texts are an input.
 */
module Pdf {
  import opened Text

  /** The pages whose extracted text is non-empty, in page order. */
  function NonEmptyPages(pages: seq<string>): (kept: seq<string>)
    ensures |kept| <= |pages|
    ensures forall k :: 0 <= k < |kept| ==> kept[k] != [] && kept[k] in pages
    ensures kept == [] <==> forall k :: 0 <= k < |pages| ==> pages[k] == []
  {
    if pages == [] then []
    else
      var rest := NonEmptyPages(pages[1..]);
      assert forall k :: 0 <= k < |rest| ==> rest[k] in pages by {
        forall k | 0 <= k < |rest| ensures rest[k] in pages {
          var j :| 0 <= j < |pages[1..]| && pages[1..][j] == rest[k];
          assert pages[j + 1] == rest[k];
        }
      }
      assert (forall k :: 0 <= k < |pages| ==> pages[k] == []) <==>
             pages[0] == [] && (forall k :: 0 <= k < |pages[1..]| ==> pages[1..][k] == []) by {
        if pages[0] == [] && (forall k :: 0 <= k < |pages[1..]| ==> pages[1..][k] == []) {
          forall k | 0 < k < |pages| ensures pages[k] == [] {
            assert pages[k] == pages[1..][k - 1];
          }
        }
      }
      (if pages[0] == [] then [] else [pages[0]]) + rest
  }

  /** Filtering pages commutes with putting page lists side by side, so the
      kept pages stay in document order. */
  lemma {:induction false} NonEmptyPagesAppend(p: seq<string>, q: seq<string>)
    ensures NonEmptyPages(p + q) == NonEmptyPages(p) + NonEmptyPages(q)
  {
    if p == [] {
      assert p + q == q;
    } else {
      assert (p + q)[1..] == p[1..] + q;
      NonEmptyPagesAppend(p[1..], q);
    }
  }

  /** Every page with text is kept. */
  lemma {:induction false} NonEmptyPagesKeepsText(pages: seq<string>, k: nat)
    requires k < |pages| && pages[k] != []
    ensures pages[k] in NonEmptyPages(pages)
  {
    if k > 0 {
      NonEmptyPagesKeepsText(pages[1..], k - 1);
    }
  }

  /** `parse_pdf`: the non-empty page texts joined with '\n'. */
  function ExtractText(pages: seq<string>): (text: string)
    ensures text == [] <==> forall k :: 0 <= k < |pages| ==> pages[k] == []
  {
    Join("\n", NonEmptyPages(pages))
  }

  /** With pages whose texts hold no line break of their own, splitting the
      extracted text on '\n' gives back exactly the M non-empty page texts,
      in page order. */
  lemma ExtractTextSegments(pages: seq<string>)
    requires forall k :: 0 <= k < |pages| ==> IsLine(pages[k])
    requires exists k :: 0 <= k < |pages| && pages[k] != []
    ensures SplitLines(ExtractText(pages)) == NonEmptyPages(pages)
  {
    var kept := NonEmptyPages(pages);
    forall k | 0 <= k < |kept| ensures IsLine(kept[k]) {
      var j :| 0 <= j < |pages| && pages[j] == kept[k];
    }
    SplitLinesJoin(kept);
  }

  /** The text of two runs of pages is the text of each, separated by one
      '\n' when both have text. */
  lemma ExtractTextAppend(p: seq<string>, q: seq<string>)
    ensures ExtractText(p + q) ==
      if ExtractText(p) == [] then ExtractText(q)
      else if ExtractText(q) == [] then ExtractText(p)
      else ExtractText(p) + "\n" + ExtractText(q)
  {
    NonEmptyPagesAppend(p, q);
    var kp, kq := NonEmptyPages(p), NonEmptyPages(q);
    if kp == [] {
      assert kp + kq == kq;
    } else if kq == [] {
      assert kp + kq == kp;
    } else {
      JoinAppend("\n", kp, kq);
    }
  }

  /** A document whose pages hold only whitespace yields a blank text. */
  lemma {:induction false} ExtractTextBlank(pages: seq<string>)
    requires forall k :: 0 <= k < |pages| ==> IsBlank(pages[k])
    ensures IsBlank(ExtractText(pages))
  {
    var kept := NonEmptyPages(pages);
    forall k | 0 <= k < |kept| ensures IsBlank(kept[k]) {
      var j :| 0 <= j < |pages| && pages[j] == kept[k];
    }
    JoinBlank(kept);
  }

  lemma {:induction false} JoinBlank(parts: seq<string>)
    requires forall k :: 0 <= k < |parts| ==> IsBlank(parts[k])
    ensures IsBlank(Join("\n", parts))
  {
    if |parts| > 1 {
      JoinBlank(parts[1..]);
      var s, rest := Join("\n", parts), Join("\n", parts[1..]);
      assert s == parts[0] + "\n" + rest;
      forall i | 0 <= i < |s| ensures IsSpace(s[i]) {
        if i < |parts[0]| {
          assert s[i] == parts[0][i];
        } else if i > |parts[0]| {
          assert s[i] == rest[i - |parts[0]| - 1];
        }
      }
    }
  }

  /** The résumé used by the app: the text of the uploaded PDF when there
      is one, otherwise the pasted text. */
  function ResumeText(pasted: string, upload: Option<seq<string>>): (text: string)
    ensures upload.None? ==> text == pasted
    ensures upload.Some? ==> (text == [] <==> forall k :: 0 <= k < |upload.value| ==> upload.value[k] == [])
  {
    match upload
    case None => pasted
    case Some(pages) => ExtractText(pages)
  }
}
