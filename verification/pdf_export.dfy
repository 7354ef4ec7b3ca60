/** The cell-text truncation of the PDF report
    (src/cal_exporter/exporters/pdf_export.py, `_truncate` and the two table
    columns that use it). */
module PdfExport {
  import opened PyStr

  const Ellipsis: string := "..."

  /** Limits of the summary and hashtag columns of the PDF table. */
  const SummaryWidth: int := 50
  const HashtagsWidth: int := 30

  /** `_truncate(text, max_length)`: short text is kept, long text is cut to
      `max_length - 3` characters (Python slice semantics, so a negative
      count cuts from the end) and given an ellipsis. */
  function Truncate(text: string, maxLength: int): (r: string)
    ensures |text| <= maxLength ==> r == text
    ensures |text| > maxLength ==>
              |r| >= 3 && |r| - 3 <= |text| && r[|r| - 3..] == Ellipsis && r[..|r| - 3] == text[..|r| - 3]
    ensures |text| > maxLength && maxLength >= 3 ==> |r| == maxLength
  {
    if |text| <= maxLength then text
    else
      var head := SliceTo(text, maxLength - 3);
      assert (head + Ellipsis)[..|head|] == head;
      head + Ellipsis
  }

  /** With a limit of at least three characters the result always fits. */
  lemma TruncateFits(text: string, maxLength: int)
    requires maxLength >= 3
    ensures |Truncate(text, maxLength)| <= maxLength
  {
  }

  /** Truncating twice with the same limit is truncating once. */
  lemma TruncateIdempotent(text: string, maxLength: int)
    requires maxLength >= 3
    ensures Truncate(Truncate(text, maxLength), maxLength) == Truncate(text, maxLength)
  {
    TruncateFits(text, maxLength);
  }

  /** Truncation only ever shortens: its result, less the ellipsis, is a
      prefix of the text, and the text is recovered when nothing was cut. */
  lemma TruncateKeepsPrefix(text: string, maxLength: int)
    ensures var r := Truncate(text, maxLength);
      r == text || (|r| >= 3 && StartsWith(text, r[..|r| - 3]))
  {
  }

  /** The summary column of a row. */
  function SummaryCell(summary: string): (r: string)
    ensures |r| <= SummaryWidth
    ensures |summary| <= SummaryWidth ==> r == summary
  {
    Truncate(summary, SummaryWidth)
  }

  /** The hashtag column of a row: the tags joined with ", ", then cut. */
  function HashtagsCell(hashtags: seq<string>): (r: string)
    ensures |r| <= HashtagsWidth
    ensures |Join(hashtags, ", ")| <= HashtagsWidth ==> r == Join(hashtags, ", ")
  {
    Truncate(Join(hashtags, ", "), HashtagsWidth)
  }

  /** A 60-character summary is shown as its first 47 characters and "...". */
  lemma LongSummaryExample(summary: string)
    requires |summary| == 60
    ensures SummaryCell(summary) == summary[..47] + "..."
  {
  }

  /** Below three the limit is not respected: `text[:max_length - 3]` then
      counts from the end, so "abcd" with limit 2 becomes "abc...". */
  lemma ShortLimitOverflows()
    ensures Truncate("abcd", 2) == "abc..."
    ensures |Truncate("abcd", 2)| > 2
  {
    assert SliceTo("abcd", -1) == "abc";
  }
}
