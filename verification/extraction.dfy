/** Turning the text of an uploaded PDF's pages into page records (`extract_text_from_pdf`). */
module Extraction {
  import opened Text
  import opened Records

  /** `name.replace(".pdf", "")`: the lecture name shown for a file. */
  function LectureName(fileName: string): string {
    RemoveAll(fileName, ".pdf")
  }

  /** A name ending in the extension, with no other occurrence of it, loses exactly the extension. */
  lemma {:induction false} LectureNameDropsExtension(stem: string)
    requires !Contains(stem, ".pdf")
    ensures LectureName(stem + ".pdf") == stem
    decreases |stem|
  {
    var s := stem + ".pdf";
    if stem != [] {
      if |stem| >= 4 {
        assert s[..4] == stem[..4];
        assert !StartsWith(stem, ".pdf");
      } else {
        assert s[|stem|] == '.';
      }
      assert s[..4] != ".pdf";
      assert s[1..] == stem[1..] + ".pdf";
      LectureNameDropsExtension(stem[1..]);
      assert [stem[0]] + stem[1..] == stem;
    }
  }

  /** The record id: file name, "_page_", page number. */
  function PageId(fileName: string, page: nat): string {
    fileName + "_page_" + NatToString(page)
  }

  /** Two pages of one file never share an id. */
  lemma PageIdInjective(fileName: string, p: nat, q: nat)
    ensures PageId(fileName, p) == PageId(fileName, q) ==> p == q
  {
    var pre := fileName + "_page_";
    if PageId(fileName, p) == PageId(fileName, q) {
      assert NatToString(p) == PageId(fileName, p)[|pre|..];
      assert NatToString(q) == PageId(fileName, q)[|pre|..];
      NatToStringInjective(p, q);
    }
  }

  function MakeRecord(fileName: string, page: nat, text: string): PageRecord {
    PageRecord(text, LectureName(fileName), fileName, page, PageId(fileName, page))
  }

  /** The text of each page after `strip()`, in page order. */
  function StrippedTexts(pages: seq<string>): seq<string> {
    seq(|pages|, i requires 0 <= i < |pages| => Strip(pages[i]))
  }

  /**
    `rec` is the record of page `rec.page` given the stripped page texts: it
    holds that page's text, which is not empty, with the lecture name, file
    and id of that page.
   */
  predicate IsRecordOf(fileName: string, texts: seq<string>, rec: PageRecord) {
    1 <= rec.page <= |texts| && rec.text == texts[rec.page - 1] && rec.text != ""
    && rec == MakeRecord(fileName, rec.page, rec.text)
  }

  /** A record of the first `n` pages is a record of the whole file, with a page number of at most `n`. */
  lemma IsRecordOfPrefix(fileName: string, texts: seq<string>, n: nat, rec: PageRecord)
    requires n <= |texts| && IsRecordOf(fileName, texts[..n], rec)
    ensures IsRecordOf(fileName, texts, rec) && rec.page <= n
  {
    assert texts[..n][rec.page - 1] == texts[rec.page - 1];
  }

  /**
    The records built from the stripped page texts: one per non-empty text,
    numbered from 1 by position, in page order.
   */
  function RecordsOf(fileName: string, texts: seq<string>): (r: seq<PageRecord>)
    ensures |r| <= |texts|
    ensures forall t :: 0 <= t < |r| ==> IsRecordOf(fileName, texts, r[t])
    ensures forall s, t :: 0 <= s < t < |r| ==> r[s].page < r[t].page
    decreases |texts|
  {
    if texts == [] then []
    else
      var n := |texts|;
      var rest := RecordsOf(fileName, texts[..n - 1]);
      forall t | 0 <= t < |rest|
        ensures IsRecordOf(fileName, texts, rest[t]) && rest[t].page < n
      {
        IsRecordOfPrefix(fileName, texts, n - 1, rest[t]);
      }
      if texts[n - 1] == "" then rest else rest + [MakeRecord(fileName, n, texts[n - 1])]
  }

  /** Every non-empty text has its record: only blank pages are dropped. */
  lemma {:induction false} RecordsOfComplete(fileName: string, texts: seq<string>, p: nat)
    requires 1 <= p <= |texts| && texts[p - 1] != ""
    ensures exists t :: 0 <= t < |RecordsOf(fileName, texts)| && RecordsOf(fileName, texts)[t].page == p
    decreases |texts|
  {
    var n := |texts|;
    var rest := RecordsOf(fileName, texts[..n - 1]);
    var r := RecordsOf(fileName, texts);
    if p == n {
      assert r == rest + [MakeRecord(fileName, n, texts[n - 1])];
      assert r[|rest|].page == p;
    } else {
      assert texts[..n - 1][p - 1] == texts[p - 1];
      RecordsOfComplete(fileName, texts[..n - 1], p);
      var t :| 0 <= t < |rest| && rest[t].page == p;
      assert r == rest || r == rest + [MakeRecord(fileName, n, texts[n - 1])];
      assert r[t] == rest[t];
    }
  }

  /** Taking one more page adds its record when its text is not empty. */
  lemma RecordsOfStep(fileName: string, texts: seq<string>, i: nat)
    requires i < |texts|
    ensures RecordsOf(fileName, texts[..i + 1])
            == RecordsOf(fileName, texts[..i]) + if texts[i] == "" then [] else [MakeRecord(fileName, i + 1, texts[i])]
  {
    assert texts[..i + 1][..i] == texts[..i];
  }

  /**
    The records of a file whose pages have the given raw texts: every record
    is the record of its page's stripped, non-empty text, page numbers
    strictly increase, and there are no more records than pages.
   */
  function PageRecords(fileName: string, pages: seq<string>): (r: seq<PageRecord>)
    ensures |r| <= |pages|
    ensures forall t :: 0 <= t < |r| ==> IsRecordOf(fileName, StrippedTexts(pages), r[t])
    ensures forall s, t :: 0 <= s < t < |r| ==> r[s].page < r[t].page
  {
    RecordsOf(fileName, StrippedTexts(pages))
  }

  /** Every page with text after stripping has its record: nothing but blank pages is dropped. */
  lemma PageRecordsComplete(fileName: string, pages: seq<string>, p: nat)
    requires 1 <= p <= |pages| && Strip(pages[p - 1]) != ""
    ensures exists t :: 0 <= t < |PageRecords(fileName, pages)| && PageRecords(fileName, pages)[t].page == p
  {
    var texts := StrippedTexts(pages);
    assert texts[p - 1] == Strip(pages[p - 1]);
    RecordsOfComplete(fileName, texts, p);
    var t :| 0 <= t < |RecordsOf(fileName, texts)| && RecordsOf(fileName, texts)[t].page == p;
    assert PageRecords(fileName, pages)[t].page == p;
  }

  /** Ids are distinct within one file. */
  lemma PageRecordIdsDistinct(fileName: string, pages: seq<string>, s: nat, t: nat)
    requires s < t < |PageRecords(fileName, pages)|
    ensures PageRecords(fileName, pages)[s].id != PageRecords(fileName, pages)[t].id
  {
    var r := PageRecords(fileName, pages);
    PageIdInjective(fileName, r[s].page, r[t].page);
  }

  /** The page loop of `extract_text_from_pdf`, given the raw text of each page in order. */
  method ExtractRecords(fileName: string, pages: seq<string>) returns (records: seq<PageRecord>)
    ensures records == PageRecords(fileName, pages)
  {
    ghost var texts := StrippedTexts(pages);
    records := [];
    for i := 0 to |pages|
      invariant records == RecordsOf(fileName, texts[..i])
    {
      var pageNum := i + 1;
      var text := Strip(pages[i]);
      RecordsOfStep(fileName, texts, i);
      if text != "" {
        records := records + [MakeRecord(fileName, pageNum, text)];
      }
    }
    assert texts[..|pages|] == texts;
  }
}
