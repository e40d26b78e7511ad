/** What the Celery tasks see of the sanitiser: sanitise_file_contents returns one of these two for a file. */
module Verdicts {
  import opened Options
  import opened PdfStitching

  const LETTER_MAX_PAGE_COUNT := 10

  datatype Verdict =
    | Passed(document: seq<Page>, pageCount: nat, address: Option<string>)
    | Failed(message: string, failedPageCount: Option<nat>, invalidPages: Option<seq<nat>>)
}
