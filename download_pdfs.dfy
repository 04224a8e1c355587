/** The pdf downloader: for every record of the database it picks the record's
    one `application/pdf` link, derives the target file name, skips the file
    when it was already in the pdf directory at start-up, and otherwise tries
    a bounded number of downloads. A module-level counter counts the records
    whose handling ran to completion.

    The network is an oracle `ok(url, attempt)`: whether the `attempt`-th
    download of `url` (attempts count from 0) succeeds. The directory listing
    taken at start-up is a set of file names. */
module DownloadPdfs {
  import opened Wrappers
  import opened Text
  import opened Values

  /** Number of download attempts per pdf. */
  const RETRIES := 5
  const PDF_TYPE := "application/pdf"

  type Attempts = (string, nat) -> bool

  /** Why `save_pdf` raises before its `try`: the record has no usable list
      of links, or a link has no `type` (or a pdf link no `href`)
      (KeyError, TypeError); the number of pdf links is not one (the failed
      assertion); the pdf href is not text (TypeError on `+ '.pdf'`). */
  datatype Crash = BadLinks | PdfCount(n: nat) | HrefNotText

  // ---------------------------------------------------------------------
  // Link selection and file name

  /** A link whose `type` is the pdf type. */
  predicate IsPdfLink(x: Value)
  {
    Get(x, "type") == Some(Str(PDF_TYPE))
  }

  /** A link the filter can look at without raising. */
  predicate LinkReadable(x: Value)
  {
    Get(x, "type").Some? && (IsPdfLink(x) ==> Get(x, "href").Some?)
  }

  /** The filter `[x['href'] for x in links if x['type'] == PDF_TYPE]` over a
      list of links, in order. */
  function PdfHrefs(links: seq<Value>): Result<seq<Value>, Crash>
  {
    if links == [] then Ok([])
    else
      var x := links[0];
      if Get(x, "type").None? then Err(BadLinks)
      else if !IsPdfLink(x) then PdfHrefs(links[1..])
      else if Get(x, "href").None? then Err(BadLinks)
      else
        match PdfHrefs(links[1..])
        case Err(c) => Err(c)
        case Ok(hs) => Ok([Get(x, "href").value] + hs)
  }

  /** `i` is the one pdf link of `links`. */
  ghost predicate OnlyPdfLink(links: seq<Value>, i: int)
  {
    0 <= i < |links| && IsPdfLink(links[i]) &&
    forall k :: 0 <= k < |links| && k != i ==> !IsPdfLink(links[k])
  }

  /** The filter raises exactly when some link cannot be read. */
  lemma {:induction false} PdfHrefsFails(links: seq<Value>)
    ensures PdfHrefs(links).Err? <==> exists i :: 0 <= i < |links| && !LinkReadable(links[i])
    ensures PdfHrefs(links).Err? ==> PdfHrefs(links) == Err(BadLinks)
  {
    if links != [] {
      PdfHrefsFails(links[1..]);
      if exists i :: 0 <= i < |links[1..]| && !LinkReadable(links[1..][i]) {
        var i :| 0 <= i < |links[1..]| && !LinkReadable(links[1..][i]);
        assert !LinkReadable(links[i + 1]);
      }
      if exists i :: 0 <= i < |links| && !LinkReadable(links[i]) {
        var i :| 0 <= i < |links| && !LinkReadable(links[i]);
        if i > 0 {
          assert !LinkReadable(links[1..][i - 1]);
        }
      }
    }
  }

  /** When the filter reads every link, it keeps no href when there is no pdf
      link, and exactly one, that link's, when there is exactly one. */
  lemma {:induction false} PdfHrefsCount(links: seq<Value>)
    requires PdfHrefs(links).Ok?
    ensures PdfHrefs(links).value == [] <==> forall k :: 0 <= k < |links| ==> !IsPdfLink(links[k])
    ensures |PdfHrefs(links).value| == 1 <==> exists i :: OnlyPdfLink(links, i)
    ensures forall i :: OnlyPdfLink(links, i) && Get(links[i], "href").Some? ==>
      PdfHrefs(links).value == [Get(links[i], "href").value]
  {
    if links != [] {
      var rest := links[1..];
      PdfHrefsCount(rest);
      var hs := PdfHrefs(links).value;
      var hs' := PdfHrefs(rest).value;
      forall k | 1 <= k < |links|
        ensures links[k] == rest[k - 1]
      {
      }
      if IsPdfLink(links[0]) {
        assert hs == [Get(links[0], "href").value] + hs';
        if hs' == [] {
          assert OnlyPdfLink(links, 0);
        }
        forall i | OnlyPdfLink(links, i)
          ensures i == 0
        {
        }
        if |hs| == 1 {
          assert hs' == [];
        }
      } else {
        assert hs == hs';
        if exists i :: OnlyPdfLink(rest, i) {
          var i :| OnlyPdfLink(rest, i);
          assert OnlyPdfLink(links, i + 1);
        }
        forall i | OnlyPdfLink(links, i)
          ensures OnlyPdfLink(rest, i - 1)
        {
        }
        if hs == [] {
          forall k | 0 <= k < |links|
            ensures !IsPdfLink(links[k])
          {
            if k > 0 {
              assert !IsPdfLink(rest[k - 1]);
            }
          }
        }
      }
    }
  }

  /** `for x in j['links']` as far as the filter goes: a list is walked; an
      empty dictionary or string yields nothing; a non-empty one yields
      strings, which cannot be indexed by `'type'`; anything else is not
      iterable. */
  function LinkHrefs(j: Value): Result<seq<Value>, Crash>
  {
    match Get(j, "links")
    case None => Err(BadLinks)
    case Some(List(xs)) => PdfHrefs(xs)
    case Some(Dict(_, f)) => if f == map[] then Ok([]) else Err(BadLinks)
    case Some(Str(t)) => if t == [] then Ok([]) else Err(BadLinks)
    case Some(_) => Err(BadLinks)
  }

  /** `pdf_url`: the one pdf href with `.pdf` appended. */
  function PdfUrl(j: Value): Result<string, Crash>
  {
    match LinkHrefs(j)
    case Err(c) => Err(c)
    case Ok(hs) =>
      if |hs| != 1 then Err(PdfCount(|hs|))
      else if !hs[0].Str? then Err(HrefNotText)
      else Ok(hs[0].text + ".pdf")
  }

  /** A record whose links are a list with exactly one pdf link, every link
      readable and the pdf href text, gets that href with `.pdf` appended;
      any other number of pdf links raises with that number. */
  lemma PdfUrlOfLinks(j: Value, xs: seq<Value>)
    requires Get(j, "links") == Some(List(xs))
    requires forall i :: 0 <= i < |xs| ==> LinkReadable(xs[i])
    ensures forall i :: OnlyPdfLink(xs, i) && Get(xs[i], "href").Some? && Get(xs[i], "href").value.Str? ==>
      PdfUrl(j) == Ok(Get(xs[i], "href").value.text + ".pdf")
    ensures (forall i :: !OnlyPdfLink(xs, i)) ==> PdfUrl(j).Err? && PdfUrl(j).error.PdfCount?
  {
    PdfHrefsFails(xs);
    PdfHrefsCount(xs);
  }

  // ---------------------------------------------------------------------
  // download()

  /** The first attempt from `i` on that succeeds, or `RETRIES` when none
      below `RETRIES` does. */
  function FirstSuccess(ok: Attempts, url: string, i: nat): (k: nat)
    requires i <= RETRIES
    ensures i <= k <= RETRIES
    ensures forall n :: i <= n < k ==> !ok(url, n)
    ensures k < RETRIES ==> ok(url, k)
    decreases RETRIES - i
  {
    if i == RETRIES || ok(url, i) then i else FirstSuccess(ok, url, i + 1)
  }

  /** The download loop: up to `RETRIES` attempts, stopping at the first
      success and sleeping after every failure, the last one included. The
      loop uses the module's `RETRIES` and its `TIMEOUT` delay, whatever is
      passed to `download`. Returns whether some attempt succeeded, the number of
      attempts, and the number of sleeps. */
  method Download(ok: Attempts, url: string) returns (success: bool, attempts: nat, sleeps: nat)
    ensures success <==> exists n :: 0 <= n < RETRIES && ok(url, n)
    ensures success ==> attempts == FirstSuccess(ok, url, 0) + 1 && ok(url, attempts - 1)
    ensures !success ==> attempts == RETRIES
    ensures forall n :: 0 <= n < attempts && !(success && n == attempts - 1) ==> !ok(url, n)
    ensures sleeps == FirstSuccess(ok, url, 0)
    ensures sleeps == if success then attempts - 1 else attempts
  {
    success, attempts, sleeps := false, 0, 0;
    for i := 0 to RETRIES
      invariant attempts == i && sleeps == i
      invariant forall n :: 0 <= n < i ==> !ok(url, n)
    {
      attempts := attempts + 1;
      if ok(url, i) {
        success := true;
        break;
      }
      sleeps := sleeps + 1;
    }
  }

  // ---------------------------------------------------------------------
  // save_pdf

  /** What became of one record: `save_pdf` raised; the file was in the
      directory at start-up; an attempt succeeded (and how many were made);
      every attempt failed. Only the first leaves the counter alone. */
  datatype Outcome =
    | Raised(crash: Crash)
    | Skipped(fname: string)
    | Fetched(fname: string, attempts: nat)
    | GaveUp(fname: string)

  /** The outcome of `save_pdf` on record `j`, in directory `pdfDir` whose
      start-up listing is `existing`. */
  function Handle(pdfDir: string, existing: set<string>, j: Value, ok: Attempts): Outcome
  {
    match PdfUrl(j)
    case Err(c) => Raised(c)
    case Ok(url) =>
      var basename := LastSegment(url);
      var fname := JoinPath(pdfDir, basename);
      if basename in existing then Skipped(fname)
      else
        var k := FirstSuccess(ok, url, 0);
        if k < RETRIES then Fetched(fname, k + 1) else GaveUp(fname)
  }

  /** The target file is `pdfDir` joined with the base name of the pdf url:
      its own base name is the href's last segment with `.pdf` appended. */
  lemma HandleFileName(pdfDir: string, existing: set<string>, j: Value, ok: Attempts)
    requires PdfUrl(j).Ok?
    ensures var href := PdfUrl(j).value[..|PdfUrl(j).value| - 4];
      !Handle(pdfDir, existing, j, ok).Raised? &&
      Handle(pdfDir, existing, j, ok).fname == JoinPath(pdfDir, LastSegment(href) + ".pdf") &&
      LastSegment(Handle(pdfDir, existing, j, ok).fname) == LastSegment(href) + ".pdf"
  {
    var url := PdfUrl(j).value;
    var href := url[..|url| - 4];
    assert url == href + ".pdf";
    LastSegmentAppend(href, ".pdf");
    LastSegmentIsSuffix(url);
    JoinPathBasename(pdfDir, LastSegment(url));
  }

  /** A file already listed at start-up is skipped without a single download
      attempt: the outcome does not depend on the network. */
  lemma HandleSkipsExisting(pdfDir: string, existing: set<string>, j: Value, ok1: Attempts, ok2: Attempts)
    requires PdfUrl(j).Ok? && LastSegment(PdfUrl(j).value) in existing
    ensures Handle(pdfDir, existing, j, ok1).Skipped?
    ensures Handle(pdfDir, existing, j, ok1) == Handle(pdfDir, existing, j, ok2)
  {
  }

  /** A file not listed at start-up is fetched when one of the `RETRIES`
      attempts succeeds, with the first success's number of attempts, and
      given up otherwise; it is never skipped. */
  lemma HandleDownloads(pdfDir: string, existing: set<string>, j: Value, ok: Attempts)
    requires PdfUrl(j).Ok? && LastSegment(PdfUrl(j).value) !in existing
    ensures var url := PdfUrl(j).value;
      Handle(pdfDir, existing, j, ok).Fetched? <==> exists n :: 0 <= n < RETRIES && ok(url, n)
    ensures var url := PdfUrl(j).value;
      Handle(pdfDir, existing, j, ok).Fetched? ==>
        var a := Handle(pdfDir, existing, j, ok).attempts;
        1 <= a <= RETRIES && ok(url, a - 1) && forall n :: 0 <= n < a - 1 ==> !ok(url, n)
    ensures !Handle(pdfDir, existing, j, ok).Skipped?
    ensures !(exists n :: 0 <= n < RETRIES && ok(PdfUrl(j).value, n)) ==> Handle(pdfDir, existing, j, ok).GaveUp?
  {
  }

  /** The number of records whose handling ran to completion. */
  function Completed(outcomes: seq<Outcome>): (n: nat)
    ensures n <= |outcomes|
    ensures n == |outcomes| <==> forall i :: 0 <= i < |outcomes| ==> !outcomes[i].Raised?
  {
    if outcomes == [] then 0
    else Completed(outcomes[..|outcomes| - 1]) + if outcomes[|outcomes| - 1].Raised? then 0 else 1
  }

  lemma CompletedAppend(outcomes: seq<Outcome>, o: Outcome)
    ensures Completed(outcomes + [o]) == Completed(outcomes) + if o.Raised? then 0 else 1
  {
    assert (outcomes + [o])[..|outcomes|] == outcomes;
  }

  /** The outcomes of handling `items` one after the other. */
  function Outcomes(pdfDir: string, existing: set<string>, items: seq<(string, Value)>, ok: Attempts): (os: seq<Outcome>)
    ensures |os| == |items|
    ensures forall i :: 0 <= i < |items| ==> os[i] == Handle(pdfDir, existing, items[i].1, ok)
  {
    if items == [] then []
    else Outcomes(pdfDir, existing, items[..|items| - 1], ok) + [Handle(pdfDir, existing, items[|items| - 1].1, ok)]
  }

  /** The script's module state: the pdf directory, its listing taken once at
      start-up and never refreshed, and the `NUM_OK` counter. */
  class Downloader {
    const pdfDir: string
    const existing: set<string>
    var numOk: nat

    constructor (pdfDir: string, existing: set<string>)
      ensures this.pdfDir == pdfDir && this.existing == existing && numOk == 0
    {
      this.pdfDir := pdfDir;
      this.existing := existing;
      numOk := 0;
    }

    /** `save_pdf(pid, j)`: the link filter and its assertion run before the
        `try` and raise out of it; inside it nothing raises, so every record
        that gets there is counted, whether skipped, fetched or given up. */
    method SavePdf(pid: string, j: Value, ok: Attempts) returns (o: Outcome)
      modifies this
      ensures o == Handle(pdfDir, existing, j, ok)
      ensures numOk == old(numOk) + if o.Raised? then 0 else 1
    {
      var url := PdfUrl(j);
      if url.Err? {
        return Raised(url.error);
      }
      var basename := LastSegment(url.value);
      var fname := JoinPath(pdfDir, basename);
      if basename !in existing {
        var success, attempts, _ := Download(ok, url.value);
        o := if success then Fetched(fname, attempts) else GaveUp(fname);
      } else {
        o := Skipped(fname);
      }
      numOk := numOk + 1;
    }

    /** The pool's `starmap(save_pdf, DB.items())`, one record after the
        other. */
    method SaveAll(items: seq<(string, Value)>, ok: Attempts) returns (outcomes: seq<Outcome>)
      modifies this
      ensures |outcomes| == |items|
      ensures forall i :: 0 <= i < |items| ==> outcomes[i] == Handle(pdfDir, existing, items[i].1, ok)
      ensures numOk == old(numOk) + Completed(outcomes)
    {
      outcomes := [];
      for i := 0 to |items|
        invariant |outcomes| == i
        invariant outcomes == Outcomes(pdfDir, existing, items[..i], ok)
        invariant numOk == old(numOk) + Completed(outcomes)
      {
        var (pid, j) := items[i];
        var o := SavePdf(pid, j, ok);
        CompletedAppend(outcomes, o);
        assert items[..i + 1][..i] == items[..i];
        outcomes := outcomes + [o];
      }
      assert items[..|items|] == items;
    }
  }

  /** The whole script after start-up: every record of the database is
      handled once, in order. `numOk` is the final counter, never above the
      number of records. The closing report `(NUM_OK, len(DB))` is printed
      only when no record raised, since the pool re-raises otherwise; it then
      reads `len(DB)` out of `len(DB)`. */
  method Run(pdfDir: string, existing: set<string>, db: seq<(string, Value)>, ok: Attempts)
    returns (outcomes: seq<Outcome>, numOk: nat, report: Option<(nat, nat)>)
    ensures |outcomes| == |db|
    ensures forall i :: 0 <= i < |db| ==> outcomes[i] == Handle(pdfDir, existing, db[i].1, ok)
    ensures numOk == Completed(outcomes) && numOk <= |db|
    ensures report.None? <==> exists i :: 0 <= i < |db| && outcomes[i].Raised?
    ensures report.Some? ==> report.value == (numOk, |db|) && numOk == |db|
  {
    var d := new Downloader(pdfDir, existing);
    outcomes := d.SaveAll(db, ok);
    numOk := d.numOk;
    if exists i :: 0 <= i < |outcomes| && outcomes[i].Raised? {
      report := None;
    } else {
      report := Some((numOk, |db|));
    }
  }
}
