/** The paginated wire format (deploy_script.py, `csv2json`,
    `decode_csv_from_api`, `read_from_api`): every page becomes an entry
    `{page_number, next_page, csv_data}` whose `csv_data` is the base64 text
    of the UTF-8 bytes of the page's CSV text; the reader walks the entries
    in stored order and stops right after the first one whose `next_page`
    is falsy. */
module Envelope {
  import opened Common
  import Csv
  import Utf8
  import Base64
  import Pagination

  type Page = seq<Csv.Transaction>

  /** One element of the envelope's `pages` list; a key the JSON object
      lacks is None. */
  datatype PageEntry = PageEntry(pageNumber: int, nextPage: Option<int>, csvData: Option<string>)

  /** Python truthiness of `page.get('next_page')`: a missing key and 0 are falsy. */
  predicate HasNext(e: PageEntry)
    ensures e.nextPage.None? ==> !HasNext(e)
    ensures e.nextPage == Some(0) ==> !HasNext(e)
  {
    e.nextPage.Some? && e.nextPage.value != 0
  }

  /** Every record of every page needs no CSV quoting. */
  predicate PlainPages(pages: seq<Page>)
  {
    forall k, m :: 0 <= k < |pages| && 0 <= m < |pages[k]| ==> Csv.PlainTransaction(pages[k][m])
  }

  // ---------------------------------------------------------------------
  // Writing

  /** `csv_data` of a page: base64 of the UTF-8 bytes of its CSV text. */
  function EncodePage(page: Page): string
  {
    Base64.Encode(Utf8.Encode(Csv.PageText(page)))
  }

  /** `csv_data` is base64 text: whole groups of four characters of the
      alphabet or the padding, at least one group since the header is there. */
  lemma EncodePageIsBase64Text(page: Page)
    ensures |EncodePage(page)| % 4 == 0 && |EncodePage(page)| > 0
    ensures forall k :: 0 <= k < |EncodePage(page)| ==>
              Base64.InAlphabet(EncodePage(page)[k]) || EncodePage(page)[k] == '='
  {
    Csv.PageTextShape(page);
    Base64.EncodeGroups(Utf8.Encode(Csv.PageText(page)));
  }

  /** For a page whose CSV text is ASCII, the bytes under the base64 are the
      characters of that text, so `csv_data` has four characters for every
      three characters of CSV, rounded up. */
  lemma AsciiPagePayload(page: Page)
    requires forall k :: 0 <= k < |Csv.PageText(page)| ==> Csv.PageText(page)[k] as int < 0x80
    ensures |Utf8.Encode(Csv.PageText(page))| == |Csv.PageText(page)|
    ensures forall k :: 0 <= k < |Csv.PageText(page)| ==>
              Utf8.Encode(Csv.PageText(page))[k] == Csv.PageText(page)[k] as int
    ensures |EncodePage(page)| == 4 * ((|Csv.PageText(page)| + 2) / 3)
  {
    Utf8.AsciiIsOneBytePerChar(Csv.PageText(page));
  }

  /** The entry `csv2json` appends for the page at index `i`. */
  function EntryFor(pages: seq<Page>, i: nat): PageEntry
    requires i < |pages|
  {
    PageEntry(i + 1, Some(if i + 1 == |pages| then 0 else 1), Some(EncodePage(pages[i])))
  }

  /** The `pages` list of the JSON body `csv2json` builds: one entry per
      page, numbered 1 to n in order, only the last one without a next page. */
  function EnvelopeOf(pages: seq<Page>): (envelope: seq<PageEntry>)
    ensures |envelope| == |pages|
    ensures forall i :: 0 <= i < |pages| ==> envelope[i].pageNumber == i + 1
    ensures forall i :: 0 <= i < |pages| ==> (HasNext(envelope[i]) <==> i + 1 < |pages|)
    ensures forall i :: 0 <= i < |pages| ==> envelope[i].csvData == Some(EncodePage(pages[i]))
  {
    seq(|pages|, i requires 0 <= i < |pages| => EntryFor(pages, i))
  }

  /** The loop of `csv2json`, with the per-page file written and read back
      replaced by the bytes themselves. */
  method Csv2Json(pages: seq<Page>) returns (envelope: seq<PageEntry>)
    ensures envelope == EnvelopeOf(pages)
  {
    envelope := [];
    var i := 0;
    while i < |pages|
      invariant 0 <= i <= |pages|
      invariant |envelope| == i
      invariant forall k :: 0 <= k < i ==> envelope[k] == EntryFor(pages, k)
    {
      var content := Utf8.Encode(Csv.PageText(pages[i]));
      var csvCoded := Base64.Encode(content);
      var pageNumber := i + 1;
      var totalPages := |pages|;
      var nextPage := if pageNumber == totalPages then 0 else 1;
      envelope := envelope + [PageEntry(pageNumber, Some(nextPage), Some(csvCoded))];
      i := i + 1;
    }
  }

  // ---------------------------------------------------------------------
  // Reading

  /** `decode_csv_from_api`: base64-decode `csv_data`, decode the bytes as
      UTF-8, parse the CSV text. */
  function DecodeEntry(e: PageEntry): (r: Result<Page>)
    ensures e.csvData.None? <==> r == Err(MalformedEnvelope)
  {
    match e.csvData
    case None => Err(MalformedEnvelope)
    case Some(data) =>
      match Base64.Decode(data)
      case None => Err(DecodeError)
      case Some(bytes) =>
        match Utf8.Decode(bytes)
        case None => Err(DecodeError)
        case Some(text) => Csv.ParsePage(text)
  }

  /** Decoding an entry written for a page gives the page back. */
  lemma DecodeEncodedPage(page: Page, e: PageEntry)
    requires forall m :: 0 <= m < |page| ==> Csv.PlainTransaction(page[m])
    requires e.csvData == Some(EncodePage(page))
    ensures DecodeEntry(e) == Ok(page)
  {
    var text := Csv.PageText(page);
    Base64.RoundTrip(Utf8.Encode(text));
    Utf8.RoundTrip(text);
    Csv.PageRoundTrip(page);
  }

  /** The pages of the entries, in order; the first entry that fails to
      decode fails them all. */
  function DecodeEntries(entries: seq<PageEntry>): (r: Result<seq<Page>>)
    ensures r.Ok? ==> |r.value| == |entries|
  {
    if entries == [] then Ok([])
    else
      match DecodeEntries(entries[..|entries| - 1])
      case Err(e) => Err(e)
      case Ok(frames) =>
        match DecodeEntry(entries[|entries| - 1])
        case Err(e) => Err(e)
        case Ok(frame) => Ok(frames + [frame])
  }

  /** How many entries the loop of `read_from_api` consumes: up to and
      including the first one without a next page, or all of them. */
  function Consumed(envelope: seq<PageEntry>): (k: nat)
    ensures k <= |envelope|
    ensures envelope != [] ==> k > 0
    ensures forall j :: 0 <= j < k - 1 ==> HasNext(envelope[j])
    ensures 0 < k < |envelope| ==> !HasNext(envelope[k - 1])
  {
    if envelope == [] then 0
    else if !HasNext(envelope[0]) then 1
    else 1 + Consumed(envelope[1..])
  }

  /** The loop consumes exactly up to the first entry without a next page. */
  lemma {:induction false} ConsumedUpToFirstLast(envelope: seq<PageEntry>, i: nat)
    requires i < |envelope|
    requires forall j :: 0 <= j < i ==> HasNext(envelope[j])
    requires !HasNext(envelope[i])
    ensures Consumed(envelope) == i + 1
  {
    if i > 0 {
      ConsumedUpToFirstLast(envelope[1..], i - 1);
    }
  }

  /** With a next page on every entry the loop consumes them all. */
  lemma {:induction false} ConsumedAll(envelope: seq<PageEntry>)
    requires forall j :: 0 <= j < |envelope| ==> HasNext(envelope[j])
    ensures Consumed(envelope) == |envelope|
  {
    if envelope != [] {
      ConsumedAll(envelope[1..]);
    }
  }

  /** What `read_from_api` returns for the envelope's `pages` list: the
      concatenation of the consumed pages, `pd.concat` failing on none. */
  function Read(envelope: seq<PageEntry>): (r: Result<Page>)
    ensures envelope == [] ==> r == Err(NothingToConcatenate)
    ensures r.Ok? ==> envelope != [] && Consumed(envelope) > 0
  {
    match DecodeEntries(envelope[..Consumed(envelope)])
    case Err(e) => Err(e)
    case Ok(frames) => if frames == [] then Err(NothingToConcatenate) else Ok(Concat(frames))
  }

  /** Once a prefix of the entries fails, every longer prefix fails the same way. */
  lemma {:induction false} DecodeEntriesFailureSticks(entries: seq<PageEntry>, m: nat, n: nat)
    requires m <= n <= |entries|
    requires DecodeEntries(entries[..m]).Err?
    ensures DecodeEntries(entries[..n]) == DecodeEntries(entries[..m])
    decreases n
  {
    if n > m {
      DecodeEntriesFailureSticks(entries, m, n - 1);
      assert entries[..n][..n - 1] == entries[..n - 1];
    }
  }

  /** One more entry extends the decoded prefix, or fails it. */
  lemma DecodeNextEntry(envelope: seq<PageEntry>, i: nat, frames: seq<Page>)
    requires i < |envelope|
    requires DecodeEntries(envelope[..i]) == Ok(frames)
    ensures DecodeEntry(envelope[i]).Err? ==> DecodeEntries(envelope[..i + 1]) == Err(DecodeEntry(envelope[i]).error)
    ensures DecodeEntry(envelope[i]).Ok? ==> DecodeEntries(envelope[..i + 1]) == Ok(frames + [DecodeEntry(envelope[i]).value])
  {
    var prefix := envelope[..i + 1];
    assert prefix[..i] == envelope[..i];
    assert prefix[i] == envelope[i];
  }

  /** The loop's view of a failure: once the decoded prefix up to a reached
      entry has failed, the read fails the same way. */
  lemma FailedPrefixFailsRead(envelope: seq<PageEntry>, i: nat)
    requires i < |envelope|
    requires forall j :: 0 <= j < i ==> HasNext(envelope[j])
    requires DecodeEntry(envelope[i]).Err?
    requires DecodeEntries(envelope[..i + 1]) == Err(DecodeEntry(envelope[i]).error)
    ensures Read(envelope) == Err(DecodeEntry(envelope[i]).error)
  {
    var k := Consumed(envelope);
    assert i + 1 <= k;
    DecodeEntriesFailureSticks(envelope, i + 1, k);
  }

  /** The first entry the loop reaches and cannot decode makes the whole
      read fail with that entry's error. */
  lemma ReadFailsAt(envelope: seq<PageEntry>, i: nat)
    requires i < |envelope|
    requires forall j :: 0 <= j < i ==> HasNext(envelope[j])
    requires forall j :: 0 <= j < i ==> DecodeEntry(envelope[j]).Ok?
    requires DecodeEntry(envelope[i]).Err?
    ensures Read(envelope) == Err(DecodeEntry(envelope[i]).error)
  {
    var before := envelope[..i];
    var frames := seq(i, j requires 0 <= j < i => DecodeEntry(envelope[j]).value);
    DecodeEntriesAllOk(before, frames, i);
    assert before[..i] == before && frames[..i] == frames;
    DecodeNextEntry(envelope, i, frames);
    FailedPrefixFailsRead(envelope, i);
  }

  /** Every one of the first `i` entries announces a next page. */
  ghost predicate AllHaveNext(envelope: seq<PageEntry>, i: nat)
    requires i <= |envelope|
  {
    forall j :: 0 <= j < i ==> HasNext(envelope[j])
  }

  /** After an entry, the loop either goes on with every entry so far
      announcing a next page, or has consumed all it consumes. */
  lemma ReadStep(envelope: seq<PageEntry>, i: nat)
    requires i < |envelope|
    requires AllHaveNext(envelope, i)
    ensures HasNext(envelope[i]) ==> AllHaveNext(envelope, i + 1)
    ensures !HasNext(envelope[i]) ==> Consumed(envelope) == i + 1
  {
    if !HasNext(envelope[i]) {
      ConsumedUpToFirstLast(envelope, i);
    }
  }

  /** When the loop has consumed what it consumes, its frames give the read. */
  lemma ReadEnd(envelope: seq<PageEntry>, i: nat, frames: seq<Page>)
    requires i <= |envelope|
    requires DecodeEntries(envelope[..i]) == Ok(frames)
    requires i == Consumed(envelope) || (i == |envelope| && AllHaveNext(envelope, i))
    ensures Read(envelope) == if frames == [] then Err(NothingToConcatenate) else Ok(Concat(frames))
  {
    if i != Consumed(envelope) {
      ConsumedAll(envelope);
    }
  }

  /** The loop of `read_from_api`, with the JSON file already loaded. */
  method ReadFromApi(envelope: seq<PageEntry>) returns (r: Result<Page>)
    ensures r == Read(envelope)
  {
    var csvData: seq<Page> := [];
    var i := 0;
    while i < |envelope|
      invariant 0 <= i <= |envelope|
      invariant AllHaveNext(envelope, i)
      invariant DecodeEntries(envelope[..i]) == Ok(csvData)
    {
      var page := envelope[i];
      var df := DecodeEntry(page);
      DecodeNextEntry(envelope, i, csvData);
      if df.Err? {
        FailedPrefixFailsRead(envelope, i);
        return Err(df.error);
      }
      ReadStep(envelope, i);
      csvData := csvData + [df.value];
      i := i + 1;
      if !HasNext(page) {
        break;
      }
    }
    ReadEnd(envelope, i, csvData);
    if csvData == [] {
      r := Err(NothingToConcatenate);
    } else {
      r := Ok(Concat(csvData));
    }
  }

  // ---------------------------------------------------------------------
  // Properties of the protocol

  /** The reader stops right after the first entry without a next page:
      whatever follows it, even entries that would not decode, is ignored. */
  lemma ReadIgnoresRest(envelope: seq<PageEntry>, rest: seq<PageEntry>)
    requires envelope != []
    requires forall j :: 0 <= j < |envelope| - 1 ==> HasNext(envelope[j])
    requires !HasNext(envelope[|envelope| - 1])
    ensures Read(envelope + rest) == Read(envelope)
  {
    var n := |envelope|;
    var whole := envelope + rest;
    ConsumedUpToFirstLast(envelope, n - 1);
    ConsumedUpToFirstLast(whole, n - 1);
    assert whole[..n] == envelope[..n];
  }

  /** Entries that each decode decode together to their pages, in order. */
  lemma {:induction false} DecodeEntriesAllOk(entries: seq<PageEntry>, frames: seq<Page>, m: nat)
    requires |entries| == |frames| && m <= |entries|
    requires forall k :: 0 <= k < |entries| ==> DecodeEntry(entries[k]) == Ok(frames[k])
    ensures DecodeEntries(entries[..m]) == Ok(frames[..m])
  {
    if m > 0 {
      DecodeEntriesAllOk(entries, frames, m - 1);
      DecodeNextEntry(entries, m - 1, frames[..m - 1]);
      PrefixStep(frames, m);
    }
  }

  /** Every entry written for a plain page decodes to that page. */
  lemma DecodeWrittenEntries(pages: seq<Page>)
    requires PlainPages(pages)
    ensures forall k :: 0 <= k < |pages| ==> DecodeEntry(EnvelopeOf(pages)[k]) == Ok(pages[k])
  {
    var envelope := EnvelopeOf(pages);
    forall k | 0 <= k < |pages| ensures DecodeEntry(envelope[k]) == Ok(pages[k]) {
      DecodeEncodedPage(pages[k], envelope[k]);
    }
  }

  /** The reader gives back every page the writer wrote, in order. */
  lemma EnvelopeRoundTrip(pages: seq<Page>)
    requires pages != []
    requires PlainPages(pages)
    ensures Read(EnvelopeOf(pages)) == Ok(Concat(pages))
  {
    var envelope := EnvelopeOf(pages);
    ConsumedUpToFirstLast(envelope, |pages| - 1);
    DecodeWrittenEntries(pages);
    DecodeEntriesAllOk(envelope, pages, |pages|);
    assert envelope[..|pages|] == envelope;
    assert pages[..|pages|] == pages;
  }

  lemma PlainPagesOfTable(table: Page, pages: seq<Page>)
    requires Concat(pages) == table
    requires forall t :: t in table ==> Csv.PlainTransaction(t)
    ensures PlainPages(pages)
  {
    forall k, m | 0 <= k < |pages| && 0 <= m < |pages[k]|
      ensures Csv.PlainTransaction(pages[k][m])
    {
      ConcatContains(pages, k, pages[k][m]);
    }
  }

  /** Paginating a table, writing the envelope and reading it back gives the
      table itself; an empty table has no page and the reader fails. */
  lemma TableRoundTrip(table: Page, rowsPage: nat, pages: seq<Page>)
    requires Pagination.IsPagination(table, rowsPage, pages)
    requires forall t :: t in table ==> Csv.PlainTransaction(t)
    ensures table != [] ==> Read(EnvelopeOf(pages)) == Ok(table)
    ensures table == [] ==> Read(EnvelopeOf(pages)) == Err(NothingToConcatenate)
  {
    if pages == [] {
      assert EnvelopeOf(pages)[..0] == [];
    } else {
      PlainPagesOfTable(table, pages);
      EnvelopeRoundTrip(pages);
      assert |pages[0]| > 0;
      ConcatContains(pages, 0, pages[0][0]);
    }
  }

  /** The envelope with entry `j`'s `next_page` set to 0. */
  function Misflagged(envelope: seq<PageEntry>, j: nat): (r: seq<PageEntry>)
    requires j < |envelope|
    ensures |r| == |envelope| && !HasNext(r[j])
  {
    envelope[j := envelope[j].(nextPage := Some(0))]
  }

  /** Flagging entry `j` of a written envelope as the last one gives the
      envelope written for the first `j + 1` pages, then the rest unchanged. */
  lemma MisflaggedSplits(pages: seq<Page>, j: nat)
    requires j + 1 < |pages|
    ensures Misflagged(EnvelopeOf(pages), j) == EnvelopeOf(pages[..j + 1]) + EnvelopeOf(pages)[j + 1..]
  {
    var written := EnvelopeOf(pages);
    var envelope := Misflagged(written, j);
    var flagged := EnvelopeOf(pages[..j + 1]);
    var rest := written[j + 1..];
    forall k | 0 <= k < |envelope| ensures envelope[k] == (flagged + rest)[k] {
      if k < j + 1 {
        assert envelope[k].nextPage == flagged[k].nextPage;
      }
    }
  }

  /** The rows of the first pages are a strict prefix of the table when
      every page holds a row. */
  lemma {:induction false} StrictPrefixOfPages(pages: seq<Page>, n: nat)
    requires n < |pages|
    requires forall k :: 0 <= k < |pages| ==> |pages[k]| > 0
    ensures |Concat(pages[..n])| < |Concat(pages)|
    ensures Concat(pages[..n]) == Concat(pages)[..|Concat(pages[..n])|]
  {
    ConcatSplit(pages, n);
    var rest := pages[n..];
    ConcatSplit(rest, 1);
    assert rest[..1] == [rest[0]];
    ConcatAppend([], rest[0]);
  }

  /** The reader of a misflagged envelope returns the pages up to the flag. */
  lemma MisflaggedReadsPrefix(pages: seq<Page>, j: nat)
    requires PlainPages(pages)
    requires j + 1 < |pages|
    ensures Read(Misflagged(EnvelopeOf(pages), j)) == Ok(Concat(pages[..j + 1]))
  {
    var prefix := pages[..j + 1];
    assert PlainPages(prefix) by {
      forall k, m | 0 <= k < |prefix| && 0 <= m < |prefix[k]|
        ensures Csv.PlainTransaction(prefix[k][m])
      {
        assert prefix[k] == pages[k];
      }
    }
    MisflaggedSplits(pages, j);
    ReadIgnoresRest(EnvelopeOf(prefix), EnvelopeOf(pages)[j + 1..]);
    EnvelopeRoundTrip(prefix);
  }

  /** A middle entry wrongly flagged as the last one silently truncates the
      result to the pages up to it: a strict prefix of the table. */
  lemma MisflaggedEntryTruncates(table: Page, rowsPage: nat, pages: seq<Page>, j: nat)
    requires Pagination.IsPagination(table, rowsPage, pages)
    requires forall t :: t in table ==> Csv.PlainTransaction(t)
    requires j + 1 < |pages|
    ensures
      var kept := Concat(pages[..j + 1]);
      && Read(Misflagged(EnvelopeOf(pages), j)) == Ok(kept)
      && |kept| < |table|
      && kept == table[..|kept|]
  {
    PlainPagesOfTable(table, pages);
    MisflaggedReadsPrefix(pages, j);
    StrictPrefixOfPages(pages, j + 1);
  }
}
