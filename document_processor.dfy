/**
 * The document processor: builds a metadata record for an uploaded file from
 * the page layout the recognizer returns. The recognizer call is an input
 * value, `Recognition`: either the pages it read or the exception it raised.
 */
module Services {
  import opened Wrappers
  import opened Text
  import opened Collections
  import opened Models
  import PathUtils

  datatype FormLine = FormLine(Text: string)
  datatype FormPage = FormPage(PageNumber: int, Lines: seq<FormLine>)
  datatype Recognition = Recognized(Pages: seq<FormPage>) | RecognitionFailed(Error: Exception)

  const StatusProcessed := "Processed"
  const StatusError := "Error"
  /** The key under which the caught exception's message is stored. */
  const ErrorKey := "Error"

  // ---------------------------------------------------------------------------
  // What one page contributes
  // ---------------------------------------------------------------------------

  /** The key of a page: "Page" followed by the decimal numeral of its number. */
  function PageKey(pageNumber: int): (key: string)
    ensures IsPageKey(key) && IntValue(key[4..]) == pageNumber
    ensures key != ErrorKey
  {
    var key := "Page" + IntToString(pageNumber);
    assert key[4..] == IntToString(pageNumber);
    key
  }

  /** "Page" followed by a canonical integer numeral. */
  predicate IsPageKey(key: string) {
    |key| > 4 && key[..4] == "Page" && IsIntNumeral(key[4..])
  }

  /** Every page key is the key of the number it spells out. */
  lemma PageKeyUnique(key: string)
    requires IsPageKey(key)
    ensures PageKey(IntValue(key[4..])) == key
  {
    IntNumeralUnique(key[4..]);
    assert key == key[..4] + key[4..];
  }

  /** Distinct page numbers give distinct keys. */
  lemma PageKeyInjective(a: int, b: int)
    requires PageKey(a) == PageKey(b)
    ensures a == b
  {
    assert a == IntValue(PageKey(a)[4..]) == IntValue(PageKey(b)[4..]) == b;
  }

  function LineTexts(lines: seq<FormLine>): (texts: seq<string>)
    ensures |texts| == |lines|
    ensures forall i :: 0 <= i < |lines| ==> texts[i] == lines[i].Text
  {
    seq(|lines|, i requires 0 <= i < |lines| => lines[i].Text)
  }

  /** The value of a page: its line texts joined by single spaces. */
  function PageText(page: FormPage): (text: string)
    ensures |page.Lines| >= 1 ==> |text| == TotalLength(LineTexts(page.Lines)) + |page.Lines| - 1
    ensures |page.Lines| >= 1 ==> text[..|page.Lines[0].Text|] == page.Lines[0].Text
  {
    Join(" ", LineTexts(page.Lines))
  }

  /** A page without lines gives "", one line gives its text, and lines free of spaces can be recovered. */
  lemma PageTextShape(page: FormPage)
    ensures page.Lines == [] ==> PageText(page) == ""
    ensures |page.Lines| == 1 ==> PageText(page) == page.Lines[0].Text
    ensures |page.Lines| >= 1 && (forall i :: 0 <= i < |page.Lines| ==> !Contains(page.Lines[i].Text, ' '))
      ==> Split(PageText(page), ' ') == LineTexts(page.Lines)
  {
    var texts := LineTexts(page.Lines);
    if |texts| >= 1 && forall i :: 0 <= i < |texts| ==> !Contains(texts[i], ' ') {
      SplitJoin(texts, ' ');
    }
  }

  /** The pairs the page loop hands to `Add`, one per page and in page order. */
  function PageEntries(pages: seq<FormPage>): (pairs: seq<(string, string)>)
    ensures |pairs| == |pages|
    ensures forall i :: 0 <= i < |pages| ==> pairs[i] == (PageKey(pages[i].PageNumber), PageText(pages[i]))
  {
    seq(|pages|, i requires 0 <= i < |pages| => (PageKey(pages[i].PageNumber), PageText(pages[i])))
  }

  predicate DistinctPageNumbers(pages: seq<FormPage>) {
    forall i, j :: 0 <= i < j < |pages| ==> pages[i].PageNumber != pages[j].PageNumber
  }

  /** Two pages clash in the dictionary exactly when they carry the same number. */
  lemma DistinctPagesDistinctKeys(pages: seq<FormPage>)
    ensures DistinctPageNumbers(pages) <==> DistinctKeys(PageEntries(pages))
  {
    var pairs := PageEntries(pages);
    forall i, j | 0 <= i < j < |pages|
      ensures pages[i].PageNumber != pages[j].PageNumber <==> pairs[i].0 != pairs[j].0
    {
      if pairs[i].0 == pairs[j].0 {
        PageKeyInjective(pages[i].PageNumber, pages[j].PageNumber);
      }
    }
  }

  /** No page key is the error key, so the catch block's own `Add` never throws. */
  lemma ErrorKeyNotAPageKey(pages: seq<FormPage>)
    ensures ErrorKey !in Keys(PageEntries(pages))
    ensures ErrorKey !in AddAll(PageEntries(pages)).Entries
  {
    var pairs := PageEntries(pages);
    forall i | 0 <= i < |pairs| ensures pairs[i].0 != ErrorKey {
      assert pairs[i].0 == PageKey(pages[i].PageNumber);
    }
  }

  // ---------------------------------------------------------------------------
  // The record's final status and entries, as a function of the recognizer's answer
  // ---------------------------------------------------------------------------

  datatype Processing = Processing(Status: string, Entries: map<string, string>)

  /**
   * The status and extracted metadata that processing leaves: the page entries
   * and "Processed" when every `Add` succeeds; otherwise "Error", with the
   * exception's message under "Error" beside whatever pages were already added.
   */
  function Process(recognition: Recognition): (p: Processing)
    ensures p.Status == StatusProcessed || p.Status == StatusError
    ensures p.Status == StatusProcessed <==> ErrorKey !in p.Entries
    ensures recognition.RecognitionFailed? ==>
      p.Status == StatusError && p.Entries == map[ErrorKey := recognition.Error.Message]
  {
    match recognition
    case RecognitionFailed(e) => Processing(StatusError, map[ErrorKey := e.Message])
    case Recognized(pages) =>
      ErrorKeyNotAPageKey(pages);
      match AddAll(PageEntries(pages))
      case Inserted(m) => Processing(StatusProcessed, m)
      case Collided(m, e) => Processing(StatusError, m[ErrorKey := e.Message])
  }

  /** Processing succeeds exactly when the recognizer answered and no page number repeats. */
  lemma ProcessedIffDistinctPages(recognition: Recognition)
    ensures Process(recognition).Status == StatusProcessed
        <==> recognition.Recognized? && DistinctPageNumbers(recognition.Pages)
  {
    if recognition.Recognized? {
      DistinctPagesDistinctKeys(recognition.Pages);
      AddAllSucceedsIffDistinct(PageEntries(recognition.Pages));
    }
  }

  /** The keys of the given pages. */
  function PageKeys(pages: seq<FormPage>): set<string> {
    set i | 0 <= i < |pages| :: PageKey(pages[i].PageNumber)
  }

  /**
   * On success the metadata holds exactly one "Page<N>" entry per page, valued
   * as the page's lines joined by spaces, and nothing else.
   */
  lemma ProcessedEntries(pages: seq<FormPage>)
    requires DistinctPageNumbers(pages)
    ensures Process(Recognized(pages)).Status == StatusProcessed
    ensures Process(Recognized(pages)).Entries.Keys == PageKeys(pages)
    ensures |Process(Recognized(pages)).Entries| == |pages|
    ensures forall i :: 0 <= i < |pages| ==>
      PageKey(pages[i].PageNumber) in Process(Recognized(pages)).Entries &&
      Process(Recognized(pages)).Entries[PageKey(pages[i].PageNumber)] == PageText(pages[i])
  {
    var pairs := PageEntries(pages);
    DistinctPagesDistinctKeys(pages);
    AddAllDistinctContents(pairs);
    assert Keys(pairs) == PageKeys(pages) by {
      forall k | k in PageKeys(pages) ensures k in Keys(pairs) {
        var i :| 0 <= i < |pages| && k == PageKey(pages[i].PageNumber);
        assert pairs[i].0 == k;
      }
    }
    forall i | 0 <= i < |pages|
      ensures PageKey(pages[i].PageNumber) in Process(Recognized(pages)).Entries &&
        Process(Recognized(pages)).Entries[PageKey(pages[i].PageNumber)] == PageText(pages[i])
    {
      assert pairs[i] == (PageKey(pages[i].PageNumber), PageText(pages[i]));
    }
  }

  /**
   * When page j is the first to repeat an earlier page's number, its `Add`
   * throws: the entries of pages 0..j-1 stay and "Error" holds the
   * duplicate-key message.
   */
  lemma RepeatedPageEntries(pages: seq<FormPage>, i: nat, j: nat)
    requires i < j < |pages|
    requires DistinctPageNumbers(pages[..j])
    requires pages[i].PageNumber == pages[j].PageNumber
    ensures Process(Recognized(pages)).Status == StatusError
    ensures Process(Recognized(pages)).Entries
      == Process(Recognized(pages[..j])).Entries[ErrorKey := DuplicateKey(PageKey(pages[j].PageNumber)).Message]
  {
    var pairs := PageEntries(pages);
    PageEntriesPrefix(pages, j);
    DistinctPagesDistinctKeys(pages[..j]);
    assert pairs[i].0 == pairs[j].0;
    AddAllRepeated(pairs, i, j);
    var m := AddAll(pairs[..j]).Entries;
    assert Process(Recognized(pages[..j])) == Processing(StatusProcessed, m);
  }

  /** The pairs of the first j pages are the first j pairs. */
  lemma PageEntriesPrefix(pages: seq<FormPage>, j: nat)
    requires j <= |pages|
    ensures PageEntries(pages[..j]) == PageEntries(pages)[..j]
  {
    var prefix := pages[..j];
    forall k | 0 <= k < j ensures PageEntries(prefix)[k] == PageEntries(pages)[..j][k] {
      assert prefix[k] == pages[k];
    }
  }

  /** Two pages numbered 1 and 2 give the entries "Page1" and "Page2". */
  lemma TwoPagesExample(a: seq<FormLine>, b: seq<FormLine>)
    ensures Process(Recognized([FormPage(1, a), FormPage(2, b)]))
      == Processing(StatusProcessed, map["Page1" := PageText(FormPage(1, a)), "Page2" := PageText(FormPage(2, b))])
  {
    var pages := [FormPage(1, a), FormPage(2, b)];
    var pairs := PageEntries(pages);
    assert PageKey(1) == "Page1" && PageKey(2) == "Page2";
    assert pairs == [("Page1", PageText(pages[0])), ("Page2", PageText(pages[1]))];
    assert pairs[..0] == [] && pairs[..2] == pairs;
    AddAllStep(pairs, 0);
    AddAllStep(pairs, 1);
  }

  /** Two pages both numbered 1: the first is kept and the clash is recorded under "Error". */
  lemma RepeatedPageExample(a: seq<FormLine>, b: seq<FormLine>)
    ensures Process(Recognized([FormPage(1, a), FormPage(1, b)]))
      == Processing(StatusError, map["Page1" := PageText(FormPage(1, a)), ErrorKey := DuplicateKey("Page1").Message])
  {
    var pages := [FormPage(1, a), FormPage(1, b)];
    var pairs := PageEntries(pages);
    assert PageKey(1) == "Page1";
    assert pairs == [("Page1", PageText(pages[0])), ("Page1", PageText(pages[1]))];
    assert pairs[..0] == [] && pairs[..2] == pairs;
    AddAllStep(pairs, 0);
    AddAllStep(pairs, 1);
  }

  /** The content type recorded is the lower-cased extension, never one of the MIME strings. */
  lemma ContentTypeIsExtension(fileName: string)
    ensures var contentType := ToLowerInvariant(GetExtension(fileName));
      && (contentType == "" || contentType[0] == '.')
      && contentType !in PathUtils.KnownMimeTypes
  {
    ExtensionShape(fileName);
    var contentType := ToLowerInvariant(GetExtension(fileName));
    if contentType != "" {
      assert contentType[0] == '.';
      assert PathUtils.MimePdf[0] == PathUtils.MimeWord[0] == PathUtils.MimeWordOpenXml[0] == 'a';
      assert PathUtils.MimeText[0] == 't' && PathUtils.MimeOctetStream[0] == 'a';
    }
  }

  // ---------------------------------------------------------------------------
  // ProcessDocumentAsync
  // ---------------------------------------------------------------------------

  /**
   * The page loop: one `Add` per page, in order, ending early when an `Add`
   * throws. The dictionary ends as the run of `Add` calls leaves it.
   */
  method AddPages(dictionary: Dictionary<string>, pages: seq<FormPage>) returns (thrown: Option<Exception>)
    requires dictionary.Entries == map[]
    modifies dictionary
    ensures thrown.None? ==> AddAll(PageEntries(pages)) == Inserted(dictionary.Entries)
    ensures thrown.Some? ==> AddAll(PageEntries(pages)) == Collided(dictionary.Entries, thrown.value)
  {
    ghost var pairs := PageEntries(pages);
    thrown := None;
    var i := 0;
    while i < |pages| && thrown.None?
      invariant 0 <= i <= |pages|
      invariant thrown.None? ==> AddAll(pairs[..i]) == Inserted(dictionary.Entries)
      invariant thrown.Some? ==> AddAll(pairs) == Collided(dictionary.Entries, thrown.value)
      decreases |pages| - i, thrown.None?
    {
      var key, value := PageKey(pages[i].PageNumber), PageText(pages[i]);
      assert pairs[i] == (key, value);
      AddAllStep(pairs, i);
      thrown := dictionary.Add(key, value);
      if thrown.Some? {
        CollisionSticks(pairs, i + 1);
      } else {
        i := i + 1;
      }
    }
    assert thrown.None? ==> pairs[..i] == pairs;
  }

  /**
   * Builds the metadata record for `fileName`. `recognition` is what the
   * recognizer call returned or threw; `id` and `now` are the GUID and clock
   * reading taken when the record is created. Every exception raised while
   * adding pages is caught and recorded, never propagated.
   */
  method ProcessDocument(fileName: string, recognition: Recognition, id: string, now: DateTime)
    returns (metadata: DocumentMetadata)
    ensures fresh(metadata) && fresh(metadata.ExtractedMetadata) && fresh(metadata.Confidence)
    ensures metadata.Id == id && metadata.ProcessedDate == now
    ensures metadata.FileName == fileName
    ensures metadata.ContentType == ToLowerInvariant(GetExtension(fileName))
    ensures metadata.Status == Process(recognition).Status
    ensures metadata.ExtractedMetadata.Entries == Process(recognition).Entries
    ensures metadata.Confidence.Entries == map[]
  {
    metadata := new DocumentMetadata(id, now);
    metadata.FileName := fileName;
    metadata.ContentType := ToLowerInvariant(GetExtension(fileName));

    // The try block: `thrown` is the exception that ends it early, if any.
    var thrown: Option<Exception>;
    match recognition {
      case RecognitionFailed(e) =>
        thrown := Some(e);
      case Recognized(pages) =>
        thrown := AddPages(metadata.ExtractedMetadata, pages);
    }

    if thrown.None? {
      metadata.Status := StatusProcessed;
    } else {
      // The catch block.
      metadata.Status := StatusError;
      if recognition.Recognized? {
        ErrorKeyNotAPageKey(recognition.Pages);
      }
      var rethrown := metadata.ExtractedMetadata.Add(ErrorKey, thrown.value.Message);
      assert rethrown.None?;
    }
  }
}
