/** Text extraction of an uploaded PDF. The PDF library is not modelled:
    what it yields for a file is given as a `Document` value. */
module Extract {
  import opened Wrappers
  import Text

  /** What `page.extract_text()` does for one page: it returns some text,
      returns nothing (`None`), or raises with a cause. */
  datatype PageResult = HasText(text: string) | NoText | Fails(cause: string)

  /** What opening the upload as a PDF gives: either the reader raises at
      once, or it yields its pages in order. */
  datatype Document = Unreadable(cause: string) | Pages(pages: seq<PageResult>)

  /** The text a page contributes: a page without text contributes "". */
  function PageText(p: PageResult): (r: string)
    ensures p.HasText? ==> r == p.text
    ensures !p.HasText? ==> r == ""
  {
    if p.HasText? then p.text else ""
  }

  /** The texts of all pages, in page order. */
  function PageTexts(pages: seq<PageResult>): (r: seq<string>)
    ensures |r| == |pages|
    ensures forall i :: 0 <= i < |pages| && pages[i].HasText? ==> r[i] == pages[i].text
    ensures forall i :: 0 <= i < |pages| && !pages[i].HasText? ==> r[i] == ""
  {
    seq(|pages|, i requires 0 <= i < |pages| => PageText(pages[i]))
  }

  /** The index of the first page whose extraction raises, or |pages| when
      none does. */
  function FirstFailure(pages: seq<PageResult>): (k: nat)
    ensures k <= |pages|
    ensures k < |pages| ==> pages[k].Fails?
    ensures forall i :: 0 <= i < k ==> !pages[i].Fails?
  {
    if pages == [] then 0
    else if pages[0].Fails? then 0
    else 1 + FirstFailure(pages[1..])
  }

  /** The outcome of the extraction step as a whole: the cause of the first
      exception raised, or the page texts joined with newlines. */
  function Extraction(doc: Document): (r: Result<string, string>)
    ensures doc.Unreadable? ==> r == Failure(doc.cause)
    ensures doc.Pages? ==>
      (r.Success? <==> forall i :: 0 <= i < |doc.pages| ==> !doc.pages[i].Fails?)
    ensures doc.Pages? && r.Success? ==> r.value == Text.Join("\n", PageTexts(doc.pages))
    ensures doc.Pages? && r.Failure? ==>
      exists k :: 0 <= k < |doc.pages| && doc.pages[k] == Fails(r.error)
                  && forall i :: 0 <= i < k ==> !doc.pages[i].Fails?
  {
    match doc
    case Unreadable(cause) => Failure(cause)
    case Pages(pages) =>
      var k := FirstFailure(pages);
      if k < |pages| then Failure(pages[k].cause)
      else Success(Text.Join("\n", PageTexts(pages)))
  }

  /** The extraction loop: collects the page texts one page at a time and
      joins them, stopping at the first page that raises. */
  method ExtractText(doc: Document) returns (r: Result<string, string>)
    ensures r == Extraction(doc)
  {
    if doc.Unreadable? {
      return Failure(doc.cause);
    }
    var pages := doc.pages;
    var textParts: seq<string> := [];
    var i := 0;
    while i < |pages|
      invariant 0 <= i <= |pages|
      invariant forall j :: 0 <= j < i ==> !pages[j].Fails?
      invariant textParts == PageTexts(pages[..i])
    {
      var page := pages[i];
      if page.Fails? {
        assert FirstFailure(pages) == i;
        return Failure(page.cause);
      }
      var pageText := if page.HasText? then page.text else "";
      textParts := textParts + [pageText];
      i := i + 1;
    }
    assert pages[..i] == pages;
    assert FirstFailure(pages) == |pages|;
    r := Success(Text.Join("\n", textParts));
  }

  /** A document whose pages all extract has one newline between each pair
      of neighbouring pages on top of those inside the page texts. */
  lemma ExtractedSeparators(pages: seq<PageResult>)
    requires |pages| > 0
    requires forall i :: 0 <= i < |pages| ==> !pages[i].Fails?
    ensures Extraction(Pages(pages)).Success?
    ensures Text.Count(Extraction(Pages(pages)).value, '\n')
            == Text.CountAll(PageTexts(pages), '\n') + |pages| - 1
  {
    assert FirstFailure(pages) == |pages|;
    Text.JoinSeparatorCount(PageTexts(pages), '\n');
  }

  /** When no page text holds a newline, splitting the extracted text at
      newlines gives back every page's text, in page order. */
  lemma ExtractedPagesRecoverable(pages: seq<PageResult>)
    requires |pages| > 0
    requires forall i :: 0 <= i < |pages| ==> !pages[i].Fails?
    requires forall i :: 0 <= i < |pages| ==> '\n' !in PageText(pages[i])
    ensures Extraction(Pages(pages)).Success?
    ensures Text.Split(Extraction(Pages(pages)).value, '\n') == PageTexts(pages)
  {
    assert FirstFailure(pages) == |pages|;
    Text.SplitJoin(PageTexts(pages), '\n');
  }
}
