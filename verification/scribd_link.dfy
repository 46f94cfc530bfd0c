/** `convert_scribd_link` of main.py and the download file name derived from
    its result: a document URL is normalised to the embed endpoint of the same
    document id, and the id is later read back out of that endpoint. */
module ScribdLink {
  import opened Wrappers
  import opened DigitCapture

  /** The literal before group 1 in `https://www\.scribd\.com/document/(\d+)/`. */
  const DocumentPattern: string := "https://www.scribd.com/document/"

  /** The literal before group 1 in `embeds/(\d+)/`. */
  const EmbedPattern: string := "embeds/"

  const EmbedPrefix: string := "https://www.scribd.com/embeds/"
  const EmbedSuffix: string := "/content"

  const FileNamePrefix: string := "scribd_doc_"
  const FileNameSuffix: string := ".pdf"

  /** Index in an embed URL where `embeds/` starts. */
  const EmbedPatternStart: nat := |EmbedPrefix| - |EmbedPattern|

  /** A document id: a non-empty run of ASCII digits. */
  predicate IsDocId(id: string) {
    |id| > 0 && IsDigits(id)
  }

  /** The canonical embed endpoint of a document id. */
  function EmbedUrl(id: string): string {
    EmbedPrefix + id + EmbedSuffix
  }

  /** The shape every normalised URL has: the embed prefix, a document id,
      then `/content`. */
  predicate IsEmbedUrl(u: string) {
    && |u| > |EmbedPrefix| + |EmbedSuffix|
    && u[..|EmbedPrefix|] == EmbedPrefix
    && u[|u| - |EmbedSuffix|..] == EmbedSuffix
    && IsDocId(u[|EmbedPrefix|..|u| - |EmbedSuffix|])
  }

  /** `convert_scribd_link(url)`: `Some` embed URL built from the id of the
      leftmost document link inside `url`, or `None` when `url` contains no
      document link at all. */
  function ConvertScribdLink(url: string): (r: Option<string>)
    ensures r.Some? ==> IsEmbedUrl(r.value)
    ensures r.Some? ==> exists i, id :: LeftmostMatch(DocumentPattern, url, i, id) && r.value == EmbedUrl(id)
    ensures r.None? <==> NoMatch(DocumentPattern, url)
  {
    match Search(DocumentPattern, url)
    case Some(m) =>
      var u := EmbedUrl(m.group);
      assert u[|EmbedPrefix|..|u| - |EmbedSuffix|] == m.group;
      Some(u)
    case None => None
  }

  /** The file name offered for download, from the embed URL: the id found by
      `re.search(r'embeds/(\d+)/', embed_url).group(1)`. `None` stands for the
      `AttributeError` that `.group(1)` raises when the search fails. */
  function DownloadFileName(embedUrl: string): (r: Option<string>)
    ensures r.Some? <==> !NoMatch(EmbedPattern, embedUrl)
    ensures r.Some? ==> exists i, id :: LeftmostMatch(EmbedPattern, embedUrl, i, id)
                                        && r.value == FileNamePrefix + id + FileNameSuffix
  {
    match Search(EmbedPattern, embedUrl)
    case Some(m) => Some(FileNamePrefix + m.group + FileNameSuffix)
    case None => None
  }

  /** The embed URL is determined by the id, and determines it. */
  lemma EmbedUrlInjective(id1: string, id2: string)
    ensures EmbedUrl(id1) == EmbedUrl(id2) <==> id1 == id2
  {
    if EmbedUrl(id1) == EmbedUrl(id2) {
      var u := EmbedUrl(id1);
      assert id1 == u[|EmbedPrefix|..|u| - |EmbedSuffix|];
      assert id2 == u[|EmbedPrefix|..|u| - |EmbedSuffix|];
    }
  }

  /** Whichever document link comes first in `url` is the one normalised. */
  lemma ConvertTakesLeftmost(url: string, i: int, id: string)
    requires LeftmostMatch(DocumentPattern, url, i, id)
    ensures ConvertScribdLink(url) == Some(EmbedUrl(id))
  {
    SearchFindsLeftmost(DocumentPattern, url, i, id);
  }

  /** The result depends only on the captured id: two URLs normalise to the
      same embed URL exactly when their leftmost links carry the same id,
      whatever slug or surrounding text they have. */
  lemma ConvertDependsOnlyOnId(a: string, b: string)
    requires ConvertScribdLink(a).Some?
    ensures ConvertScribdLink(a) == ConvertScribdLink(b)
        <==> Search(DocumentPattern, b).Some?
             && Search(DocumentPattern, b).value.group == Search(DocumentPattern, a).value.group
  {
    var ra, rb := Search(DocumentPattern, a), Search(DocumentPattern, b);
    if rb.Some? {
      EmbedUrlInjective(ra.value.group, rb.value.group);
    }
  }

  lemma DocumentPatternUnbordered()
    ensures Unbordered(DocumentPattern)
  {
  }

  /** Text in front of a link is skipped as long as no link starts in it;
      for this pattern it suffices that the text has no 'h'. */
  lemma ConvertSkipsLeadingText(pre: string, id: string, post: string)
    requires IsDocId(id)
    requires forall k | 0 <= k < |pre| :: pre[k] != 'h'
    ensures Search(DocumentPattern, pre + DocumentPattern + id + "/" + post) == Some(Match(|pre|, id))
    ensures ConvertScribdLink(pre + DocumentPattern + id + "/" + post) == Some(EmbedUrl(id))
  {
    var url := pre + DocumentPattern + id + "/" + post;
    var w := DocumentPattern + id + "/";
    assert url[|pre|..][..|w|] == w;
    forall j, id' | 0 <= j < |pre|
      ensures !MatchAt(DocumentPattern, url, j, id')
    {
      assert url[j] == pre[j];
      if MatchAt(DocumentPattern, url, j, id') {
        MatchShape(DocumentPattern, url, j, id');
      }
    }
    SearchFindsLeftmost(DocumentPattern, url, |pre|, id);
  }

  /** Text after a link never changes the result. */
  lemma ConvertIgnoresTrailingText(url: string, post: string)
    requires ConvertScribdLink(url).Some?
    ensures ConvertScribdLink(url + post) == ConvertScribdLink(url)
  {
    DocumentPatternUnbordered();
    SearchIgnoresTrailingText(DocumentPattern, url, post);
  }

  /** Reading the id back out of an embed URL recovers it: `embeds/` occurs
      first right after the host, and the id is followed by '/'. */
  lemma EmbedIdRoundTrip(id: string)
    requires IsDocId(id)
    ensures Search(EmbedPattern, EmbedUrl(id)) == Some(Match(EmbedPatternStart, id))
  {
    var u := EmbedUrl(id);
    var w := EmbedPattern + id + "/";
    assert u[EmbedPatternStart..][..|w|] == w;
    forall j, id' | 0 <= j < EmbedPatternStart
      ensures !MatchAt(EmbedPattern, u, j, id')
    {
      assert u[j] == EmbedPrefix[j];
      if MatchAt(EmbedPattern, u, j, id') {
        MatchShape(EmbedPattern, u, j, id');
      }
    }
    SearchFindsLeftmost(EmbedPattern, u, EmbedPatternStart, id);
  }

  /** The file name step never fails on a normalised URL, and names the file
      after the id captured from the user's URL. */
  lemma FileNameRoundTrip(url: string)
    requires ConvertScribdLink(url).Some?
    ensures DownloadFileName(ConvertScribdLink(url).value)
         == Some(FileNamePrefix + Search(DocumentPattern, url).value.group + FileNameSuffix)
  {
    EmbedIdRoundTrip(Search(DocumentPattern, url).value.group);
  }

  /** A URL that is exactly a document link followed by a slug. */
  lemma ConvertOfLink(id: string, slug: string)
    requires IsDocId(id)
    ensures ConvertScribdLink(DocumentPattern + id + "/" + slug) == Some(EmbedUrl(id))
  {
    ConvertSkipsLeadingText("", id, slug);
    assert "" + DocumentPattern + id + "/" + slug == DocumentPattern + id + "/" + slug;
  }

  // The literal strings of the examples below, spelled through the constants.
  // The examples take their URL as a parameter fixed by `requires` and use
  // these equalities, rather than applying the search to a literal directly:
  // on a literal argument the verifier unfolds the recursive search position
  // by position, which makes those proofs slow and unstable.

  lemma ExampleStrings42()
    ensures "https://www.scribd.com/document/42/abc" == DocumentPattern + "42" + "/" + "abc"
    ensures "https://www.scribd.com/embeds/42/content" == EmbedUrl("42")
  {
  }

  lemma ExampleStrings99887766()
    ensures "https://www.scribd.com/document/99887766/Sample" == DocumentPattern + "99887766" + "/" + "Sample"
    ensures "https://www.scribd.com/embeds/99887766/content" == EmbedUrl("99887766")
    ensures "scribd_doc_99887766.pdf" == FileNamePrefix + "99887766" + FileNameSuffix
  {
  }

  lemma ConvertExample(url: string)
    requires url == "https://www.scribd.com/document/42/abc"
    ensures ConvertScribdLink(url) == Some("https://www.scribd.com/embeds/42/content")
  {
    ExampleStrings42();
    ConvertOfLink("42", "abc");
  }

  lemma EndToEndConvertExample(url: string)
    requires url == "https://www.scribd.com/document/99887766/Sample"
    ensures ConvertScribdLink(url) == Some("https://www.scribd.com/embeds/99887766/content")
  {
    ExampleStrings99887766();
    ConvertOfLink("99887766", "Sample");
  }

  lemma EndToEndFileNameExample(embedUrl: string)
    requires embedUrl == "https://www.scribd.com/embeds/99887766/content"
    ensures DownloadFileName(embedUrl) == Some("scribd_doc_99887766.pdf")
  {
    ExampleStrings99887766();
    EmbedIdRoundTrip("99887766");
  }

  /** Every occurrence of the document literal in `url` fails to start a
      link: no digit follows it, or its digit run is not followed by '/'. */
  predicate OnlyBrokenLinks(url: string) {
    forall i | 0 <= i <= |url| && LiteralAt(DocumentPattern, url, i) :: !ClosedDigitRunAt(url, i + |DocumentPattern|)
  }

  /** The normaliser gives `None` exactly when the input has no document
      literal at all, or only ones without digits, or only ones whose digits
      are not closed by '/'. */
  lemma ConvertNoneIff(url: string)
    ensures ConvertScribdLink(url).None? <==> OnlyBrokenLinks(url)
  {
    if ConvertScribdLink(url).None? {
      forall i | 0 <= i <= |url| && LiteralAt(DocumentPattern, url, i)
        ensures !ClosedDigitRunAt(url, i + |DocumentPattern|)
      {
        var r := MatchAtPosition(DocumentPattern, url, i);
      }
    } else {
      var m := Search(DocumentPattern, url).value;
      var r := MatchAtPosition(DocumentPattern, url, m.start);
      assert r.None? ==> !MatchAt(DocumentPattern, url, m.start, m.group);
    }
  }

  /** No document literal anywhere: no link. */
  lemma ConvertNeedsDocumentLiteral(url: string)
    requires forall i :: !LiteralAt(DocumentPattern, url, i)
    ensures ConvertScribdLink(url) == None
  {
    ConvertNoneIff(url);
  }

  /** Digits that run to the end of the input are not a link: the pattern
      needs a '/' after them. */
  lemma ConvertRejectsMissingSlash(url: string)
    requires url == "https://www.scribd.com/document/42"
    ensures ConvertScribdLink(url) == None
  {
    forall j, id | MatchAt(DocumentPattern, url, j, id)
      ensures false
    {
      MatchShape(DocumentPattern, url, j, id);
    }
  }
}
