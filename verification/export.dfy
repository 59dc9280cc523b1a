/** The Word export: the paragraph sequence of the document (per page a
    centred title with the file name, breaking to a new page for every page
    but the first, and a spacer; then each translation's text followed by a
    spacer; finally one signature footer) and the name of the saved file.
    Fonts, sizes, alignment and the binary document are not modelled. */
module Export {
  import opened Wrappers
  import opened Types
  import opened Seqs

  /** The document's paragraphs, by role. */
  datatype Paragraph =
    | Title(text: string, pageBreakBefore: bool)
    | Spacer
    | Line(text: string)
    | Footer(text: string)

  const Signature: string := "Created by ManhuaMate AI - Dev: Mr.V (github.com/MrV006)"

  /** One text paragraph and one spacer per item, in list order. */
  function ItemParagraphs(items: Snapshot): (r: seq<Paragraph>)
    ensures |r| == 2 * |items|
    ensures forall m :: 0 <= m < |items| ==>
      r[2 * m] == Line(items[m].translatedText) && r[2 * m + 1] == Spacer
    ensures forall i :: 0 <= i < |r| ==> r[i].Line? || r[i].Spacer?
    decreases |items|
  {
    if |items| == 0 then []
    else
      var rest := ItemParagraphs(items[1..]);
      ItemParagraphsCons(items, rest);
      [Line(items[0].translatedText), Spacer] + rest
  }

  /** Putting the first item's two paragraphs in front of the rest's
      paragraphs lays out the whole list. */
  lemma ItemParagraphsCons(items: Snapshot, rest: seq<Paragraph>)
    requires |items| > 0 && |rest| == 2 * (|items| - 1)
    requires forall m :: 0 <= m < |items| - 1 ==>
      rest[2 * m] == Line(items[1..][m].translatedText) && rest[2 * m + 1] == Spacer
    ensures var r := [Line(items[0].translatedText), Spacer] + rest;
      forall m :: 0 <= m < |items| ==>
        r[2 * m] == Line(items[m].translatedText) && r[2 * m + 1] == Spacer
  {
    var r := [Line(items[0].translatedText), Spacer] + rest;
    forall m | 0 <= m < |items|
      ensures r[2 * m] == Line(items[m].translatedText) && r[2 * m + 1] == Spacer
    {
      if m > 0 {
        var j := m - 1;
        assert items[m] == items[1..][j];
        assert r[2 * m] == rest[2 * j];
        assert r[2 * m + 1] == rest[2 * j + 1];
      }
    }
  }

  /** One page's paragraphs: its title, a spacer, then its items. */
  function PageParagraphs(p: Page, pageBreak: bool): (r: seq<Paragraph>)
    ensures |r| == 2 + 2 * |p.translations|
    ensures r[0] == Title(p.fileName, pageBreak) && r[1] == Spacer
  {
    [Title(p.fileName, pageBreak), Spacer] + ItemParagraphs(p.translations)
  }

  /** Within one page's paragraphs, item `m`'s text sits at `2 + 2m`,
      followed by a spacer; nothing there is a title or a footer. */
  lemma PageBlock(p: Page, pageBreak: bool)
    ensures var r := PageParagraphs(p, pageBreak);
      forall m :: 0 <= m < |p.translations| ==>
        r[2 + 2 * m] == Line(p.translations[m].translatedText) && r[3 + 2 * m] == Spacer
  {
    var items := ItemParagraphs(p.translations);
    var r := PageParagraphs(p, pageBreak);
    forall m | 0 <= m < |p.translations|
      ensures r[2 + 2 * m] == Line(p.translations[m].translatedText) && r[3 + 2 * m] == Spacer
    {
      assert r[2 + 2 * m] == items[2 * m];
      assert r[3 + 2 * m] == items[2 * m + 1];
    }
  }

  /** A page's paragraphs hold no footer. */
  lemma PageHasNoFooter(p: Page, pageBreak: bool)
    ensures forall j :: 0 <= j < |PageParagraphs(p, pageBreak)| ==> !PageParagraphs(p, pageBreak)[j].Footer?
  {
    var items := ItemParagraphs(p.translations);
    var r := PageParagraphs(p, pageBreak);
    forall j | 2 <= j < |r| ensures !r[j].Footer? {
      assert r[j] == items[j - 2];
    }
  }

  /** The per-page blocks, in page order; every page but the first breaks
      to a new page. */
  function Blocks(pages: seq<Page>): (r: seq<seq<Paragraph>>)
    ensures |r| == |pages|
  {
    seq(|pages|, k requires 0 <= k < |pages| => PageParagraphs(pages[k], k > 0))
  }

  /** The paragraphs of all pages, one block after another. */
  function Layout(pages: seq<Page>): seq<Paragraph> {
    Concat(Blocks(pages))
  }

  /** The total number of translation items over `pages`. */
  function ItemCount(pages: seq<Page>): nat
    decreases |pages|
  {
    if |pages| == 0 then 0 else |pages[0].translations| + ItemCount(pages[1..])
  }

  /** Where page `k`'s title lands: two paragraphs per earlier page and two
      per earlier item. */
  function Offset(pages: seq<Page>, k: nat): nat
    requires k <= |pages|
  {
    2 * k + 2 * ItemCount(pages[..k])
  }

  /** The paragraphs handed to the document: the page layout, then the
      footer. */
  function DocChildren(pages: seq<Page>): (r: seq<Paragraph>)
    ensures |r| > 0 && r[|r| - 1] == Footer(Signature)
  {
    Layout(pages) + [Footer(Signature)]
  }

  /** Blocks of two paragraphs per page and two per item add up to two per
      page and two per item over all pages. */
  lemma {:induction false} BlocksLength(bs: seq<seq<Paragraph>>, pages: seq<Page>)
    requires |bs| == |pages|
    requires forall k :: 0 <= k < |bs| ==> |bs[k]| == 2 + 2 * |pages[k].translations|
    ensures |Concat(bs)| == 2 * |pages| + 2 * ItemCount(pages)
    decreases |bs|
  {
    if |bs| > 0 {
      var tail := bs[1..];
      forall k | 0 <= k < |tail| ensures |tail[k]| == 2 + 2 * |pages[1..][k].translations| {
        assert tail[k] == bs[k + 1] && pages[1..][k] == pages[k + 1];
      }
      BlocksLength(tail, pages[1..]);
    }
  }

  /** The page part has two paragraphs per page and two per item. */
  lemma LayoutLength(pages: seq<Page>)
    ensures |Layout(pages)| == 2 * |pages| + 2 * ItemCount(pages)
  {
    BlocksLength(Blocks(pages), pages);
  }

  /** The layout holds no footer: the signature is written once, last. */
  lemma LayoutHasNoFooter(pages: seq<Page>)
    ensures forall i :: 0 <= i < |Layout(pages)| ==> !Layout(pages)[i].Footer?
  {
    var bs := Blocks(pages);
    var notFooter := (q: Paragraph) => !q.Footer?;
    forall k, j | 0 <= k < |bs| && 0 <= j < |bs[k]| ensures notFooter(bs[k][j]) {
      PageHasNoFooter(pages[k], k > 0);
    }
    ConcatAll(bs, notFooter);
  }

  /** The paragraph count: two per page, two per item, one footer. */
  lemma DocChildrenCount(pages: seq<Page>)
    ensures |DocChildren(pages)| == 2 * |pages| + 2 * ItemCount(pages) + 1
    ensures forall i :: 0 <= i < |DocChildren(pages)| - 1 ==> !DocChildren(pages)[i].Footer?
  {
    LayoutLength(pages);
    LayoutHasNoFooter(pages);
  }

  /** The blocks before page `k` take up `Offset(pages, k)` paragraphs. */
  lemma BlocksBefore(pages: seq<Page>, k: nat)
    requires k <= |pages|
    ensures |Concat(Blocks(pages)[..k])| == Offset(pages, k)
  {
    var bs := Blocks(pages)[..k];
    forall j | 0 <= j < |bs| ensures |bs[j]| == 2 + 2 * |pages[..k][j].translations| {
      assert bs[j] == Blocks(pages)[j] && pages[..k][j] == pages[j];
    }
    BlocksLength(bs, pages[..k]);
  }

  /** Block `k` is page `k`'s paragraphs. */
  lemma BlockOf(pages: seq<Page>, k: nat)
    requires k < |pages|
    ensures Blocks(pages)[k] == PageParagraphs(pages[k], k > 0)
  {
  }

  /** Page `k`'s paragraphs, in input order, occupy the stretch starting at
      `Offset(pages, k)`; its title breaks to a new page iff `k > 0`. */
  lemma LayoutPosition(pages: seq<Page>, k: nat)
    requires k < |pages|
    ensures var o := Offset(pages, k); var x := PageParagraphs(pages[k], k > 0);
      o + |x| <= |Layout(pages)| && Layout(pages)[o..o + |x|] == x
  {
    BlocksBefore(pages, k);
    BlockOf(pages, k);
    ConcatAtOffset(Blocks(pages), k, Offset(pages, k), PageParagraphs(pages[k], k > 0));
  }


  /** In the exported document, page `k`'s paragraphs start after those of
      all earlier pages, and the footer still follows them. */
  lemma DocChildrenPosition(pages: seq<Page>, k: nat)
    requires k < |pages|
    ensures var o := Offset(pages, k); var x := PageParagraphs(pages[k], k > 0);
      o + |x| < |DocChildren(pages)| && DocChildren(pages)[o..o + |x|] == x
  {
    LayoutPosition(pages, k);
    SliceOfPrefix(Layout(pages), [Footer(Signature)], Offset(pages, k), |PageParagraphs(pages[k], k > 0)|,
                  PageParagraphs(pages[k], k > 0));
  }

  /** A name up to (not including) its first '.', or the whole name when it
      has none: the first piece of `name.split('.')`. */
  function BeforeFirstDot(name: string): (r: string)
    ensures r <= name && '.' !in r
    ensures |r| < |name| ==> name[|r|] == '.'
    decreases |name|
  {
    if |name| == 0 || name[0] == '.' then ""
    else [name[0]] + BeforeFirstDot(name[1..])
  }

  /** The decimal digit for `d`. */
  function DigitChar(d: nat): (c: char)
    requires d < 10
    ensures '0' <= c <= '9' && (c as int) - ('0' as int) == d
  {
    (('0' as int) + d) as char
  }

  predicate IsDigit(c: char) {
    '0' <= c <= '9'
  }

  /** The decimal notation of `n`, as a template literal prints a
      millisecond timestamp: digits only, no leading zero. */
  function NatToString(n: nat): (r: string)
    ensures |r| > 0
    ensures forall i :: 0 <= i < |r| ==> IsDigit(r[i])
    ensures |r| > 1 ==> r[0] != '0'
    ensures r[0] == '0' <==> n == 0
    decreases n
  {
    if n < 10 then [DigitChar(n)]
    else NatToString(n / 10) + [DigitChar(n % 10)]
  }

  /** The number a string of decimal digits denotes. */
  function DecimalValue(s: string): nat
    requires forall i :: 0 <= i < |s| ==> IsDigit(s[i])
    decreases |s|
  {
    if |s| == 0 then 0
    else
      assert IsDigit(s[|s| - 1]);
      DecimalValue(s[..|s| - 1]) * 10 + ((s[|s| - 1] as int) - ('0' as int))
  }

  /** The timestamp in the file name reads back as the timestamp. */
  lemma {:induction false} DecimalRoundTrip(n: nat)
    ensures DecimalValue(NatToString(n)) == n
    decreases n
  {
    if n >= 10 {
      DecimalRoundTrip(n / 10);
      var s := NatToString(n);
      assert s[..|s| - 1] == NatToString(n / 10);
    }
  }

  /** The saved file's name: one page is named after its image, several
      after the export time `now` (milliseconds). */
  function ExportFileName(pages: seq<Page>, now: nat): (r: string)
    ensures |r| >= 5 && r[|r| - 5..] == ".docx"
    ensures |pages| == 1 ==> |r| >= 17 && r[..12] == "Translation_" && '.' !in r[12..|r| - 5]
    ensures |pages| != 1 ==> "Manhua_Translations_" <= r
  {
    if |pages| == 1 then
      var stem := BeforeFirstDot(pages[0].fileName);
      var name := "Translation_" + stem + ".docx";
      assert name[12..|name| - 5] == stem;
      name
    else "Manhua_Translations_" + NatToString(now) + ".docx"
  }

  /** The name choice: a single page gives its name's stem, free of dots,
      between the fixed prefix and the extension; several pages give the
      export time in decimal, which reads back as that time. */
  lemma FileNameChoice(pages: seq<Page>, now: nat)
    ensures |pages| == 1 ==> exists stem ::
      && ExportFileName(pages, now) == "Translation_" + stem + ".docx"
      && stem <= pages[0].fileName && '.' !in stem
      && (|stem| < |pages[0].fileName| ==> pages[0].fileName[|stem|] == '.')
    ensures |pages| != 1 ==> exists digits: string ::
      && ExportFileName(pages, now) == "Manhua_Translations_" + digits + ".docx"
      && (forall i :: 0 <= i < |digits| ==> IsDigit(digits[i]))
      && DecimalValue(digits) == now
  {
    if |pages| == 1 {
      var stem := BeforeFirstDot(pages[0].fileName);
      assert ExportFileName(pages, now) == "Translation_" + stem + ".docx";
    } else {
      DecimalRoundTrip(now);
      var digits := NatToString(now);
      assert ExportFileName(pages, now) == "Manhua_Translations_" + digits + ".docx";
    }
  }

  /** What the download button produces. */
  datatype Download = Download(paragraphs: seq<Paragraph>, fileName: string)

  /** The download handler: nothing happens without pages; otherwise all
      pages are exported in order. */
  function HandleExport(pages: seq<Page>, now: nat): (r: Option<Download>)
    ensures r.None? <==> |pages| == 0
    ensures r.Some? ==> r.value.paragraphs == DocChildren(pages)
    ensures r.Some? ==> r.value.fileName == ExportFileName(pages, now)
  {
    if |pages| == 0 then None
    else Some(Download(DocChildren(pages), ExportFileName(pages, now)))
  }

  /** A non-empty export opens with the first page's title, without a page
      break. */
  lemma ExportOpensWithFirstTitle(pages: seq<Page>, now: nat)
    requires |pages| > 0
    ensures HandleExport(pages, now).value.paragraphs[0] == Title(pages[0].fileName, false)
    ensures HandleExport(pages, now).value.paragraphs[1] == Spacer
  {
  }
}
