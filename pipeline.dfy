/** The page-assembly loop of main.go:56-87 and the whole pipeline of
    main.go:27-91: locate the image streams, transcode them, and put each
    recompressed image on a page of its own. */
module Pipeline {
  import opened Bytes
  import Locator
  import Transcode
  import opened Pdf

  /** The options every image is registered and placed with (main.go:77-81). */
  const JpgOpts: ImageOpts := ImageOpts("JPG", true, true)

  /** The decimal digit for d < 10. */
  function Digit(d: nat): (c: char)
    requires d < 10
    ensures '0' <= c <= '9' && c as int - '0' as int == d
  {
    ('0' as int + d) as char
  }

  /** The digits string is made of decimal digits only. */
  predicate IsDigits(s: string)
  {
    forall k :: 0 <= k < |s| ==> '0' <= s[k] <= '9'
  }

  /** `%d` applied to a non-negative integer: its decimal digits, with no
      leading zero. */
  function Decimal(n: nat): (s: string)
    ensures |s| >= 1 && IsDigits(s)
    ensures s[0] == '0' ==> n == 0
    decreases n
  {
    if n < 10 then [Digit(n)] else Decimal(n / 10) + [Digit(n % 10)]
  }

  /** The number a string of decimal digits denotes. */
  function DecimalValue(s: string): nat
    requires IsDigits(s)
  {
    if s == [] then 0
    else DecimalValue(s[..|s| - 1]) * 10 + (s[|s| - 1] as int - '0' as int)
  }

  /** Reading back what `%d` printed gives the number printed. */
  lemma {:induction false} DecimalRoundTrip(n: nat)
    ensures DecimalValue(Decimal(n)) == n
    decreases n
  {
    if n >= 10 {
      DecimalRoundTrip(n / 10);
      var s := Decimal(n);
      assert s[..|s| - 1] == Decimal(n / 10);
    }
  }

  /** `fmt.Sprintf("image%d.jpg", n)` (main.go:82-83). */
  function ImageName(n: nat): string
  {
    "image" + Decimal(n) + ".jpg"
  }

  /** Distinct numbers give distinct image names. */
  lemma ImageNameInjective(a: nat, b: nat)
    ensures ImageName(a) == ImageName(b) ==> a == b
  {
    if ImageName(a) == ImageName(b) {
      var s := ImageName(a);
      assert s[5..|s| - 4] == Decimal(a);
      assert ImageName(b)[5..|s| - 4] == Decimal(b);
      DecimalRoundTrip(a);
      DecimalRoundTrip(b);
    }
  }

  /** The page main.go:66-83 makes for the k-th payload (0-based). */
  function PageFor(k: nat): Page
  {
    Page(Portrait, A4, [Placement(ImageName(k + 1), 0.0, 0.0, A4.ht, A4.wd)])
  }

  /** Every page is a portrait A4 page holding exactly one image, anchored at
      the origin, drawn with width equal to the page height and height equal
      to the page width; so it overhangs the right edge by 87 mm and leaves
      the bottom 87 mm of the page bare. */
  lemma PageGeometry(k: nat)
    ensures PageFor(k).orientation == Portrait && PageFor(k).size == SizeType(210.0, 297.0)
    ensures |PageFor(k).placements| == 1
    ensures var pl := PageFor(k).placements[0];
      pl.x == 0.0 && pl.y == 0.0 && pl.w == PageFor(k).size.ht && pl.h == PageFor(k).size.wd
      && pl.x + pl.w - PageFor(k).size.wd == 87.0 && PageFor(k).size.ht - (pl.y + pl.h) == 87.0
  {
  }

  /** No two pages draw the same image name. */
  lemma PageNamesDistinct(i: nat, j: nat)
    requires i != j
    ensures PageFor(i).placements[0].name != PageFor(j).placements[0].name
  {
    ImageNameInjective(i + 1, j + 1);
  }

  /** The image table after registering bufs[k] as image{k+1}.jpg, in order,
      starting from images. */
  function Registered(images: map<string, ImageInfo>, bufs: seq<seq<byte>>): map<string, ImageInfo>
  {
    if bufs == [] then images
    else Register(Registered(images, bufs[..|bufs| - 1]), ImageName(|bufs|), ImageInfo(bufs[|bufs| - 1], JpgOpts))
  }

  /** None of the names image1.jpg .. image{n}.jpg is taken. */
  predicate NamesFree(images: map<string, ImageInfo>, n: nat)
  {
    forall k :: 1 <= k <= n ==> ImageName(k) !in images
  }

  /** Registering the payloads never replaces an image registered before. */
  lemma {:induction false} RegisteredKeeps(images: map<string, ImageInfo>, bufs: seq<seq<byte>>, n: string)
    requires n in images
    ensures n in Registered(images, bufs) && Registered(images, bufs)[n] == images[n]
  {
    if bufs != [] {
      RegisteredKeeps(images, bufs[..|bufs| - 1], n);
    }
  }

  /** A free name image{m}.jpg stays free while only the payloads before
      the m-th are registered. */
  lemma {:induction false} RegisteredLater(images: map<string, ImageInfo>, bufs: seq<seq<byte>>, m: nat)
    requires |bufs| < m && ImageName(m) !in images
    ensures ImageName(m) !in Registered(images, bufs)
  {
    if bufs != [] {
      RegisteredLater(images, bufs[..|bufs| - 1], m);
      ImageNameInjective(|bufs|, m);
    }
  }

  /** Starting from a table where the names image1.jpg .. image{n}.jpg are
      free, image{k+1}.jpg ends up holding exactly the k-th payload. */
  lemma {:induction false} RegisteredLookup(images: map<string, ImageInfo>, bufs: seq<seq<byte>>, k: nat)
    requires NamesFree(images, |bufs|) && k < |bufs|
    ensures ImageName(k + 1) in Registered(images, bufs)
    ensures Registered(images, bufs)[ImageName(k + 1)] == ImageInfo(bufs[k], JpgOpts)
  {
    var init := bufs[..|bufs| - 1];
    if k == |init| {
      RegisteredLater(images, init, |bufs|);
    } else {
      RegisteredLookup(images, init, k);
      ImageNameInjective(k + 1, |bufs|);
      assert bufs[k] == init[k];
    }
  }

  /** The pages made for n payloads, in order. */
  function Pages(n: nat): (ps: seq<Page>)
    ensures |ps| == n && forall k :: 0 <= k < n ==> ps[k] == PageFor(k)
  {
    seq(n, k requires 0 <= k < n => PageFor(k))
  }

  /** One iteration of the assembly loop (main.go:58-83): a portrait A4
      page, the payload registered as image{i+1}.jpg, and that image drawn
      on the new page. */
  method AddImagePage(pdf: Document, i: nat, buf: seq<byte>)
    requires !pdf.closed
    modifies pdf
    ensures pdf.pages == old(pdf.pages) + [PageFor(i)]
    ensures pdf.images == Register(old(pdf.images), ImageName(i + 1), ImageInfo(buf, JpgOpts))
    ensures pdf.compress == old(pdf.compress) && !pdf.closed
  {
    ghost var before := pdf.pages;
    var pageWidth, pageHeight, rotate := 210.0, 297.0, Portrait;
    pdf.AddPageFormat(rotate, SizeType(pageWidth, pageHeight));
    ghost var blank := Page(Portrait, A4, []);
    ghost var added := pdf.pages;
    assert added[..|added| - 1] == before && added[|added| - 1] == blank;
    var name := ImageName(i + 1);
    pdf.RegisterImageOptionsReader(name, JpgOpts, buf);
    pdf.ImageOptions(name, 0.0, 0.0, pageHeight, pageWidth, JpgOpts);
    assert Draw(blank, Placement(name, 0.0, 0.0, pageHeight, pageWidth)) == PageFor(i);
  }

  /** The assembly loop of main.go:56-87: one page per payload, in order,
      each with its payload registered and drawn on it. */
  method AssemblePages(pdf: Document, imageBuffers: seq<seq<byte>>)
    requires !pdf.closed
    modifies pdf
    ensures pdf.pages == old(pdf.pages) + Pages(|imageBuffers|)
    ensures pdf.images == Registered(old(pdf.images), imageBuffers)
    ensures pdf.compress == old(pdf.compress) && !pdf.closed
  {
    ghost var pages0 := pdf.pages;
    ghost var images0 := pdf.images;
    for i := 0 to |imageBuffers|
      invariant !pdf.closed && pdf.compress == old(pdf.compress)
      invariant pdf.pages == pages0 + Pages(i)
      invariant pdf.images == Registered(images0, imageBuffers[..i])
    {
      ghost var done := imageBuffers[..i + 1];
      assert done[..i] == imageBuffers[..i] && |done| == i + 1 && done[i] == imageBuffers[i];
      AddImagePage(pdf, i, imageBuffers[i]);
      assert Pages(i + 1) == Pages(i) + [PageFor(i)];
    }
    assert imageBuffers[..|imageBuffers|] == imageBuffers;
  }

  /** main.go:27-91 on the input file's bytes: every image stream that
      decodes and re-encodes ends up, in order, as the image of a page of its
      own, named by its position among the survivors; the others are
      reported. createOk and writeOk say whether the output file can be
      created and written. If no image survives, the closed document holds
      the single blank page gofpdf adds when closing an empty document. */
  method Run(data: seq<byte>, decode: Transcode.Decoder, encode: Transcode.Encoder, createOk: bool, writeOk: bool)
    returns (pdf: Document, failures: seq<Transcode.Failure>, ok: bool)
    ensures var payloads := Transcode.Payloads(Transcode.Outcomes(Locator.Captures(data), decode, encode));
      (createOk && payloads == [] ==> pdf.pages == [Page(Portrait, A4, [])])
      && (!createOk || payloads != [] ==> pdf.pages == Pages(|payloads|))
      && pdf.images == Registered(map[], payloads)
    ensures failures == Transcode.Failures(Transcode.Outcomes(Locator.Captures(data), decode, encode))
    ensures pdf.closed == createOk && pdf.compress && ok == (createOk && writeOk)
  {
    var captures := Locator.Captures(data);
    pdf := new Document.New(Portrait, A4);
    pdf.SetCompression(true);
    var imageBuffers;
    imageBuffers, failures := Transcode.TranscodeAll(captures, decode, encode);
    AssemblePages(pdf, imageBuffers);
    ok := pdf.OutputFileAndClose(createOk, writeOk);
  }

  /** An input in which the pattern matches nowhere yields no payloads and
      no failure reports; the document Run writes then holds only the blank
      page added on closing. */
  lemma NoStreamsNoImages(data: seq<byte>, decode: Transcode.Decoder, encode: Transcode.Encoder)
    requires forall m :: !Locator.IsMatch(data, m)
    ensures Transcode.Payloads(Transcode.Outcomes(Locator.Captures(data), decode, encode)) == []
    ensures Transcode.Failures(Transcode.Outcomes(Locator.Captures(data), decode, encode)) == []
  {
    Locator.NoCapturesIffNoMatch(data);
    assert Transcode.Outcomes(Locator.Captures(data), decode, encode) == [];
  }

  /** In the document Run builds, page k shows the k-th surviving payload:
      the image it draws is registered with exactly those bytes. */
  lemma PageShowsPayload(payloads: seq<seq<byte>>, k: nat)
    requires k < |payloads|
    ensures PageFor(k).placements[0].name in Registered(map[], payloads)
    ensures Registered(map[], payloads)[PageFor(k).placements[0].name] == ImageInfo(payloads[k], JpgOpts)
  {
    RegisteredLookup(map[], payloads, k);
  }
}
