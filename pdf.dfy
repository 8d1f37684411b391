/** The part of the gofpdf document builder that main.go:31-32 and
    main.go:66-91 use: a document is a list of pages, each holding the
    images placed on it, plus the images registered under their names.
    Serialisation, compression and fonts are not modelled; the output
    file is reduced to a final "closed" state (with the blank page gofpdf
    adds on closing a document that has none). Sizes are in millimetres,
    the unit main.go:31 asks for. */
module Pdf {
  import opened Bytes

  /** Page orientation, "P" or "L" in gofpdf's calls. */
  datatype Orientation = Portrait | Landscape

  /** gofpdf's `SizeType{Wd, Ht}`. */
  datatype SizeType = SizeType(wd: real, ht: real)

  /** gofpdf's `ImageOptions{ImageType, ReadDpi, AllowNegativePosition}`. */
  datatype ImageOpts = ImageOpts(imageType: string, readDpi: bool, allowNegativePosition: bool)

  /** A registered image: the bytes it was read from and how they were read. */
  datatype ImageInfo = ImageInfo(data: seq<byte>, opts: ImageOpts)

  /** One image drawn on a page: the registered name, the upper-left
      corner and the width and height of the drawn box. */
  datatype Placement = Placement(name: string, x: real, y: real, w: real, h: real)

  /** One page, with the images placed on it in drawing order. */
  datatype Page = Page(orientation: Orientation, size: SizeType, placements: seq<Placement>)

  /** The A4 page size in millimetres. */
  const A4: SizeType := SizeType(210.0, 297.0)

  /** gofpdf caches images by name: registering a name that is already
      registered keeps the earlier image and ignores the new bytes. */
  function Register(images: map<string, ImageInfo>, name: string, info: ImageInfo): (r: map<string, ImageInfo>)
    ensures name in r && r[name] == (if name in images then images[name] else info)
    ensures forall n :: n != name ==> (n in r <==> n in images)
    ensures forall n :: n != name && n in images ==> r[n] == images[n]
  {
    if name in images then images else images[name := info]
  }

  /** The page p with one more image drawn on it. */
  function Draw(p: Page, pl: Placement): (r: Page)
    ensures r.orientation == p.orientation && r.size == p.size
    ensures r.placements == p.placements + [pl]
  {
    p.(placements := p.placements + [pl])
  }

  /** The pages once gofpdf's Close has run: a document with no page
      gets one blank page of format (o, sz); any other keeps its pages. */
  function ClosedPages(pages: seq<Page>, o: Orientation, sz: SizeType): (r: seq<Page>)
    ensures r != []
    ensures pages != [] ==> r == pages
    ensures pages == [] ==> r == [Page(o, sz, [])]
  {
    if pages == [] then [Page(o, sz, [])] else pages
  }

  /** A gofpdf document (`*gofpdf.Fpdf`) under construction. */
  class Document {
    /** The pages added so far, in order; the last one is the current page. */
    var pages: seq<Page>
    /** The registered images, by name. */
    var images: map<string, ImageInfo>
    /** Whether page streams are to be compressed. */
    var compress: bool
    /** Set once the document has been written out and closed. */
    var closed: bool
    /** The default orientation and page size given to New. */
    const orientation: Orientation
    const size: SizeType

    /** `gofpdf.New(orientation, "mm", size, "")`: an empty, open document;
        gofpdf compresses by default. */
    constructor New(orientation: Orientation, size: SizeType)
      ensures this.orientation == orientation && this.size == size
      ensures pages == [] && images == map[] && compress && !closed
    {
      this.orientation := orientation;
      this.size := size;
      pages := [];
      images := map[];
      compress := true;
      closed := false;
    }

    /** `SetCompression(on)`. */
    method SetCompression(on: bool)
      modifies this
      ensures compress == on
      ensures pages == old(pages) && images == old(images) && closed == old(closed)
    {
      compress := on;
    }

    /** `AddPageFormat(orientation, size)`: a new, empty current page. */
    method AddPageFormat(o: Orientation, sz: SizeType)
      requires !closed
      modifies this
      ensures pages == old(pages) + [Page(o, sz, [])]
      ensures images == old(images) && compress == old(compress) && closed == old(closed)
    {
      pages := pages + [Page(o, sz, [])];
    }

    /** `RegisterImageOptionsReader(name, opts, reader)`: the image read
        from data is registered under name, unless that name is taken. */
    method RegisterImageOptionsReader(name: string, opts: ImageOpts, data: seq<byte>)
      requires !closed
      modifies this
      ensures images == Register(old(images), name, ImageInfo(data, opts))
      ensures pages == old(pages) && compress == old(compress) && closed == old(closed)
    {
      if name !in images {
        images := images[name := ImageInfo(data, opts)];
      }
    }

    /** `ImageOptions(name, x, y, w, h, false, opts, 0, "")`: the image
        registered under name is drawn on the current page in the box with
        upper-left corner (x, y), width w and height h. */
    method ImageOptions(name: string, x: real, y: real, w: real, h: real, opts: ImageOpts)
      requires !closed && name in images && pages != []
      modifies this
      ensures pages == old(pages)[..|old(pages)| - 1] + [Draw(old(pages)[|old(pages)| - 1], Placement(name, x, y, w, h))]
      ensures images == old(images) && compress == old(compress) && closed == old(closed)
    {
      var last := |pages| - 1;
      pages := pages[..last] + [Draw(pages[last], Placement(name, x, y, w, h))];
    }

    /** `OutputFileAndClose(path)`. createOk says whether the output file
        could be created, writeOk whether writing to it succeeded. When the
        file cannot be created, gofpdf records the error and leaves the
        document open. Otherwise the document is closed before it is
        written, and closing a document without pages first adds a blank
        page in the default orientation and size. */
    method OutputFileAndClose(createOk: bool, writeOk: bool) returns (ok: bool)
      requires !closed
      modifies this
      ensures ok == (createOk && writeOk) && closed == createOk
      ensures pages == (if createOk then ClosedPages(old(pages), orientation, size) else old(pages))
      ensures images == old(images) && compress == old(compress)
    {
      if createOk {
        if pages == [] {
          pages := [Page(orientation, size, [])];
        }
        closed := true;
        ok := writeOk;
      } else {
        ok := false;
      }
    }
  }
}
