/** Value types shared by the whole model. */
module Options {

  /** An optional value; stands for a possibly-null pointer or a possibly-absent result. */
  datatype Option<+T> = None | Some(value: T)
}

/**
 * The document model the controller works on: pages, their backgrounds and the
 * imported PDF pages. Page sizes are doubles in the program; they are only ever
 * copied here, so they are modelled as `real`.
 */
module Pages {
  import opened Options

  /** `size_t(-1)`: the page number a page holds when it has no PDF background. */
  const NPOS: nat := 0xFFFF_FFFF_FFFF_FFFF

  /** A 32-bit RGBA colour. */
  newtype Color = x: int | 0 <= x < 0x1_0000_0000

  const WHITE: Color := 0xFFFFFF

  /** The background formats. Only `Pdf` and `Image` need a user choice; the rest are drawn patterns. */
  datatype PageTypeFormat = Plain | Ruled | Lined | Staves | Graph | Dotted | IsoDotted | IsoGraph | Pdf | Image

  /** A background type: a format and its configuration string. */
  datatype PageType = PageType(format: PageTypeFormat, config: string) {
    predicate IsPdfPage() { format == Pdf }
    predicate IsImagePage() { format == Image }
    /** Neither a PDF nor an image background: applied without asking the user. */
    predicate IsPattern() { !IsPdfPage() && !IsImagePage() }
  }

  const IMAGE_TYPE: PageType := PageType(Image, "")

  /** Pixel dimensions of a decoded image. */
  datatype PixelSize = PixelSize(width: nat, height: nat)

  /** An image, abstracted to an identity and the dimensions of its pixbuf, if it has one. */
  datatype ImageData = ImageData(id: nat, pixbuf: Option<PixelSize>)

  /** A page's background image; `attach` says whether the file is embedded into the document. */
  datatype BackgroundImage = NoImage | Loaded(data: ImageData, attach: bool) {
    predicate IsEmpty() { NoImage? }

    function Pixbuf(): Option<PixelSize> {
      if NoImage? then None else data.pixbuf
    }
  }

  /** One page of the document together with every background field the controller reads or writes. */
  datatype Page = Page(
    width: real,
    height: real,
    bgType: PageType,
    pdfPageNr: nat,
    image: BackgroundImage,
    color: Color)
  {
    function SetSize(w: real, h: real): Page { this.(width := w, height := h) }

    function SetBackgroundType(t: PageType): Page { this.(bgType := t) }

    /** Setting the PDF page number also makes the background a PDF background. */
    function SetBackgroundPdfPageNr(n: nat): Page {
      this.(pdfPageNr := n, bgType := bgType.(format := Pdf))
    }

    function SetBackgroundImage(img: BackgroundImage): Page { this.(image := img) }

    function SetBackgroundColor(c: Color): Page { this.(color := c) }
  }

  /** A freshly constructed page of the given size, before any background is applied. */
  function NewPage(w: real, h: real): Page {
    Page(w, h, PageType(Lined, ""), NPOS, NoImage, WHITE)
  }

  /** The size of one page of the imported PDF. */
  datatype PdfPage = PdfPage(width: real, height: real)

  /** The journal: its pages in order, and the pages of the PDF it annotates. */
  datatype Document = Document(pages: seq<Page>, pdfPages: seq<PdfPage>) {
    /** The page at an index, or nothing when the index is past the end. */
    function PageAt(n: nat): Option<Page> {
      if n < |pages| then Some(pages[n]) else None
    }

    function WithPage(n: nat, p: Page): Document
      requires n < |pages|
    {
      this.(pages := pages[n := p])
    }
  }
}
