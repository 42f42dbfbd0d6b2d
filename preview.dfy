/** `preview_file`: the preview a result row gets, chosen by the suffix of its
    lower-cased path, and the text the document previews show. The decoders
    (PIL, PyPDF2, python-docx, openpyxl) are inputs: for each path, what the
    library yields, or nothing when it raises. */
module Preview {
  import opened Wrappers
  import opened Strings

  /** The five ways `preview_file` can go for a path. */
  datatype PreviewKind = Image | Pdf | Docx | Xlsx | Unsupported

  /** The suffixes `preview_file` tests, in its order: five image suffixes,
      then PDF, Word and Excel. */
  const ImageSuffixes: seq<string> := [".png", ".jpg", ".jpeg", ".gif", ".bmp"]
  const PdfSuffix: string := ".pdf"
  const DocxSuffix: string := ".docx"
  const XlsxSuffix: string := ".xlsx"
  const PreviewSuffixes: seq<string> := ImageSuffixes + [PdfSuffix, DocxSuffix, XlsxSuffix]

  /** `s.endswith(suffixes)` for a tuple of suffixes: one of them ends `s`. */
  function EndsWithAny(s: string, suffixes: seq<string>): (b: bool)
    ensures b <==> exists i :: 0 <= i < |suffixes| && EndsWith(s, suffixes[i])
  {
    if suffixes == [] then false
    else EndsWith(s, suffixes[0]) || EndsWithAny(s, suffixes[1..])
  }

  /** The `if`/`elif` chain of `preview_file`, on the lower-cased path. */
  function Classify(path: string): PreviewKind {
    var p := Lower(path);
    if EndsWithAny(p, ImageSuffixes) then Image
    else if EndsWith(p, PdfSuffix) then Pdf
    else if EndsWith(p, DocxSuffix) then Docx
    else if EndsWith(p, XlsxSuffix) then Xlsx
    else Unsupported
  }

  /** No suffix the preview tests ends another one. */
  lemma SuffixesUnrelated()
    ensures forall i, j ::
              0 <= i < |PreviewSuffixes| && 0 <= j < |PreviewSuffixes| && i != j
              ==> !EndsWith(PreviewSuffixes[i], PreviewSuffixes[j])
  {
    assert PreviewSuffixes == [".png", ".jpg", ".jpeg", ".gif", ".bmp", ".pdf", ".docx", ".xlsx"];
  }

  /** A string ends with at most one of the suffixes the preview tests. */
  lemma AtMostOneSuffix(s: string, i: nat, j: nat)
    requires i < |PreviewSuffixes| && j < |PreviewSuffixes| && i != j
    ensures !(EndsWith(s, PreviewSuffixes[i]) && EndsWith(s, PreviewSuffixes[j]))
  {
    SuffixesUnrelated();
    SuffixesNest(s, PreviewSuffixes[i], PreviewSuffixes[j]);
  }

  /** The order of the chain does not matter: each class is picked exactly
      when the lower-cased path ends with one of that class's suffixes, and
      a path ending with none of them is the informational "cannot preview"
      case. */
  lemma ClassifyBySuffix(path: string)
    ensures Classify(path) == Image <==> EndsWithAny(Lower(path), ImageSuffixes)
    ensures Classify(path) == Pdf <==> EndsWith(Lower(path), PdfSuffix)
    ensures Classify(path) == Docx <==> EndsWith(Lower(path), DocxSuffix)
    ensures Classify(path) == Xlsx <==> EndsWith(Lower(path), XlsxSuffix)
    ensures Classify(path) == Unsupported <==> !EndsWithAny(Lower(path), PreviewSuffixes)
  {
    var p := Lower(path);
    assert PreviewSuffixes[5] == PdfSuffix && PreviewSuffixes[6] == DocxSuffix && PreviewSuffixes[7] == XlsxSuffix;
    assert forall i :: 0 <= i < |ImageSuffixes| ==> PreviewSuffixes[i] == ImageSuffixes[i];
    forall i | 0 <= i < 5 ensures !(EndsWith(p, ImageSuffixes[i]) && EndsWith(p, PdfSuffix)) {
      AtMostOneSuffix(p, i, 5);
    }
    forall i | 0 <= i < 6 ensures !(EndsWith(p, PreviewSuffixes[i]) && EndsWith(p, DocxSuffix)) {
      AtMostOneSuffix(p, i, 6);
    }
    forall i | 0 <= i < 7 ensures !(EndsWith(p, PreviewSuffixes[i]) && EndsWith(p, XlsxSuffix)) {
      AtMostOneSuffix(p, i, 7);
    }
  }

  /** `preview_docx`: the paragraph texts, one per line. */
  function DocxText(paragraphs: seq<string>): string {
    JoinWith("\n", paragraphs)
  }

  /** One spreadsheet row in `preview_xlsx`: the cell texts, comma separated. */
  function RowText(cells: seq<string>): string {
    JoinWith(", ", cells)
  }

  /** `preview_xlsx`: the active sheet's rows, one per line. */
  function SheetText(rows: seq<seq<string>>): string {
    JoinWith("\n", seq(|rows|, i requires 0 <= i < |rows| => RowText(rows[i])))
  }

  /** The document preview loses nothing: as long as there is a paragraph
      and no paragraph holds a line break, its lines are the paragraphs. */
  lemma DocxLines(paragraphs: seq<string>)
    requires paragraphs != []
    requires forall i :: 0 <= i < |paragraphs| ==> '\n' !in paragraphs[i]
    ensures Split(DocxText(paragraphs), '\n') == paragraphs
  {
    SplitJoin(paragraphs, '\n');
  }

  /** A row's text, cut at its commas, gives the first cell and then every
      later cell behind the blank of its separator, as long as no cell holds
      a comma. */
  lemma RowCells(cells: seq<string>)
    requires cells != []
    requires forall i :: 0 <= i < |cells| ==> ',' !in cells[i]
    ensures Split(RowText(cells), ',')
         == [cells[0]] + seq(|cells| - 1, i requires 0 <= i < |cells| - 1 => " " + cells[i + 1])
  {
    assert ", " == [','] + " ";
    SplitJoinPadded(cells, ',', " ");
  }

  /** The sheet preview has one line per row, holding that row's text, as
      long as there is a row and no cell holds a line break. */
  lemma SheetLines(rows: seq<seq<string>>)
    requires rows != []
    requires forall i, j :: 0 <= i < |rows| && 0 <= j < |rows[i]| ==> '\n' !in rows[i][j]
    ensures |Split(SheetText(rows), '\n')| == |rows|
    ensures forall i :: 0 <= i < |rows| ==> Split(SheetText(rows), '\n')[i] == RowText(rows[i])
  {
    var lines := seq(|rows|, i requires 0 <= i < |rows| => RowText(rows[i]));
    forall i | 0 <= i < |rows| ensures '\n' !in lines[i] {
      JoinWithChars(", ", rows[i], '\n');
    }
    SplitJoin(lines, '\n');
  }

  /** What the decoding libraries yield for a path; `None` where they raise. */
  datatype Decoders = Decoders(
    opensImage: string -> bool,
    pdfPages: string -> Option<seq<string>>,
    paragraphs: string -> Option<seq<string>>,
    sheetRows: string -> Option<seq<seq<string>>>)

  /** How a preview ends: an image or a text in the preview label, the
      informational "cannot preview" message, or the error message. */
  datatype PreviewOutcome = ShowImage(path: string) | ShowText(text: string) | CannotPreview | Failed

  /** The body of `preview_file` for a selected path, with every exception
      the previews raise turned into `Failed`, as its `except` does. A PDF
      without pages fails: its first page is looked up by index. */
  function PreviewPath(path: string, dec: Decoders): (o: PreviewOutcome)
    ensures o == CannotPreview <==> Classify(path) == Unsupported
    ensures o.ShowImage? <==> Classify(path) == Image && dec.opensImage(path)
    ensures o.ShowImage? ==> o.path == path
    ensures o.ShowText? ==> Classify(path) != Image && Classify(path) != Unsupported
    ensures Classify(path) == Docx && dec.paragraphs(path).Some?
      ==> o == ShowText(DocxText(dec.paragraphs(path).value))
    ensures Classify(path) == Xlsx && dec.sheetRows(path).Some?
      ==> o == ShowText(SheetText(dec.sheetRows(path).value))
    ensures Classify(path) == Pdf && dec.pdfPages(path).Some? && dec.pdfPages(path).value != []
      ==> o == ShowText(dec.pdfPages(path).value[0])
    ensures o == Failed <==>
      || (Classify(path) == Image && !dec.opensImage(path))
      || (Classify(path) == Pdf && (dec.pdfPages(path).None? || dec.pdfPages(path).value == []))
      || (Classify(path) == Docx && dec.paragraphs(path).None?)
      || (Classify(path) == Xlsx && dec.sheetRows(path).None?)
  {
    match Classify(path)
    case Image => if dec.opensImage(path) then ShowImage(path) else Failed
    case Pdf =>
      (match dec.pdfPages(path)
       case Some(pages) => if pages != [] then ShowText(pages[0]) else Failed
       case None => Failed)
    case Docx =>
      (match dec.paragraphs(path)
       case Some(paragraphs) => ShowText(DocxText(paragraphs))
       case None => Failed)
    case Xlsx =>
      (match dec.sheetRows(path)
       case Some(rows) => ShowText(SheetText(rows))
       case None => Failed)
    case Unsupported => CannotPreview
  }
}
