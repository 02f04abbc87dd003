/**
 * The ingestion pipeline: hash a file, skip it when its hash is already stored,
 * otherwise extract its pages, split each page into chunks, give every chunk the id
 * `{hash}_p{page}_{i}` and its metadata, and add the whole batch in one call.
 *
 * SHA-256 and the text splitter are foreign: they come in as the two functions of a
 * `Libraries` value. What the file readers and extractors would return for a file comes
 * in as the fields of a `SourceFile`.
 */
module Ingest {
  import opened Wrappers
  import opened PyText
  import opened OcrUtils
  import opened EmbedStore

  newtype byte = b: int | 0 <= b < 256

  /** `f.read(1024 * 1024)`: the size of one block fed to the hasher. */
  const BLOCK_SIZE: nat := 1024 * 1024

  /** SHA-256 as a hex digest of the bytes fed to it, and `RecursiveCharacterTextSplitter.split_text`. */
  datatype Libraries = Libraries(digest: seq<byte> -> string, split: string -> seq<string>)

  /** A file as the foreign readers see it. */
  datatype SourceFile = SourceFile(
    path: string,
    bytes: seq<byte>,           // open(path, "rb")
    text: string,               // Path(path).read_text(encoding="utf-8", errors="ignore")
    pdfPageTexts: seq<string>,  // page.get_text("text") for each PyMuPDF page
    ocrPageTexts: seq<string>,  // Tesseract on each page rasterised by pdf2image
    imageText: string)          // Tesseract on the image file

  datatype IngestError = UnsupportedFileType(path: string) | StoreFailure(error: StoreError)

  /** `(skipped, added_chunks, file_hash)`. */
  datatype IngestOutcome = IngestOutcome(skipped: bool, added: nat, fileHash: string)

  /** The outcome of `ingest_path` and the collections afterwards. */
  datatype IngestRun = IngestRun(result: Result<IngestOutcome, IngestError>, collections: Collections)

  // ---------------------------------------------------------------- compute_file_hash

  function Concat(blocks: seq<seq<byte>>): seq<byte> {
    if blocks == [] then [] else Concat(blocks[..|blocks| - 1]) + blocks[|blocks| - 1]
  }

  /**
   * `compute_file_hash`: reads the file in blocks of at most 1 MiB and feeds each to the
   * hasher; the blocks read are non-empty and together make up the whole file, so the
   * digest is that of the file's content.
   */
  method ComputeFileHash(content: seq<byte>, digest: seq<byte> -> string) returns (h: string, ghost blocks: seq<seq<byte>>)
    ensures h == digest(content)
    ensures Concat(blocks) == content
    ensures forall k :: 0 <= k < |blocks| ==> 0 < |blocks[k]| <= BLOCK_SIZE
  {
    var fed: seq<byte> := [];  // everything passed to h.update so far
    var pos := 0;
    blocks := [];
    while pos < |content|
      invariant 0 <= pos <= |content|
      invariant fed == content[..pos]
      invariant Concat(blocks) == fed
      invariant forall k :: 0 <= k < |blocks| ==> 0 < |blocks[k]| <= BLOCK_SIZE
    {
      var n := if |content| - pos < BLOCK_SIZE then |content| - pos else BLOCK_SIZE;
      var chunk := content[pos..pos + n];
      assert content[..pos + n] == content[..pos] + chunk;
      fed := fed + chunk;
      blocks := blocks + [chunk];
      pos := pos + n;
    }
    assert content[..|content|] == content;
    h := digest(fed);
  }

  // ---------------------------------------------------------------- load_file_text

  /** `Path(path).suffix.lower()`. */
  function Extension(path: string): string {
    Lower(Suffix(path))
  }

  predicate IsTextExtension(ext: string) {
    ext == ".txt" || ext == ".md"
  }

  predicate IsImageExtension(ext: string) {
    ext == ".png" || ext == ".jpg" || ext == ".jpeg" || ext == ".tiff"
  }

  /** The seven extensions `load_file_text` accepts, compared after lower-casing. */
  predicate IsSupported(ext: string) {
    IsTextExtension(ext) || ext == ".pdf" || IsImageExtension(ext)
  }

  /** The test ignores case: suffixes that agree up to case dispatch alike. */
  lemma ExtensionIgnoresCase(p: string, q: string)
    requires SameUpToCase(Suffix(p), Suffix(q))
    ensures Extension(p) == Extension(q)
  {
    LowerRespectsCase(Suffix(p), Suffix(q));
  }

  /** Any spelling of an accepted extension, such as `.PDF`, `.Md` or `.tIFF`, is that extension. */
  lemma AcceptedInAnyCase(path: string, ext: string)
    requires IsSupported(ext) && SameUpToCase(Suffix(path), ext)
    ensures Extension(path) == ext
  {
    AcceptedAreLowerCase(ext);
    LowerRespectsCase(Suffix(path), ext);
  }

  lemma AcceptedAreLowerCase(ext: string)
    requires IsSupported(ext)
    ensures forall i :: 0 <= i < |ext| ==> !('A' <= ext[i] <= 'Z')
  {
    if IsTextExtension(ext) {
      assert ext == ".txt" || ext == ".md";
    } else if IsImageExtension(ext) {
      assert ext == ".png" || ext == ".jpg" || ext == ".jpeg" || ext == ".tiff";
    } else {
      assert ext == ".pdf";
    }
  }

  /** `load_file_text`: dispatch on the lower-cased suffix. */
  function LoadFileText(file: SourceFile): Result<seq<PageData>, IngestError> {
    var ext := Extension(file.path);
    if IsTextExtension(ext) then
      Success([PageData(file.text, 1)])
    else if ext == ".pdf" then
      var pageData := KeptPages(file.pdfPageTexts);
      // Fallback to OCR when PyMuPDF found no text
      if !AnyText(pageData) then Success(KeptPages(file.ocrPageTexts)) else Success(pageData)
    else if IsImageExtension(ext) then
      Success([PageData(file.imageText, 1)])
    else
      Failure(UnsupportedFileType(file.path))
  }

  /**
   * Text and markdown files, and images, give one page numbered 1; a PDF gives its non-blank
   * pages from PyMuPDF, or from OCR exactly when PyMuPDF kept no page; any other extension
   * raises. Page numbers are strictly increasing in every case.
   */
  lemma LoadFileTextDispatch(file: SourceFile)
    ensures LoadFileText(file).Failure? <==> !IsSupported(Extension(file.path))
    ensures LoadFileText(file).Failure? ==> LoadFileText(file).error == UnsupportedFileType(file.path)
    ensures LoadFileText(file).Success? ==> StrictlyNumbered(LoadFileText(file).value)
    ensures LoadFileText(file).Success? && Extension(file.path) != ".pdf" ==>
      LoadFileText(file).value == [PageData(if IsTextExtension(Extension(file.path)) then file.text else file.imageText, 1)]
    ensures Extension(file.path) == ".pdf" ==>
      LoadFileText(file) == Success(if KeptPages(file.pdfPageTexts) == [] then KeptPages(file.ocrPageTexts) else KeptPages(file.pdfPageTexts))
  {
    PdfIsNeitherTextNorImage(Extension(file.path));
    if Extension(file.path) == ".pdf" {
      LoadPdf(file);
    }
  }

  lemma PdfIsNeitherTextNorImage(ext: string)
    ensures ext == ".pdf" ==> !IsTextExtension(ext) && !IsImageExtension(ext)
  {
    if ext == ".pdf" {
      assert ext[1] == 'p';
    }
  }

  /** The PDF case: PyMuPDF's pages, or OCR's exactly when PyMuPDF kept none. */
  lemma LoadPdf(file: SourceFile)
    requires Extension(file.path) == ".pdf"
    ensures LoadFileText(file) == Success(if KeptPages(file.pdfPageTexts) == [] then KeptPages(file.ocrPageTexts) else KeptPages(file.pdfPageTexts))
    ensures StrictlyNumbered(LoadFileText(file).value)
  {
    NoTextIffNoPages(file.pdfPageTexts);
    KeptPagesSound(file.pdfPageTexts);
    KeptPagesSound(file.ocrPageTexts);
  }

  // ---------------------------------------------------------------- ids and metadata

  /** `f"{file_hash}_p{page_num}_{i}"`. */
  function ChunkId(fileHash: string, page: int, index: nat): string {
    fileHash + "_p" + IntToDecimal(page) + "_" + NatToDecimal(index)
  }

  function ChunkMetadata(source: string, fileHash: string, page: int, index: nat): Metadata {
    map["source" := Str(source), FILE_HASH := Str(fileHash), "page" := Int(page), "chunk_on_page" := Int(index)]
  }

  /** The element appended to `docs` for chunk `index` of page `page`. */
  function ChunkDoc(source: string, fileHash: string, page: int, index: nat, chunk: string): Doc {
    Doc(ChunkId(fileHash, page, index), chunk, ChunkMetadata(source, fileHash, page, index))
  }

  /** A SHA-256 hex digest: 64 lower-case hex digits. */
  predicate IsHexDigest(s: string) {
    |s| == 64 && forall k :: 0 <= k < |s| ==> s[k] in "0123456789abcdef"
  }

  lemma DecimalsHaveNoUnderscore(page: int, index: nat)
    ensures '_' !in IntToDecimal(page) && '_' !in NatToDecimal(index)
  {
    var p, i := IntToDecimal(page), NatToDecimal(index);
    assert forall k :: 0 <= k < |p| ==> p[k] != '_';
    assert forall k :: 0 <= k < |i| ==> i[k] != '_';
  }

  /** Under one hash, the id determines the page number and the chunk index. */
  lemma ChunkIdInjectiveSameHash(fileHash: string, p1: int, i1: nat, p2: int, i2: nat)
    requires ChunkId(fileHash, p1, i1) == ChunkId(fileHash, p2, i2)
    ensures p1 == p2 && i1 == i2
  {
    var n := |fileHash| + 2;
    var t1 := IntToDecimal(p1) + "_" + NatToDecimal(i1);
    var t2 := IntToDecimal(p2) + "_" + NatToDecimal(i2);
    assert ChunkId(fileHash, p1, i1) == (fileHash + "_p") + t1;
    assert ChunkId(fileHash, p2, i2) == (fileHash + "_p") + t2;
    assert t1 == ChunkId(fileHash, p1, i1)[n..] == ChunkId(fileHash, p2, i2)[n..] == t2;
    DecimalsHaveNoUnderscore(p1, i1);
    DecimalsHaveNoUnderscore(p2, i2);
    SplitAtFirst(IntToDecimal(p1), NatToDecimal(i1), IntToDecimal(p2), NatToDecimal(i2), '_');
    IntToDecimalInjective(p1, p2);
    NatToDecimalInjective(i1, i2);
  }

  lemma HexDigestHasNoUnderscore(h: string)
    requires IsHexDigest(h)
    ensures '_' !in h
  {
    forall k | 0 <= k < |h|
      ensures h[k] != '_'
    {
      assert h[k] in "0123456789abcdef";
    }
  }

  /** For hex digests the id determines hash, page and index: ids of different files never collide. */
  lemma ChunkIdInjective(h1: string, p1: int, i1: nat, h2: string, p2: int, i2: nat)
    requires IsHexDigest(h1) && IsHexDigest(h2)
    requires ChunkId(h1, p1, i1) == ChunkId(h2, p2, i2)
    ensures h1 == h2 && p1 == p2 && i1 == i2
  {
    HexDigestHasNoUnderscore(h1);
    HexDigestHasNoUnderscore(h2);
    var t1 := "p" + IntToDecimal(p1) + "_" + NatToDecimal(i1);
    var t2 := "p" + IntToDecimal(p2) + "_" + NatToDecimal(i2);
    assert ChunkId(h1, p1, i1) == h1 + "_" + t1;
    assert ChunkId(h2, p2, i2) == h2 + "_" + t2;
    SplitAtFirst(h1, t1, h2, t2, '_');
    ChunkIdInjectiveSameHash(h1, p1, i1, p2, i2);
  }

  // ---------------------------------------------------------------- the docs list

  /** The docs built for one page from its chunks, in chunk order. */
  function PageDocs(source: string, fileHash: string, page: int, chunks: seq<string>): (docs: seq<Doc>)
    ensures |docs| == |chunks|
  {
    seq(|chunks|, i requires 0 <= i < |chunks| => ChunkDoc(source, fileHash, page, i, chunks[i]))
  }

  /** The docs list `ingest_path` builds from the pages, page after page. */
  function BuildDocs(source: string, fileHash: string, pages: seq<PageData>, split: string -> seq<string>): seq<Doc> {
    if pages == [] then []
    else
      var n := |pages|;
      BuildDocs(source, fileHash, pages[..n - 1], split) + PageDocs(source, fileHash, pages[n - 1].page, split(pages[n - 1].text))
  }

  /** The number of chunks of all pages together. */
  function ChunkCount(pages: seq<PageData>, split: string -> seq<string>): nat {
    if pages == [] then 0 else ChunkCount(pages[..|pages| - 1], split) + |split(pages[|pages| - 1].text)|
  }

  lemma {:induction false} BuildDocsLength(source: string, fileHash: string, pages: seq<PageData>, split: string -> seq<string>)
    ensures |BuildDocs(source, fileHash, pages, split)| == ChunkCount(pages, split)
  {
    if pages != [] {
      BuildDocsLength(source, fileHash, pages[..|pages| - 1], split);
    }
  }

  /**
   * Chunk `i` of page `k` sits right after all chunks of the pages before it, with the id
   * `{hash}_p{page}_{i}`, the chunk text, and the metadata source/file_hash/page/chunk_on_page.
   */
  lemma {:induction false} BuildDocsAt(source: string, fileHash: string, pages: seq<PageData>, split: string -> seq<string>, k: nat, i: nat)
    requires k < |pages| && i < |split(pages[k].text)|
    ensures var docs := BuildDocs(source, fileHash, pages, split);
      && ChunkCount(pages[..k], split) + i < |docs|
      && docs[ChunkCount(pages[..k], split) + i] == ChunkDoc(source, fileHash, pages[k].page, i, split(pages[k].text)[i])
  {
    var n := |pages|;
    var front := pages[..n - 1];
    BuildDocsLength(source, fileHash, front, split);
    if k < n - 1 {
      BuildDocsAt(source, fileHash, front, split, k, i);
      assert front[..k] == pages[..k];
    } else {
      assert pages[..k] == front;
    }
  }

  /** `doc`, at position `j`, is chunk `i` of page `k`, placed after all chunks of the pages before page `k`. */
  predicate ChunkPlaced(doc: Doc, j: int, source: string, fileHash: string, pages: seq<PageData>, split: string -> seq<string>, k: int, i: int) {
    && 0 <= k < |pages| && 0 <= i < |split(pages[k].text)|
    && j == ChunkCount(pages[..k], split) + i
    && doc == ChunkDoc(source, fileHash, pages[k].page, i, split(pages[k].text)[i])
  }

  /** Conversely, every doc is chunk `i` of some page `k`, at the position `BuildDocsAt` gives it. */
  lemma {:induction false} BuildDocsEachChunk(source: string, fileHash: string, pages: seq<PageData>, split: string -> seq<string>, j: nat)
      returns (k: nat, i: nat)
    requires j < |BuildDocs(source, fileHash, pages, split)|
    ensures ChunkPlaced(BuildDocs(source, fileHash, pages, split)[j], j, source, fileHash, pages, split, k, i)
  {
    var n := |pages|;
    var front := pages[..n - 1];
    BuildDocsLength(source, fileHash, front, split);
    var m := ChunkCount(front, split);
    if j < m {
      k, i := BuildDocsEachChunk(source, fileHash, front, split, j);
      assert front[..k] == pages[..k];
    } else {
      assert pages[..n - 1] == front;
      k, i := n - 1, j - m;
    }
  }

  predicate AllCarryHash(docs: seq<Doc>, fileHash: string) {
    forall j :: 0 <= j < |docs| ==> CarriesHash(docs[j].metadata, fileHash)
  }

  /** Every doc carries the file's hash in its metadata. */
  lemma DocsCarryHash(source: string, fileHash: string, pages: seq<PageData>, split: string -> seq<string>)
    ensures AllCarryHash(BuildDocs(source, fileHash, pages, split), fileHash)
  {
    var docs := BuildDocs(source, fileHash, pages, split);
    forall j | 0 <= j < |docs|
      ensures CarriesHash(docs[j].metadata, fileHash)
    {
      var k, i := BuildDocsEachChunk(source, fileHash, pages, split, j);
    }
  }

  predicate DistinctPages(pages: seq<PageData>) {
    forall k1, k2 :: 0 <= k1 < k2 < |pages| ==> pages[k1].page != pages[k2].page
  }

  /** When page numbers are distinct, so are the ids of one ingestion. */
  lemma BuildDocsDistinctIds(source: string, fileHash: string, pages: seq<PageData>, split: string -> seq<string>)
    requires DistinctPages(pages)
    ensures DistinctIds(BuildDocs(source, fileHash, pages, split))
  {
    var docs := BuildDocs(source, fileHash, pages, split);
    forall j1, j2 | 0 <= j1 < j2 < |docs|
      ensures docs[j1].id != docs[j2].id
    {
      var k1, i1 := BuildDocsEachChunk(source, fileHash, pages, split, j1);
      var k2, i2 := BuildDocsEachChunk(source, fileHash, pages, split, j2);
      if docs[j1].id == docs[j2].id {
        ChunkIdInjectiveSameHash(fileHash, pages[k1].page, i1, pages[k2].page, i2);
      }
    }
  }

  /** Given the hash and the pages, the ids do not depend on the file's name. */
  lemma {:induction false} BuildDocsIdsIgnoreSource(s1: string, s2: string, fileHash: string, pages: seq<PageData>, split: string -> seq<string>)
    ensures Ids(BuildDocs(s1, fileHash, pages, split)) == Ids(BuildDocs(s2, fileHash, pages, split))
  {
    if pages != [] {
      var n := |pages|;
      BuildDocsIdsIgnoreSource(s1, s2, fileHash, pages[..n - 1], split);
      var d1, d2 := BuildDocs(s1, fileHash, pages, split), BuildDocs(s2, fileHash, pages, split);
      var f1, f2 := BuildDocs(s1, fileHash, pages[..n - 1], split), BuildDocs(s2, fileHash, pages[..n - 1], split);
      assert |f1| == |Ids(f1)| == |Ids(f2)| == |f2|;
      assert forall j :: 0 <= j < |f1| ==> Ids(f1)[j] == f1[j].id;
      forall j | 0 <= j < |d1|
        ensures Ids(d1)[j] == Ids(d2)[j]
      {
        if j < |f1| {
          assert Ids(f1)[j] == Ids(f2)[j];
        }
      }
    }
  }

  /**
   * Two files with the same bytes whose readers give the same pages (a copy of a file under
   * another name, say) get the same ids, whatever their names.
   */
  lemma SameContentSameIds(libs: Libraries, f1: SourceFile, f2: SourceFile)
    requires f1.bytes == f2.bytes && LoadFileText(f1).Success? && LoadFileText(f1) == LoadFileText(f2)
    ensures Ids(BuildDocs(FileName(f1.path), libs.digest(f1.bytes), LoadFileText(f1).value, libs.split))
         == Ids(BuildDocs(FileName(f2.path), libs.digest(f2.bytes), LoadFileText(f2).value, libs.split))
  {
    BuildDocsIdsIgnoreSource(FileName(f1.path), FileName(f2.path), libs.digest(f1.bytes), LoadFileText(f1).value, libs.split);
  }

  lemma NumberedPagesDistinct(pages: seq<PageData>)
    requires StrictlyNumbered(pages)
    ensures DistinctPages(pages)
  {
  }

  // ---------------------------------------------------------------- freshness of ids

  /**
   * Every stored id of the form `{h}_p{page}_{i}`, for a hex digest `h`, carries `file_hash == h`.
   * `ingest_path` only ever writes such ids with such metadata, so this holds of a collection
   * that only `ingest_path` has written to.
   */
  ghost predicate IdsCarryHash(entries: Entries) {
    forall h: string, p: int, i: nat :: IsHexDigest(h) && ChunkId(h, p, i) in entries ==>
      CarriesHash(entries[ChunkId(h, p, i)].metadata, h)
  }

  predicate NoneStored(entries: Entries, docs: seq<Doc>) {
    forall j :: 0 <= j < |docs| ==> docs[j].id !in entries
  }

  /** When no entry carries `fileHash`, none of the ids built for that hash is stored yet. */
  lemma BuildDocsFresh(entries: Entries, source: string, fileHash: string, pages: seq<PageData>, split: string -> seq<string>)
    requires IdsCarryHash(entries) && IsHexDigest(fileHash) && !HoldsFileHash(entries, fileHash)
    ensures NoneStored(entries, BuildDocs(source, fileHash, pages, split))
  {
    var docs := BuildDocs(source, fileHash, pages, split);
    forall j | 0 <= j < |docs|
      ensures docs[j].id !in entries
    {
      var k, i := BuildDocsEachChunk(source, fileHash, pages, split, j);
      assert docs[j].id == ChunkId(fileHash, pages[k].page, i);
    }
  }

  /**
   * Adding the fresh docs of a file leaves every stored entry as it was, stores every doc
   * under its id, and keeps `IdsCarryHash`.
   */
  lemma AddFreshDocs(entries: Entries, source: string, fileHash: string, pages: seq<PageData>, split: string -> seq<string>)
    requires IdsCarryHash(entries) && IsHexDigest(fileHash) && !HoldsFileHash(entries, fileHash)
    requires StrictlyNumbered(pages)
    ensures Preserves(entries, AddDocs(entries, BuildDocs(source, fileHash, pages, split)))
    ensures StoresAll(AddDocs(entries, BuildDocs(source, fileHash, pages, split)), BuildDocs(source, fileHash, pages, split))
    ensures IdsCarryHash(AddDocs(entries, BuildDocs(source, fileHash, pages, split)))
  {
    var docs := BuildDocs(source, fileHash, pages, split);
    var after := AddDocs(entries, docs);
    NumberedPagesDistinct(pages);
    BuildDocsDistinctIds(source, fileHash, pages, split);
    BuildDocsFresh(entries, source, fileHash, pages, split);
    DocsCarryHash(source, fileHash, pages, split);
    AddDocsKeys(entries, docs);
    forall id | id in entries
      ensures id in after && after[id] == entries[id]
    {
      AddDocsUntouched(entries, docs, id);
    }
    forall j | 0 <= j < |docs|
      ensures docs[j].id in after && after[docs[j].id] == Entry(docs[j].text, docs[j].metadata)
    {
      AddDocsStored(entries, docs, j);
    }
    forall h: string, p: int, i: nat | IsHexDigest(h) && ChunkId(h, p, i) in after
      ensures CarriesHash(after[ChunkId(h, p, i)].metadata, h)
    {
      var id := ChunkId(h, p, i);
      if id in entries {
        assert after[id] == entries[id];
      } else {
        assert id in (set k | 0 <= k < |docs| :: docs[k].id);
        var j :| 0 <= j < |docs| && docs[j].id == id;
        var k, i' := BuildDocsEachChunk(source, fileHash, pages, split, j);
        ChunkIdInjective(h, p, i, fileHash, pages[k].page, i');
        assert after[id] == Entry(docs[j].text, docs[j].metadata);
      }
    }
  }

  // ---------------------------------------------------------------- ingest_path

  /**
   * `ingest_path` on `file` against the collections `cols`: hash, look the hash up, stop
   * when it is found, otherwise load the pages, build the docs and add them. `lookup` and
   * `insert` say which client calls raise during `file_exists` and `add_documents_to_chroma`.
   */
  function Ingestion(cols: Collections, libs: Libraries, file: SourceFile, lookup: Faults, insert: Faults): (run: IngestRun)
    ensures run.result.Success? ==> run.result.value.fileHash == libs.digest(file.bytes)
    ensures run.result.Success? && run.result.value.skipped ==> run.result.value.added == 0
    ensures run.result.Success? && !run.result.value.skipped ==>
      LoadFileText(file).Success? && run.result.value.added == ChunkCount(LoadFileText(file).value, libs.split)
  {
    var fileHash := libs.digest(file.bytes);
    var found := Lookup(cols, DEFAULT_COLLECTION, fileHash, lookup);
    if found.result.Failure? then IngestRun(Failure(StoreFailure(found.result.error)), found.collections)
    else if found.result.value then IngestRun(Success(IngestOutcome(true, 0, fileHash)), found.collections)
    else
      match LoadFileText(file)
      case Failure(e) => IngestRun(Failure(e), found.collections)
      case Success(pages) =>
        var docs := BuildDocs(FileName(file.path), fileHash, pages, libs.split);
        BuildDocsLength(FileName(file.path), fileHash, pages, libs.split);
        var added := Insert(found.collections, DEFAULT_COLLECTION, docs, insert);
        match added.result
        case Failure(e) => IngestRun(Failure(StoreFailure(e)), added.collections)
        case Success(n) => IngestRun(Success(IngestOutcome(false, n, fileHash)), added.collections)
  }

  /**
   * The nested loop of `ingest_path`: one doc per chunk, page after page, appended to
   * `docs` in order.
   */
  method AssembleDocs(sourceName: string, fileHash: string, pageDataList: seq<PageData>, split: string -> seq<string>)
      returns (docs: seq<Doc>)
    ensures docs == BuildDocs(sourceName, fileHash, pageDataList, split)
  {
    docs := [];
    var k := 0;
    while k < |pageDataList|
      invariant 0 <= k <= |pageDataList|
      invariant docs == BuildDocs(sourceName, fileHash, pageDataList[..k], split)
    {
      var pageText := pageDataList[k].text;
      var pageNum := pageDataList[k].page;
      var chunks := split(pageText);
      var i := 0;
      while i < |chunks|
        invariant 0 <= i <= |chunks|
        invariant docs == BuildDocs(sourceName, fileHash, pageDataList[..k], split)
                          + PageDocs(sourceName, fileHash, pageNum, chunks[..i])
      {
        var chunk := chunks[i];
        assert PageDocs(sourceName, fileHash, pageNum, chunks[..i + 1])
          == PageDocs(sourceName, fileHash, pageNum, chunks[..i]) + [ChunkDoc(sourceName, fileHash, pageNum, i, chunk)];
        docs := docs + [Doc(
          fileHash + "_p" + IntToDecimal(pageNum) + "_" + NatToDecimal(i),
          chunk,
          map["source" := Str(sourceName), FILE_HASH := Str(fileHash), "page" := Int(pageNum), "chunk_on_page" := Int(i)])];
        i := i + 1;
      }
      assert chunks[..i] == chunks;
      assert pageDataList[..k + 1][..k] == pageDataList[..k];
      k := k + 1;
    }
    assert pageDataList[..k] == pageDataList;
  }

  /** `ingest_path`, against the client's state `store`. */
  method IngestPath(store: Store, libs: Libraries, file: SourceFile, lookup: Faults, insert: Faults)
      returns (r: Result<IngestOutcome, IngestError>)
    modifies store
    ensures r == Ingestion(old(store.collections), libs, file, lookup, insert).result
    ensures store.collections == Ingestion(old(store.collections), libs, file, lookup, insert).collections
  {
    var fileHash, _ := ComputeFileHash(file.bytes, libs.digest);
    var found := store.FileExists(fileHash, DEFAULT_COLLECTION, lookup);
    if found.Failure? {
      return Failure(StoreFailure(found.error));
    }
    if found.value {
      return Success(IngestOutcome(true, 0, fileHash));
    }
    var loaded := LoadFileText(file);
    if loaded.Failure? {
      return Failure(loaded.error);
    }
    var docs := AssembleDocs(FileName(file.path), fileHash, loaded.value, libs.split);
    var added := store.AddDocuments(docs, DEFAULT_COLLECTION, insert);
    if added.Failure? {
      return Failure(StoreFailure(added.error));
    }
    return Success(IngestOutcome(false, added.value, fileHash));
  }

  /**
   * The SKIP short-circuit: `ingest_path` reports `(True, 0, hash)` exactly when the lookup
   * succeeds and finds the hash, and then nothing is loaded and the collections stay as they were.
   */
  lemma SkipIffStored(cols: Collections, libs: Libraries, file: SourceFile, lookup: Faults, insert: Faults)
    ensures var run := Ingestion(cols, libs, file, lookup, insert);
      var fileHash := libs.digest(file.bytes);
      && (run.result.Success? && run.result.value.skipped <==>
           Reachable(cols, DEFAULT_COLLECTION, lookup) && !lookup.callFails
           && DEFAULT_COLLECTION in cols && HoldsFileHash(cols[DEFAULT_COLLECTION], fileHash))
      && (run.result.Success? && run.result.value.skipped ==>
           run == IngestRun(Success(IngestOutcome(true, 0, fileHash)), cols))
  {
  }

  /**
   * A file that is not skipped is stored in full: `added` counts every chunk of every page,
   * and each chunk sits under `{hash}_p{page}_{i}` with its text and metadata.
   */
  lemma IngestedStoresEveryChunk(cols: Collections, libs: Libraries, file: SourceFile, lookup: Faults, insert: Faults, k: nat, i: nat)
    requires var run := Ingestion(cols, libs, file, lookup, insert);
      run.result.Success? && !run.result.value.skipped
    requires LoadFileText(file).Success?
    requires var pages := LoadFileText(file).value; k < |pages| && i < |libs.split(pages[k].text)|
    ensures var run := Ingestion(cols, libs, file, lookup, insert);
      var fileHash := libs.digest(file.bytes);
      var page := LoadFileText(file).value[k];
      var id := ChunkId(fileHash, page.page, i);
      && DEFAULT_COLLECTION in run.collections
      && id in run.collections[DEFAULT_COLLECTION]
      && run.collections[DEFAULT_COLLECTION][id] ==
           Entry(libs.split(page.text)[i], ChunkMetadata(FileName(file.path), fileHash, page.page, i))
  {
    var fileHash := libs.digest(file.bytes);
    var pages := LoadFileText(file).value;
    var source := FileName(file.path);
    var docs := BuildDocs(source, fileHash, pages, libs.split);
    BuildDocsAt(source, fileHash, pages, libs.split, k, i);
    LoadFileTextDispatch(file);
    NumberedPagesDistinct(pages);
    BuildDocsDistinctIds(source, fileHash, pages, libs.split);
    var cols' := Lookup(cols, DEFAULT_COLLECTION, fileHash, lookup).collections;
    AddDocsStoresEach(cols'[DEFAULT_COLLECTION], docs);
  }

  /**
   * Dedup idempotence: once a file has added chunks, ingesting the same bytes again, under
   * any name, is a skip that changes nothing, provided the lookup's client calls succeed.
   */
  lemma ReingestSkipped(cols: Collections, libs: Libraries, file: SourceFile, lookup: Faults, insert: Faults,
                        again: SourceFile, lookup': Faults, insert': Faults)
    requires var run := Ingestion(cols, libs, file, lookup, insert);
      run.result.Success? && run.result.value.added > 0
    requires again.bytes == file.bytes
    requires (!lookup'.getOrCreateFails || !lookup'.getFails) && !lookup'.callFails
    ensures var run := Ingestion(cols, libs, file, lookup, insert);
      Ingestion(run.collections, libs, again, lookup', insert')
        == IngestRun(Success(IngestOutcome(true, 0, libs.digest(file.bytes))), run.collections)
  {
    var run := Ingestion(cols, libs, file, lookup, insert);
    var fileHash := libs.digest(file.bytes);
    var pages := LoadFileText(file).value;
    var source := FileName(file.path);
    var docs := BuildDocs(source, fileHash, pages, libs.split);
    var cols' := Lookup(cols, DEFAULT_COLLECTION, fileHash, lookup).collections;
    DocsCarryHash(source, fileHash, pages, libs.split);
    AddDocsHoldsHash(cols'[DEFAULT_COLLECTION], docs, fileHash);
    SkipIffStored(run.collections, libs, again, lookup', insert');
  }

  /**
   * A file that added no chunk (an empty text, a PDF with no non-blank page) leaves no trace
   * of its hash, so the dedup gate never closes for it: ingesting it again is again not a
   * skip, adds 0 and changes nothing.
   */
  lemma EmptyFileNeverDeduplicated(cols: Collections, libs: Libraries, file: SourceFile, lookup: Faults, insert: Faults,
                                   lookup': Faults, insert': Faults)
    requires var run := Ingestion(cols, libs, file, lookup, insert);
      run.result.Success? && !run.result.value.skipped && run.result.value.added == 0
    requires (!lookup'.getOrCreateFails || !lookup'.getFails) && !lookup'.callFails
    ensures var run := Ingestion(cols, libs, file, lookup, insert);
      Ingestion(run.collections, libs, file, lookup', insert')
        == IngestRun(Success(IngestOutcome(false, 0, libs.digest(file.bytes))), run.collections)
  {
    var fileHash := libs.digest(file.bytes);
    var found := Lookup(cols, DEFAULT_COLLECTION, fileHash, lookup);
    var pages := LoadFileText(file).value;
    var docs := BuildDocs(FileName(file.path), fileHash, pages, libs.split);
    BuildDocsLength(FileName(file.path), fileHash, pages, libs.split);
    assert docs == [];
    var run := Ingestion(cols, libs, file, lookup, insert);
    assert run.collections == found.collections;
    var again := Lookup(run.collections, DEFAULT_COLLECTION, fileHash, lookup');
    assert again == StoreRun(Success(false), run.collections);
  }

  /** A file of an unsupported type never adds anything: it is skipped or it raises. */
  lemma UnsupportedNeverStores(cols: Collections, libs: Libraries, file: SourceFile, lookup: Faults, insert: Faults)
    requires !IsSupported(Extension(file.path))
    ensures var run := Ingestion(cols, libs, file, lookup, insert);
      && (run.result.Success? ==> run.result.value.skipped)
      && run.collections == Lookup(cols, DEFAULT_COLLECTION, libs.digest(file.bytes), lookup).collections
      && (run.result.Failure? && Lookup(cols, DEFAULT_COLLECTION, libs.digest(file.bytes), lookup).result == Success(false) ==>
            run.result.error == UnsupportedFileType(file.path))
  {
    LoadFileTextDispatch(file);
  }

  /**
   * With hex digests and a collection only `ingest_path` has written to, an ingestion never
   * overwrites an entry already stored, and the collection keeps that property.
   */
  lemma IngestKeepsStoredEntries(cols: Collections, libs: Libraries, file: SourceFile, lookup: Faults, insert: Faults)
    requires IsHexDigest(libs.digest(file.bytes))
    requires DEFAULT_COLLECTION in cols ==> IdsCarryHash(cols[DEFAULT_COLLECTION])
    ensures forall n :: n in cols ==> n in Ingestion(cols, libs, file, lookup, insert).collections
    ensures DEFAULT_COLLECTION in cols ==>
      Preserves(cols[DEFAULT_COLLECTION], Ingestion(cols, libs, file, lookup, insert).collections[DEFAULT_COLLECTION])
    ensures DEFAULT_COLLECTION in Ingestion(cols, libs, file, lookup, insert).collections ==>
      IdsCarryHash(Ingestion(cols, libs, file, lookup, insert).collections[DEFAULT_COLLECTION])
  {
    var fileHash := libs.digest(file.bytes);
    var found := Lookup(cols, DEFAULT_COLLECTION, fileHash, lookup);
    var cols' := found.collections;
    if DEFAULT_COLLECTION in cols' {
      assert IdsCarryHash(cols'[DEFAULT_COLLECTION]);
    }
    if found.result == Success(false) && LoadFileText(file).Success? {
      LoadFileTextDispatch(file);
      var pages := LoadFileText(file).value;
      var source := FileName(file.path);
      if DEFAULT_COLLECTION in cols' && Insert(cols', DEFAULT_COLLECTION, BuildDocs(source, fileHash, pages, libs.split), insert).result.Success? {
        AddFreshDocs(cols'[DEFAULT_COLLECTION], source, fileHash, pages, libs.split);
      }
    }
  }

  // ---------------------------------------------------------------- ingest_folder

  /** One file of the walk, with the client faults of its two store calls. */
  datatype FolderFile = FolderFile(file: SourceFile, lookup: Faults, insert: Faults)

  /** The outcomes of the files ingested so far, the exception that stopped the walk if any, and the collections. */
  datatype FolderRun = FolderRun(outcomes: seq<IngestOutcome>, failure: Option<IngestError>, collections: Collections)

  /** What an outcome says about its file: the file's own hash, and nothing added when skipped. */
  predicate Accounts(libs: Libraries, file: SourceFile, outcome: IngestOutcome) {
    && outcome.fileHash == libs.digest(file.bytes)
    && (outcome.skipped ==> outcome.added == 0)
  }

  /** `ingest_path` on one file of the walk, as a function of the collections before it. */
  function IngestPathOf(libs: Libraries): (Collections, FolderFile) -> IngestRun {
    (cols: Collections, f: FolderFile) => Ingestion(cols, libs, f.file, f.lookup, f.insert)
  }

  /** One turn of the walk: the file's outcome is appended, or its exception stops the walk. */
  function FolderStep(before: FolderRun, run: IngestRun): FolderRun {
    match run.result
    case Failure(e) => FolderRun(before.outcomes, Some(e), run.collections)
    case Success(o) => FolderRun(before.outcomes + [o], None, run.collections)
  }

  /**
   * The walk over `files` in order, each file ingested by `ingestPath` against the
   * collections the files before it left; the first exception ends it.
   */
  function Folder(cols: Collections, files: seq<FolderFile>, ingestPath: (Collections, FolderFile) -> IngestRun): (r: FolderRun)
    ensures |r.outcomes| <= |files|
    ensures r.failure.None? <==> |r.outcomes| == |files|
  {
    if files == [] then FolderRun([], None, cols)
    else
      var before := Folder(cols, files[..|files| - 1], ingestPath);
      if before.failure.Some? then before else FolderStep(before, ingestPath(before.collections, files[|files| - 1]))
  }

  /** A walk that has not stopped takes one more turn. */
  lemma FolderNext(cols: Collections, files: seq<FolderFile>, ingestPath: (Collections, FolderFile) -> IngestRun)
    requires files != [] && Folder(cols, files[..|files| - 1], ingestPath).failure.None?
    ensures Folder(cols, files, ingestPath) ==
      FolderStep(Folder(cols, files[..|files| - 1], ingestPath), ingestPath(Folder(cols, files[..|files| - 1], ingestPath).collections, files[|files| - 1]))
  {
  }

  /** A walk that has already stopped ignores one more file. */
  lemma FolderStopped(cols: Collections, files: seq<FolderFile>, ingestPath: (Collections, FolderFile) -> IngestRun)
    requires files != [] && Folder(cols, files[..|files| - 1], ingestPath).failure.Some?
    ensures Folder(cols, files, ingestPath) == Folder(cols, files[..|files| - 1], ingestPath)
  {
  }

  /** Every outcome `ingestPath` reports for a file accounts for that file. */
  ghost predicate AlwaysAccounts(libs: Libraries, ingestPath: (Collections, FolderFile) -> IngestRun) {
    forall cols: Collections, f: FolderFile :: ingestPath(cols, f).result.Success? ==> Accounts(libs, f.file, ingestPath(cols, f).result.value)
  }

  lemma IngestPathAccounts(libs: Libraries)
    ensures AlwaysAccounts(libs, IngestPathOf(libs))
  {
    forall cols: Collections, f: FolderFile | IngestPathOf(libs)(cols, f).result.Success?
      ensures Accounts(libs, f.file, IngestPathOf(libs)(cols, f).result.value)
    {
      assert IngestPathOf(libs)(cols, f) == Ingestion(cols, libs, f.file, f.lookup, f.insert);
    }
  }

  /** Outcome `k` is that of file `k`: it carries that file's hash, and 0 when skipped. */
  lemma {:induction false} FolderAccounts(cols: Collections, libs: Libraries, files: seq<FolderFile>,
                                          ingestPath: (Collections, FolderFile) -> IngestRun, k: nat)
    requires AlwaysAccounts(libs, ingestPath)
    requires k < |Folder(cols, files, ingestPath).outcomes|
    ensures Accounts(libs, files[k].file, Folder(cols, files, ingestPath).outcomes[k])
  {
    var n := |files|;
    var front := files[..n - 1];
    var before := Folder(cols, front, ingestPath);
    var r := Folder(cols, files, ingestPath);
    if before.failure.Some? {
      FolderStopped(cols, files, ingestPath);
      FolderAccounts(cols, libs, front, ingestPath, k);
      assert files[k] == front[k];
    } else {
      FolderNext(cols, files, ingestPath);
      var run := ingestPath(before.collections, files[n - 1]);
      if k < |before.outcomes| {
        FolderAccounts(cols, libs, front, ingestPath, k);
        assert r.outcomes[k] == before.outcomes[k];
        assert files[k] == front[k];
      } else {
        assert r.outcomes[k] == run.result.value && files[k] == files[n - 1];
      }
    }
  }

  /** `total`: the chunks added by the files that were not skipped. */
  function Total(outcomes: seq<IngestOutcome>): nat {
    if outcomes == [] then 0
    else
      var last := outcomes[|outcomes| - 1];
      Total(outcomes[..|outcomes| - 1]) + (if last.skipped then 0 else last.added)
  }

  /** Once a file has raised, the files after it are never ingested. */
  lemma {:induction false} FolderStopsAtFailure(cols: Collections, files: seq<FolderFile>,
                                                ingestPath: (Collections, FolderFile) -> IngestRun, m: nat)
    requires m <= |files|
    requires Folder(cols, files[..m], ingestPath).failure.Some?
    ensures Folder(cols, files, ingestPath) == Folder(cols, files[..m], ingestPath)
    decreases |files|
  {
    if m < |files| {
      var front := files[..|files| - 1];
      assert front[..m] == files[..m];
      FolderStopsAtFailure(cols, front, ingestPath, m);
      FolderStopped(cols, files, ingestPath);
    } else {
      assert files[..m] == files;
    }
  }

  function Added(outcomes: seq<IngestOutcome>): nat {
    if outcomes == [] then 0 else Added(outcomes[..|outcomes| - 1]) + outcomes[|outcomes| - 1].added
  }

  /** Skipped files add 0, so the walk's `total` is also the plain sum of the `added` values. */
  lemma {:induction false} TotalSumsAdded(libs: Libraries, files: seq<FolderFile>, outcomes: seq<IngestOutcome>)
    requires |outcomes| <= |files|
    requires forall k :: 0 <= k < |outcomes| ==> Accounts(libs, files[k].file, outcomes[k])
    ensures Total(outcomes) == Added(outcomes)
  {
    if outcomes != [] {
      TotalSumsAdded(libs, files, outcomes[..|outcomes| - 1]);
    }
  }

  /** The walk so far has not failed: the next file extends it by one step, and if that step fails the walk ends there. */
  lemma FolderAdvance(cols: Collections, files: seq<FolderFile>, ingestPath: (Collections, FolderFile) -> IngestRun,
                      k: nat, outcomes: seq<IngestOutcome>, now: Collections)
    requires k < |files| && Folder(cols, files[..k], ingestPath) == FolderRun(outcomes, None, now)
    ensures Folder(cols, files[..k + 1], ingestPath) == FolderStep(FolderRun(outcomes, None, now), ingestPath(now, files[k]))
    ensures ingestPath(now, files[k]).result.Failure? ==> Folder(cols, files, ingestPath) == Folder(cols, files[..k + 1], ingestPath)
  {
    assert files[..k + 1][..k] == files[..k];
    FolderNext(cols, files[..k + 1], ingestPath);
    if ingestPath(now, files[k]).result.Failure? {
      FolderStopsAtFailure(cols, files, ingestPath, k + 1);
    }
  }

  /**
   * One turn of the walk: `ingest_path` on file `k`, after files `0..k` have been ingested
   * without an exception. Its outcome extends the walk, or its exception ends it.
   */
  method IngestFolderFile(store: Store, libs: Libraries, files: seq<FolderFile>, k: nat,
                          ghost cols: Collections, ghost outcomes: seq<IngestOutcome>)
      returns (res: Result<IngestOutcome, IngestError>)
    modifies store
    requires k < |files| && Folder(cols, files[..k], IngestPathOf(libs)) == FolderRun(outcomes, None, store.collections)
    ensures res.Failure? ==> Folder(cols, files, IngestPathOf(libs)) == FolderRun(outcomes, Some(res.error), store.collections)
    ensures res.Success? ==> Folder(cols, files[..k + 1], IngestPathOf(libs)) == FolderRun(outcomes + [res.value], None, store.collections)
  {
    var f := files[k];
    FolderAdvance(cols, files, IngestPathOf(libs), k, outcomes, store.collections);
    assert IngestPathOf(libs)(store.collections, f) == Ingestion(store.collections, libs, f.file, f.lookup, f.insert);
    res := IngestPath(store, libs, f.file, f.lookup, f.insert);
  }

  /** `ingest_folder` over the files the walk yields: the total, or the first exception. */
  method IngestFolder(store: Store, libs: Libraries, files: seq<FolderFile>) returns (r: Result<nat, IngestError>)
    modifies store
    ensures var run := Folder(old(store.collections), files, IngestPathOf(libs));
      && r == (if run.failure.Some? then Failure(run.failure.value) else Success(Total(run.outcomes)))
      && store.collections == run.collections
  {
    var total := 0;
    ghost var outcomes: seq<IngestOutcome> := [];
    var k := 0;
    while k < |files|
      invariant 0 <= k <= |files|
      invariant Folder(old(store.collections), files[..k], IngestPathOf(libs)) == FolderRun(outcomes, None, store.collections)
      invariant total == Total(outcomes)
    {
      var res := IngestFolderFile(store, libs, files, k, old(store.collections), outcomes);
      if res.Failure? {
        return Failure(res.error);
      }
      if !res.value.skipped {
        total := total + res.value.added;
      }
      outcomes := outcomes + [res.value];
      k := k + 1;
    }
    assert files[..k] == files;
    return Success(total);
  }
}
