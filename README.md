# Document ingestion and prompt assembly, modelled in Dafny

This project models the core of a retrieval-augmented question-answering back end.

- **Ingestion** (`backend/app/ingest.py`):
  - hash a file's bytes;
  - skip the file when a chunk carrying that hash is already stored;
  - otherwise extract its pages by extension, with an OCR fallback for PDFs that have no text layer;
  - split each page into chunks;
  - give every chunk the id `{hash}_p{page}_{i}` and the metadata `source`/`file_hash`/`page`/`chunk_on_page`;
  - add the whole batch to the vector store in one call.

  `ingest_folder` runs this over a sequence of files and sums the chunks added.
- **Vector-store adapter** (`backend/app/embed_store.py`):
  - a Chroma client holding named collections;
  - `get_collection` with its three-step fallback;
  - `file_exists` as a `where` query on `file_hash`;
  - `add_documents_to_chroma`.
- **Page filtering** (`backend/app/ocr_utils.py`): the loops of both PDF extractors. They keep only non-blank pages and number them by their 1-based position.
- **Prompt assembly** (`backend/app/prompt.py`): numbered context blocks labelled with source and page, an explicit notice when there is no context, and the question embedded verbatim.

Foreign code becomes input:

- **SHA-256 and the splitter.** SHA-256 (`hashlib`) and `RecursiveCharacterTextSplitter.split_text` are the two functions of an `Ingest.Libraries` value.
- **File readers.** What the file reader, PyMuPDF, pdf2image with Tesseract, and Tesseract on an image would return for a file are the fields of an `Ingest.SourceFile`.
- **Client failures.** Which Chroma client calls raise during one adapter call is an `EmbedStore.Faults` value.

A raised exception is a `Failure` of a `Result`.

Each method in the table below is proved equal to a pure specification function. The properties are then proved about that function:

| Method | Specification function |
|---|---|
| `Store.FileExists` | `Lookup` |
| `Store.AddDocuments` | `Insert` |
| `IngestPath` | `Ingestion` |
| `IngestFolder` | `Folder` |
| `ConstructPrompt` | `PromptFor` |
| `NumberNonBlankPages` | `KeptPages` |
| `AssembleDocs` | `BuildDocs` |

The nested chunk loop of `ingest_path` is the separate method `AssembleDocs`, which `IngestPath` calls.

Modules:

- `Wrappers`: `Option` and `Result`.
- `PyText`: the Python string and path built-ins used. These are `str.strip`, `str.lower`, `str(int)`, `PurePath.name` and `PurePath.suffix`.
- `OcrUtils`, `EmbedStore`, `Ingest` and `Prompt`: one per source file.

Three behaviours of the code worth knowing:

- **The folder walk aborts.** `ingest_folder` has no `try`: the first exception aborts the walk (`Ingest.FolderStopsAtFailure`).
- **Unsupported files can come back skipped.** A file whose hash is already stored is skipped before its extension is looked at, so an unsupported file can come back skipped; it never adds anything (`Ingest.UnsupportedNeverStores`).
- **Files without chunks are never deduplicated.** A file that yields no chunk (an empty text file, a PDF with no non-blank page) stores nothing, so `file_exists` stays false for its hash and every later ingestion of it, while the lookup's client calls succeed, returns `(False, 0, hash)` again (`Ingest.EmptyFileNeverDeduplicated`).

The definitions that carry the code's behaviour, and the lemmas that state their properties:

- `Ingest.LoadFileText` (`backend/app/ingest.py:22-44`): `Ingest.LoadFileTextDispatch`, `Ingest.LoadPdf`, `Ingest.AcceptedInAnyCase`.
- `Ingest.ChunkId` and `Ingest.ChunkMetadata` (`backend/app/ingest.py:78-85`): `Ingest.ChunkIdInjective`, `Ingest.ChunkIdInjectiveSameHash`, `Ingest.DocsCarryHash`.
- `Ingest.BuildDocs` (`backend/app/ingest.py:64-86`): `Ingest.BuildDocsAt`, `Ingest.BuildDocsEachChunk`, `Ingest.BuildDocsLength`, `Ingest.BuildDocsDistinctIds`.
- `OcrUtils.KeptPages` (`backend/app/ocr_utils.py:17-21`, `26-30`): `OcrUtils.KeptPagesSound`, `OcrUtils.KeptPagesComplete`, `OcrUtils.NoTextIffNoPages`.
- `EmbedStore.ChromaAdd` (`backend/app/embed_store.py:50-54`), applied to a batch by `EmbedStore.AddDocs`: `EmbedStore.AddDocsKeys`, `EmbedStore.AddDocsUntouched`, `EmbedStore.AddDocsStored`, `EmbedStore.AddDocsStoresEach`.
- `Prompt.Render`, `Prompt.Blocks` and `Prompt.PromptFor` (`backend/app/prompt.py:11-34`): `Prompt.Field`, `Prompt.BlocksAt`, `Prompt.BlocksFailIffMissingText`, `Prompt.NoticeIffNoContexts`, `Prompt.QuestionVerbatim`.

## Model

| member | source | states |
|---|---|---|
| PyText.StripTruthIsHasContent | backend/app/ocr_utils.py:20 | `text.strip()` is truthy exactly when the text holds a non-whitespace character |
| PyText.LStrip | backend/app/ocr_utils.py:20 | the result is the longest suffix not starting with whitespace; everything dropped is whitespace |
| PyText.RStrip | backend/app/ocr_utils.py:20 | the result is the longest prefix not ending with whitespace; everything dropped is whitespace |
| PyText.FileName | backend/app/ingest.py:65 | `Path(p).name` is a suffix of the path and holds no `/` |
| PyText.FileNameAfterLastSlash | backend/app/ingest.py:65 | the name is everything after the last `/`: it is the whole path, or the character before it is a `/` |
| PyText.Suffix | backend/app/ingest.py:27 | `Path(p).suffix`, when non-empty, is a dot followed by at least one dot-free character, taken from the end of the name; it is empty when the name has no dot |
| PyText.SuffixWhenNonEmpty | backend/app/ingest.py:27 | the suffix is non-empty exactly when the name has a dot that is neither its first nor its last character and no dot after it |
| PyText.LowerRespectsCase | backend/app/ingest.py:27 | strings that agree up to case lower-case alike, and a string without upper-case letters is its own lower case |
| PyText.NatToDecimal | backend/app/ingest.py:78 | `str(i)` is a non-empty run of digits without a leading zero |
| PyText.NatToDecimalInjective | backend/app/ingest.py:78 | distinct chunk indices print differently |
| PyText.IntToDecimalInjective | backend/app/ingest.py:78 | distinct page numbers print differently |
| OcrUtils.NumberNonBlankPages | backend/app/ocr_utils.py:15-32 | the page loop shared by `ocr_pdf` and `extract_text_from_pdf_with_pymupdf` returns exactly `KeptPages` of the page texts |
| OcrUtils.KeptPagesSound | backend/app/ocr_utils.py:18-21 | every kept page is a non-blank source page, its raw unstripped text, numbered by its 1-based position; numbers are at least 1 and strictly increase; no more pages than the source has |
| OcrUtils.KeptPagesComplete | backend/app/ocr_utils.py:27-30 | every non-blank source page is kept, under its 1-based position |
| OcrUtils.NoTextIffNoPages | backend/app/ingest.py:36-37 | `not any(p["text"] ...)` holds exactly when the extracted list is empty, exactly when every page is blank |
| EmbedStore.GetWhere | backend/app/embed_store.py:39 | `col.get(where, limit)` returns distinct matching ids, `min(limit, number of matches)` of them |
| EmbedStore.HashFilterMatches | backend/app/embed_store.py:39 | the filter `{"file_hash": h}` matches exactly the metadata carrying `file_hash == h` |
| EmbedStore.WithCollection | backend/app/embed_store.py:23-34 | fetching or creating a collection adds at most that name, empty when new, and leaves the other collections as they were |
| EmbedStore.Store.GetCollection | backend/app/embed_store.py:23-34 | get-or-create, then get, then create, at most three attempts in that order; succeeds exactly when one of them can |
| EmbedStore.Lookup | backend/app/embed_store.py:37-40 | `file_exists` succeeds iff a collection is obtained and the query does not raise, and then returns true iff some stored entry carries the hash |
| EmbedStore.Store.FileExists | backend/app/embed_store.py:37-40 | the method returns and leaves exactly what `Lookup` says |
| EmbedStore.Insert | backend/app/embed_store.py:43-59 | an empty batch returns 0 and changes nothing. Otherwise the call succeeds iff a collection is obtained and `col.add` does not raise, and then returns `len(docs)`. Other collections are untouched |
| EmbedStore.Store.AddDocuments | backend/app/embed_store.py:43-59 | the method returns and leaves exactly what `Insert` says |
| EmbedStore.PersistFailureSwallowed | backend/app/embed_store.py:55-58 | whether `client.persist()` raises changes neither the result nor the stored state |
| EmbedStore.AddDocsKeys | backend/app/embed_store.py:54 | after `col.add` the stored ids are the old ones plus the batch's ids |
| EmbedStore.AddDocsUntouched | backend/app/embed_store.py:54 | an entry whose id is not in the batch keeps its text and metadata |
| EmbedStore.AddDocsStored | backend/app/embed_store.py:50-54 | with distinct ids, doc `k` is stored under `ids[k]` with `texts[k]` and `metadatas[k]`: the three lists are index-aligned |
| EmbedStore.AddDocsStoresEach | backend/app/embed_store.py:50-54 | with distinct ids, every doc is stored under its id, and every other entry is unchanged |
| EmbedStore.AddDocsHoldsHash | backend/app/embed_store.py:39 | after adding a non-empty batch whose docs carry `file_hash == h`, `file_exists(h)` holds |
| Ingest.ComputeFileHash | backend/app/ingest.py:14-19 | the blocks read are non-empty, at most 1 MiB each, and concatenate to the whole file; the digest is that of the file's bytes |
| Ingest.ExtensionIgnoresCase | backend/app/ingest.py:27 | two paths whose suffixes agree up to case have the same extension, so `load_file_text` dispatches them alike |
| Ingest.AcceptedAreLowerCase | backend/app/ingest.py:29-40 | the seven accepted extensions are written in lower case |
| Ingest.AcceptedInAnyCase | backend/app/ingest.py:27-40 | any case spelling of an accepted extension, such as `.PDF`, `.Md` or `.tIFF`, is that extension |
| Ingest.LoadFileTextDispatch | backend/app/ingest.py:22-44 | `.txt`/`.md` and the image types give one page numbered 1 with the reader's text; `.pdf` gives PyMuPDF's pages, or OCR's exactly when PyMuPDF kept none; any other extension raises `Unsupported file type: {path}`; page numbers strictly increase |
| Ingest.LoadPdf | backend/app/ingest.py:33-38 | the PDF branch returns PyMuPDF's pages unless there are none, and then OCR's |
| Ingest.ChunkIdInjectiveSameHash | backend/app/ingest.py:78 | under one hash, the id `{hash}_p{page}_{i}` determines page and index |
| Ingest.ChunkIdInjective | backend/app/ingest.py:78 | for hex digests the id determines hash, page and index, so ids of different files never collide |
| Ingest.BuildDocsLength | backend/app/ingest.py:64-86 | the docs list has as many entries as all pages have chunks together; a page with no chunk adds nothing |
| Ingest.BuildDocsAt | backend/app/ingest.py:68-86 | chunk `i` of page `k` sits right after all chunks of the earlier pages, with id `{hash}_p{page}_{i}`, the chunk text and metadata `{source, file_hash, page, chunk_on_page: i}` |
| Ingest.BuildDocsEachChunk | backend/app/ingest.py:68-86 | conversely, every doc is some chunk `i` of some page `k`, at that position |
| Ingest.DocsCarryHash | backend/app/ingest.py:80-85 | every doc's metadata carries the file's hash |
| Ingest.BuildDocsDistinctIds | backend/app/ingest.py:78 | with distinct page numbers, the ids of one ingestion are pairwise distinct |
| Ingest.BuildDocsIdsIgnoreSource | backend/app/ingest.py:65-78 | given the same hash and pages, the ids do not depend on the file name |
| Ingest.SameContentSameIds | backend/app/ingest.py:56-78 | two files with the same bytes whose readers give the same pages get the same ids, whatever their names |
| Ingest.BuildDocsFresh | backend/app/ingest.py:58-78 | for a hex digest, in a collection only ingestion has written to (`IdsCarryHash`), when no entry carries the hash, none of the ids built for it is stored yet |
| Ingest.AddFreshDocs | backend/app/ingest.py:88 | for a hex digest, in a collection only ingestion has written to (`IdsCarryHash`), and pages with strictly increasing numbers, adding a new file's docs keeps every stored entry, stores every doc under its id, and keeps ids tied to their hash |
| Ingest.Ingestion | backend/app/ingest.py:52-89 | the returned hash is the file's digest; a skip adds 0; otherwise the pages loaded and `added` is their total chunk count |
| Ingest.AssembleDocs | backend/app/ingest.py:64-86 | the nested loop appends exactly `BuildDocs`: pages in order, chunks in order within a page |
| Ingest.IngestPath | backend/app/ingest.py:52-89 | the method returns and leaves exactly what `Ingestion` says |
| Ingest.SkipIffStored | backend/app/ingest.py:57-59 | `(True, 0, hash)` comes back exactly when the lookup succeeds and finds the hash; the collections are then exactly as the lookup left them, and nothing is loaded or added |
| Ingest.IngestedStoresEveryChunk | backend/app/ingest.py:68-89 | after an ingestion that is not skipped, chunk `i` of page `k` is stored under `{hash}_p{page}_{i}` with its text and metadata |
| Ingest.ReingestSkipped | backend/app/ingest.py:57-59 | after a file added chunks, ingesting the same bytes again, under any name, is a skip that changes nothing, when the lookup's client calls succeed |
| Ingest.EmptyFileNeverDeduplicated | backend/app/ingest.py:58-59 | after an ingestion that added 0 chunks, ingesting the same file again, with the lookup's client calls succeeding, is again not a skip, adds 0 and changes nothing |
| Ingest.UnsupportedNeverStores | backend/app/ingest.py:57-62 | a file with an unsupported extension is skipped or raises, never adds; it raises `Unsupported file type` when the lookup succeeds and does not find its hash |
| Ingest.IngestKeepsStoredEntries | backend/app/ingest.py:52-89 | for hex digests and a collection only ingestion has written to (every stored id `{h}_p{page}_{i}` carries `file_hash == h`), an ingestion never removes a collection or overwrites a stored entry, and keeps ids tied to their hash |
| Ingest.Folder | backend/app/ingest.py:92-99 | the walk reports one outcome per file ingested, and stops early exactly when a file raised |
| Ingest.IngestPathAccounts | backend/app/ingest.py:52-89 | every outcome of `ingest_path` carries its file's digest and adds 0 when skipped |
| Ingest.FolderAccounts | backend/app/ingest.py:96-98 | outcome `k` of the walk is file `k`'s: its hash, and 0 added when skipped |
| Ingest.FolderStopsAtFailure | backend/app/ingest.py:95-96 | once a file raises, the files after it are never ingested |
| Ingest.TotalSumsAdded | backend/app/ingest.py:97-98 | summing `added` over non-skipped files equals summing it over all files |
| Ingest.FolderAdvance | backend/app/ingest.py:94-98 | while no file has raised, the next file extends the walk by one turn, and if that turn raises the walk ends there |
| Ingest.IngestFolderFile | backend/app/ingest.py:96-98 | one turn of the loop: `ingest_path` on the next file appends its outcome to the walk, or its exception is the walk's |
| Ingest.IngestFolder | backend/app/ingest.py:92-99 | returns the total added over non-skipped files, or the first exception, and leaves the collections the walk leaves |
| Prompt.Field | backend/app/prompt.py:12-14 | `source` and `page` print the metadata value, or `N/A` when the key or the whole metadata is missing |
| Prompt.ConstructPrompt | backend/app/prompt.py:2-35 | the loop and f-string return exactly `PromptFor`, or the `KeyError` of the first context without text |
| Prompt.BlocksFailAt | backend/app/prompt.py:17-18 | a context without text, reached with all earlier blocks built, fails the whole list at its index |
| Prompt.BlocksFailIffMissingText | backend/app/prompt.py:11-19 | building the blocks fails exactly when some context has no text, and reports the first such context |
| Prompt.BlocksAt | backend/app/prompt.py:11-19 | block `k` is numbered `k+1`, shows its context's source and page, holds its text verbatim between the START and END markers, and follows the blocks of all earlier contexts |
| Prompt.BlocksStartWithMarker | backend/app/prompt.py:17 | non-empty blocks begin with the START marker `--- START CONTEXT ` (so they are never the no-context notice) |
| Prompt.NoticeIffNoContexts | backend/app/prompt.py:7-9 | with no contexts the section is exactly the notice and cannot fail; otherwise the section is never the notice |
| Prompt.QuestionVerbatim | backend/app/prompt.py:21-34 | the prompt starts with the instructions, ends with the citation footer, and holds the question verbatim right after `**Question:**` |
| Prompt.PromptDeterminesQuestion | backend/app/prompt.py:29-30 | with the same contexts, different questions give different prompts |
| Prompt.IngestedChunkLabel | backend/app/prompt.py:12-17 | a context whose metadata an ingested chunk supplied is labelled with that file's name and page number |

## Left out

- SHA-256 itself: the digest is an arbitrary function of the bytes fed to it. `Ingest.IsHexDigest` is a stated assumption of the lemmas that compare ids of different files; it is not derived.
- The text splitter's chunk size and overlap (`chunk_texts`, `CHUNK_SIZE`, `CHUNK_OVERLAP`): the splitter is an arbitrary function from a page's text to its chunks.
- Tesseract, pdf2image, PyMuPDF and PIL, so `ocr_image_pil` entirely: only the loops around them are modelled, over the page texts they would return. Extraction errors and I/O errors from these libraries and from `open`/`read_text` are not modelled.
- `Path.read_text(encoding="utf-8", errors="ignore")`: decoding is part of the reader's output, not modelled.
- `str.lower` is modelled on ASCII letters only; for the seven accepted extensions this decides the same as Python's full Unicode lower-casing.
- `PurePath.suffix`/`.name` are modelled on `/`-separated strings, without pathlib's normalisation of repeated or trailing separators.
- The unused `mimetypes.guess_type` result.
- The walk of `ingest_folder` (`rglob`, `is_file`): the files come as a sequence, in the walk's order.
- Chroma internals:
  - client construction and the duckdb fallback;
  - the embedding function;
  - `collection.query` and its similarity ranking;
  - persistence format.

  A collection is the id-keyed map the adapter reads and writes.
- Chroma's handling of repeated ids: `col.add` is modelled as an upsert, so a later document wins both over an earlier one in the same batch and over an entry already stored under that id, whereas Chroma's `add` keeps an id it already holds. Within one ingestion the ids are proved distinct, and with hex digests and a collection only ingestion has written to they are proved fresh (`Ingest.AddFreshDocs`), so this choice does not affect what such an ingestion stores; `Ingest.IngestedStoresEveryChunk` and `Ingest.ReingestSkipped` have no freshness premise and rely on the upsert reading: under a keep-existing `add`, a batch whose ids are all stored already under other hashes would store nothing carrying the new hash, and re-ingesting that file would not be a skip.
- `client.persist()`: durability is not modelled, so the call has no effect in the model; only its swallowed exception is (`EmbedStore.PersistFailureSwallowed`).
- EmbedStore.GetWhere: which matching ids `col.get` returns is Chroma's choice; the model fixes only their number and that they match.
- Float and `None` metadata values. A `metadata` key bound to `None`, which would make `construct_prompt` raise, is also not modelled.
- A context `text` that is not a string.
- The log line printed by `get_collection` on its first failure.
- The check-then-insert race between `file_exists` and `add_documents_to_chroma` under concurrent requests: calls are sequential.
- backend/app/qa_api.py, backend/app/llm_router.py and backend/app/config.py: HTTP routing, temporary files, network calls to model providers and environment loading are not part of this model.
