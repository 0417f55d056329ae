/**
 * `PDFMetadataExtractor` of the top-level pdf_metadata_extractor.py, the first
 * revision. It renames each PDF inside its own directory instead of copying it,
 * asks the model once with at most two pages, and lists only "*.pdf" files. Its
 * `sanitize_filename` is the one of the later revisions; its author rule is that
 * of src/pdf_metadata_extractor.py, applied to the sanitized field with no list
 * handling; its reply clean-up and parsing are those of
 * src/pdf_metadata_extractor.py, without the retry loop around them.
 */
module FirstRevision {
  import opened Wrappers
  import opened Text
  import opened Json
  import FileNaming
  import opened FileManager
  import opened PdfProcessor
  import M = MetadataExtractor
  import MR = MonolithRevision
  import O = Orchestrator

  // ------------------------------------------------------------ naming

  /** `create_new_filename(metadata)` (pdf_metadata_extractor.py:49-63): year, author
      and title are sanitized in that order, the first non-string raising; the
      author rule then cuts the sanitized author. */
  function CreateNewFilename(meta: Dict): Result<string> {
    var year := FileNaming.SanitizeValue(GetOr(meta, "year", JStr("Unknown")));
    var author := FileNaming.SanitizeValue(GetOr(meta, "author", JStr("Unknown")));
    var title := FileNaming.SanitizeValue(GetOr(meta, "title", JStr("Unknown")));
    if year.Err? then Err(year.message)
    else if author.Err? then Err(author.message)
    else if title.Err? then Err(title.message)
    else Ok(FileNaming.Assemble(year.value, MR.FirstAuthor(author.value), title.value))
  }

  /** Every generated name is three safe components around " - " ending in ".pdf",
      with no "/", so it names one entry of the PDF's own directory. */
  lemma CreateNewFilenameSafe(meta: Dict)
    requires CreateNewFilename(meta).Ok?
    ensures var name := CreateNewFilename(meta).value;
      && (forall i :: 0 <= i < |name| ==> FileNaming.SafeChar(name[i]))
      && FileNaming.PdfName(name)
  {
    var y := GetOr(meta, "year", JStr("Unknown"));
    var a := GetOr(meta, "author", JStr("Unknown"));
    var t := GetOr(meta, "title", JStr("Unknown"));
    FileNaming.SanitizeValueSafe(y);
    FileNaming.SanitizeValueSafe(a);
    FileNaming.SanitizeValueSafe(t);
    MR.FirstAuthorSafe(FileNaming.SanitizeValue(a).value);
    FileNaming.AssembleSafe(FileNaming.SanitizeValue(y).value, MR.FirstAuthor(FileNaming.SanitizeValue(a).value),
                            FileNaming.SanitizeValue(t).value);
  }

  /** With a string author, this revision and src/pdf_metadata_extractor.py build the
      same name, or fail with the same message. */
  lemma StringAuthorSameName(meta: Dict)
    requires GetOr(meta, "author", JStr("Unknown")).JStr?
    ensures CreateNewFilename(meta) == MR.CreateNewFilename(meta)
  {
    SanitizeString(GetOr(meta, "author", JStr("Unknown")).s);
  }

  /** On a string both revisions' author paths sanitize the same text. */
  lemma SanitizeString(s: string)
    ensures FileNaming.SanitizeValue(JStr(s)) == Ok(FileNaming.Sanitize(s))
    ensures FileNaming.AuthorText(JStr(s)) == s
  {
  }

  /** A list of authors makes `re.sub` raise here, so the file is not renamed. */
  lemma ListAuthorFails(meta: Dict)
    requires FileNaming.SanitizeValue(GetOr(meta, "year", JStr("Unknown"))).Ok?
    requires var a := GetOr(meta, "author", JStr("Unknown")); a.JList? && a.items != []
    ensures CreateNewFilename(meta) == Err(FileNaming.TypeErrorMessage(GetOr(meta, "author", JStr("Unknown"))))
  {
    var y := FileNaming.SanitizeValue(GetOr(meta, "year", JStr("Unknown")));
    var a := FileNaming.SanitizeValue(GetOr(meta, "author", JStr("Unknown")));
    assert a == Err(FileNaming.TypeErrorMessage(GetOr(meta, "author", JStr("Unknown"))));
    assert CreateNewFilename(meta) == Err(a.message);
  }

  /** The same record gives a name in src/pdf_metadata_extractor.py, which takes the
      list's first author, whenever its year and title are usable. */
  lemma ListAuthorNamedLater(meta: Dict)
    requires FileNaming.SanitizeValue(GetOr(meta, "year", JStr("Unknown"))).Ok?
    requires FileNaming.SanitizeValue(GetOr(meta, "title", JStr("Unknown"))).Ok?
    requires var a := GetOr(meta, "author", JStr("Unknown")); a.JList? && a.items != []
    ensures CreateNewFilename(meta).Err? && MR.CreateNewFilename(meta).Ok?
  {
    ListAuthorFails(meta);
  }

  // ------------------------------------------------------------ renaming

  /** The dictionary `rename_pdf_file` returns (pdf_metadata_extractor.py:84-105). */
  datatype RenameResult =
    | Renamed(oldFilename: string, newFilename: string, oldPath: string, newPath: string)
    | SameFilename(filename: string)
    | RenameFailed(error: string, oldFilename: string)

  /** The result as the dictionary `process_pdf` stores under `rename_info`. */
  function RenameInfo(r: RenameResult): Dict {
    match r
    case Renamed(oldName, newName, oldPath, newPath) =>
      [Field("renamed", JBool(true)), Field("old_filename", JStr(oldName)), Field("new_filename", JStr(newName)),
       Field("old_path", JStr(oldPath)), Field("new_path", JStr(newPath))]
    case SameFilename(name) =>
      [Field("renamed", JBool(false)), Field("reason", JStr("Same filename")), Field("filename", JStr(name))]
    case RenameFailed(error, oldName) =>
      [Field("renamed", JBool(false)), Field("error", JStr(error)), Field("old_filename", JStr(oldName))]
  }

  /** `renamed` is true exactly for a move, and each kind of result reports its
      names, its reason or its error under the source's keys. */
  lemma RenameInfoLaws(r: RenameResult)
    ensures Truthy(GetOr(RenameInfo(r), "renamed", JNull)) <==> r.Renamed?
    ensures r.Renamed? ==>
              GetOr(RenameInfo(r), "old_filename", JNull) == JStr(r.oldFilename) &&
              GetOr(RenameInfo(r), "new_filename", JNull) == JStr(r.newFilename)
    ensures r.SameFilename? ==>
              GetOr(RenameInfo(r), "reason", JNull) == JStr("Same filename") &&
              GetOr(RenameInfo(r), "filename", JNull) == JStr(r.filename)
    ensures r.RenameFailed? ==>
              GetOr(RenameInfo(r), "error", JNull) == JStr(r.error) &&
              GetOr(RenameInfo(r), "old_filename", JNull) == JStr(r.oldFilename)
  {
    var d := RenameInfo(r);
    GetFirst(d, 0);
    GetFirst(d, 1);
    GetFirst(d, 2);
  }

  /** `str(Path(path).parent / name)`: `name` in the directory of `path`. */
  function Sibling(path: string, name: string): string {
    match RFindChar(path, '/')
    case Some(i) => path[..i + 1] + name
    case None => name
  }

  /** A sibling path has the new name as its base name. */
  lemma BasenameOfSibling(path: string, name: string)
    requires '/' !in name
    ensures Basename(Sibling(path, name)) == name
  {
    match RFindChar(path, '/')
    case Some(i) =>
      assert path[..i + 1] == path[..i] + ['/'];
      RFindCharLast(path[..i], '/', name);
      assert Sibling(path, name) == path[..i] + ['/'] + name;
      assert (path[..i] + ['/'] + name)[i + 1..] == name;
    case None =>
  }

  /** The loop of lines 76-81 stops at the `k`-th slot of `base` for the file named
      `current`: that slot is free or is the file itself, and every earlier slot is
      taken by another file. */
  predicate StopsAt(existing: set<string>, base: string, current: string, k: nat) {
    && (Slot(base, k) !in existing || Slot(base, k) == current)
    && forall j :: 0 <= j < k ==> Slot(base, j) in existing && Slot(base, j) != current
  }

  /** The loop stops at one slot only. */
  lemma StopsAtUnique(existing: set<string>, base: string, current: string, j: nat, k: nat)
    requires StopsAt(existing, base, current, j) && StopsAt(existing, base, current, k)
    ensures j == k
  {
  }

  /** The collision loop over the names of the PDF's directory. It runs at most once
      per name in the directory. */
  method StopName(existing: set<string>, base: string, current: string) returns (name: string, k: nat)
    ensures StopsAt(existing, base, current, k) && name == Slot(base, k)
    ensures k <= |existing|
  {
    name := base;
    var counter := 1;
    var stem := PathStem(base);
    ghost var tried: set<string> := {};
    while name in existing && name != current
      invariant counter >= 1
      invariant name == Slot(base, counter - 1)
      invariant tried == SlotSet(base, counter - 1)
      invariant tried <= existing && current !in tried
      invariant |tried| == counter - 1
      decreases |existing| - |tried|
    {
      SlotSetMembers(base, counter - 1);
      tried := tried + {name};
      SlotSetSize(base, counter);
      name := Candidate(stem, counter);
      counter := counter + 1;
      if |tried| > |existing| {
        SubsetSize(tried, existing);
      }
    }
    k := counter - 1;
    SlotSetMembers(base, k);
    forall j | 0 <= j < k ensures Slot(base, j) in existing && Slot(base, j) != current {
      assert Slot(base, j) in tried;
    }
    SubsetSize(tried, existing);
  }

  /** The outcome once the loop chose `name`: nothing happens when it is the file's
      own name; otherwise the file moves there unless `shutil.move` raises. */
  ghost predicate Moved(oldPath: string, name: string, moveError: Option<string>, before: set<string>,
                        r: RenameResult, after: set<string>)
  {
    var current := Basename(oldPath);
    if name == current then r == SameFilename(current) && after == before
    else if moveError.Some? then r == RenameFailed(moveError.value, current) && after == before
    else r == Renamed(current, name, oldPath, Sibling(oldPath, name)) && after == before - {current} + {name}
  }

  /** What `rename_pdf_file(old_path, metadata)` (pdf_metadata_extractor.py:65-105)
      does to a directory holding `before`. `generated` is the outcome of building the
      name from the record and `moveError` stands for `shutil.move` raising; either
      failure gives `renamed: False` with the message and leaves the directory as it
      was. */
  ghost predicate RenamedAs(oldPath: string, generated: Result<string>, moveError: Option<string>,
                            before: set<string>, r: RenameResult, after: set<string>)
  {
    if generated.Err? then r == RenameFailed(generated.message, Basename(oldPath)) && after == before
    else exists k :: StopsAt(before, generated.value, Basename(oldPath), k)
                     && Moved(oldPath, Slot(generated.value, k), moveError, before, r, after)
  }

  /** The PDF's directory, seen as the set of names it holds. */
  class Folder {
    var names: set<string>

    constructor (names: set<string>)
      ensures this.names == names
    {
      this.names := names;
    }

    /** `rename_pdf_file`, specified by `RenamedAs`. */
    method RenamePdfFile(oldPath: string, meta: Dict, moveError: Option<string>) returns (r: RenameResult)
      modifies this
      ensures RenamedAs(oldPath, CreateNewFilename(meta), moveError, old(names), r, names)
    {
      var current := Basename(oldPath);
      var generated := CreateNewFilename(meta);
      if generated.Err? {
        return RenameFailed(generated.message, current);
      }
      var name, k := StopName(names, generated.value, current);
      ghost var before := names;
      if name == current {
        r := SameFilename(current);
      } else if moveError.Some? {
        r := RenameFailed(moveError.value, current);
      } else {
        names := names - {current} + {name};
        r := Renamed(current, name, oldPath, Sibling(oldPath, name));
      }
      assert StopsAt(before, generated.value, current, k) && Moved(oldPath, Slot(generated.value, k), moveError, before, r, names);
    }
  }

  /** `rename_pdf_file` is deterministic: the directory's contents and the call's
      outcome fix the result and the new contents. */
  lemma RenamedAsDeterministic(oldPath: string, generated: Result<string>, moveError: Option<string>, before: set<string>,
                               r1: RenameResult, after1: set<string>, r2: RenameResult, after2: set<string>)
    requires RenamedAs(oldPath, generated, moveError, before, r1, after1)
    requires RenamedAs(oldPath, generated, moveError, before, r2, after2)
    ensures r1 == r2 && after1 == after2
  {
    if generated.Ok? {
      var current := Basename(oldPath);
      var j: nat :| StopsAt(before, generated.value, current, j) && Moved(oldPath, Slot(generated.value, j), moveError, before, r1, after1);
      var k: nat :| StopsAt(before, generated.value, current, k) && Moved(oldPath, Slot(generated.value, k), moveError, before, r2, after2);
      StopsAtUnique(before, generated.value, current, j, k);
    }
  }

  /** A move never overwrites: the new name was free, differs from the old one, is a
      ".pdf" name inside the same directory, and the directory trades the old name for
      it. Every other outcome leaves the directory as it was. `generated` is any
      outcome of the name builder, whose names are ".pdf" names
      (`CreateNewFilenameSafe`). */
  lemma RenameNeverOverwrites(oldPath: string, generated: Result<string>, moveError: Option<string>,
                              before: set<string>, r: RenameResult, after: set<string>)
    requires generated.Ok? ==> FileNaming.PdfName(generated.value)
    requires RenamedAs(oldPath, generated, moveError, before, r, after)
    ensures !r.Renamed? ==> after == before
    ensures r.Renamed? ==>
              && r.oldFilename == Basename(oldPath) && r.oldPath == oldPath
              && r.newFilename !in before && r.newFilename != r.oldFilename
              && Contained(r.newFilename) && FileNaming.PdfName(r.newFilename)
              && r.newPath == Sibling(oldPath, r.newFilename)
              && after == before - {r.oldFilename} + {r.newFilename}
  {
    if generated.Ok? {
      var k: nat :| StopsAt(before, generated.value, Basename(oldPath), k)
               && Moved(oldPath, Slot(generated.value, k), moveError, before, r, after);
      SlotContained(generated.value, k);
    }
  }

  /** Trading a name for a free one keeps the number of files. */
  lemma RenameKeepsCount(before: set<string>, current: string, name: string)
    requires current in before && name !in before
    ensures |before - {current} + {name}| == |before|
  {
    var rest := before - {current};
    assert before == rest + {current};
    assert name !in rest;
  }

  /** A file that already carries the generated name stays where it is. */
  lemma AlreadyNamed(oldPath: string, moveError: Option<string>, before: set<string>, r: RenameResult, after: set<string>)
    requires RenamedAs(oldPath, Ok(Basename(oldPath)), moveError, before, r, after)
    ensures r == SameFilename(Basename(oldPath)) && after == before
  {
    var current := Basename(oldPath);
    var k: nat :| StopsAt(before, current, current, k) && Moved(oldPath, Slot(current, k), moveError, before, r, after);
    StopsAtUnique(before, current, current, k, 0);
  }

  /** Renaming is idempotent: renaming the moved file again to the same generated
      name finds its own name before any free one and leaves it where it is. */
  lemma RenameIdempotent(oldPath: string, base: string, moveError: Option<string>, before: set<string>,
                         r: RenameResult, after: set<string>,
                         moveError2: Option<string>, r2: RenameResult, after2: set<string>)
    requires FileNaming.PdfName(base)
    requires RenamedAs(oldPath, Ok(base), moveError, before, r, after) && r.Renamed?
    requires RenamedAs(r.newPath, Ok(base), moveError2, after, r2, after2)
    ensures r2 == SameFilename(r.newFilename) && after2 == after
  {
    var current := Basename(oldPath);
    var k: nat :| StopsAt(before, base, current, k) && Moved(oldPath, Slot(base, k), moveError, before, r, after);
    var name := Slot(base, k);
    SlotContained(base, k);
    BasenameOfSibling(oldPath, name);
    forall j | 0 <= j < k ensures Slot(base, j) in after && Slot(base, j) != name {
      assert Slot(base, j) in before && Slot(base, j) != current;
      if Slot(base, j) == name {
        SlotInjective(base, j, k);
      }
    }
    assert StopsAt(after, base, name, k);
    assert r.newPath == Sibling(oldPath, name);
    assert Basename(r.newPath) == name;
    assert Moved(r.newPath, Slot(base, k), moveError2, after, SameFilename(name), after);
    RenamedAsDeterministic(r.newPath, Ok(base), moveError2, after, r2, after2, SameFilename(name), after);
  }

  // ---------------------------------------------------------- extraction

  /** The number of pages sent to the model (line 154). */
  const RequestPages: int := 2

  /** What the single call raises or returns. */
  function ReplyOutcome(reply: M.Reply, filename: string, decode: string -> Decoded): MR.Outcome {
    match reply
    case Answered(text) => MR.Answer(text, filename, decode)
    case ApiFailed(message) => MR.Raised(message)
  }

  /** `extract_metadata_from_images(images, filename)` (pdf_metadata_extractor.py:124-196)
      as a value. */
  function Extracted(images: seq<Image>, filename: string, reply: M.Reply, decode: string -> Decoded): Dict {
    if images == [] then [Field("error", JStr("No images to process"))]
    else match ReplyOutcome(reply, filename, decode)
      case Returned(record) => record
      case Raised(message) => MR.ErrorRecord("API call failed: " + message, filename)
  }

  /** An empty image list gives `error` without a file name; every other record names
      the file. A failure of the call, a decoded value that is not a dict and any
      other exception all give "API call failed: …"; an undecodable reply gives the
      fallback record, which carries no `error`. */
  lemma ExtractedLaws(images: seq<Image>, filename: string, reply: M.Reply, decode: string -> Decoded)
    ensures images == [] ==>
              Get(Extracted(images, filename, reply, decode), "error") == Some(JStr("No images to process")) &&
              !Has(Extracted(images, filename, reply, decode), "source_filename")
    ensures images != [] ==> Get(Extracted(images, filename, reply, decode), "source_filename") == Some(JStr(filename))
    ensures images != [] && ReplyOutcome(reply, filename, decode).Raised? ==>
              Get(Extracted(images, filename, reply, decode), "error")
              == Some(JStr("API call failed: " + ReplyOutcome(reply, filename, decode).message))
    ensures images != [] && reply.Answered? && decode(MR.PreparedText(reply.text)).DecodeError? ==>
              Extracted(images, filename, reply, decode)
              == MR.FallbackRecord(filename, reply.text, decode(MR.PreparedText(reply.text)).message)
              && !Has(Extracted(images, filename, reply, decode), "error")
  {
    if reply.Answered? {
      MR.AnswerLaws(reply.text, filename, decode, "source_filename");
      if decode(MR.PreparedText(reply.text)).DecodeError? {
        MR.FallbackRecordLaws(filename, reply.text, decode(MR.PreparedText(reply.text)).message);
      }
    }
  }

  /** A rate limit is not retried here: the record is the failure, where
      src/pdf_metadata_extractor.py makes at least a second call. */
  lemma RateLimitNotRetried(images: seq<Image>, filename: string, reply: M.Reply, decode: string -> Decoded)
    requires images != [] && reply.ApiFailed? && M.IsRateLimit(reply.message)
    ensures Extracted(images, filename, reply, decode) == MR.ErrorRecord("API call failed: " + reply.message, filename)
    ensures MR.Extracted(images, filename, (_: nat) => reply, decode).calls >= 2
  {
    var replies := (_: nat) => reply;
    var outcomes := MR.Outcomes(filename, replies, decode);
    assert outcomes(0) == MR.Raised(reply.message);
    MR.AttemptStep(0, filename, outcomes);
    MR.AttemptsCount(1, filename, outcomes);
  }

  /** `extract_metadata_from_images`: `calls` is the number of model calls and
      `request` the image parts sent, the first two pages as PNG. */
  method ExtractMetadataFromImages(images: seq<Image>, filename: string, reply: M.Reply, decode: string -> Decoded)
    returns (record: Dict, calls: nat, request: seq<M.Part>)
    ensures record == Extracted(images, filename, reply, decode)
    ensures calls == if images == [] then 0 else 1
    ensures calls > 0 ==> request == MR.PngParts(images, Some(RequestPages))
    ensures calls > 0 ==> |request| == if |images| < RequestPages then |images| else RequestPages
  {
    request := [];
    calls := 0;
    if images == [] {
      record := [Field("error", JStr("No images to process"))];
      return;
    }
    request := MR.BuildImageParts(images, Some(RequestPages));
    MR.PngPartsCount(images, Some(RequestPages));
    calls := 1;
    var outcome: MR.Outcome;
    match reply {
      case ApiFailed(message) =>
        outcome := MR.Raised(message);
      case Answered(text) =>
        outcome := MR.ParseReply(text, filename, decode);
    }
    if outcome.Returned? {
      record := outcome.record;
    } else {
      record := MR.ErrorRecord("API call failed: " + outcome.message, filename);
    }
  }

  // ------------------------------------------------------------- one PDF

  /** `pdf_to_images`'s default page count (line 107). */
  const RenderPages: int := 3

  /** Everything about one PDF that lies outside the program: the converter, the
      model's reply, and whether `shutil.move` raises. */
  datatype Env = Env(convert: int -> Conversion, reply: M.Reply, moveError: Option<string>)

  /** `rename_files and 'error' not in metadata` (line 216). */
  predicate RenameGate(renameFiles: bool, metadata: Dict) {
    renameFiles && !Has(metadata, "error")
  }

  /** The record after the rename (lines 217-223): `rename_info` is added and, after
      a move, `original_filename` and the new `source_filename`. */
  function Annotated(metadata: Dict, filename: string, r: RenameResult): Dict {
    var info := RenameInfo(r);
    var m := Put(metadata, "rename_info", JObject(info));
    if Truthy(GetOr(info, "renamed", JNull))
    then Put(Put(m, "original_filename", JStr(filename)), "source_filename", GetOr(info, "new_filename", JNull))
    else m
  }

  /** After a move the record names the new file and keeps the old name under
      `original_filename`; otherwise its `source_filename` is unchanged. Keys the
      rename does not touch are looked up as before. */
  lemma AnnotatedLaws(metadata: Dict, filename: string, r: RenameResult, key: string)
    ensures Get(Annotated(metadata, filename, r), "rename_info") == Some(JObject(RenameInfo(r)))
    ensures r.Renamed? ==>
              Get(Annotated(metadata, filename, r), "source_filename") == Some(JStr(r.newFilename)) &&
              Get(Annotated(metadata, filename, r), "original_filename") == Some(JStr(filename))
    ensures !r.Renamed? ==> Get(Annotated(metadata, filename, r), "source_filename") == Get(metadata, "source_filename")
    ensures key != "rename_info" && key != "source_filename" && key != "original_filename" ==>
              Get(Annotated(metadata, filename, r), key) == Get(metadata, key)
  {
    var info := RenameInfo(r);
    RenameInfoLaws(r);
    var m := Put(metadata, "rename_info", JObject(info));
    GetPut(metadata, "rename_info", JObject(info), key);
    GetPut(metadata, "rename_info", JObject(info), "source_filename");
    if r.Renamed? {
      var m2 := Put(m, "original_filename", JStr(filename));
      GetPut(m, "original_filename", JStr(filename), key);
      GetPut(m, "original_filename", JStr(filename), "rename_info");
      GetPut(m2, "source_filename", JStr(r.newFilename), key);
      GetPut(m2, "source_filename", JStr(r.newFilename), "original_filename");
      GetPut(m2, "source_filename", JStr(r.newFilename), "rename_info");
    }
  }

  /** What `process_pdf(pdf_path, rename_files)` (pdf_metadata_extractor.py:198-226)
      returns and leaves in the PDF's directory, which held `before`. */
  ghost predicate Processed(pdfPath: string, renameFiles: bool, env: Env, decode: string -> Decoded,
                            before: set<string>, metadata: Dict, after: set<string>)
  {
    var filename := Basename(pdfPath);
    var images := MR.Rendered(RenderPages, env.convert);
    if images == [] then metadata == MR.ErrorRecord("Failed to convert PDF to images", filename) && after == before
    else
      var extracted := Extracted(images, filename, env.reply, decode);
      if !RenameGate(renameFiles, extracted) then metadata == extracted && after == before
      else exists r :: RenamedAs(pdfPath, CreateNewFilename(extracted), env.moveError, before, r, after)
                       && metadata == Annotated(extracted, filename, r)
  }

  /** `process_pdf`; `calls` is the number of model calls. */
  method ProcessPdf(pdfPath: string, renameFiles: bool, env: Env, decode: string -> Decoded, folder: Folder)
    returns (metadata: Dict, calls: nat)
    modifies folder
    ensures Processed(pdfPath, renameFiles, env, decode, old(folder.names), metadata, folder.names)
    ensures calls <= 1 && (calls == 1 <==> MR.Rendered(RenderPages, env.convert) != [])
  {
    var filename := Basename(pdfPath);
    var images := MR.Rendered(RenderPages, env.convert);
    if images == [] {
      return MR.ErrorRecord("Failed to convert PDF to images", filename), 0;
    }
    var request;
    metadata, calls, request := ExtractMetadataFromImages(images, filename, env.reply, decode);
    if renameFiles && !Has(metadata, "error") {
      ghost var extracted := metadata;
      var renameResult := folder.RenamePdfFile(pdfPath, metadata, env.moveError);
      var info := RenameInfo(renameResult);
      metadata := Put(metadata, "rename_info", JObject(info));
      if Truthy(GetOr(info, "renamed", JNull)) {
        metadata := Put(metadata, "original_filename", JStr(filename));
        metadata := Put(metadata, "source_filename", GetOr(info, "new_filename", JNull));
      }
      assert metadata == Annotated(extracted, filename, renameResult);
    }
  }

  /** Every record names its file: when the directory is unchanged, as
      `source_filename`; when it changed, the file was moved to a free ".pdf" name,
      which the record gives as `source_filename`, with the old name as
      `original_filename`. */
  lemma ProcessedLaws(pdfPath: string, renameFiles: bool, env: Env, decode: string -> Decoded,
                      before: set<string>, metadata: Dict, after: set<string>)
    requires Processed(pdfPath, renameFiles, env, decode, before, metadata, after)
    ensures after == before ==> Get(metadata, "source_filename") == Some(JStr(Basename(pdfPath)))
    ensures after != before ==>
              && renameFiles
              && Get(metadata, "original_filename") == Some(JStr(Basename(pdfPath)))
              && exists name :: && name !in before && FileNaming.PdfName(name)
                                && after == before - {Basename(pdfPath)} + {name}
                                && Get(metadata, "source_filename") == Some(JStr(name))
  {
    var filename := Basename(pdfPath);
    var images := MR.Rendered(RenderPages, env.convert);
    if images != [] {
      var extracted := Extracted(images, filename, env.reply, decode);
      ExtractedLaws(images, filename, env.reply, decode);
      if RenameGate(renameFiles, extracted) {
        var r :| RenamedAs(pdfPath, CreateNewFilename(extracted), env.moveError, before, r, after)
                 && metadata == Annotated(extracted, filename, r);
        AnnotatedLaws(extracted, filename, r, "source_filename");
        if CreateNewFilename(extracted).Ok? {
          CreateNewFilenameSafe(extracted);
        }
        RenameNeverOverwrites(pdfPath, CreateNewFilename(extracted), env.moveError, before, r, after);
        if r.Renamed? {
          assert r.newFilename in after;
        }
      }
    }
  }

  // ---------------------------------------------------------- a directory

  /** One entry of the directory: its name and the world of the PDF. */
  datatype Entry = Entry(name: string, env: Env)

  /** `Path(directory_path).glob("*.pdf")` (line 231): the matching entries, in
      directory order. `foldCase` is the platform's rule. */
  function Listed(entries: seq<Entry>, foldCase: bool): seq<Entry> {
    if entries == [] then []
    else
      var last := entries[|entries| - 1];
      Listed(entries[..|entries| - 1], foldCase) + (if MR.GlobMatch(last.name, "*.pdf", foldCase) then [last] else [])
  }

  /** The glob keeps exactly the entries whose name ends in ".pdf" (under the
      platform's case rule), so where case matters "a.PDF" is skipped. */
  lemma {:induction false} ListedMembers(entries: seq<Entry>, foldCase: bool)
    ensures forall e :: e in Listed(entries, foldCase) <==>
              e in entries && MR.EndsWith(MR.Fold(e.name, foldCase), MR.Fold(".pdf", foldCase))
  {
    assert "*.pdf"[1..] == ".pdf";
    if entries != [] {
      ListedMembers(entries[..|entries| - 1], foldCase);
      assert entries == entries[..|entries| - 1] + [entries[|entries| - 1]];
    }
  }

  /** The `j`-th file gave `result` and took the directory from `before` to `after`. */
  ghost predicate ProcessedAt(j: nat, dirPath: string, pdfs: seq<Entry>, decode: string -> Decoded,
                              before: set<string>, result: Dict, after: set<string>)
  {
    && j < |pdfs|
    && Processed(JoinPath(dirPath, pdfs[j].name), true, pdfs[j].env, decode, before, result, after)
  }

  /** The first `k` files were processed in turn. */
  ghost predicate AllProcessed(dirPath: string, pdfs: seq<Entry>, decode: string -> Decoded,
                               trace: seq<set<string>>, results: seq<Dict>, k: nat)
  {
    && k <= |pdfs| && k <= |results| && k < |trace|
    && forall j :: 0 <= j < k ==> ProcessedAt(j, dirPath, pdfs, decode, trace[j], results[j], trace[j + 1])
  }

  lemma ProcessedExtend(dirPath: string, pdfs: seq<Entry>, decode: string -> Decoded, trace: seq<set<string>>,
                        results: seq<Dict>, i: nat, result: Dict, after: set<string>)
    requires i < |pdfs| && |results| == i && |trace| == i + 1
    requires AllProcessed(dirPath, pdfs, decode, trace, results, i)
    requires Processed(JoinPath(dirPath, pdfs[i].name), true, pdfs[i].env, decode, trace[i], result, after)
    ensures AllProcessed(dirPath, pdfs, decode, trace + [after], results + [result], i + 1)
  {
    var P := (j: nat, b: set<string>, res: Dict, a: set<string>) => ProcessedAt(j, dirPath, pdfs, decode, b, res, a);
    forall j | 0 <= j < i ensures P(j, trace[j], results[j], trace[j + 1]) {
      assert ProcessedAt(j, dirPath, pdfs, decode, trace[j], results[j], trace[j + 1]);
    }
    O.StepsExtend(P, trace, results, i, result, after);
    var t, r := trace + [after], results + [result];
    forall j | 0 <= j < i + 1 ensures ProcessedAt(j, dirPath, pdfs, decode, t[j], r[j], t[j + 1]) {
      assert P(j, t[j], r[j], t[j + 1]);
    }
  }

  /** `process_directory(directory_path)` (pdf_metadata_extractor.py:228-241): every
      listed file is processed with renaming on, in list order, one record each;
      `trace` holds the directory's names before and after each file. */
  method ProcessDirectory(dirPath: string, entries: seq<Entry>, foldCase: bool, decode: string -> Decoded, folder: Folder)
    returns (results: seq<Dict>, ghost trace: seq<set<string>>)
    modifies folder
    ensures var pdfs := Listed(entries, foldCase);
      && |results| == |pdfs| && |trace| == |pdfs| + 1
      && trace[0] == old(folder.names) && trace[|pdfs|] == folder.names
      && AllProcessed(dirPath, pdfs, decode, trace, results, |pdfs|)
  {
    var pdfs := Listed(entries, foldCase);
    results := [];
    trace := [folder.names];
    if pdfs == [] {
      return;
    }
    var i := 0;
    while i < |pdfs|
      invariant 0 <= i <= |pdfs|
      invariant |results| == i && |trace| == i + 1
      invariant trace[0] == old(folder.names) && trace[i] == folder.names
      invariant AllProcessed(dirPath, pdfs, decode, trace, results, i)
    {
      var result, calls := ProcessPdf(JoinPath(dirPath, pdfs[i].name), true, pdfs[i].env, decode, folder);
      ProcessedExtend(dirPath, pdfs, decode, trace, results, i, result, folder.names);
      results := results + [result];
      trace := trace + [folder.names];
      i := i + 1;
    }
  }

  /** In a processed batch the `j`-th record names the `j`-th listed file: as
      `source_filename` when the file stayed, as `original_filename` when it moved. */
  lemma BatchNamesFiles(dirPath: string, pdfs: seq<Entry>, decode: string -> Decoded, trace: seq<set<string>>,
                        results: seq<Dict>, j: nat)
    requires AllProcessed(dirPath, pdfs, decode, trace, results, |pdfs|)
    requires j < |pdfs| && '/' !in pdfs[j].name
    ensures trace[j + 1] == trace[j] ==> Get(results[j], "source_filename") == Some(JStr(pdfs[j].name))
    ensures trace[j + 1] != trace[j] ==> Get(results[j], "original_filename") == Some(JStr(pdfs[j].name))
  {
    assert ProcessedAt(j, dirPath, pdfs, decode, trace[j], results[j], trace[j + 1]);
    ProcessedLaws(JoinPath(dirPath, pdfs[j].name), true, pdfs[j].env, decode, trace[j], results[j], trace[j + 1]);
    O.BasenameOfJoin(dirPath, pdfs[j].name);
  }
}
