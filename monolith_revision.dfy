/**
 * `PDFMetadataExtractor` of src/pdf_metadata_extractor.py, the monolithic
 * revision that preceded the split into src/file_manager.py,
 * src/metadata_extractor.py and src/main.py. It shares `sanitize_filename`,
 * the `" (k)"` collision loop and the record annotation with the current code,
 * and differs in the author rule, in retrying only rate limits, in a stricter
 * reply clean-up without defaults, in discovering files by two globs, in a fixed
 * pause between files, and in creating the results file's directory
 * unconditionally.
 */
module MonolithRevision {
  import opened Wrappers
  import opened Text
  import opened Json
  import Config
  import FileNaming
  import opened FileManager
  import opened PdfProcessor
  import M = MetadataExtractor
  import O = Orchestrator

  // ------------------------------------------------------------ naming

  /** The author rule of src/pdf_metadata_extractor.py:87-90, on the sanitized
      author: a case-sensitive " and " cuts first; otherwise any comma cuts. */
  function FirstAuthor(author: string): string {
    if Contains(author, " and ") then Strip(SplitHead(author, " and "))
    else if Contains(author, ",") then Strip(SplitHead(author, ","))
    else author
  }

  /** `create_new_filename(metadata)` (src/pdf_metadata_extractor.py:75-93), with the
      exception raised by a non-string year or title as an error. */
  function CreateNewFilename(meta: Dict): Result<string> {
    var year := FileNaming.SanitizeValue(GetOr(meta, "year", JStr("Unknown")));
    var author := FirstAuthor(FileNaming.Sanitize(FileNaming.AuthorText(GetOr(meta, "author", JStr("Unknown")))));
    var title := FileNaming.SanitizeValue(GetOr(meta, "title", JStr("Unknown")));
    if year.Err? then Err(year.message)
    else if title.Err? then Err(title.message)
    else Ok(FileNaming.Assemble(year.value, author, title.value))
  }

  /** A one-character pattern occurs exactly when its character does. */
  lemma ContainsCharIff(s: string, c: char)
    ensures Contains(s, [c]) <==> c in s
  {
    if c in s {
      var i :| 0 <= i < |s| && s[i] == c;
      assert OccursAt(s, [c], i);
    }
    if Contains(s, [c]) {
      var i :| 0 <= i <= |s| - 1 && OccursAt(s, [c], i);
      assert s[i..i + 1][0] == s[i];
    }
  }

  /** With " and " present, the author is the stripped text before its first
      occurrence, and that text holds no " and ". */
  lemma FirstAuthorAnd(author: string)
    requires Contains(author, " and ")
    ensures FirstAuthor(author) == Strip(SplitHead(author, " and "))
    ensures !Contains(FirstAuthor(author), " and ")
  {
    ContainsIff(author, " and ");
    var i := Find(author, " and ").value;
    SplitHeadFirst(author, " and ");
    FileNaming.NoOccurrenceInStrippedPrefix(author, i, " and ");
  }

  /** Without " and ", any comma cuts: the author is the stripped text before the
      first comma, and that text holds no comma — whether the comma separates two
      authors or a family name from initials. */
  lemma FirstAuthorComma(author: string)
    requires !Contains(author, " and ") && ',' in author
    ensures FirstAuthor(author) == Strip(SplitHead(author, ","))
    ensures ',' !in FirstAuthor(author)
  {
    ContainsCharIff(author, ',');
    ContainsIff(author, ",");
    var i := Find(author, ",").value;
    SplitHeadFirst(author, ",");
    FileNaming.NoOccurrenceInStrippedPrefix(author, i, ",");
    ContainsCharIff(FirstAuthor(author), ',');
  }

  /** The rule keeps the author or strips a leading part of it. */
  lemma FirstAuthorLeading(author: string)
    ensures FirstAuthor(author) == author ||
            exists j :: 0 <= j <= |author| && FirstAuthor(author) == Strip(author[..j])
  {
    if Contains(author, " and ") {
      FileNaming.SplitHeadIsPrefix(author, " and ");
    } else if Contains(author, ",") {
      FileNaming.SplitHeadIsPrefix(author, ",");
    }
  }

  /** A safe component stays safe under the rule, so the names of this revision
      have the shape of the current ones. */
  lemma FirstAuthorSafe(author: string)
    requires FileNaming.SafeComponent(author)
    ensures FileNaming.SafeComponent(FirstAuthor(author))
  {
    FirstAuthorLeading(author);
    var r := FirstAuthor(author);
    if r != author {
      var j :| 0 <= j <= |author| && r == Strip(author[..j]);
      FileNaming.StripPrefixSafe(author, j);
    }
  }

  /** Every generated name is three safe components around " - " ending in ".pdf",
      with no "/", so it names one entry of the output directory. */
  lemma CreateNewFilenameSafe(meta: Dict)
    requires CreateNewFilename(meta).Ok?
    ensures var name := CreateNewFilename(meta).value;
      && (forall i :: 0 <= i < |name| ==> FileNaming.SafeChar(name[i]))
      && FileNaming.PdfName(name)
      && |name| <= 3 * Config.MaxFilenameLength + 10
  {
    var y := FileNaming.SanitizeValue(GetOr(meta, "year", JStr("Unknown"))).value;
    var t := FileNaming.SanitizeValue(GetOr(meta, "title", JStr("Unknown"))).value;
    var raw := FileNaming.Sanitize(FileNaming.AuthorText(GetOr(meta, "author", JStr("Unknown"))));
    FileNaming.SanitizeValueSafe(GetOr(meta, "year", JStr("Unknown")));
    FileNaming.SanitizeValueSafe(GetOr(meta, "title", JStr("Unknown")));
    FileNaming.SanitizeSafe(FileNaming.AuthorText(GetOr(meta, "author", JStr("Unknown"))));
    FirstAuthorSafe(raw);
    FileNaming.AssembleSafe(y, FirstAuthor(raw), t);
  }

  /** The two revisions build the same name whenever their author rules agree. */
  lemma SameAuthorSameName(meta: Dict)
    requires var s := FileNaming.Sanitize(FileNaming.AuthorText(GetOr(meta, "author", JStr("Unknown"))));
      FirstAuthor(s) == FileNaming.ReduceAuthor(s)
    ensures CreateNewFilename(meta) == FileNaming.CreateNewFilename(meta)
  {
  }

  /** No " and " in the lower-cased text means none in the text itself. */
  lemma NoAndCaseSensitive(s: string)
    requires !Contains(Lower(s), " and ")
    ensures !Contains(s, " and ")
  {
    if Contains(s, " and ") {
      ContainsIff(s, " and ");
      FileNaming.LowerKeepsLowerOccurrence(s, " and ", Find(s, " and ").value);
      ContainsAt(Lower(s), " and ", Find(s, " and ").value);
    }
  }

  /** An author that neither revision's rules cut — no " and " in any letter case,
      no " & ", no ";" and no comma — gives the same name in both revisions. */
  lemma SameNameForSingleAuthor(meta: Dict)
    requires var s := FileNaming.Sanitize(FileNaming.AuthorText(GetOr(meta, "author", JStr("Unknown"))));
      !Contains(Lower(s), " and ") && !Contains(s, " & ") && !Contains(s, ";") && ',' !in s
    ensures CreateNewFilename(meta) == FileNaming.CreateNewFilename(meta)
  {
    var s := FileNaming.Sanitize(FileNaming.AuthorText(GetOr(meta, "author", JStr("Unknown"))));
    CountAbsent(s, ',');
    FileNaming.ReduceAuthorSingleName(s);
    NoAndCaseSensitive(s);
    ContainsCharIff(s, ',');
    assert FirstAuthor(s) == s;
    SameAuthorSameName(meta);
  }

  lemma CommaNameSplit(a: string)
    requires a == "Smith, J."
    ensures !Contains(a, " and ") && ',' in a
    ensures SplitHead(a, ",") == "Smith"
  {
    NotContainsChar(a, " and ", 1);
    assert a[5] == ',';
    assert OccursAt(a, ",", 5);
    assert ',' !in a[0..5];
    NoOccurrenceBefore(a, ",", 5, 0);
    FindFirst(a, ",", 5);
  }

  lemma CommaNameCount(a: string)
    requires a == "Smith, J."
    ensures Count(a, ',') == 1
  {
    assert a == "Smith" + "," + " J.";
    CountAppend("Smith" + ",", " J.", ',');
    CountAppend("Smith", ",", ',');
    CountAbsent("Smith", ',');
    CountAbsent(" J.", ',');
  }

  lemma CommaNameUnchanged(a: string)
    requires a == "Smith, J."
    ensures FileNaming.ReduceAuthor(a) == a
  {
    assert Lower(a) == "smith, j.";
    NotContainsChar(Lower(a), " and ", 1);
    NotContainsChar(a, " & ", 1);
    NotContainsChar(a, ";", 0);
    CommaNameCount(a);
    FileNaming.ReduceAuthorSingleName(a);
  }

  /** "Smith, J." is cut to "Smith" here, while src/file_manager.py keeps it whole. */
  lemma CommaNameContrast(a: string)
    requires a == "Smith, J."
    ensures FirstAuthor(a) == "Smith"
    ensures FileNaming.ReduceAuthor(a) == a
  {
    CommaNameSplit(a);
    ContainsCharIff(a, ',');
    StripClean("Smith");
    CommaNameUnchanged(a);
  }

  // ------------------------------------------------------------- copying

  /** `copy_pdf_file(source_path, metadata, output_dir)` (src/pdf_metadata_extractor.py:95-128):
      create the directory, build the name, take the least free `" (k)"` slot, copy.
      There is no containment check; `CopyStaysInside` shows none is needed. */
  method CopyPdfFile(out: OutputDirectory, sourcePath: string, meta: Dict,
                     mkdirError: Option<string>, copyError: Option<string>)
    returns (r: CopyResult)
    modifies out
    ensures CopiedAs(out.path, sourcePath, CreateNewFilename(meta), mkdirError, copyError, old(out.names), r, out.names)
  {
    var sourceName := Basename(sourcePath);
    if mkdirError.Some? {
      return CopyFailed(mkdirError.value, sourceName);
    }
    var generated := CreateNewFilename(meta);
    if generated.Err? {
      return CopyFailed(generated.message, sourceName);
    }
    var name, k := ChooseOutputName(out.names, generated.value);
    if copyError.Some? {
      return CopyFailed(copyError.value, sourceName);
    }
    out.names := out.names + {name};
    r := Copied(sourceName, name, sourcePath, JoinPath(out.path, name));
  }

  /** Every name this revision copies under is a single entry of the output
      directory, although it makes no containment check. */
  lemma CopyStaysInside(dir: string, sourcePath: string, meta: Dict, mkdirError: Option<string>,
                        copyError: Option<string>, before: set<string>, r: CopyResult, after: set<string>)
    requires CopiedAs(dir, sourcePath, CreateNewFilename(meta), mkdirError, copyError, before, r, after)
    requires r.Copied?
    ensures Contained(r.outputFilename) && FileNaming.PdfName(r.outputFilename)
    ensures r.outputFilename !in before && after == before + {r.outputFilename}
  {
    var base := CreateNewFilename(meta).value;
    var k :| FirstFree(before, base, k, r.outputFilename);
    CreateNewFilenameSafe(meta);
    SlotContained(base, k);
  }

  // ----------------------------------------------------------- results file

  /** `update_results_file(results_file_path, new_result)` (src/pdf_metadata_extractor.py:39-63).
      `os.makedirs(os.path.dirname(path))` runs unconditionally and raises for a
      path without a directory part, so such a path is never written; otherwise the
      write ends as in the current revision, a failing `json.dump` leaving the file
      truncated. */
  method UpdateResultsFile(rf: ResultsFile, path: string, newResult: Dict, write: WriteOutcome)
    returns (ok: bool)
    modifies rf
    ensures ok <==> '/' in path && write.Written?
    ensures ok ==> rf.records == Some(old(rf.records).GetOr([]) + [JObject(newResult)])
    ensures '/' !in path || write.FailedBeforeOpen? ==> rf.records == old(rf.records)
    ensures '/' in path && write.FailedAfterOpen? ==> rf.records == None
  {
    if '/' !in path {
      return false;
    }
    ok := rf.UpdateResultsFile(newResult, write);
  }

  // ---------------------------------------------------------------- reply

  /** `s.endswith(p)`. */
  predicate EndsWith(s: string, p: string) {
    |p| <= |s| && s[|s| - |p|..] == p
  }

  /** Lines 194-197: an exact "```json" prefix and a "```" suffix are cut. */
  function DropFences(s: string): string {
    var a := if M.StartsWith(s, "```json") then s[7..] else s;
    if EndsWith(a, "```") then a[..|a| - 3] else a
  }

  /** The text `json.loads` receives (src/pdf_metadata_extractor.py:192-199). */
  function PreparedText(reply: string): string {
    Strip(DropFences(Strip(reply)))
  }

  /** A reply fenced as "```json ... ```" is reduced to its stripped body. */
  lemma FencedReply(body: string)
    ensures PreparedText("```json" + body + "```") == Strip(body)
  {
    var s := "```json" + body + "```";
    StripClean(s);
    assert s[..7] == "```json";
    var a := s[7..];
    assert a == body + "```";
    assert a[|a| - 3..] == "```";
    assert a[..|a| - 3] == body;
  }

  /** A reply without those exact fences is handed over stripped and otherwise
      whole: no other fence spelling (such as "```JSON") is removed and nothing is
      cut around the braces. */
  lemma UnfencedReply(reply: string)
    requires !M.StartsWith(Strip(reply), "```json") && !EndsWith(Strip(reply), "```")
    ensures PreparedText(reply) == Strip(reply)
  {
    StripShape(reply);
    StripClean(Strip(reply));
  }

  /** What the inner `try` of one attempt gives: a record to return, or an exception
      that the outer handler classifies. */
  datatype Outcome = Returned(record: Dict) | Raised(message: string)

  /** The `TypeError` of `result["source_filename"] = filename` on a decoded value
      that is not a dict. */
  function ItemAssignmentError(v: Json): string {
    match v
    case JList(_) => "list indices must be integers or slices, not str"
    case _ => "'" + TypeName(v) + "' object does not support item assignment"
  }

  /** The record for an undecodable reply (src/pdf_metadata_extractor.py:204-212):
      the reply is kept whole, as `response.text` gave it. */
  function FallbackRecord(filename: string, raw: string, error: string): Dict {
    var values := [JStr(M.CouldNotParse), JStr(M.CouldNotParse), JStr(M.CouldNotParse), JStr(filename),
                   JStr(raw), JStr(error)];
    Record(M.FallbackKeys, values)
  }

  /** The fallback record has no `error` key and holds exactly the fields it is
      built from. */
  lemma FallbackRecordLaws(filename: string, raw: string, error: string)
    ensures !Has(FallbackRecord(filename, raw, error), "error")
    ensures Get(FallbackRecord(filename, raw, error), "title") == Some(JStr(M.CouldNotParse))
    ensures Get(FallbackRecord(filename, raw, error), "author") == Some(JStr(M.CouldNotParse))
    ensures Get(FallbackRecord(filename, raw, error), "year") == Some(JStr(M.CouldNotParse))
    ensures Get(FallbackRecord(filename, raw, error), "source_filename") == Some(JStr(filename))
    ensures Get(FallbackRecord(filename, raw, error), "raw_response") == Some(JStr(raw))
    ensures Get(FallbackRecord(filename, raw, error), "parse_error") == Some(JStr(error))
  {
    var values := [JStr(M.CouldNotParse), JStr(M.CouldNotParse), JStr(M.CouldNotParse), JStr(filename),
                   JStr(raw), JStr(error)];
    M.FallbackRecordHead(values);
    M.FallbackRecordTail(values);
  }

  /** A long unparsable reply is kept in full, where the current revision cuts it
      to 500 characters and a marker. */
  lemma FallbackUntruncated(filename: string, raw: string, error: string)
    requires |raw| > M.RawLimit + 3
    ensures Get(FallbackRecord(filename, raw, error), "raw_response")
            != Get(M.FallbackRecord(filename, raw, Some(error)), "raw_response")
  {
    FallbackRecordLaws(filename, raw, error);
    M.FallbackRecordLaws(filename, raw, Some(error));
  }

  /** The inner `try` of lines 191-212 on a reply text. */
  function Answer(text: string, filename: string, decode: string -> Decoded): Outcome {
    match decode(PreparedText(text))
    case Decoded(JObject(fields)) => Returned(Put(fields, "source_filename", JStr(filename)))
    case Decoded(v) => Raised(ItemAssignmentError(v))
    case DecodeError(message) => Returned(FallbackRecord(filename, text, message))
    case Crashed(message) => Raised(message)
  }

  /** A decoded dict is returned as the model wrote it, with `source_filename` set
      to the file's name: no field is defaulted, so a missing title stays missing
      and an `error` key the model wrote stays. An undecodable reply gives the
      fallback record. Any other decoded value, and any other exception, is raised
      to the retry loop. */
  lemma AnswerLaws(text: string, filename: string, decode: string -> Decoded, key: string)
    ensures Answer(text, filename, decode).Returned? ==>
              Get(Answer(text, filename, decode).record, "source_filename") == Some(JStr(filename))
    ensures decode(PreparedText(text)).Decoded? && decode(PreparedText(text)).value.JObject? && key != "source_filename"
            ==> Get(Answer(text, filename, decode).record, key) == Get(decode(PreparedText(text)).value.fields, key)
    ensures decode(PreparedText(text)).DecodeError? ==>
              Answer(text, filename, decode) == Returned(FallbackRecord(filename, text, decode(PreparedText(text)).message))
    ensures Answer(text, filename, decode).Raised? <==>
              decode(PreparedText(text)).Crashed? ||
              (decode(PreparedText(text)).Decoded? && !decode(PreparedText(text)).value.JObject?)
  {
    match decode(PreparedText(text))
    case Decoded(JObject(fields)) => GetPut(fields, "source_filename", JStr(filename), key);
    case DecodeError(message) => FallbackRecordLaws(filename, text, message);
    case _ =>
  }

  /** The clean-up of src/pdf_metadata_extractor.py:192-199, step by step. */
  method CleanReply(text: string) returns (responseText: string)
    ensures responseText == PreparedText(text)
  {
    responseText := Strip(text);
    ghost var stripped := responseText;
    if M.StartsWith(responseText, "```json") {
      responseText := responseText[7..];
    }
    assert responseText == if M.StartsWith(stripped, "```json") then stripped[7..] else stripped;
    if EndsWith(responseText, "```") {
      responseText := responseText[..|responseText| - 3];
    }
    assert responseText == DropFences(stripped);
    responseText := Strip(responseText);
  }

  /** The inner `try` as the source writes it, step by step. */
  method ParseReply(text: string, filename: string, decode: string -> Decoded) returns (outcome: Outcome)
    ensures outcome == Answer(text, filename, decode)
  {
    var responseText := CleanReply(text);
    match decode(responseText)
    case Decoded(value) =>
      if value.JObject? {
        outcome := Returned(Put(value.fields, "source_filename", JStr(filename)));
      } else {
        outcome := Raised(ItemAssignmentError(value));
      }
    case DecodeError(message) =>
      outcome := Returned(FallbackRecord(filename, text, message));
    case Crashed(message) =>
      outcome := Raised(message);
  }

  // --------------------------------------------------------------- request

  /** One image part of this revision: always PNG. */
  function PngPart(image: Image): M.Part {
    M.Part("image/png", Encoding(image, "PNG", None))
  }

  /** The image parts of one attempt (src/pdf_metadata_extractor.py:180-185). */
  function PngParts(images: seq<Image>, maxPages: Option<int>): seq<M.Part> {
    seq(M.ImageCount(|images|, maxPages), i requires 0 <= i < M.ImageCount(|images|, maxPages) => PngPart(images[i]))
  }

  /** Given a `max_pages` that is not negative, exactly `min(len(images), max_pages)`
      images are sent, without it at most two; each as PNG, in order. */
  lemma PngPartsCount(images: seq<Image>, maxPages: Option<int>)
    ensures maxPages.Some? && maxPages.value >= 0 ==>
              |PngParts(images, maxPages)| == if maxPages.value < |images| then maxPages.value else |images|
    ensures maxPages.None? ==> |PngParts(images, maxPages)| == if |images| < 2 then |images| else 2
    ensures forall i :: 0 <= i < |PngParts(images, maxPages)| ==>
              PngParts(images, maxPages)[i].mimeType == "image/png" && PngParts(images, maxPages)[i].data.image == images[i]
  {
  }

  /** The loop building the image parts. */
  method BuildImageParts(images: seq<Image>, maxPages: Option<int>) returns (parts: seq<M.Part>)
    ensures parts == PngParts(images, maxPages)
  {
    var maxImages := if maxPages.Some? then maxPages.value
                     else if |images| < Config.DefaultMaxPages then |images| else Config.DefaultMaxPages;
    var slice := images[..M.SliceEnd(|images|, maxImages)];
    parts := [];
    var i := 0;
    while i < |slice|
      invariant 0 <= i <= |slice|
      invariant |parts| == i
      invariant forall j :: 0 <= j < i ==> parts[j] == PngPart(slice[j])
    {
      parts := parts + [M.Part("image/png", Encoding(slice[i], "PNG", None))];
      i := i + 1;
    }
  }

  // ----------------------------------------------------------------- retry

  /** The two-key error records of this revision: `error`, then `source_filename`. */
  function ErrorRecord(message: string, filename: string): (d: Dict)
    ensures Get(d, "error") == Some(JStr(message))
    ensures Get(d, "source_filename") == Some(JStr(filename))
    ensures |d| == 2 && !Has(d, "title")
  {
    var d := [Field("error", JStr(message)), Field("source_filename", JStr(filename))];
    assert d[1..][1..] == [];
    d
  }

  /** What attempt `a` of the loop raises or returns. */
  function AttemptOutcome(a: nat, filename: string, replies: nat -> M.Reply, decode: string -> Decoded): Outcome {
    match replies(a)
    case Answered(text) => Answer(text, filename, decode)
    case ApiFailed(message) => Raised(message)
  }

  /** The outcomes of all attempts, attempt by attempt. */
  function Outcomes(filename: string, replies: nat -> M.Reply, decode: string -> Decoded): nat -> Outcome {
    (a: nat) => AttemptOutcome(a, filename, replies, decode)
  }

  /** The retry loop's result: the record, the number of model calls and the
      delays slept. */
  datatype Run = Run(record: Dict, calls: nat, delays: seq<nat>)

  /** The loop of src/pdf_metadata_extractor.py:178-243 from `attempt` on, given
      what each attempt returns or raises. */
  function Attempts(attempt: nat, filename: string, outcomes: nat -> Outcome): Run
    decreases Config.MaxRetries - attempt
  {
    if attempt >= Config.MaxRetries then
      Run(ErrorRecord("Failed after " + IntToString(Config.MaxRetries) + " attempts", filename), 0, [])
    else match outcomes(attempt)
      case Returned(d) => Run(d, 1, [])
      case Raised(message) =>
        if !M.IsRateLimit(message) then Run(ErrorRecord("API call failed: " + message, filename), 1, [])
        else if attempt < Config.MaxRetries - 1 then
          var rest := Attempts(attempt + 1, filename, outcomes);
          Run(rest.record, rest.calls + 1, [M.RateLimitDelay(Config.RetryBaseDelay, attempt)] + rest.delays)
        else
          Run(ErrorRecord("Rate limit exceeded after " + IntToString(Config.MaxRetries) + " attempts: " + message,
                          filename), 1, [])
  }

  lemma AttemptStep(a: nat, filename: string, outcomes: nat -> Outcome)
    requires a < Config.MaxRetries
    ensures var x := Attempts(a, filename, outcomes);
      match outcomes(a)
      case Returned(d) => x == Run(d, 1, [])
      case Raised(message) =>
        if !M.IsRateLimit(message) then x == Run(ErrorRecord("API call failed: " + message, filename), 1, [])
        else if a < Config.MaxRetries - 1 then
          var rest := Attempts(a + 1, filename, outcomes);
          x == Run(rest.record, rest.calls + 1, [M.RateLimitDelay(Config.RetryBaseDelay, a)] + rest.delays)
        else
          x == Run(ErrorRecord("Rate limit exceeded after " + IntToString(Config.MaxRetries) + " attempts: " + message,
                               filename), 1, [])
  {
  }

  /** `extract_metadata_from_images(images, filename, max_pages)` as a value. An empty
      image list gives `{"error": "No images to process"}`, without a file name. */
  function Extracted(images: seq<Image>, filename: string, replies: nat -> M.Reply, decode: string -> Decoded): Run {
    if images == [] then Run([Field("error", JStr("No images to process"))], 0, [])
    else Attempts(0, filename, Outcomes(filename, replies, decode))
  }

  /** An empty image list is the only case whose record does not name the file. */
  lemma NoImagesRecord(filename: string, replies: nat -> M.Reply, decode: string -> Decoded)
    ensures Get(Extracted([], filename, replies, decode).record, "error") == Some(JStr("No images to process"))
    ensures !Has(Extracted([], filename, replies, decode).record, "source_filename")
  {
  }

  /** A record that an attempt returns names the file. */
  lemma OutcomeNamesFile(a: nat, filename: string, replies: nat -> M.Reply, decode: string -> Decoded)
    ensures AttemptOutcome(a, filename, replies, decode).Returned? ==>
              Get(AttemptOutcome(a, filename, replies, decode).record, "source_filename") == Some(JStr(filename))
  {
    match replies(a)
    case Answered(text) => AnswerLaws(text, filename, decode, "source_filename");
    case ApiFailed(_) =>
  }

  /** Every record an attempt returns names the file. */
  ghost predicate NamesFile(outcomes: nat -> Outcome, filename: string) {
    forall k :: outcomes(k).Returned? ==> Get(outcomes(k).record, "source_filename") == Some(JStr(filename))
  }

  /** The real attempts name the file. */
  lemma OutcomesNameFile(filename: string, replies: nat -> M.Reply, decode: string -> Decoded)
    ensures NamesFile(Outcomes(filename, replies, decode), filename)
  {
    forall k ensures Outcomes(filename, replies, decode)(k) == AttemptOutcome(k, filename, replies, decode) {
    }
    forall k {
      OutcomeNamesFile(k, filename, replies, decode);
    }
  }

  /** When every returned record names the file, so does the loop's record. */
  lemma {:induction false} AttemptsFilename(a: nat, filename: string, outcomes: nat -> Outcome)
    requires NamesFile(outcomes, filename)
    ensures Get(Attempts(a, filename, outcomes).record, "source_filename") == Some(JStr(filename))
    decreases Config.MaxRetries - a
  {
    if a < Config.MaxRetries {
      var o := outcomes(a);
      AttemptStep(a, filename, outcomes);
      if !o.Returned? && M.IsRateLimit(o.message) && a < Config.MaxRetries - 1 {
        AttemptsFilename(a + 1, filename, outcomes);
      }
    }
  }

  /** From attempt `a` on, the loop makes at most `MaxRetries - a` calls and sleeps
      once fewer. */
  lemma {:induction false} AttemptsCount(a: nat, filename: string, outcomes: nat -> Outcome)
    requires a < Config.MaxRetries
    ensures var x := Attempts(a, filename, outcomes);
      1 <= x.calls <= Config.MaxRetries - a && |x.delays| == x.calls - 1
    decreases Config.MaxRetries - a
  {
    AttemptStep(a, filename, outcomes);
    if a < Config.MaxRetries - 1 {
      AttemptsCount(a + 1, filename, outcomes);
    }
  }

  /** Attempt `k` raised a rate-limit message. */
  predicate RateLimitedAt(k: nat, outcomes: nat -> Outcome) {
    outcomes(k).Raised? && M.IsRateLimit(outcomes(k).message)
  }

  /** A loop that sleeps at all was rate limited at its first attempt, with
      another attempt left, and sleeps `base_delay * 2^attempt` before going on. */
  lemma DelayHead(a: nat, filename: string, outcomes: nat -> Outcome)
    requires Attempts(a, filename, outcomes).delays != []
    ensures a < Config.MaxRetries - 1 && RateLimitedAt(a, outcomes)
    ensures Attempts(a, filename, outcomes).delays
            == [M.RateLimitDelay(Config.RetryBaseDelay, a)] + Attempts(a + 1, filename, outcomes).delays
  {
    assert a < Config.MaxRetries;
    AttemptStep(a, filename, outcomes);
  }

  /** Only rate limits are waited for: the `i`-th delay follows the `(a + i)`-th
      attempt, which raised a rate-limit message, and is `base_delay * 2^(a + i)`. */
  lemma {:induction false} AttemptsDelay(a: nat, filename: string, outcomes: nat -> Outcome, i: nat)
    requires i < |Attempts(a, filename, outcomes).delays|
    ensures RateLimitedAt(a + i, outcomes)
    ensures Attempts(a, filename, outcomes).delays[i] == Config.RetryBaseDelay * M.Pow2(a + i)
    decreases i
  {
    var x := Attempts(a, filename, outcomes).delays;
    var rest := Attempts(a + 1, filename, outcomes).delays;
    DelayHead(a, filename, outcomes);
    if i > 0 {
      AttemptsDelay(a + 1, filename, outcomes, i - 1);
      assert x[i] == rest[i - 1];
      assert a + 1 + (i - 1) == a + i;
    } else {
      assert x[0] == M.RateLimitDelay(Config.RetryBaseDelay, a);
    }
  }

  /** An exception that is not a rate limit ends the loop at once with
      "API call failed: …" — also one the current revision treats as transient and
      retries. */
  lemma NonRateLimitGivesUp(a: nat, filename: string, outcomes: nat -> Outcome)
    requires a < Config.MaxRetries
    requires outcomes(a).Raised? && !M.IsRateLimit(outcomes(a).message)
    ensures Attempts(a, filename, outcomes) ==
            Run(ErrorRecord("API call failed: " + outcomes(a).message, filename), 1, [])
  {
    AttemptStep(a, filename, outcomes);
  }

  /** A transient failure on the first of several attempts: the current revision
      sleeps and retries, this one makes a single call and sleeps never. */
  lemma TransientContrast(images: seq<Image>, filename: string, replies: nat -> M.Reply, decode: string -> Decoded)
    requires images != []
    requires replies(0).ApiFailed? && !M.IsRateLimit(replies(0).message) && M.IsTransient(replies(0).message)
    ensures Extracted(images, filename, replies, decode).calls == 1
    ensures Extracted(images, filename, replies, decode).delays == []
    ensures M.Attempts(0, Config.MaxRetries, Config.RetryBaseDelay, replies).calls >= 2
    ensures M.Attempts(0, Config.MaxRetries, Config.RetryBaseDelay, replies).delays != []
  {
    var outcomes := Outcomes(filename, replies, decode);
    assert outcomes(0) == Raised(replies(0).message);
    NonRateLimitGivesUp(0, filename, outcomes);
    M.AttemptStep(0, Config.MaxRetries, Config.RetryBaseDelay, replies);
    M.AttemptsCount(1, Config.MaxRetries, Config.RetryBaseDelay, replies);
  }

  /** The inner `try` of one attempt: build the request, call the model, parse its reply. */
  method CallModel(attempt: nat, images: seq<Image>, filename: string, maxPages: Option<int>,
                   replies: nat -> M.Reply, decode: string -> Decoded)
    returns (outcome: Outcome, request: seq<M.Part>)
    ensures outcome == Outcomes(filename, replies, decode)(attempt)
    ensures request == PngParts(images, maxPages)
  {
    request := BuildImageParts(images, maxPages);
    match replies(attempt)
    case Answered(text) =>
      outcome := ParseReply(text, filename, decode);
    case ApiFailed(message) =>
      outcome := Raised(message);
  }

  /** One pass of the loop body with its handler (src/pdf_metadata_extractor.py:179-241):
      the record the loop returns, or none and the wait before the next attempt. */
  method Attempt(attempt: nat, images: seq<Image>, filename: string, maxPages: Option<int>,
                 replies: nat -> M.Reply, decode: string -> Decoded)
    returns (result: Option<Dict>, delay: nat, request: seq<M.Part>)
    requires attempt < Config.MaxRetries
    ensures request == PngParts(images, maxPages)
    ensures var outcomes := Outcomes(filename, replies, decode);
      result.Some? ==> Attempts(attempt, filename, outcomes) == Run(result.value, 1, [])
    ensures var outcomes := Outcomes(filename, replies, decode);
      result.None? ==>
        attempt < Config.MaxRetries - 1 &&
        var rest := Attempts(attempt + 1, filename, outcomes);
        Attempts(attempt, filename, outcomes) == Run(rest.record, rest.calls + 1, [delay] + rest.delays)
  {
    var outcome;
    outcome, request := CallModel(attempt, images, filename, maxPages, replies, decode);
    AttemptStep(attempt, filename, Outcomes(filename, replies, decode));
    delay := 0;
    match outcome
    case Returned(d) =>
      result := Some(d);
    case Raised(message) =>
      if M.IsRateLimit(message) && attempt < Config.MaxRetries - 1 {
        result, delay := None, Config.RetryBaseDelay * M.Pow2(attempt);
      } else if M.IsRateLimit(message) {
        result := Some(ErrorRecord("Rate limit exceeded after " + IntToString(Config.MaxRetries) + " attempts: " + message,
                                   filename));
      } else {
        result := Some(ErrorRecord("API call failed: " + message, filename));
      }
  }

  /** `extract_metadata_from_images`. `calls` is the number of model calls, `request`
      the image parts of the last one, `delays` the sleeps in order. */
  method ExtractMetadataFromImages(images: seq<Image>, filename: string, maxPages: Option<int>,
                                   replies: nat -> M.Reply, decode: string -> Decoded)
    returns (record: Dict, calls: nat, request: seq<M.Part>, ghost delays: seq<nat>)
    ensures record == Extracted(images, filename, replies, decode).record
    ensures calls == Extracted(images, filename, replies, decode).calls
    ensures delays == Extracted(images, filename, replies, decode).delays
    ensures calls > 0 ==> request == PngParts(images, maxPages)
  {
    request := [];
    delays := [];
    calls := 0;
    if images == [] {
      record := [Field("error", JStr("No images to process"))];
      return;
    }
    ghost var outcomes := Outcomes(filename, replies, decode);
    ghost var whole := Attempts(0, filename, outcomes);
    ghost var rest := whole;
    var attempt: nat := 0;
    var done := false;
    record := [];
    while attempt < Config.MaxRetries && !done
      invariant calls == if done then attempt + 1 else attempt
      invariant calls > 0 ==> request == PngParts(images, maxPages)
      invariant !done ==> rest == Attempts(attempt, filename, outcomes)
      invariant !done ==> whole == Run(rest.record, attempt + rest.calls, delays + rest.delays)
      invariant done ==> whole == Run(record, calls, delays)
      decreases Config.MaxRetries - attempt, if done then 0 else 1
    {
      var result, delay;
      result, delay, request := Attempt(attempt, images, filename, maxPages, replies, decode);
      calls := calls + 1;
      if result.Some? {
        record := result.value;
        done := true;
      } else {
        ConcatAssoc(delays, [delay], Attempts(attempt + 1, filename, outcomes).delays);
        delays := delays + [delay];
        attempt := attempt + 1;
        rest := Attempts(attempt, filename, outcomes);
      }
    }
    if !done {
      record := ErrorRecord("Failed after " + IntToString(Config.MaxRetries) + " attempts", filename);
    }
  }

  // --------------------------------------------------------------- one PDF

  /** Everything about one PDF that lies outside the program: the converter, the
      model's replies, and whether `mkdir`/`copy2` raise. */
  datatype Env = Env(convert: int -> Conversion, replies: nat -> M.Reply,
                     mkdirError: Option<string>, copyError: Option<string>)

  /** `pdf_to_images(pdf_path, max_pages)` (src/pdf_metadata_extractor.py:130-140):
      the converter's pages, or none when it raises; no check comes first. */
  function Rendered(maxPages: int, convert: int -> Conversion): seq<Image> {
    match convert(maxPages)
    case Pages(images) => images
    case ConvertFailed(_) => []
  }

  /** `copy_files and output_dir and "error" not in metadata` (line 265). */
  predicate CopyGate(copyFiles: bool, outputDir: Option<string>, metadata: Dict) {
    copyFiles && outputDir.Some? && outputDir.value != "" && !Has(metadata, "error")
  }

  /** What `process_pdf(pdf_path, output_dir, copy_files, max_pages)`
      (src/pdf_metadata_extractor.py:245-273) returns and leaves in an output
      directory at `dir` that held `before`. There is no validation: an empty
      rendering is the only early exit. */
  ghost predicate Processed(pdfPath: string, outputDir: Option<string>, copyFiles: bool, maxPages: int, env: Env,
                            decode: string -> Decoded, dir: string, before: set<string>,
                            metadata: Dict, after: set<string>)
  {
    var filename := Basename(pdfPath);
    var images := Rendered(maxPages, env.convert);
    if images == [] then metadata == ErrorRecord("Failed to convert PDF to images", filename) && after == before
    else
      var extracted := Extracted(images, filename, env.replies, decode).record;
      if !CopyGate(copyFiles, outputDir, extracted) then metadata == extracted && after == before
      else exists r :: CopiedAs(dir, pdfPath, CreateNewFilename(extracted), env.mkdirError, env.copyError, before, r, after)
                       && metadata == O.Annotated(extracted, r)
  }

  /** `process_pdf`. */
  method ProcessPdf(pdfPath: string, outputDir: Option<string>, copyFiles: bool, maxPages: int, env: Env,
                    decode: string -> Decoded, out: OutputDirectory)
    returns (metadata: Dict, calls: nat)
    requires outputDir.Some? ==> out.path == outputDir.value
    modifies out
    ensures Processed(pdfPath, outputDir, copyFiles, maxPages, env, decode, out.path, old(out.names), metadata, out.names)
    ensures calls <= Config.MaxRetries
    ensures calls > 0 ==> Rendered(maxPages, env.convert) != []
  {
    calls := 0;
    var filename := Basename(pdfPath);
    var images := Rendered(maxPages, env.convert);
    if images == [] {
      return ErrorRecord("Failed to convert PDF to images", filename), 0;
    }
    var request;
    ghost var delays;
    metadata, calls, request, delays := ExtractMetadataFromImages(images, filename, Some(maxPages), env.replies, decode);
    AttemptsCount(0, filename, Outcomes(filename, env.replies, decode));
    if copyFiles && outputDir.Some? && outputDir.value != "" && !Has(metadata, "error") {
      ghost var extracted := metadata;
      var copyResult := CopyPdfFile(out, pdfPath, metadata, env.mkdirError, env.copyError);
      var info := CopyInfo(copyResult);
      metadata := Put(metadata, "copy_info", JObject(info));
      if Truthy(GetOr(info, "copied", JNull)) {
        metadata := Put(metadata, "output_filename", GetOr(info, "output_filename", JNull));
      }
      assert metadata == O.Annotated(extracted, copyResult);
    }
  }

  /** Every record `process_pdf` returns names its file, and the output directory
      changes only by one new name, through a copy behind the gate. */
  lemma ProcessedLaws(pdfPath: string, outputDir: Option<string>, copyFiles: bool, maxPages: int, env: Env,
                      decode: string -> Decoded, dir: string, before: set<string>, metadata: Dict, after: set<string>)
    requires Processed(pdfPath, outputDir, copyFiles, maxPages, env, decode, dir, before, metadata, after)
    ensures Get(metadata, "source_filename") == Some(JStr(Basename(pdfPath)))
    ensures after != before ==>
              && Rendered(maxPages, env.convert) != []
              && CopyGate(copyFiles, outputDir, Extracted(Rendered(maxPages, env.convert), Basename(pdfPath),
                                                          env.replies, decode).record)
              && exists name :: name !in before && after == before + {name} && Contained(name)
  {
    var filename := Basename(pdfPath);
    var images := Rendered(maxPages, env.convert);
    if images != [] {
      var extracted := Extracted(images, filename, env.replies, decode).record;
      OutcomesNameFile(filename, env.replies, decode);
      AttemptsFilename(0, filename, Outcomes(filename, env.replies, decode));
      if CopyGate(copyFiles, outputDir, extracted) {
        var r :| CopiedAs(dir, pdfPath, CreateNewFilename(extracted), env.mkdirError, env.copyError, before, r, after)
                 && metadata == O.Annotated(extracted, r);
        O.AnnotatedLaws(extracted, r, "source_filename");
        if r.Copied? {
          CopyStaysInside(dir, pdfPath, extracted, env.mkdirError, env.copyError, before, r, after);
        }
      }
    }
  }

  // ------------------------------------------------------------ a directory

  /** One entry of the directory: its name, the world of the PDF, and how the
      results file write after it ends. */
  datatype Entry = Entry(name: string, env: Env, write: WriteOutcome)

  /** `s`, lower-cased when the platform's glob ignores letter case. */
  function Fold(s: string, foldCase: bool): string {
    if foldCase then Lower(s) else s
  }

  /** `fnmatch` of a name against a pattern `"*" + suffix`. */
  predicate GlobMatch(name: string, pattern: string, foldCase: bool) {
    |pattern| >= 1 && pattern[0] == '*' && EndsWith(Fold(name, foldCase), Fold(pattern[1..], foldCase))
  }

  /** `directory.glob(pattern)`: the matching entries, in directory order.
      `foldCase` is the platform's rule (case-insensitive on Windows paths). */
  function Glob(entries: seq<Entry>, pattern: string, foldCase: bool): seq<Entry> {
    if entries == [] then []
    else
      var last := entries[|entries| - 1];
      Glob(entries[..|entries| - 1], pattern, foldCase) + (if GlobMatch(last.name, pattern, foldCase) then [last] else [])
  }

  /** The concatenated results of one glob per pattern. */
  function Discovered(entries: seq<Entry>, patterns: seq<string>, foldCase: bool): seq<Entry> {
    if patterns == [] then []
    else Discovered(entries, patterns[..|patterns| - 1], foldCase) + Glob(entries, patterns[|patterns| - 1], foldCase)
  }

  /** A glob keeps exactly the matching entries. */
  lemma {:induction false} GlobMembers(entries: seq<Entry>, pattern: string, foldCase: bool)
    ensures forall e :: e in Glob(entries, pattern, foldCase) <==> e in entries && GlobMatch(e.name, pattern, foldCase)
  {
    if entries != [] {
      GlobMembers(entries[..|entries| - 1], pattern, foldCase);
      assert entries == entries[..|entries| - 1] + [entries[|entries| - 1]];
    }
  }

  /** Two patterns that match the same names give the same glob. */
  lemma {:induction false} GlobSame(entries: seq<Entry>, p: string, q: string, foldCase: bool)
    requires forall n: string :: GlobMatch(n, p, foldCase) == GlobMatch(n, q, foldCase)
    ensures Glob(entries, p, foldCase) == Glob(entries, q, foldCase)
  {
    if entries != [] {
      GlobSame(entries[..|entries| - 1], p, q, foldCase);
    }
  }

  /** The file list of src/pdf_metadata_extractor.py:284-286: the "*.pdf" glob followed
      by the "*.PDF" glob. */
  lemma PdfDiscovery(entries: seq<Entry>, foldCase: bool)
    ensures Discovered(entries, Config.PdfPatterns, foldCase)
            == Glob(entries, "*.pdf", foldCase) + Glob(entries, "*.PDF", foldCase)
  {
    var ps := Config.PdfPatterns;
    assert ps[..1] == ["*.pdf"] && ps[1] == "*.PDF";
    assert ps[..1][..0] == [];
    assert Discovered(entries, ps[..1], foldCase) == Discovered(entries, [], foldCase) + Glob(entries, "*.pdf", foldCase);
    assert Discovered(entries, ps, foldCase) == Discovered(entries, ps[..1], foldCase) + Glob(entries, "*.PDF", foldCase);
  }

  /** Under case-sensitive matching an entry is listed when its name ends in ".pdf"
      or in ".PDF" — so "a.Pdf" is not, unlike the current revision's discovery. */
  lemma CaseSensitiveDiscovery(entries: seq<Entry>, e: Entry)
    ensures e in Discovered(entries, Config.PdfPatterns, false) <==>
              e in entries && (EndsWith(e.name, ".pdf") || EndsWith(e.name, ".PDF"))
  {
    PdfDiscovery(entries, false);
    GlobMembers(entries, "*.pdf", false);
    GlobMembers(entries, "*.PDF", false);
    assert "*.pdf"[1..] == ".pdf" && "*.PDF"[1..] == ".PDF";
  }

  /** Under case-insensitive matching both globs find the same files, so every PDF
      is listed, and processed, twice. */
  lemma FoldedDiscoveryTwice(entries: seq<Entry>)
    ensures Discovered(entries, Config.PdfPatterns, true)
            == Glob(entries, "*.pdf", true) + Glob(entries, "*.pdf", true)
  {
    PdfDiscovery(entries, true);
    assert "*.pdf"[1..] == ".pdf" && "*.PDF"[1..] == ".PDF";
    assert Lower(".PDF") == ".pdf" && Lower(".pdf") == ".pdf";
    GlobSame(entries, "*.pdf", "*.PDF", true);
  }

  /** The discovery loop over the patterns. */
  method DiscoverPdfs(entries: seq<Entry>, foldCase: bool) returns (pdfs: seq<Entry>)
    ensures pdfs == Discovered(entries, Config.PdfPatterns, foldCase)
  {
    pdfs := [];
    var p := 0;
    while p < |Config.PdfPatterns|
      invariant 0 <= p <= |Config.PdfPatterns|
      invariant pdfs == Discovered(entries, Config.PdfPatterns[..p], foldCase)
    {
      assert Config.PdfPatterns[..p + 1][..p] == Config.PdfPatterns[..p];
      pdfs := pdfs + Glob(entries, Config.PdfPatterns[p], foldCase);
      p := p + 1;
    }
    assert Config.PdfPatterns[..p] == Config.PdfPatterns;
  }

  /** The pause after the `i`-th of `n` files, in seconds (lines 324-329): the full
      `DEFAULT_RATE_LIMIT_DELAY` after a file that is neither the last nor an error. */
  function Spacing(i: nat, n: nat, result: Dict): nat {
    if i + 1 < n && !Has(result, "error") then Config.RateLimitDelaySeconds else 0
  }

  /** The pause is all or nothing; it is never shorter than the current revision's
      wait, which subtracts the processing time, and equals it for a file processed
      in no time. */
  lemma SpacingLaws(i: nat, n: nat, result: Dict, elapsedMs: nat)
    ensures Spacing(i, n, result) == 0 || Spacing(i, n, result) == Config.RateLimitDelaySeconds
    ensures Spacing(i, n, result) > 0 <==> i + 1 < n && !Has(result, "error")
    ensures Spacing(i, n, result) * 1000 >= O.Spacing(i, n, result, elapsedMs)
    ensures Spacing(i, n, result) * 1000 == O.Spacing(i, n, result, 0)
  {
  }

  /** `bool(path)` for an optional string argument. */
  predicate Given(a: Option<string>) {
    a.Some? && a.value != ""
  }

  /** The results file after saving `results` to `path`. */
  function Saved(prev: Option<seq<Json>>, results: seq<Dict>, pdfs: seq<Entry>, path: string): Option<seq<Json>>
    requires |results| == |pdfs|
  {
    if results == [] then prev
    else
      var n := |results| - 1;
      var before := Saved(prev, results[..n], pdfs[..n], path);
      if '/' !in path then before
      else match pdfs[n].write
        case Written => Some(before.GetOr([]) + [JObject(results[n])])
        case FailedBeforeOpen(_) => before
        case FailedAfterOpen(_) => None
  }

  /** A results path without a directory part is never written. */
  lemma {:induction false} BarePathNeverSaved(prev: Option<seq<Json>>, results: seq<Dict>, pdfs: seq<Entry>, path: string)
    requires |results| == |pdfs| && '/' !in path
    ensures Saved(prev, results, pdfs, path) == prev
  {
    if results != [] {
      BarePathNeverSaved(prev, results[..|results| - 1], pdfs[..|results| - 1], path);
    }
  }

  /** With a directory part and every write succeeding, the file holds what it held
      followed by every record of the batch, in order. */
  lemma {:induction false} SavedAll(prev: Option<seq<Json>>, results: seq<Dict>, pdfs: seq<Entry>, path: string)
    requires |results| == |pdfs| && |results| > 0 && '/' in path
    requires forall i :: 0 <= i < |pdfs| ==> pdfs[i].write.Written?
    ensures Saved(prev, results, pdfs, path) ==
            Some(prev.GetOr([]) + seq(|results|, i requires 0 <= i < |results| => JObject(results[i])))
  {
    var n := |results| - 1;
    if n > 0 {
      SavedAll(prev, results[..n], pdfs[..n], path);
    }
    var before := Saved(prev, results[..n], pdfs[..n], path);
    var all := seq(|results|, i requires 0 <= i < |results| => JObject(results[i]));
    var head := seq(n, i requires 0 <= i < n => JObject(results[i]));
    assert head == seq(n, i requires 0 <= i < n => JObject(results[..n][i]));
    assert before.GetOr([]) == prev.GetOr([]) + head;
    assert all == head + [JObject(results[n])];
    assert pdfs[n].write.Written?;
    assert Saved(prev, results, pdfs, path) == Some(before.GetOr([]) + [JObject(results[n])]);
    assert (prev.GetOr([]) + head) + [JObject(results[n])] == prev.GetOr([]) + all;
  }

  /** With a directory part, a dump that fails after file `k` truncates the results
      file: the records saved before it are lost, and the file then holds only the
      records of later files. */
  lemma {:induction false} SavedAfterTruncation(prev: Option<seq<Json>>, results: seq<Dict>, pdfs: seq<Entry>, path: string, k: nat)
    requires |results| == |pdfs| && '/' in path && k < |pdfs| && pdfs[k].write.FailedAfterOpen?
    requires forall i :: k < i < |pdfs| ==> pdfs[i].write.Written?
    ensures k + 1 == |results| ==> Saved(prev, results, pdfs, path) == None
    ensures k + 1 < |results| ==>
              Saved(prev, results, pdfs, path) == Some(seq(|results| - k - 1, i requires 0 <= i < |results| - k - 1 => JObject(results[k + 1 + i])))
  {
    var n := |results| - 1;
    if n > k {
      SavedAfterTruncation(prev, results[..n], pdfs[..n], path, k);
      var before := Saved(prev, results[..n], pdfs[..n], path);
      var head := seq(n - k - 1, i requires 0 <= i < n - k - 1 => JObject(results[k + 1 + i]));
      assert before.GetOr([]) == head;
      assert seq(|results| - k - 1, i requires 0 <= i < |results| - k - 1 => JObject(results[k + 1 + i]))
             == head + [JObject(results[n])];
    }
  }

  lemma SavedExtend(prev: Option<seq<Json>>, pdfs: seq<Entry>, results: seq<Dict>, i: nat, result: Dict, path: string)
    requires i < |pdfs| && |results| == i
    ensures Saved(prev, results + [result], pdfs[..i + 1], path)
            == if '/' !in path then Saved(prev, results, pdfs[..i], path)
               else match pdfs[i].write
                 case Written => Some(Saved(prev, results, pdfs[..i], path).GetOr([]) + [JObject(result)])
                 case FailedBeforeOpen(_) => Saved(prev, results, pdfs[..i], path)
                 case FailedAfterOpen(_) => None
  {
    assert (results + [result])[..i] == results;
    assert pdfs[..i + 1][..i] == pdfs[..i];
  }

  /** The `j`-th file gave `result` and took the output directory from `before`
      to `after`. */
  ghost predicate ProcessedAt(j: nat, dirPath: string, pdfs: seq<Entry>, outputDir: Option<string>, maxPages: int,
                              decode: string -> Decoded, dir: string, before: set<string>, result: Dict, after: set<string>)
  {
    && j < |pdfs|
    && Processed(JoinPath(dirPath, pdfs[j].name), outputDir, outputDir.Some?, maxPages,
                 pdfs[j].env, decode, dir, before, result, after)
  }

  /** The first `k` files were processed in turn. */
  ghost predicate AllProcessed(dirPath: string, pdfs: seq<Entry>, outputDir: Option<string>, maxPages: int,
                               decode: string -> Decoded, dir: string, trace: seq<set<string>>, results: seq<Dict>, k: nat)
  {
    && k <= |pdfs| && k <= |results| && k < |trace|
    && forall j :: 0 <= j < k ==> ProcessedAt(j, dirPath, pdfs, outputDir, maxPages, decode, dir, trace[j], results[j], trace[j + 1])
  }

  /** The pauses after the first `k` files follow the spacing rule. */
  ghost predicate AllSpaced(pdfs: seq<Entry>, results: seq<Dict>, waits: seq<nat>, k: nat) {
    && k <= |pdfs| && k <= |results| && k <= |waits|
    && forall j :: 0 <= j < k ==> waits[j] == Spacing(j, |pdfs|, results[j])
  }

  lemma ProcessedExtend(dirPath: string, pdfs: seq<Entry>, outputDir: Option<string>, maxPages: int,
                        decode: string -> Decoded, dir: string, trace: seq<set<string>>, results: seq<Dict>,
                        i: nat, result: Dict, after: set<string>)
    requires i < |pdfs| && |results| == i && |trace| == i + 1
    requires AllProcessed(dirPath, pdfs, outputDir, maxPages, decode, dir, trace, results, i)
    requires Processed(JoinPath(dirPath, pdfs[i].name), outputDir, outputDir.Some?, maxPages,
                       pdfs[i].env, decode, dir, trace[i], result, after)
    ensures AllProcessed(dirPath, pdfs, outputDir, maxPages, decode, dir, trace + [after], results + [result], i + 1)
  {
    var P := (j: nat, b: set<string>, res: Dict, a: set<string>) =>
      ProcessedAt(j, dirPath, pdfs, outputDir, maxPages, decode, dir, b, res, a);
    forall j | 0 <= j < i ensures P(j, trace[j], results[j], trace[j + 1]) {
      assert ProcessedAt(j, dirPath, pdfs, outputDir, maxPages, decode, dir, trace[j], results[j], trace[j + 1]);
    }
    O.StepsExtend(P, trace, results, i, result, after);
    var t, r := trace + [after], results + [result];
    forall j | 0 <= j < i + 1
      ensures ProcessedAt(j, dirPath, pdfs, outputDir, maxPages, decode, dir, t[j], r[j], t[j + 1])
    {
      assert P(j, t[j], r[j], t[j + 1]);
    }
  }

  lemma SpacedExtend(pdfs: seq<Entry>, results: seq<Dict>, waits: seq<nat>, i: nat, result: Dict, wait: nat)
    requires i < |pdfs| && |results| == i && |waits| == i
    requires AllSpaced(pdfs, results, waits, i)
    requires wait == Spacing(i, |pdfs|, result)
    ensures AllSpaced(pdfs, results + [result], waits + [wait], i + 1)
  {
    var r := results + [result];
    var w := waits + [wait];
    forall j | 0 <= j < i + 1 ensures w[j] == Spacing(j, |pdfs|, r[j]) {
      if j < i {
        assert r[j] == results[j] && w[j] == waits[j];
      }
    }
  }

  /** One iteration of the loop of src/pdf_metadata_extractor.py:307-329. */
  method ProcessEntry(dirPath: string, pdfs: seq<Entry>, i: nat, outputDir: Option<string>, maxPages: int,
                      resultsPath: Option<string>, decode: string -> Decoded, out: OutputDirectory, rf: ResultsFile,
                      ghost trace: seq<set<string>>, ghost results: seq<Dict>)
    returns (result: Dict, ghost wait: nat)
    requires outputDir.Some? ==> out.path == outputDir.value
    requires i < |pdfs| && |results| == i && |trace| == i + 1 && trace[i] == out.names
    requires AllProcessed(dirPath, pdfs, outputDir, maxPages, decode, out.path, trace, results, i)
    modifies out, rf
    ensures AllProcessed(dirPath, pdfs, outputDir, maxPages, decode, out.path, trace + [out.names], results + [result], i + 1)
    ensures wait == Spacing(i, |pdfs|, result)
    ensures rf.records == if !Given(resultsPath) || '/' !in resultsPath.value then old(rf.records)
                          else match pdfs[i].write
                            case Written => Some(old(rf.records).GetOr([]) + [JObject(result)])
                            case FailedBeforeOpen(_) => old(rf.records)
                            case FailedAfterOpen(_) => None
  {
    var entry := pdfs[i];
    var copyFiles := outputDir.Some?;
    var calls;
    result, calls := ProcessPdf(JoinPath(dirPath, entry.name), outputDir, copyFiles, maxPages, entry.env, decode, out);
    ProcessedExtend(dirPath, pdfs, outputDir, maxPages, decode, out.path, trace, results, i, result, out.names);
    if Given(resultsPath) {
      var _ := UpdateResultsFile(rf, resultsPath.value, result, entry.write);
    }
    wait := 0;
    if i + 1 < |pdfs| && !Has(result, "error") {
      wait := Config.RateLimitDelaySeconds;
    }
  }

  /** The loop over the discovered files. */
  method ProcessFiles(dirPath: string, pdfs: seq<Entry>, outputDir: Option<string>, resultsPath: Option<string>,
                      maxPages: int, decode: string -> Decoded, out: OutputDirectory, rf: ResultsFile)
    returns (results: seq<Dict>, ghost waits: seq<nat>, ghost trace: seq<set<string>>)
    requires outputDir.Some? ==> out.path == outputDir.value
    modifies out, rf
    ensures |results| == |pdfs| && |waits| == |pdfs|
    ensures |trace| == |pdfs| + 1 && trace[0] == old(out.names) && trace[|pdfs|] == out.names
    ensures AllProcessed(dirPath, pdfs, outputDir, maxPages, decode, out.path, trace, results, |pdfs|)
    ensures AllSpaced(pdfs, results, waits, |pdfs|)
    ensures rf.records == if Given(resultsPath) then Saved(old(rf.records), results, pdfs, resultsPath.value)
                          else old(rf.records)
  {
    results := [];
    waits := [];
    trace := [out.names];
    var i := 0;
    while i < |pdfs|
      invariant 0 <= i <= |pdfs|
      invariant |results| == i && |waits| == i && |trace| == i + 1
      invariant trace[0] == old(out.names) && trace[i] == out.names
      invariant AllProcessed(dirPath, pdfs, outputDir, maxPages, decode, out.path, trace, results, i)
      invariant AllSpaced(pdfs, results, waits, i)
      invariant rf.records == if Given(resultsPath) then Saved(old(rf.records), results, pdfs[..i], resultsPath.value)
                              else old(rf.records)
    {
      var result;
      ghost var wait;
      result, wait := ProcessEntry(dirPath, pdfs, i, outputDir, maxPages, resultsPath, decode, out, rf, trace, results);
      SpacedExtend(pdfs, results, waits, i, result, wait);
      if Given(resultsPath) {
        SavedExtend(old(rf.records), pdfs, results, i, result, resultsPath.value);
      }
      results := results + [result];
      trace := trace + [out.names];
      waits := waits + [wait];
      i := i + 1;
    }
    assert pdfs[..i] == pdfs;
  }

  /** `process_directory(directory_path, output_dir, results_file_path, max_pages)`
      (src/pdf_metadata_extractor.py:275-331): one record per listed entry, in list
      order; a directory that is missing or holds no match gives `[]`. */
  method ProcessDirectory(directoryPath: string, entries: seq<Entry>, foldCase: bool, outputDir: Option<string>,
                          resultsPath: Option<string>, maxPages: int, decode: string -> Decoded,
                          out: OutputDirectory, rf: ResultsFile)
    returns (results: seq<Dict>, ghost waits: seq<nat>, ghost trace: seq<set<string>>)
    requires outputDir.Some? ==> out.path == outputDir.value
    modifies out, rf
    ensures var pdfs := Discovered(entries, Config.PdfPatterns, foldCase);
      && |results| == |pdfs| && |waits| == |pdfs|
      && |trace| == |pdfs| + 1 && trace[0] == old(out.names) && trace[|pdfs|] == out.names
      && AllProcessed(directoryPath, pdfs, outputDir, maxPages, decode, out.path, trace, results, |pdfs|)
      && AllSpaced(pdfs, results, waits, |pdfs|)
      && rf.records == if Given(resultsPath) then Saved(old(rf.records), results, pdfs, resultsPath.value)
                       else old(rf.records)
  {
    var pdfs := DiscoverPdfs(entries, foldCase);
    results, waits, trace := ProcessFiles(directoryPath, pdfs, outputDir, resultsPath, maxPages, decode, out, rf);
  }

  /** In a processed batch, the `j`-th record names the `j`-th listed file. */
  lemma BatchNamesFiles(dirPath: string, pdfs: seq<Entry>, outputDir: Option<string>, maxPages: int,
                        decode: string -> Decoded, dir: string, trace: seq<set<string>>, results: seq<Dict>, j: nat)
    requires AllProcessed(dirPath, pdfs, outputDir, maxPages, decode, dir, trace, results, |pdfs|)
    requires j < |pdfs| && '/' !in pdfs[j].name
    ensures Get(results[j], "source_filename") == Some(JStr(pdfs[j].name))
  {
    assert ProcessedAt(j, dirPath, pdfs, outputDir, maxPages, decode, dir, trace[j], results[j], trace[j + 1]);
    ProcessedLaws(JoinPath(dirPath, pdfs[j].name), outputDir, outputDir.Some?, maxPages, pdfs[j].env, decode, dir,
                  trace[j], results[j], trace[j + 1]);
    O.BasenameOfJoin(dirPath, pdfs[j].name);
  }
}
