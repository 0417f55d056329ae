/**
 * `MetadataExtractor` in src/metadata_extractor.py: turning the vision model's
 * reply into a metadata record, the two records used when that fails, the
 * classification of exception messages and the bounded retry loop with its
 * back-off delays. The model client is a script of replies indexed by
 * attempt; `json.loads` is a function parameter; sleeping is recorded as a
 * trace of requested delays.
 */
module MetadataExtractor {
  import opened Wrappers
  import opened Text
  import opened Json
  import opened PdfProcessor
  import Config

  // ------------------------------------------------------------ records

  const CouldNotParse: string := "Could not parse JSON response"

  /** How much of an unparsable reply the fallback record keeps. */
  const RawLimit: nat := 500

  /** The keys of the error record, in the order the source writes them. */
  const ErrorKeys: seq<string> := ["title", "author", "year", "source_filename", "error"]

  /** The keys of the fallback record, in the order the source writes them. */
  const FallbackKeys: seq<string> := ["title", "author", "year", "source_filename", "raw_response", "parse_error"]

  /** `_create_error_response(error_message, filename)` (src/metadata_extractor.py:120-130):
      three "Error" fields, the file name and the message under `error`. */
  function ErrorRecord(message: string, filename: string): (d: Dict)
    ensures Get(d, "error") == Some(JStr(message))
    ensures Get(d, "source_filename") == Some(JStr(filename))
    ensures Get(d, "title") == Some(JStr("Error"))
    ensures Get(d, "author") == Some(JStr("Error"))
    ensures Get(d, "year") == Some(JStr("Error"))
  {
    var values := [JStr("Error"), JStr("Error"), JStr("Error"), JStr(filename), JStr(message)];
    GetRecord(ErrorKeys, values, 0);
    GetRecord(ErrorKeys, values, 1);
    GetRecord(ErrorKeys, values, 2);
    GetRecord(ErrorKeys, values, 3);
    GetRecord(ErrorKeys, values, 4);
    Record(ErrorKeys, values)
  }

  /** `raw[:500] + "..." if len(raw) > 500 else raw`: a reply of at most 500
      characters is kept whole; a longer one is cut to its first 500 and marked. */
  function TruncateRaw(raw: string): (r: string)
    ensures |r| <= RawLimit + 3
    ensures |raw| <= RawLimit ==> r == raw
    ensures |raw| > RawLimit ==> r == raw[..RawLimit] + "..." && r[..RawLimit] == raw[..RawLimit]
  {
    if |raw| > RawLimit then raw[..RawLimit] + "..." else raw
  }

  /** The values of the fallback record, in the order of `FallbackKeys`. */
  function FallbackValues(filename: string, raw: string, error: Option<string>): (v: seq<Json>)
    ensures |v| == |FallbackKeys|
  {
    [JStr(CouldNotParse), JStr(CouldNotParse), JStr(CouldNotParse), JStr(filename),
     JStr(TruncateRaw(raw)), if error.Some? then JStr(error.value) else JNull]
  }

  /** `_create_fallback_response(filename, raw_response, error)`
      (src/metadata_extractor.py:105-118): three "Could not parse JSON response"
      fields, the file name, the truncated reply and the parse error (or `None`).
      It has no `error` key, so the orchestrator still copies the file. */
  function FallbackRecord(filename: string, raw: string, error: Option<string>): Dict {
    Record(FallbackKeys, FallbackValues(filename, raw, error))
  }

  /** The fallback record has no `error` key and holds exactly the fields it is
      built from. */
  lemma FallbackRecordLaws(filename: string, raw: string, error: Option<string>)
    ensures !Has(FallbackRecord(filename, raw, error), "error")
    ensures Get(FallbackRecord(filename, raw, error), "title") == Some(JStr(CouldNotParse))
    ensures Get(FallbackRecord(filename, raw, error), "author") == Some(JStr(CouldNotParse))
    ensures Get(FallbackRecord(filename, raw, error), "year") == Some(JStr(CouldNotParse))
    ensures Get(FallbackRecord(filename, raw, error), "source_filename") == Some(JStr(filename))
    ensures Get(FallbackRecord(filename, raw, error), "raw_response") == Some(JStr(TruncateRaw(raw)))
    ensures Get(FallbackRecord(filename, raw, error), "parse_error") == Some(if error.Some? then JStr(error.value) else JNull)
  {
    var values := FallbackValues(filename, raw, error);
    FallbackRecordHead(values);
    FallbackRecordTail(values);
  }

  /** Lookups in a record with the fallback keys, split in two to keep each proof small. */
  lemma FallbackRecordHead(values: seq<Json>)
    requires |values| == |FallbackKeys|
    ensures !Has(Record(FallbackKeys, values), "error")
    ensures Get(Record(FallbackKeys, values), "title") == Some(values[0])
    ensures Get(Record(FallbackKeys, values), "author") == Some(values[1])
    ensures Get(Record(FallbackKeys, values), "year") == Some(values[2])
  {
    HasRecord(FallbackKeys, values, "error");
    GetRecord(FallbackKeys, values, 0);
    GetRecord(FallbackKeys, values, 1);
    GetRecord(FallbackKeys, values, 2);
  }

  lemma FallbackRecordTail(values: seq<Json>)
    requires |values| == |FallbackKeys|
    ensures Get(Record(FallbackKeys, values), "source_filename") == Some(values[3])
    ensures Get(Record(FallbackKeys, values), "raw_response") == Some(values[4])
    ensures Get(Record(FallbackKeys, values), "parse_error") == Some(values[5])
  {
    GetRecord(FallbackKeys, values, 3);
    GetRecord(FallbackKeys, values, 4);
    GetRecord(FallbackKeys, values, 5);
  }

  // ----------------------------------------------------------- fences

  /** `s` starts with `p`. */
  predicate StartsWith(s: string, p: string) {
    |p| <= |s| && s[..|p|] == p
  }

  /** `re.sub(r"^```\s*json\s*\n?", "", s, flags=re.IGNORECASE)`: a leading
      "```", optional whitespace, "json" in any letter case and the whitespace
      after it are removed; anything else is left alone. */
  function StripLeadingFence(s: string): string {
    if !StartsWith(s, "```") then s
    else
      var r := s[3..];
      var a := LeadingSpaces(r);
      if a + 4 <= |r| && Lower(r[a..a + 4]) == "json" then
        var t := r[a + 4..];
        t[LeadingSpaces(t)..]
      else s
  }

  /** `re.sub(r"\n?```\s*$", "", s)`: a "```" followed only by whitespace up to the
      end is removed together with that whitespace and with one newline before it. */
  function StripTrailingFence(s: string): string {
    var e := |s| - TrailingSpaces(s);
    if e >= 3 && s[e - 3..e] == "```" then
      if e >= 4 && s[e - 4] == '\n' then s[..e - 4] else s[..e - 3]
    else s
  }

  /** The first `{` to the last `}`, inclusive, when both occur (Python's slice gives
      the empty string when the last `}` comes before the first `{`). */
  function BraceSlice(s: string): string {
    match (FindChar(s, '{'), RFindChar(s, '}'))
    case (Some(start), Some(last)) => Slice(s, start, last + 1)
    case _ => s
  }

  /** The text `json.loads` receives (src/metadata_extractor.py:69-82). */
  function PreparedText(reply: string): string {
    BraceSlice(Strip(StripTrailingFence(StripLeadingFence(Strip(reply)))))
  }

  /** When the braces occur in order, the text handed to the decoder runs from the
      first `{` to the last `}` of the cleaned reply. */
  lemma BraceSliceShape(s: string)
    ensures '{' in s && '}' in s ==> |BraceSlice(s)| <= |s|
    ensures var b := BraceSlice(s);
      b != [] && '{' in s && '}' in s ==> b[0] == '{' && b[|b| - 1] == '}' && '{' !in s[..FindChar(s, '{').value]
    ensures !('{' in s && '}' in s) ==> BraceSlice(s) == s
  {
    var f, l := FindChar(s, '{'), RFindChar(s, '}');
    if f.Some? && l.Some? {
      var b := BraceSlice(s);
      assert b == Slice(s, f.value, l.value + 1);
      if b != [] {
        assert b == s[f.value..l.value + 1];
        assert b[0] == s[f.value];
        assert b[|b| - 1] == s[l.value];
      }
    } else {
      assert !('{' in s && '}' in s);
    }
  }

  /** A reply wrapped in a json fence, ```` ```json\n{...}\n``` ````, is handed to
      the decoder as exactly the object text inside, whatever its contents. */
  lemma FencedReply(body: string)
    requires |body| >= 2 && body[0] == '{' && body[|body| - 1] == '}'
    ensures PreparedText("```json\n" + body + "\n```") == body
  {
    var s := "```json\n" + body + "\n```";
    FenceCharsNotSpace();
    assert s[0] == '`' && s[|s| - 1] == '`';
    StripClean(s);
    LeadingFenceRemoved(body);
    TrailingFenceRemoved(body);
    StripClean(body);
    BraceSliceWhole(body);
  }

  /** The characters of the fence and the braces are not whitespace. */
  lemma FenceCharsNotSpace()
    ensures !IsSpace('`') && !IsSpace('{') && !IsSpace('}')
  {
  }

  lemma LeadingFenceRemoved(body: string)
    requires |body| >= 1 && !IsSpace(body[0])
    ensures StripLeadingFence("```json\n" + body + "\n```") == body + "\n```"
  {
    var s := "```json\n" + body + "\n```";
    var r := s[3..];
    assert r == "json\n" + body + "\n```";
    assert LeadingSpaces(r) == 0;
    assert r[0..4] == "json";
    LowerJson();
    var t := r[4..];
    assert t == "\n" + body + "\n```";
    assert IsSpace(t[0]);
    assert t[1..] == body + "\n```";
    assert LeadingSpaces(t) == 1;
  }

  /** The fence's language tag is already in lower case. */
  lemma LowerJson()
    ensures Lower("json") == "json"
  {
  }

  lemma BraceSliceWhole(body: string)
    requires |body| >= 2 && body[0] == '{' && body[|body| - 1] == '}'
    ensures BraceSlice(body) == body
  {
    assert FindChar(body, '{') == Some(0);
    assert RFindChar(body, '}') == Some(|body| - 1);
  }

  lemma TrailingFenceRemoved(body: string)
    ensures StripTrailingFence(body + "\n```") == body
  {
    var u := body + "\n```";
    assert !IsSpace(u[|u| - 1]);
    assert TrailingSpaces(u) == 0;
    assert u[|u| - 3..] == "```";
    assert u[|u| - 4] == '\n';
    assert u[..|u| - 4] == body;
  }

  // ------------------------------------------------------------ parsing

  /** The fields filled with "Not found" when missing. */
  const RequiredFields: seq<string> := ["title", "author", "year"]

  /** `if field not in result: result[field] = "Not found"`. */
  function AddDefault(d: Dict, field: string): Dict {
    if Has(d, field) then d else Put(d, field, JStr(Config.NotFound))
  }

  /** The defaulting loop of src/metadata_extractor.py:90-93 after the first
      `|fields|` fields. */
  function WithDefaults(d: Dict, fields: seq<string>): Dict
    decreases |fields|
  {
    if fields == [] then d else AddDefault(WithDefaults(d, fields[..|fields| - 1]), fields[|fields| - 1])
  }

  /** A dictionary reply with defaults filled in and the file name stamped on it. */
  function CompletedRecord(fields: Dict, filename: string): Dict {
    Put(WithDefaults(fields, RequiredFields), "source_filename", JStr(filename))
  }

  /** `_parse_api_response(response, filename)` (src/metadata_extractor.py:66-103) as
      a value: a decoded dictionary is completed; a decoded non-dictionary gives the
      fallback record with `str(result)` and no parse error; a decoding error gives
      the fallback record with the original reply and the decoder's message; any
      other exception gives it with "Unexpected error: " before the message. */
  function ParsedRecord(reply: string, filename: string, decode: string -> Decoded): Dict {
    Interpreted(decode(PreparedText(reply)), reply, filename)
  }

  /** What `_parse_api_response` makes of the decoder's outcome on `reply`. */
  function Interpreted(result: Decoded, reply: string, filename: string): Dict {
    match result
    case Decoded(JObject(fields)) => CompletedRecord(fields, filename)
    case Decoded(v) => FallbackRecord(filename, Show(v), None)
    case DecodeError(msg) => FallbackRecord(filename, reply, Some(msg))
    case Crashed(msg) => FallbackRecord(filename, reply, Some("Unexpected error: " + msg))
  }

  /** Defaulting adds exactly the missing fields, with "Not found", and leaves every
      field that was present as it was. */
  lemma {:induction false} WithDefaultsLaws(d: Dict, fields: seq<string>, key: string)
    ensures key in fields ==> Has(WithDefaults(d, fields), key)
    ensures key in fields && !Has(d, key) ==> Get(WithDefaults(d, fields), key) == Some(JStr(Config.NotFound))
    ensures Has(d, key) || key !in fields ==> Get(WithDefaults(d, fields), key) == Get(d, key)
    decreases |fields|
  {
    if fields != [] {
      var init := fields[..|fields| - 1];
      var last := fields[|fields| - 1];
      WithDefaultsLaws(d, init, key);
      var w := WithDefaults(d, init);
      GetPut(w, last, JStr(Config.NotFound), key);
      assert key in fields ==> key in init || key == last;
      assert key !in fields ==> key !in init && key != last;
    }
  }

  /** A dictionary reply keeps every key and value it had, except that `source_filename`
      is always the known file name, and each of title, author and year is present,
      with "Not found" where the reply left it out. */
  lemma CompletedRecordLaws(fields: Dict, filename: string, key: string)
    ensures Get(CompletedRecord(fields, filename), "source_filename") == Some(JStr(filename))
    ensures key in RequiredFields ==> Has(CompletedRecord(fields, filename), key)
    ensures key in RequiredFields && !Has(fields, key) ==>
              Get(CompletedRecord(fields, filename), key) == Some(JStr(Config.NotFound))
    ensures key != "source_filename" && (Has(fields, key) || key !in RequiredFields) ==>
              Get(CompletedRecord(fields, filename), key) == Get(fields, key)
  {
    var w := WithDefaults(fields, RequiredFields);
    WithDefaultsLaws(fields, RequiredFields, key);
    GetPut(w, "source_filename", JStr(filename), key);
  }

  /** Parsing never yields an `error` key of its own making: the record of a
      dictionary reply has one only if the reply itself had one, and neither
      fallback has one. The record always carries the known file name. */
  lemma InterpretedLaws(result: Decoded, reply: string, filename: string)
    ensures Has(Interpreted(result, reply, filename), "error") ==>
              result.Decoded? && result.value.JObject? && Has(result.value.fields, "error")
    ensures Get(Interpreted(result, reply, filename), "source_filename") == Some(JStr(filename))
  {
    match result
    case Decoded(JObject(fields)) =>
      CompletedRecordLaws(fields, filename, "error");
      CompletedRecordLaws(fields, filename, "source_filename");
    case Decoded(v) => FallbackRecordLaws(filename, Show(v), None);
    case DecodeError(msg) => FallbackRecordLaws(filename, reply, Some(msg));
    case Crashed(msg) => FallbackRecordLaws(filename, reply, Some("Unexpected error: " + msg));
  }

  /** The same laws for the record parsed from a reply. */
  lemma ParsedRecordLaws(reply: string, filename: string, decode: string -> Decoded)
    ensures Has(ParsedRecord(reply, filename, decode), "error") ==>
              exists fields :: decode(PreparedText(reply)) == Decoded(JObject(fields)) && Has(fields, "error")
    ensures Get(ParsedRecord(reply, filename, decode), "source_filename") == Some(JStr(filename))
  {
    var result := decode(PreparedText(reply));
    InterpretedLaws(result, reply, filename);
    if Has(ParsedRecord(reply, filename, decode), "error") {
      assert result == Decoded(JObject(result.value.fields));
    }
  }

  /** The clean-up of src/metadata_extractor.py:69-82, step by step. */
  method CleanReply(reply: string) returns (text: string)
    ensures text == PreparedText(reply)
  {
    text := Strip(reply);
    text := StripLeadingFence(text);
    text := StripTrailingFence(text);
    text := Strip(text);
    ghost var cleaned := text;
    if '{' in text && '}' in text {
      var start := FindChar(text, '{').value;
      var end := RFindChar(text, '}').value + 1;
      text := Slice(text, start, end);
      assert text == BraceSlice(cleaned);
    } else {
      BraceSliceShape(cleaned);
    }
  }

  /** `_parse_api_response`, step by step as the source reassigns the text and fills
      in the dictionary. */
  method ParseApiResponse(reply: string, filename: string, decode: string -> Decoded) returns (record: Dict)
    ensures record == ParsedRecord(reply, filename, decode)
  {
    var text := CleanReply(reply);
    var result := decode(text);
    assert ParsedRecord(reply, filename, decode) == Interpreted(result, reply, filename);
    match result
    case Decoded(JObject(fields)) => record := CompleteFields(fields, filename);
    case Decoded(v) => record := FallbackRecord(filename, Show(v), None);
    case DecodeError(msg) => record := FallbackRecord(filename, reply, Some(msg));
    case Crashed(msg) => record := FallbackRecord(filename, reply, Some("Unexpected error: " + msg));
  }

  /** The defaulting loop of src/metadata_extractor.py:86-91 and the filename stamp. */
  method CompleteFields(decoded: Dict, filename: string) returns (fields: Dict)
    ensures fields == CompletedRecord(decoded, filename)
  {
    fields := decoded;
    var i := 0;
    while i < |RequiredFields|
      invariant 0 <= i <= |RequiredFields|
      invariant fields == WithDefaults(decoded, RequiredFields[..i])
    {
      assert RequiredFields[..i + 1][..i] == RequiredFields[..i];
      if !Has(fields, RequiredFields[i]) {
        fields := Put(fields, RequiredFields[i], JStr(Config.NotFound));
      }
      i := i + 1;
    }
    assert RequiredFields[..3] == RequiredFields;
    fields := Put(fields, "source_filename", JStr(filename));
  }

  // --------------------------------------------------------- classifiers

  /** Some pattern of `pats` occurs in `s`. */
  predicate ContainsAny(s: string, pats: seq<string>) {
    pats != [] && (Contains(s, pats[0]) || ContainsAny(s, pats[1..]))
  }

  /** `_is_rate_limit_error(error_str)` (src/metadata_extractor.py:132-138). */
  predicate IsRateLimit(message: string) {
    ContainsAny(message, ["429"]) || ContainsAny(Lower(message), ["quota", "rate"])
  }

  const TransientIndicators: seq<string> :=
    ["timeout", "connection", "network", "temporary", "unavailable", "service", "502", "503", "504", "gateway"]

  /** `_is_transient_error(error_str)` (src/metadata_extractor.py:140-155). */
  predicate IsTransient(message: string) {
    ContainsAny(Lower(message), TransientIndicators)
  }

  /** `2 ** n`. */
  function Pow2(n: nat): (r: nat)
    ensures r >= 1
  {
    if n == 0 then 1 else 2 * Pow2(n - 1)
  }

  /** The rate-limit back-off, `base_delay * 2 ** attempt`. */
  function RateLimitDelay(baseDelay: nat, attempt: nat): nat {
    baseDelay * Pow2(attempt)
  }

  /** The transient back-off, `min(5 * 2 ** attempt, 60)`. */
  function TransientDelay(attempt: nat): nat {
    if 5 * Pow2(attempt) < 60 then 5 * Pow2(attempt) else 60
  }

  /** The decision taken on an exception message at a given attempt. */
  datatype Retry = Retry(kind: string, delay: nat)

  /** Lines 185-196 of src/metadata_extractor.py: rate limits first, then transient
      errors; any other message is not retried. */
  function Classify(message: string, attempt: nat, baseDelay: nat): Option<Retry> {
    if IsRateLimit(message) then Some(Retry("Rate limit", RateLimitDelay(baseDelay, attempt)))
    else if IsTransient(message) then Some(Retry("Transient error", TransientDelay(attempt)))
    else None
  }

  /** Each rate-limit wait doubles the previous one. */
  lemma RateLimitDoubles(baseDelay: nat, attempt: nat)
    ensures RateLimitDelay(baseDelay, attempt + 1) == 2 * RateLimitDelay(baseDelay, attempt)
  {
  }

  /** The transient wait never exceeds a minute, doubles while it is below that, and
      is a full minute from the fifth attempt on. */
  lemma {:induction false} TransientDelayBounds(attempt: nat)
    ensures 5 <= TransientDelay(attempt) <= 60
    ensures TransientDelay(attempt + 1) == if 2 * TransientDelay(attempt) < 60 then 2 * TransientDelay(attempt) else 60
    ensures attempt >= 4 ==> TransientDelay(attempt) == 60
  {
    if attempt >= 4 {
      Pow2Add(4, attempt - 4);
      assert Pow2(4) == 16;
    }
  }

  lemma {:induction false} Pow2Add(m: nat, n: nat)
    ensures Pow2(m + n) == Pow2(m) * Pow2(n)
  {
    if m > 0 {
      Pow2Add(m - 1, n);
    }
  }

  /** With the configured base of 60 seconds and three attempts, only attempts 0
      and 1 can be followed by a wait: 60 and 120 seconds for a rate limit, 5 and 10
      seconds for a transient error. */
  lemma DefaultDelays()
    ensures RateLimitDelay(Config.RetryBaseDelay, 0) == 60 && RateLimitDelay(Config.RetryBaseDelay, 1) == 120
    ensures TransientDelay(0) == 5 && TransientDelay(1) == 10
  {
  }

  /** Rate limits win over transient errors: "429 Service Unavailable" waits the
      rate-limit delay. */
  lemma RateLimitFirst(message: string, attempt: nat, baseDelay: nat)
    requires IsRateLimit(message) && IsTransient(message)
    ensures Classify(message, attempt, baseDelay) == Some(Retry("Rate limit", RateLimitDelay(baseDelay, attempt)))
  {
  }

  /** The "rate" test is a plain substring test on the lower-cased message, so any
      message containing a word such as "generate" is treated as a rate limit. */
  lemma GenerateIsRateLimit(prefix: string, suffix: string)
    ensures IsRateLimit(prefix + "generate" + suffix)
  {
    var m := prefix + "generate" + suffix;
    var i := |prefix| + 4;
    assert m[i..i + 4] == "rate";
    LowerKeepsLowerRun(m, "rate", i);
    ContainsAt(Lower(m), "rate", i);
  }

  /** Lower-casing keeps an occurrence of a pattern written in lower case. */
  lemma LowerKeepsLowerRun(s: string, p: string, i: nat)
    requires OccursAt(s, p, i)
    requires forall k :: 0 <= k < |p| ==> !('A' <= p[k] <= 'Z')
    ensures OccursAt(Lower(s), p, i)
  {
    assert Lower(s)[i..i + |p|] == p by {
      forall k | 0 <= k < |p| ensures Lower(s)[i..i + |p|][k] == p[k] {
        assert s[i + k] == p[k];
      }
    }
  }

  // ------------------------------------------------------------- request

  /** One image part of the request: `{"mime_type": ..., "data": ...}`. */
  datatype Part = Part(mimeType: string, data: Encoding)

  /** The end of Python's slice `images[:n]`. */
  function SliceEnd(length: nat, n: int): (e: nat)
    ensures e <= length
    ensures n >= 0 ==> e == if n < length then n else length
    ensures n < 0 ==> e == if length + n > 0 then length + n else 0
  {
    if n >= 0 then (if n < length then n else length)
    else if length + n > 0 then length + n else 0
  }

  /** `num_images` of src/metadata_extractor.py:58-60. */
  function ImageCount(length: nat, maxPages: Option<int>): nat {
    match maxPages
    case Some(n) => SliceEnd(length, n)
    case None => SliceEnd(length, Config.DefaultMaxPages)
  }

  function PartOf(image: Image): Part {
    Part(ImageToBase64(image).1, ImageToBase64(image).0)
  }

  /** The image parts built for `images` (src/metadata_extractor.py:52-64). */
  function PreparedParts(images: seq<Image>, maxPages: Option<int>): (parts: seq<Part>)
    ensures |parts| == ImageCount(|images|, maxPages)
    ensures forall i :: 0 <= i < |parts| ==> parts[i] == PartOf(images[i])
  {
    seq(ImageCount(|images|, maxPages), i requires 0 <= i < ImageCount(|images|, maxPages) => PartOf(images[i]))
  }

  /** The request carries `min(len(images), max_pages)` images when `max_pages` is
      given and not negative, and at most two when it is not given. */
  lemma PreparedPartsCount(images: seq<Image>, maxPages: Option<int>)
    ensures maxPages.Some? && maxPages.value >= 0 ==>
              |PreparedParts(images, maxPages)| == if maxPages.value < |images| then maxPages.value else |images|
    ensures maxPages.None? ==> |PreparedParts(images, maxPages)| == if |images| < 2 then |images| else 2
    ensures forall i :: 0 <= i < |PreparedParts(images, maxPages)| ==>
              PreparedParts(images, maxPages)[i].mimeType == MimeType(ImageFormat(images[i]))
  {
  }

  /** `_prepare_image_content(images, pdf_processor, max_pages)`: one part per image
      of the slice, in order. */
  method PrepareImageContent(images: seq<Image>, maxPages: Option<int>) returns (parts: seq<Part>)
    ensures parts == PreparedParts(images, maxPages)
  {
    var count := if maxPages.Some? then maxPages.value else (if |images| < Config.DefaultMaxPages then |images| else Config.DefaultMaxPages);
    var slice := images[..SliceEnd(|images|, count)];
    parts := [];
    var i := 0;
    while i < |slice|
      invariant 0 <= i <= |slice|
      invariant |parts| == i
      invariant forall j :: 0 <= j < i ==> parts[j] == PartOf(slice[j])
    {
      var (data, mime) := ImageToBase64(slice[i]);
      assert Part(mime, data) == PartOf(slice[i]);
      ghost var done := parts;
      parts := parts + [Part(mime, data)];
      forall j | 0 <= j < i + 1 ensures parts[j] == PartOf(slice[j]) {
        if j < i {
          assert parts[j] == done[j];
        }
      }
      i := i + 1;
    }
  }

  // --------------------------------------------------------------- retry

  /** What one call `generate_content(...)` and the reading of `response.text`
      give: the reply text, or an exception with its message. */
  datatype Reply = Answered(text: string) | ApiFailed(message: string)

  /** How the retry loop ends: it parses a reply, gives up with an error message, or
      runs out of attempts without either (the return after the loop). */
  datatype Ending = Parse(text: string) | GiveUp(message: string) | Exhausted

  /** The outcome of the retry loop: how it ended, the number of model calls made
      and the delays slept, in order. */
  datatype Extraction = Extraction(ending: Ending, calls: nat, delays: seq<nat>)

  /** The retry loop of src/metadata_extractor.py:173-216 from `attempt` on. */
  function Attempts(attempt: nat, maxRetries: int, baseDelay: nat, replies: nat -> Reply): Extraction
    decreases maxRetries - attempt
  {
    if attempt >= maxRetries then Extraction(Exhausted, 0, [])
    else match replies(attempt)
      case Answered(text) => Extraction(Parse(text), 1, [])
      case ApiFailed(msg) =>
        match Classify(msg, attempt, baseDelay)
        case None => Extraction(GiveUp("API call failed: " + msg), 1, [])
        case Some(retry) =>
          if attempt < maxRetries - 1 then
            var rest := Attempts(attempt + 1, maxRetries, baseDelay, replies);
            Extraction(rest.ending, rest.calls + 1, [retry.delay] + rest.delays)
          else
            Extraction(GiveUp(retry.kind + " exceeded after " + IntToString(maxRetries) + " attempts: " + msg), 1, [])
  }

  /** One attempt of the loop, case by case: an answer is parsed, a message that
      is not retryable is reported, a retryable one is reported on the last
      attempt and otherwise waited for before the next attempt. */
  lemma AttemptStep(a: nat, maxRetries: int, baseDelay: nat, replies: nat -> Reply)
    requires a < maxRetries
    ensures var x := Attempts(a, maxRetries, baseDelay, replies);
      match replies(a)
      case Answered(text) => x == Extraction(Parse(text), 1, [])
      case ApiFailed(msg) =>
        match Classify(msg, a, baseDelay)
        case None => x == Extraction(GiveUp("API call failed: " + msg), 1, [])
        case Some(retry) =>
          if a < maxRetries - 1 then
            var rest := Attempts(a + 1, maxRetries, baseDelay, replies);
            x == Extraction(rest.ending, rest.calls + 1, [retry.delay] + rest.delays)
          else
            x == Extraction(GiveUp(retry.kind + " exceeded after " + IntToString(maxRetries) + " attempts: " + msg), 1, [])
  {
  }

  /** The record the loop returns for its ending. */
  function RecordOf(ending: Ending, filename: string, maxRetries: int, decode: string -> Decoded): Dict {
    match ending
    case Parse(text) => ParsedRecord(text, filename, decode)
    case GiveUp(message) => ErrorRecord(message, filename)
    case Exhausted => ErrorRecord("Failed after " + IntToString(maxRetries) + " attempts", filename)
  }

  /** `extract_metadata_from_images(images, filename, pdf_processor, max_pages)`
      (src/metadata_extractor.py:157-216) as a value: no call for an empty image
      list, the retry loop otherwise. */
  function Extracted(images: seq<Image>, maxRetries: int, baseDelay: nat, replies: nat -> Reply): Extraction {
    if images == [] then Extraction(GiveUp("No images to process"), 0, [])
    else Attempts(0, maxRetries, baseDelay, replies)
  }

  /** The record `extract_metadata_from_images` returns. */
  function ExtractedRecord(images: seq<Image>, filename: string, maxRetries: int, baseDelay: nat,
                           replies: nat -> Reply, decode: string -> Decoded): Dict {
    RecordOf(Extracted(images, maxRetries, baseDelay, replies).ending, filename, maxRetries, decode)
  }

  /** Whatever the loop ends with, the record carries the known file name. */
  lemma ExtractedRecordFilename(images: seq<Image>, filename: string, maxRetries: int, baseDelay: nat,
                                replies: nat -> Reply, decode: string -> Decoded)
    ensures Get(ExtractedRecord(images, filename, maxRetries, baseDelay, replies, decode), "source_filename")
            == Some(JStr(filename))
  {
    match Extracted(images, maxRetries, baseDelay, replies).ending
    case Parse(text) => ParsedRecordLaws(text, filename, decode);
    case _ =>
  }

  /** From attempt `a` on, the loop makes at most `maxRetries - a` calls and sleeps
      once fewer; it makes none, and ends `Exhausted`, only when no attempt is left. */
  lemma {:induction false} AttemptsCount(a: nat, maxRetries: int, baseDelay: nat, replies: nat -> Reply)
    ensures var x := Attempts(a, maxRetries, baseDelay, replies);
      && (a < maxRetries ==> 1 <= x.calls <= maxRetries - a && |x.delays| == x.calls - 1 && x.ending != Exhausted)
      && (a >= maxRetries ==> x == Extraction(Exhausted, 0, []))
    decreases maxRetries - a
  {
    if a < maxRetries - 1 {
      AttemptsCount(a + 1, maxRetries, baseDelay, replies);
    }
  }

  /** A loop that sleeps at all failed at its first attempt with a retryable
      message, had another attempt left, and sleeps what that message was
      classified with before going on. */
  lemma DelayHead(a: nat, maxRetries: int, baseDelay: nat, replies: nat -> Reply)
    requires Attempts(a, maxRetries, baseDelay, replies).delays != []
    ensures a < maxRetries - 1 && DelayedAt(replies, a, baseDelay, Attempts(a, maxRetries, baseDelay, replies).delays[0])
    ensures Attempts(a, maxRetries, baseDelay, replies).delays
            == [Classify(replies(a).message, a, baseDelay).value.delay] + Attempts(a + 1, maxRetries, baseDelay, replies).delays
  {
    assert a < maxRetries;
    AttemptStep(a, maxRetries, baseDelay, replies);
  }

  /** Each delay slept is the one its attempt's message was classified with, so
      every call but the last failed with a retryable message. */
  lemma {:induction false} AttemptsDelay(a: nat, maxRetries: int, baseDelay: nat, replies: nat -> Reply, i: nat)
    requires i < |Attempts(a, maxRetries, baseDelay, replies).delays|
    ensures DelayedAt(replies, a + i, baseDelay, Attempts(a, maxRetries, baseDelay, replies).delays[i])
    decreases i
  {
    var x := Attempts(a, maxRetries, baseDelay, replies);
    var rest := Attempts(a + 1, maxRetries, baseDelay, replies);
    DelayHead(a, maxRetries, baseDelay, replies);
    if i > 0 {
      var d := rest.delays[i - 1];
      assert x.delays[i] == d;
      assert DelayedAt(replies, a + i, baseDelay, d) by {
        AttemptsDelay(a + 1, maxRetries, baseDelay, replies, i - 1);
        assert a + 1 + (i - 1) == a + i;
      }
    }
  }

  /** Attempt `k` failed with a retryable message and `delay` is what it was
      classified with. */
  predicate DelayedAt(replies: nat -> Reply, k: nat, baseDelay: nat, delay: nat) {
    && replies(k).ApiFailed?
    && Classify(replies(k).message, k, baseDelay).Some?
    && delay == Classify(replies(k).message, k, baseDelay).value.delay
  }

  /** The whole loop: no call for an empty image list; otherwise at most
      `max_retries` calls and one sleep fewer than calls, and with at least one
      attempt allowed the return after the loop cannot be reached. */
  lemma ExtractedBounds(images: seq<Image>, maxRetries: int, baseDelay: nat, replies: nat -> Reply)
    ensures var x := Extracted(images, maxRetries, baseDelay, replies);
      && (images == [] ==> x == Extraction(GiveUp("No images to process"), 0, []))
      && (images != [] && maxRetries >= 1 ==>
            1 <= x.calls <= maxRetries && |x.delays| == x.calls - 1 && x.ending != Exhausted)
      && (images != [] && maxRetries < 1 ==> x == Extraction(Exhausted, 0, []))
  {
    if images != [] {
      AttemptsCount(0, maxRetries, baseDelay, replies);
    }
  }

  /** The reply at an attempt decides: an answer is parsed, a message that is
      neither a rate limit nor transient is reported at once, and a retryable
      message on the last attempt is reported with its kind and the number of
      attempts. */
  lemma AttemptOutcome(a: nat, maxRetries: int, baseDelay: nat, replies: nat -> Reply)
    requires a < maxRetries
    ensures var x := Attempts(a, maxRetries, baseDelay, replies);
      && (replies(a).Answered? ==> x == Extraction(Parse(replies(a).text), 1, []))
      && (replies(a).ApiFailed? && !IsRateLimit(replies(a).message) && !IsTransient(replies(a).message) ==>
            x == Extraction(GiveUp("API call failed: " + replies(a).message), 1, []))
      && (replies(a).ApiFailed? && IsRateLimit(replies(a).message) && a == maxRetries - 1 ==>
            x == Extraction(GiveUp("Rate limit exceeded after " + IntToString(maxRetries) + " attempts: "
                                   + replies(a).message), 1, []))
      && (replies(a).ApiFailed? && !IsRateLimit(replies(a).message) && IsTransient(replies(a).message)
          && a == maxRetries - 1 ==>
            x == Extraction(GiveUp("Transient error exceeded after " + IntToString(maxRetries) + " attempts: "
                                   + replies(a).message), 1, []))
  {
    assert "Rate limit" + " exceeded after " == "Rate limit exceeded after ";
    assert "Transient error" + " exceeded after " == "Transient error exceeded after ";
  }

  /** One pass of the loop body (src/metadata_extractor.py:175-211): an ending of the
      loop, or, when the failure is retried, `Exhausted` and the wait before the next
      attempt. */
  method Attempt(attempt: nat, maxRetries: int, baseDelay: nat, replies: nat -> Reply)
    returns (ending: Ending, delay: nat)
    requires attempt < maxRetries
    ensures ending != Exhausted ==> Attempts(attempt, maxRetries, baseDelay, replies) == Extraction(ending, 1, [])
    ensures ending == Exhausted ==>
              attempt < maxRetries - 1 &&
              var rest := Attempts(attempt + 1, maxRetries, baseDelay, replies);
              Attempts(attempt, maxRetries, baseDelay, replies) == Extraction(rest.ending, rest.calls + 1, [delay] + rest.delays)
  {
    AttemptStep(attempt, maxRetries, baseDelay, replies);
    delay := 0;
    match replies(attempt)
    case Answered(text) =>
      ending := Parse(text);
    case ApiFailed(msg) =>
      // lines 185-196: the kind of failure and the wait it calls for
      var retry := Classify(msg, attempt, baseDelay);
      if retry.Some? && attempt < maxRetries - 1 {
        ending, delay := Exhausted, retry.value.delay;
      } else if retry.Some? {
        ending := GiveUp(retry.value.kind + " exceeded after " + IntToString(maxRetries) + " attempts: " + msg);
      } else {
        ending := GiveUp("API call failed: " + msg);
      }
  }

  /** The retry loop itself. `maxRetries` and `baseDelay` are the configured 3 and 60
      seconds in the source; the delays slept are recorded in `delays`. */
  method ExtractMetadataFromImages(images: seq<Image>, filename: string, maxPages: Option<int>,
                                   maxRetries: int, baseDelay: nat,
                                   replies: nat -> Reply, decode: string -> Decoded)
    returns (record: Dict, calls: nat, request: seq<Part>, ghost delays: seq<nat>)
    ensures record == ExtractedRecord(images, filename, maxRetries, baseDelay, replies, decode)
    ensures calls == Extracted(images, maxRetries, baseDelay, replies).calls
    ensures delays == Extracted(images, maxRetries, baseDelay, replies).delays
    ensures calls > 0 ==> request == PreparedParts(images, maxPages)
  {
    request := [];
    delays := [];
    calls := 0;
    if images == [] {
      record := ErrorRecord("No images to process", filename);
      return;
    }
    ghost var whole := Attempts(0, maxRetries, baseDelay, replies);
    ghost var rest := whole;
    var attempt: nat := 0;
    var ending := Exhausted;
    while attempt < maxRetries && ending == Exhausted
      invariant calls == if ending == Exhausted then attempt else attempt + 1
      invariant calls > 0 ==> request == PreparedParts(images, maxPages)
      invariant ending == Exhausted ==> rest == Attempts(attempt, maxRetries, baseDelay, replies)
      invariant ending == Exhausted ==> whole == Extraction(rest.ending, attempt + rest.calls, delays + rest.delays)
      invariant ending != Exhausted ==> whole == Extraction(ending, calls, delays)
      decreases maxRetries - attempt, if ending == Exhausted then 1 else 0
    {
      request := PrepareImageContent(images, maxPages);
      var delay;
      ending, delay := Attempt(attempt, maxRetries, baseDelay, replies);
      calls := calls + 1;
      if ending == Exhausted {
        ConcatAssoc(delays, [delay], Attempts(attempt + 1, maxRetries, baseDelay, replies).delays);
        delays := delays + [delay];
        attempt := attempt + 1;
        rest := Attempts(attempt, maxRetries, baseDelay, replies);
      }
    }
    record := RecordFor(ending, filename, maxRetries, decode);
  }

  /** What the loop returns once it ends (src/metadata_extractor.py:180, 203-211, 214-216):
      the parsed reply, or the error record for its message. */
  method RecordFor(ending: Ending, filename: string, maxRetries: int, decode: string -> Decoded) returns (record: Dict)
    ensures record == RecordOf(ending, filename, maxRetries, decode)
  {
    match ending
    case Parse(text) =>
      record := ParseApiResponse(text, filename, decode);
    case GiveUp(message) =>
      record := ErrorRecord(message, filename);
    case Exhausted =>
      record := ErrorRecord("Failed after " + IntToString(maxRetries) + " attempts", filename);
  }
}

