/**
 * The stateful half of `FileManager` in src/file_manager.py: choosing a free
 * name in the output directory with the `"stem (k).pdf"` counter loop, copying
 * under that name, and appending a record to the JSON results file.
 */
module FileManager {
  import opened Wrappers
  import opened Text
  import opened Json
  import opened FileNaming

  // --------------------------------------------------------- candidates

  /** `f"{base_stem} ({counter}).pdf"`. */
  function Candidate(stem: string, k: nat): string {
    stem + " (" + NatToString(k) + ").pdf"
  }

  /** The name the collision loop tries after `k` failed attempts: the generated
      name itself first, then `"stem (k).pdf"` with the stem of the generated name. */
  function Slot(base: string, k: nat): string {
    if k == 0 then base else Candidate(PathStem(base), k)
  }

  /** Different counters give different candidates. */
  lemma CandidateInjective(stem: string, j: nat, k: nat)
    requires Candidate(stem, j) == Candidate(stem, k)
    ensures j == k
  {
    CancelAround(stem + " (", NatToString(j), NatToString(k), ").pdf");
    NatToStringInjective(j, k);
  }

  /** No candidate is the generated name itself: where the name has its suffix dot,
      the candidate has the space of `" ("`, and without a suffix the candidate is
      longer than the name. */
  lemma CandidateNotBase(base: string, k: nat)
    ensures Candidate(PathStem(base), k) != base
  {
    StemSuffix(base);
    var stem := PathStem(base);
    var c := Candidate(stem, k);
    if PathSuffix(base) == [] {
      assert |c| > |base|;
    } else {
      assert c[|stem|] == ' ';
      assert base[|stem|] == PathSuffix(base)[0] == '.';
    }
  }

  /** Every attempt of the loop tries a name not tried before, so the loop cannot
      revisit a name and the counter never nests: `"x (1) (1).pdf"` never appears. */
  lemma SlotInjective(base: string, j: nat, k: nat)
    requires Slot(base, j) == Slot(base, k)
    ensures j == k
  {
    if j == 0 && k != 0 {
      CandidateNotBase(base, k);
    } else if j != 0 && k == 0 {
      CandidateNotBase(base, j);
    } else if j != 0 && k != 0 {
      CandidateInjective(PathStem(base), j, k);
    }
  }

  /** The names tried in the first `n` attempts. */
  function SlotSet(base: string, n: nat): set<string> {
    if n == 0 then {} else SlotSet(base, n - 1) + {Slot(base, n - 1)}
  }

  lemma {:induction false} SlotSetMembers(base: string, n: nat)
    ensures forall x :: x in SlotSet(base, n) <==> exists k :: 0 <= k < n && x == Slot(base, k)
  {
    if n > 0 {
      SlotSetMembers(base, n - 1);
      forall x ensures x in SlotSet(base, n) <==> exists k :: 0 <= k < n && x == Slot(base, k) {
        if x in SlotSet(base, n - 1) {
          var k :| 0 <= k < n - 1 && x == Slot(base, k);
          assert 0 <= k < n && x == Slot(base, k);
        } else if x == Slot(base, n - 1) {
          assert 0 <= n - 1 < n;
        } else {
          assert x !in SlotSet(base, n);
        }
      }
    }
  }

  /** The first `n` attempts try exactly `n` distinct names. */
  lemma {:induction false} SlotSetSize(base: string, n: nat)
    ensures |SlotSet(base, n)| == n
  {
    if n > 0 {
      SlotSetSize(base, n - 1);
      SlotSetMembers(base, n - 1);
      if Slot(base, n - 1) in SlotSet(base, n - 1) {
        var k :| 0 <= k < n - 1 && Slot(base, n - 1) == Slot(base, k);
        SlotInjective(base, k, n - 1);
      }
    }
  }

  /** The counter loop of `copy_pdf_file` (src/file_manager.py:109-114) over the set
      of names already in the output directory. The chosen name is the `k`-th slot,
      it is free, every earlier slot is taken (so `k` is the least free counter),
      and the loop runs at most once per existing name. */
  method ChooseOutputName(existing: set<string>, base: string) returns (name: string, k: nat)
    ensures FirstFree(existing, base, k, name)
    ensures k <= |existing|
  {
    name := base;
    var counter := 1;
    var stem := PathStem(base);
    ghost var tried: set<string> := {};
    while name in existing
      invariant counter >= 1
      invariant name == Slot(base, counter - 1)
      invariant tried == SlotSet(base, counter - 1)
      invariant tried <= existing
      invariant |tried| == counter - 1
      decreases |existing| - |tried|
    {
      tried := tried + {name};
      SlotSetSize(base, counter);
      name := Candidate(stem, counter);
      counter := counter + 1;
      if |tried| > |existing| {
        SubsetSize(tried, existing);
      }
    }
    k := counter - 1;
    SlotSetMembers(base, k);
    forall j | 0 <= j < k ensures Slot(base, j) in existing {
      assert Slot(base, j) in tried;
    }
    SubsetSize(tried, existing);
  }

  /** `name` is the `k`-th slot of `base`, it is free in `existing`, and every earlier
      slot is taken. */
  predicate FirstFree(existing: set<string>, base: string, k: nat, name: string) {
    && name == Slot(base, k)
    && name !in existing
    && forall j :: 0 <= j < k ==> Slot(base, j) in existing
  }

  /** A subset is no larger than its superset. */
  lemma SubsetSize<T>(a: set<T>, b: set<T>)
    requires a <= b
    ensures |a| <= |b|
  {
    assert b == a + (b - a);
  }

  /** When the generated name is free it is used as it is; when it is taken but its
      first candidate is free, the copy is named `"stem (1).pdf"`. */
  lemma FirstSlots(base: string)
    ensures Slot(base, 0) == base
    ensures Slot(base, 1) == PathStem(base) + " (1).pdf"
  {
    assert NatToString(1) == "1";
  }

  /** A name is lexically inside the directory it is joined to: it is not empty, not
      `.` or `..`, and has no `/`. */
  predicate Contained(name: string) {
    name != "" && name != "." && name != ".." && '/' !in name
  }

  /** Every slot of a generated filename stays inside the output directory, so the
      containment check at src/file_manager.py:116-122 always passes on names, and
      every slot is again a ".pdf" name. */
  lemma SlotContained(base: string, k: nat)
    requires PdfName(base)
    ensures Contained(Slot(base, k))
    ensures PdfName(Slot(base, k))
  {
    if k > 0 {
      var stem := PathStem(base);
      assert '/' !in stem by {
        forall i | 0 <= i < |stem| ensures stem[i] != '/' {
          assert stem[i] == base[i];
        }
      }
      CandidateShape(stem, k);
    }
  }

  lemma CandidateShape(stem: string, k: nat)
    requires '/' !in stem
    ensures Contained(Candidate(stem, k))
    ensures PdfName(Candidate(stem, k))
  {
    CandidateNoSlash(stem, k);
    CandidateStem(stem, k);
    var c := Candidate(stem, k);
    assert |c| >= 5 && c[|c| - 4..] == ".pdf";
  }

  lemma CandidateNoSlash(stem: string, k: nat)
    requires '/' !in stem
    ensures '/' !in Candidate(stem, k)
  {
    var digits := NatToString(k);
    assert '/' !in digits by {
      forall i | 0 <= i < |digits| ensures digits[i] != '/' {
        assert IsDigit(digits[i]);
      }
    }
  }

  lemma CandidateStem(stem: string, k: nat)
    ensures PathStem(Candidate(stem, k)) + ".pdf" == Candidate(stem, k)
  {
    var head := stem + " (" + NatToString(k) + ")";
    assert Candidate(stem, k) == head + "." + "pdf";
    StemOfSuffixed(head, "pdf");
  }

  // ------------------------------------------------------------- copying

  /** The dictionary `copy_pdf_file` returns (src/file_manager.py:125-138). */
  datatype CopyResult =
    | Copied(sourceFilename: string, outputFilename: string, sourcePath: string, outputPath: string)
    | CopyFailed(error: string, sourceFilename: string)

  /** `str(output_directory / name)`. */
  function JoinPath(dir: string, name: string): string {
    if dir == "" then name else dir + "/" + name
  }

  /** The result as the dictionary that the orchestrator stores under `copy_info`. */
  function CopyInfo(r: CopyResult): (d: Dict)
    ensures Truthy(GetOr(d, "copied", JNull)) <==> r.Copied?
    ensures GetOr(d, "source_filename", JNull) == JStr(r.sourceFilename)
    ensures r.Copied? ==> GetOr(d, "output_filename", JNull) == JStr(r.outputFilename)
    ensures r.CopyFailed? ==> GetOr(d, "error", JNull) == JStr(r.error)
  {
    match r
    case Copied(src, out, srcPath, outPath) =>
      var d := [Field("copied", JBool(true)), Field("source_filename", JStr(src)), Field("output_filename", JStr(out)),
                Field("source_path", JStr(srcPath)), Field("output_path", JStr(outPath))];
      GetFirst(d, 0);
      GetFirst(d, 1);
      GetFirst(d, 2);
      d
    case CopyFailed(err, src) =>
      var d := [Field("copied", JBool(false)), Field("error", JStr(err)), Field("source_filename", JStr(src))];
      GetFirst(d, 0);
      GetFirst(d, 1);
      GetFirst(d, 2);
      d
  }

  /** What `copy_pdf_file` does to a directory holding `before` (src/file_manager.py:94-138).
      `generated` is the outcome of building the name from the record, and
      `mkdirError` and `copyError` stand for `mkdir` and `shutil.copy2` raising. A
      failure at any step — creating the directory, building the name, copying — gives `copied: False` with the message and leaves the
      directory as it was; otherwise the file is copied under the least free slot of
      the generated name and that name joins the directory. */
  ghost predicate CopiedAs(dir: string, sourcePath: string, generated: Result<string>, mkdirError: Option<string>,
                           copyError: Option<string>, before: set<string>, r: CopyResult, after: set<string>)
  {
    && r.sourceFilename == Basename(sourcePath)
    && if mkdirError.Some? then r == CopyFailed(mkdirError.value, Basename(sourcePath)) && after == before
       else if generated.Err? then r == CopyFailed(generated.message, Basename(sourcePath)) && after == before
       else if copyError.Some? then r == CopyFailed(copyError.value, Basename(sourcePath)) && after == before
       else
         && r.Copied?
         && (exists k :: FirstFree(before, generated.value, k, r.outputFilename))
         && r.sourcePath == sourcePath
         && r.outputPath == JoinPath(dir, r.outputFilename)
         && after == before + {r.outputFilename}
  }

  /** The least free slot is unique. */
  lemma FirstFreeUnique(existing: set<string>, base: string, j: nat, a: string, k: nat, b: string)
    requires FirstFree(existing, base, j, a) && FirstFree(existing, base, k, b)
    ensures j == k && a == b
  {
  }

  /** `copy_pdf_file` is deterministic: the directory's contents and the call's
      outcome fix the result and the new contents. */
  lemma CopiedAsDeterministic(dir: string, sourcePath: string, generated: Result<string>, mkdirError: Option<string>,
                              copyError: Option<string>, before: set<string>,
                              r1: CopyResult, after1: set<string>, r2: CopyResult, after2: set<string>)
    requires CopiedAs(dir, sourcePath, generated, mkdirError, copyError, before, r1, after1)
    requires CopiedAs(dir, sourcePath, generated, mkdirError, copyError, before, r2, after2)
    ensures r1 == r2 && after1 == after2
  {
    if mkdirError.None? && generated.Ok? && copyError.None? {
      var base := generated.value;
      var j :| FirstFree(before, base, j, r1.outputFilename);
      var k :| FirstFree(before, base, k, r2.outputFilename);
      FirstFreeUnique(before, base, j, r1.outputFilename, k, r2.outputFilename);
    }
  }

  /** The output directory, seen as the set of names it holds. */
  class OutputDirectory {
    const path: string
    var names: set<string>

    constructor (path: string, names: set<string>)
      ensures this.path == path && this.names == names
    {
      this.path := path;
      this.names := names;
    }

    /** `copy_pdf_file(source_path, metadata, output_dir)` (src/file_manager.py:94-138),
        specified by `CopiedAs`; every name it copies under stays inside the directory. */
    method CopyPdfFile(sourcePath: string, meta: Dict, mkdirError: Option<string>, copyError: Option<string>)
      returns (r: CopyResult)
      modifies this
      ensures CopiedAs(path, sourcePath, CreateNewFilename(meta), mkdirError, copyError, old(names), r, names)
      ensures r.Copied? ==> Contained(r.outputFilename)
    {
      var sourceName := Basename(sourcePath);
      if mkdirError.Some? {
        return CopyFailed(mkdirError.value, sourceName);
      }
      var generated := CreateNewFilename(meta);
      if generated.Err? {
        return CopyFailed(generated.message, sourceName);
      }
      var name, k := ChooseOutputName(names, generated.value);
      CreateNewFilenameSafe(meta);
      SlotContained(generated.value, k);
      if copyError.Some? {
        return CopyFailed(copyError.value, sourceName);
      }
      assert FirstFree(names, generated.value, k, name);
      names := names + {name};
      r := Copied(sourceName, name, sourcePath, JoinPath(path, name));
    }
  }

  // -------------------------------------------------------- results file

  /** How the final write of `update_results_file` ends: it succeeds, it fails
      before `open(path, "w")` has truncated the file (the directory cannot be
      made, the file cannot be opened), or it fails after that, while `json.dump`
      writes, leaving an empty or partial list behind. */
  datatype WriteOutcome = Written | FailedBeforeOpen(message: string) | FailedAfterOpen(message: string)

  /** The JSON results file: `Some(list)` when it holds a list, `None` when it is
      missing, undecodable or holds anything but a list. */
  class ResultsFile {
    var records: Option<seq<Json>>

    constructor (records: Option<seq<Json>>)
      ensures this.records == records
    {
      this.records := records;
    }

    /** `update_results_file(path, new_result)` (src/file_manager.py:16-45): the stored
        list (or an empty one) gains the new result at its end. A write that fails
        reports `False`; it leaves the file as it was when it fails before the file is
        opened, and leaves a truncated, undecodable file when `json.dump` fails. */
    method UpdateResultsFile(newResult: Dict, write: WriteOutcome) returns (ok: bool)
      modifies this
      ensures ok <==> write.Written?
      ensures write.Written? ==> records == Some(old(records).GetOr([]) + [JObject(newResult)])
      ensures write.FailedBeforeOpen? ==> records == old(records)
      ensures write.FailedAfterOpen? ==> records == None
    {
      if write.FailedBeforeOpen? {
        return false;
      }
      var existing := if records.Some? then records.value else [];
      existing := existing + [JObject(newResult)];
      if write.FailedAfterOpen? {
        records := None;
        return false;
      }
      records := Some(existing);
      ok := true;
    }
  }
}
