/**
 * `get_unique_output_filename` of tests/test_demo.py: a name in the output
 * directory for the demo's results file that overwrites nothing, found by
 * the `"{stem}_{k}{suffix}"` counter loop.
 */
module DemoNaming {
  import opened Text
  import opened FileManager

  /** `f"{name_part}_{counter}{extension}"`. */
  function Numbered(namePart: string, extension: string, k: nat): string {
    namePart + "_" + NatToString(k) + extension
  }

  /** Different counters give different names. */
  lemma NumberedInjective(namePart: string, extension: string, j: nat, k: nat)
    requires Numbered(namePart, extension, j) == Numbered(namePart, extension, k)
    ensures j == k
  {
    CancelAround(namePart + "_", NatToString(j), NatToString(k), extension);
    NatToStringInjective(j, k);
  }

  /** A non-empty extension is kept: the numbered name of a base name has the base's
      suffix, and its stem is the base's stem followed by `_` and the counter. */
  lemma NumberedKeepsSuffix(name: string, k: nat)
    requires PathSuffix(name) != ""
    ensures PathSuffix(Numbered(PathStem(name), PathSuffix(name), k)) == PathSuffix(name)
    ensures PathStem(Numbered(PathStem(name), PathSuffix(name), k)) == PathStem(name) + "_" + NatToString(k)
  {
    StemSuffix(name);
    var suffix := PathSuffix(name);
    var ext := suffix[1..];
    assert suffix == "." + ext;
    var head := PathStem(name) + "_" + NatToString(k);
    assert Numbered(PathStem(name), suffix, k) == head + "." + ext;
    StemOfSuffixed(head, ext);
  }

  /** The numbered names tried with counters `1` to `n`. */
  function NumberedSet(namePart: string, extension: string, n: nat): set<string> {
    if n == 0 then {} else NumberedSet(namePart, extension, n - 1) + {Numbered(namePart, extension, n)}
  }

  /** A counter beyond `n` gives a name not tried with counters `1` to `n`. */
  lemma {:induction false} NumberedLater(namePart: string, extension: string, n: nat, m: nat)
    requires m > n
    ensures Numbered(namePart, extension, m) !in NumberedSet(namePart, extension, n)
  {
    if n > 0 {
      NumberedLater(namePart, extension, n - 1, m);
      if Numbered(namePart, extension, m) == Numbered(namePart, extension, n) {
        NumberedInjective(namePart, extension, m, n);
      }
    }
  }

  /** Counters `1` to `n` try exactly `n` distinct names. */
  lemma {:induction false} NumberedSetSize(namePart: string, extension: string, n: nat)
    ensures |NumberedSet(namePart, extension, n)| == n
  {
    if n > 0 {
      NumberedSetSize(namePart, extension, n - 1);
      NumberedLater(namePart, extension, n - 1, n);
    }
  }

  /** The `k`-th numbered name is free and the ones before it are all taken. */
  predicate FirstNumbered(existing: set<string>, namePart: string, extension: string, k: nat) {
    && k >= 1
    && Numbered(namePart, extension, k) !in existing
    && forall j :: 1 <= j < k ==> Numbered(namePart, extension, j) in existing
  }

  /** Only one counter is the first free one. */
  lemma FirstNumberedUnique(existing: set<string>, namePart: string, extension: string, j: nat, k: nat)
    requires FirstNumbered(existing, namePart, extension, j) && FirstNumbered(existing, namePart, extension, k)
    ensures j == k
  {
  }

  /** `get_unique_output_filename(output_dir, base_filename)` (tests/test_demo.py:33-52)
      over the names `existing` already in the output directory. A free base name
      is used as it is; otherwise the path names the first free numbered name, built
      from the stem and suffix of the base's last component, and the loop runs at
      most once per existing name. */
  method GetUniqueOutputFilename(outputDir: string, baseFilename: string, existing: set<string>)
    returns (path: string)
    ensures baseFilename !in existing ==> path == JoinPath(outputDir, baseFilename)
    ensures baseFilename in existing ==>
              var namePart, extension := PathStem(Basename(baseFilename)), PathSuffix(Basename(baseFilename));
              exists k: nat :: FirstNumbered(existing, namePart, extension, k) && k <= |existing| + 1
                               && path == JoinPath(outputDir, Numbered(namePart, extension, k))
  {
    if baseFilename !in existing {
      return JoinPath(outputDir, baseFilename);
    }
    var namePart := PathStem(Basename(baseFilename));
    var extension := PathSuffix(Basename(baseFilename));
    var counter: nat := 1;
    ghost var tried: set<string> := {};
    while true
      invariant counter >= 1
      invariant tried == NumberedSet(namePart, extension, counter - 1)
      invariant tried <= existing
      invariant |tried| == counter - 1
      invariant forall j :: 1 <= j < counter ==> Numbered(namePart, extension, j) in existing
      decreases |existing| - |tried|
    {
      var newName := namePart + "_" + NatToString(counter) + extension;
      assert newName == Numbered(namePart, extension, counter);
      if newName !in existing {
        SubsetSize(tried, existing);
        assert FirstNumbered(existing, namePart, extension, counter);
        return JoinPath(outputDir, newName);
      }
      tried := tried + {newName};
      NumberedSetSize(namePart, extension, counter);
      counter := counter + 1;
      if |tried| > |existing| {
        SubsetSize(tried, existing);
      }
    }
  }
}
