/**
 * File-name helpers (file.go): splitting a file name into stem and
 * extension, classifying the outcome of a stat call, and allocating a
 * numbered file name that does not collide with an existing entry.
 *
 * Paths are '/'-separated. `Ext` and `Base` follow the behaviour of Go's
 * path/filepath on such paths. The file system is reached only through an
 * existence oracle `stat`, which answers for a name inside the target
 * directory (it stands for os.Stat applied to NormalizePath(dir, name)).
 */
module Files {
  import opened Pointers
  import opened Strings

  /*** Path splitting (path/filepath) ***/

  /** The part of `path` after its last '/', or all of it when it has none. */
  function Tail(path: string): string
  {
    if path == [] then []
    else if path[|path| - 1] == '/' then []
    else Tail(path[..|path| - 1]) + [path[|path| - 1]]
  }

  /**
   * filepath.Ext: the suffix of `path` that starts at the final '.' of its
   * last element, or "" when that element has no '.'.
   */
  function Ext(path: string): string
  {
    if path == [] then []
    else
      var c := path[|path| - 1];
      if c == '/' then []
      else if c == '.' then "."
      else
        var e := Ext(path[..|path| - 1]);
        if e == [] then [] else e + [c]
  }

  /** `path` with every trailing '/' removed. */
  function TrimTrailingSlashes(path: string): string
  {
    if path != [] && path[|path| - 1] == '/' then TrimTrailingSlashes(path[..|path| - 1]) else path
  }

  /**
   * filepath.Base: the last element of `path` after trailing slashes are
   * dropped; "." for the empty path and "/" for a path of slashes only.
   */
  function Base(path: string): string
  {
    if path == [] then "."
    else
      var p := TrimTrailingSlashes(path);
      if p == [] then "/" else Tail(p)
  }

  predicate IsSuffix(suffix: string, s: string)
  {
    |suffix| <= |s| && s[|s| - |suffix|..] == suffix
  }

  /** strings.TrimSuffix: `s` without `suffix` when it ends with it, else `s`. */
  function TrimSuffix(s: string, suffix: string): string
  {
    if IsSuffix(suffix, s) then s[..|s| - |suffix|] else s
  }

  /** strings.TrimLeft with the cut set ".": drops every leading '.'. */
  function TrimLeadingDots(s: string): string
  {
    if s != [] && s[0] == '.' then TrimLeadingDots(s[1..]) else s
  }

  function LowerChar(c: char): char
  {
    if 'A' <= c <= 'Z' then (c as int - 'A' as int + 'a' as int) as char else c
  }

  /** The lower-case ASCII letters in alphabetical order. */
  const LowerLetters := "abcdefghijklmnopqrstuvwxyz"

  /**
   * strings.ToLower, restricted to the ASCII letters: each upper-case
   * letter becomes the lower-case letter at the same place in the alphabet,
   * and every other character stays where it is.
   */
  function Lower(s: string): (r: string)
    ensures |r| == |s|
    ensures forall i :: 0 <= i < |s| && 'A' <= s[i] <= 'Z' ==> r[i] == LowerLetters[s[i] as int - 'A' as int]
    ensures forall i :: 0 <= i < |s| && !('A' <= s[i] <= 'Z') ==> r[i] == s[i]
    ensures forall i :: 0 <= i < |r| ==> !('A' <= r[i] <= 'Z')
  {
    seq(|s|, i requires 0 <= i < |s| => LowerChar(s[i]))
  }

  /** Lower-casing twice is lower-casing once. */
  lemma LowerIdempotent(s: string)
    ensures Lower(Lower(s)) == Lower(s)
  {
  }

  /**
   * The extension found by Ext is a suffix of the last element of the path:
   * empty exactly when that element has no '.', otherwise one '.' followed
   * by characters that are neither '.' nor '/'.
   */
  lemma {:induction false} ExtShape(path: string)
    ensures IsSuffix(Ext(path), Tail(path))
    ensures Ext(path) == [] <==> '.' !in Tail(path)
    ensures Ext(path) != [] ==> Ext(path)[0] == '.' && '.' !in Ext(path)[1..] && '/' !in Ext(path)
  {
    if path != [] && path[|path| - 1] != '/' {
      var init, c := path[..|path| - 1], path[|path| - 1];
      ExtShape(init);
      assert Tail(path) == Tail(init) + [c];
      if c != '.' && Ext(init) != [] {
        assert Ext(path) == Ext(init) + [c];
        assert Ext(path)[1..] == Ext(init)[1..] + [c];
      }
    }
  }

  /** A path that does not end in '/' is its own trimmed form, so Base is its tail. */
  lemma BaseOfFileName(path: string)
    requires path != [] && path[|path| - 1] != '/'
    ensures Base(path) == Tail(path)
  {
  }

  /*** GetFilename, GetExtension ***/

  /** GetFilename: the base name of `file` with its extension removed. */
  function GetFilename(file: string): (r: string)
    ensures r + Ext(file) == Base(file)
  {
    FilenameSplits(file);
    TrimSuffix(Base(file), Ext(file))
  }

  /** The extension of a file is a suffix of its base name. */
  lemma FilenameSplits(file: string)
    ensures IsSuffix(Ext(file), Base(file))
  {
    if file != [] && file[|file| - 1] != '/' {
      ExtShape(file);
      BaseOfFileName(file);
    }
  }

  /**
   * GetExtension: the extension of `file`, lower-cased, without its dot;
   * "" when the last element of `file` has no '.'.
   */
  function GetExtension(file: string): (r: string)
    ensures Ext(file) == [] ==> r == []
    ensures Ext(file) != [] ==> "." + r == Lower(Ext(file))
    ensures '.' !in r
  {
    var e := Ext(file);
    ExtShape(file);
    if e == [] then TrimLeadingDots(Lower(e))
    else
      var l := Lower(e);
      assert l == "." + l[1..];
      assert '.' !in l[1..] by {
        forall i | 0 <= i < |l| - 1 ensures l[1..][i] != '.' {
          assert e[1..][i] == e[i + 1];
        }
      }
      assert TrimLeadingDots(l) == TrimLeadingDots(l[1..]) == l[1..];
      TrimLeadingDots(l)
  }

  /**
   * A file name made of a stem without '/', a '.', and an extension without
   * '.' or '/' splits back into that stem and extension.
   */
  lemma {:induction false} SplitDottedName(stem: string, ext: string)
    requires '/' !in stem
    requires '.' !in ext && '/' !in ext
    ensures Ext(stem + "." + ext) == "." + ext
    ensures GetFilename(stem + "." + ext) == stem
  {
    var name := stem + "." + ext;
    ExtOfDottedName(stem, ext);
    NoSlashIsOwnTail(name);
    BaseOfFileName(name);
    assert Base(name) == stem + ("." + ext);
  }

  lemma {:induction false} ExtOfDottedName(stem: string, ext: string)
    requires '.' !in ext && '/' !in ext
    ensures Ext(stem + "." + ext) == "." + ext
  {
    if ext != [] {
      var name := stem + "." + ext;
      var init := ext[..|ext| - 1];
      assert name[..|name| - 1] == stem + "." + init;
      assert name[|name| - 1] == ext[|ext| - 1];
      ExtOfDottedName(stem, init);
      assert "." + ext == "." + init + [ext[|ext| - 1]];
    }
  }

  /** A name with neither '.' nor '/' has no extension and is its own stem. */
  lemma {:induction false} SplitPlainName(name: string)
    requires name != []
    requires '.' !in name && '/' !in name
    ensures Ext(name) == []
    ensures GetFilename(name) == name
  {
    ExtShape(name);
    NoSlashIsOwnTail(name);
    BaseOfFileName(name);
  }

  lemma {:induction false} NoSlashIsOwnTail(path: string)
    requires '/' !in path
    ensures Tail(path) == path
  {
    if path != [] {
      NoSlashIsOwnTail(path[..|path| - 1]);
    }
  }

  /** The extension GetExtension reports for a dotted name is its last part, lower-cased. */
  lemma ExtensionOfDottedName(stem: string, ext: string)
    requires '/' !in stem
    requires '.' !in ext && '/' !in ext
    ensures GetExtension(stem + "." + ext) == Lower(ext)
  {
    ExtOfDottedName(stem, ext);
    assert Lower("." + ext) == "." + Lower(ext);
  }

  /** The worked example: the stem of "testfile.txt" is "testfile". */
  lemma FilenameExample()
    ensures GetFilename("testfile.txt") == "testfile"
  {
    assert "testfile.txt" == "testfile" + "." + "txt";
    SplitDottedName("testfile", "txt");
  }

  /** The worked example: the extension of "testfile.txt" is "txt". */
  lemma ExtensionExample()
    ensures GetExtension("testfile.txt") == "txt"
  {
    assert "testfile.txt" == "testfile" + "." + "txt";
    ExtensionOfDottedName("testfile", "txt");
    assert Lower("txt") == "txt";
  }

  /*** Decimal counters (strconv.Itoa) ***/

  function Digit(d: nat): char
    requires d < 10
  {
    (d + '0' as int) as char
  }

  /** strconv.Itoa on a non-negative number: its decimal digits, without leading zeros. */
  function Decimal(n: nat): string
  {
    if n < 10 then [Digit(n)] else Decimal(n / 10) + [Digit(n % 10)]
  }

  /** The value of a string of decimal digits. */
  function DecimalValue(s: string): nat
    requires forall i :: 0 <= i < |s| ==> IsDigit(s[i])
  {
    if s == [] then 0
    else
      assert IsDigit(s[|s| - 1]);
      DecimalValue(s[..|s| - 1]) * 10 + (s[|s| - 1] as int - '0' as int)
  }

  /** Decimal writes digits only, never a leading zero, and reads back as `n`. */
  lemma {:induction false} DecimalRoundTrip(n: nat)
    ensures Decimal(n) != []
    ensures forall i :: 0 <= i < |Decimal(n)| ==> IsDigit(Decimal(n)[i])
    ensures Decimal(n)[0] == '0' ==> n == 0
    ensures DecimalValue(Decimal(n)) == n
  {
    if n >= 10 {
      DecimalRoundTrip(n / 10);
      var s := Decimal(n);
      assert s[..|s| - 1] == Decimal(n / 10);
    }
  }

  /** Different counters are written differently. */
  lemma DecimalInjective(a: nat, b: nat)
    requires Decimal(a) == Decimal(b)
    ensures a == b
  {
    DecimalRoundTrip(a);
    DecimalRoundTrip(b);
  }

  /*** TimestampedFile ***/

  /**
   * TimestampedFile as the code writes it, with the clock reading
   * time.Now().UnixMilli() passed in as `millis`: the timestamp goes between
   * the stem and the extension.
   */
  function TimestampedFileAsWritten(file: string, millis: nat): (r: string)
    ensures IsSuffix(Ext(file), r)
    ensures |GetFilename(file)| + 1 <= |r| && r[..|GetFilename(file)| + 1] == GetFilename(file) + "-"
  {
    var stem, ext := GetFilename(file), Ext(file);
    var r := stem + "-" + Decimal(millis) + ext;
    assert r == (stem + "-") + (Decimal(millis) + ext);
    assert r[|r| - |ext|..] == ext;
    r
  }

  /**
   * Whatever the clock reads, the name the code builds for "testfile.txt"
   * does not end with "-testfile.txt": the character before ".txt" is the
   * last digit of the timestamp, where that suffix has an 'e'.
   */
  lemma TimestampedFileAsWrittenMissesSuffix(millis: nat)
    ensures !IsSuffix("-testfile.txt", TimestampedFileAsWritten("testfile.txt", millis))
  {
    assert "testfile.txt" == "testfile" + "." + "txt";
    SplitDottedName("testfile", "txt");
    DecimalRoundTrip(millis);
    var d := Decimal(millis);
    var r := TimestampedFileAsWritten("testfile.txt", millis);
    assert r == "testfile" + "-" + d + ".txt";
    assert r[|r| - 5] == d[|d| - 1];
    assert IsDigit(d[|d| - 1]);
    assert r[|r| - 13..][8] != "-testfile.txt"[8];
  }

  /**
   * TimestampedFile as its documentation describes it: the base name of
   * `file` with the timestamp and a dash in front.
   */
  function TimestampedFile(file: string, millis: nat): (r: string)
    ensures IsSuffix("-" + Base(file), r)
  {
    var r := Decimal(millis) + "-" + GetFilename(file) + Ext(file);
    assert r == Decimal(millis) + ("-" + Base(file));
    r
  }

  /** The prefix TimestampedFile puts before the dash is the decimal timestamp, read back exactly. */
  lemma TimestampedFileRoundTrip(file: string, millis: nat)
    ensures |TimestampedFile(file, millis)| > |Base(file)| + 1
    ensures var stamp := TimestampedFile(file, millis)[..|TimestampedFile(file, millis)| - |Base(file)| - 1];
      (forall i :: 0 <= i < |stamp| ==> IsDigit(stamp[i])) && DecimalValue(stamp) == millis
  {
    DecimalRoundTrip(millis);
    var r := TimestampedFile(file, millis);
    assert r == Decimal(millis) + ("-" + Base(file));
    assert r[..|r| - |Base(file)| - 1] == Decimal(millis);
  }

  /** The corrected name for "testfile.txt" ends with "-testfile.txt", whatever the clock reads. */
  lemma TimestampedFileKeepsSuffix(millis: nat)
    ensures IsSuffix("-testfile.txt", TimestampedFile("testfile.txt", millis))
  {
    assert "testfile.txt" == "testfile" + "." + "txt";
    SplitDottedName("testfile", "txt");
    NoSlashIsOwnTail("testfile.txt");
    BaseOfFileName("testfile.txt");
    assert "-" + Base("testfile.txt") == "-testfile.txt";
  }

  /*** FileExists ***/

  /** What os.Stat reports for a path. */
  datatype StatOutcome =
    | Found                       // the call succeeded
    | NotExist                    // the error satisfies os.IsNotExist
    | Failed(cause: string)       // any other error (permission, I/O, ...)

  datatype Error =
    | StatFailed(cause: string)   // the error of a failed stat, passed on unchanged
    | NamesExhausted(tries: nat)  // "try <tries> name failed"

  /**
   * FileExists: (true, nil) when stat succeeds, (false, nil) when the path
   * does not exist, and (false, err) for any other failure, which is never
   * reported as absence.
   */
  function FileExists(outcome: StatOutcome): (r: (bool, Option<Error>))
    ensures r.0 <==> outcome == Found
    ensures r.1 == None <==> outcome == Found || outcome == NotExist
    ensures outcome.Failed? ==> r.1 == Some(StatFailed(outcome.cause))
  {
    match outcome
    case Found => (true, None)
    case NotExist => (false, None)
    case Failed(cause) => (false, Some(StatFailed(cause)))
  }

  /*** NumberedFile ***/

  /** math.MaxUint32, the bound of the counter loop. */
  const MaxUint32: nat := 0xFFFF_FFFF

  datatype Result<T> = Ok(value: T) | Err(error: Error)

  /** The name probed for counter `i`: `stem+ext` for 0, `stem-i+ext` otherwise. */
  function Candidate(stem: string, ext: string, i: nat): string
  {
    if i == 0 then stem + ext else stem + "-" + Decimal(i) + ext
  }

  /** Every probe before counter `k` found an existing entry. */
  ghost predicate AllFound(stem: string, ext: string, stat: string -> StatOutcome, k: nat)
  {
    forall j :: 0 <= j < k ==> stat(Candidate(stem, ext, j)) == Found
  }

  /** The outcome of probing the counters `i`, `i+1`, ... below MaxUint32. */
  function Search(stem: string, ext: string, stat: string -> StatOutcome, i: nat): Result<string>
    requires 1 <= i <= MaxUint32
    decreases MaxUint32 - i
  {
    if i == MaxUint32 then Err(NamesExhausted(MaxUint32))
    else
      var res := Candidate(stem, ext, i);
      var (found, err) := FileExists(stat(res));
      if err != None then Err(err.value)
      else if !found then Ok(res)
      else Search(stem, ext, stat, i + 1)
  }

  /** The outcome of NumberedFile: the plain name first, then the counters. */
  function Allocate(file: string, stat: string -> StatOutcome): Result<string>
  {
    var name, ext := GetFilename(file), Ext(file);
    var (found, err) := FileExists(stat(name + ext));
    if err != None then Err(err.value)
    else if !found then Ok(name + ext)
    else Search(name, ext, stat, 1)
  }

  /** The names the search from counter `i` hands to the oracle, in order. */
  function SearchProbes(stem: string, ext: string, stat: string -> StatOutcome, i: nat): seq<string>
    requires 1 <= i <= MaxUint32
    decreases MaxUint32 - i
  {
    if i == MaxUint32 then []
    else
      var c := Candidate(stem, ext, i);
      if stat(c) == Found then [c] + SearchProbes(stem, ext, stat, i + 1) else [c]
  }

  /** The names NumberedFile hands to the oracle, in order. */
  function Probes(file: string, stat: string -> StatOutcome): seq<string>
  {
    var name, ext := GetFilename(file), Ext(file);
    if stat(name + ext) == Found then [name + ext] + SearchProbes(name, ext, stat, 1) else [name + ext]
  }

  /**
   * NumberedFile: probes `stem+ext`, then `stem-1+ext`, `stem-2+ext`, ...
   * and returns the first name the oracle reports as not existing, or the
   * first failure of the oracle. `probes` records the names given to the
   * oracle. What the outcome and the probes are for every oracle is stated
   * by the lemmas about Allocate and Probes below.
   */
  method NumberedFile(file: string, stat: string -> StatOutcome) returns (res: Result<string>, probes: seq<string>)
    ensures res == Allocate(file, stat)
    ensures probes == Probes(file, stat)
    ensures res.Ok? ==> stat(res.value) == NotExist
  {
    var name := GetFilename(file);
    var ext := Ext(file);

    probes := [name + ext];
    var (found, err) := FileExists(stat(name + ext));
    if err != None {
      return Err(err.value), probes;
    } else if !found {
      return Ok(name + ext), probes;
    }

    assert Allocate(file, stat) == Search(name, ext, stat, 1);
    var i := 1;
    while i < MaxUint32
      invariant 1 <= i <= MaxUint32
      invariant Allocate(file, stat) == Search(name, ext, stat, i)
      invariant Probes(file, stat) == probes + SearchProbes(name, ext, stat, i)
    {
      var counter := Decimal(i);
      var candidate := name + "-" + counter + ext;
      assert candidate == Candidate(name, ext, i);
      SearchStep(name, ext, stat, i);
      probes := probes + [candidate];
      var (found, err) := FileExists(stat(candidate));
      if err != None {
        return Err(err.value), probes;
      } else if !found {
        return Ok(candidate), probes;
      }
      i := i + 1;
    }
    assert probes + [] == probes;
    return Err(NamesExhausted(MaxUint32)), probes;
  }

  /** One probe of the search: it either ends the search or hands it on to the next counter. */
  lemma SearchStep(stem: string, ext: string, stat: string -> StatOutcome, i: nat)
    requires 1 <= i < MaxUint32
    ensures stat(Candidate(stem, ext, i)) == Found ==>
      Search(stem, ext, stat, i) == Search(stem, ext, stat, i + 1)
      && SearchProbes(stem, ext, stat, i) == [Candidate(stem, ext, i)] + SearchProbes(stem, ext, stat, i + 1)
    ensures stat(Candidate(stem, ext, i)) != Found ==> SearchProbes(stem, ext, stat, i) == [Candidate(stem, ext, i)]
    ensures stat(Candidate(stem, ext, i)) == NotExist ==> Search(stem, ext, stat, i) == Ok(Candidate(stem, ext, i))
    ensures stat(Candidate(stem, ext, i)).Failed? ==>
      Search(stem, ext, stat, i) == Err(StatFailed(stat(Candidate(stem, ext, i)).cause))
  {
  }

  /*** What Allocate promises ***/

  /** The search from `i` returns the first counter `k >= i` whose probe did not find an entry. */
  lemma {:induction false} SearchFirstNotFound(stem: string, ext: string, stat: string -> StatOutcome, i: nat, k: nat)
    requires 1 <= i <= k < MaxUint32
    requires forall j :: i <= j < k ==> stat(Candidate(stem, ext, j)) == Found
    ensures stat(Candidate(stem, ext, k)) == NotExist ==> Search(stem, ext, stat, i) == Ok(Candidate(stem, ext, k))
    ensures stat(Candidate(stem, ext, k)).Failed? ==>
      Search(stem, ext, stat, i) == Err(StatFailed(stat(Candidate(stem, ext, k)).cause))
    decreases k - i
  {
    if i < k {
      SearchFirstNotFound(stem, ext, stat, i + 1, k);
    }
  }

  /** Probing every counter from `i` on and finding each one exhausts the names. */
  lemma {:induction false} SearchAllFound(stem: string, ext: string, stat: string -> StatOutcome, i: nat)
    requires 1 <= i <= MaxUint32
    requires forall j :: i <= j < MaxUint32 ==> stat(Candidate(stem, ext, j)) == Found
    ensures Search(stem, ext, stat, i) == Err(NamesExhausted(MaxUint32))
    decreases MaxUint32 - i
  {
    if i < MaxUint32 {
      SearchAllFound(stem, ext, stat, i + 1);
    }
  }

  /**
   * If the names for counters 0..k-1 all exist and the one for `k` does
   * not, NumberedFile returns the name for `k`; if probing `k` fails, it
   * returns that failure.
   */
  lemma AllocateFirstNotFound(file: string, stat: string -> StatOutcome, k: nat)
    requires k < MaxUint32
    requires AllFound(GetFilename(file), Ext(file), stat, k)
    ensures stat(Candidate(GetFilename(file), Ext(file), k)) == NotExist ==>
      Allocate(file, stat) == Ok(Candidate(GetFilename(file), Ext(file), k))
    ensures stat(Candidate(GetFilename(file), Ext(file), k)).Failed? ==>
      Allocate(file, stat) == Err(StatFailed(stat(Candidate(GetFilename(file), Ext(file), k)).cause))
  {
    if k > 0 {
      assert stat(Candidate(GetFilename(file), Ext(file), 0)) == Found;
      SearchFirstNotFound(GetFilename(file), Ext(file), stat, 1, k);
    }
  }

  /** If every name up to the bound exists, NumberedFile fails with NamesExhausted. */
  lemma AllocateExhausted(file: string, stat: string -> StatOutcome)
    requires AllFound(GetFilename(file), Ext(file), stat, MaxUint32)
    ensures Allocate(file, stat) == Err(NamesExhausted(MaxUint32))
  {
    assert stat(Candidate(GetFilename(file), Ext(file), 0)) == Found;
    SearchAllFound(GetFilename(file), Ext(file), stat, 1);
  }

  /** The search from `i` ends in NamesExhausted only if every counter from `i` on was found. */
  lemma {:induction false} SearchExhaustedOnlyIfAllFound(stem: string, ext: string, stat: string -> StatOutcome, i: nat)
    requires 1 <= i <= MaxUint32
    requires Search(stem, ext, stat, i) == Err(NamesExhausted(MaxUint32))
    ensures forall j :: i <= j < MaxUint32 ==> stat(Candidate(stem, ext, j)) == Found
    decreases MaxUint32 - i
  {
    if i < MaxUint32 {
      SearchExhaustedOnlyIfAllFound(stem, ext, stat, i + 1);
    }
  }

  /** NumberedFile fails with NamesExhausted only if every name up to the bound exists. */
  lemma AllocateExhaustedOnlyIfAllFound(file: string, stat: string -> StatOutcome)
    requires Allocate(file, stat) == Err(NamesExhausted(MaxUint32))
    ensures AllFound(GetFilename(file), Ext(file), stat, MaxUint32)
  {
    SearchExhaustedOnlyIfAllFound(GetFilename(file), Ext(file), stat, 1);
  }

  /**
   * A name the search from `i` returns belongs to a counter `k >= i` whose
   * probe reported no entry, every counter from `i` to `k` having existed.
   */
  lemma {:induction false} SearchResultIsFirstFree(stem: string, ext: string, stat: string -> StatOutcome, i: nat)
      returns (k: nat)
    requires 1 <= i <= MaxUint32
    requires Search(stem, ext, stat, i).Ok?
    ensures i <= k < MaxUint32
    ensures Search(stem, ext, stat, i).value == Candidate(stem, ext, k)
    ensures stat(Candidate(stem, ext, k)) == NotExist
    ensures forall j :: i <= j < k ==> stat(Candidate(stem, ext, j)) == Found
    decreases MaxUint32 - i
  {
    if stat(Candidate(stem, ext, i)) == NotExist {
      k := i;
    } else {
      k := SearchResultIsFirstFree(stem, ext, stat, i + 1);
    }
  }

  /**
   * A name NumberedFile returns is the least free candidate: it does not
   * exist, and the names for every smaller counter do.
   */
  lemma AllocateResultIsFirstFree(file: string, stat: string -> StatOutcome) returns (k: nat)
    requires Allocate(file, stat).Ok?
    ensures k < MaxUint32
    ensures Allocate(file, stat).value == Candidate(GetFilename(file), Ext(file), k)
    ensures stat(Candidate(GetFilename(file), Ext(file), k)) == NotExist
    ensures AllFound(GetFilename(file), Ext(file), stat, k)
  {
    var stem, ext := GetFilename(file), Ext(file);
    if stat(stem + ext) == NotExist {
      k := 0;
    } else {
      k := SearchResultIsFirstFree(stem, ext, stat, 1);
    }
  }

  /** The first candidate is the base name of the requested file. */
  lemma FirstCandidateIsBase(file: string)
    ensures Candidate(GetFilename(file), Ext(file), 0) == Base(file)
  {
  }

  /** Different counters give different candidate names, so no name is probed twice. */
  lemma CandidatesDistinct(stem: string, ext: string, i: nat, j: nat)
    requires i != j
    ensures Candidate(stem, ext, i) != Candidate(stem, ext, j)
  {
    DecimalRoundTrip(i);
    DecimalRoundTrip(j);
    var ci, cj := Candidate(stem, ext, i), Candidate(stem, ext, j);
    if i == 0 || j == 0 || |Decimal(i)| != |Decimal(j)| {
      assert |ci| != |cj|;
    } else {
      var lo, hi := |stem| + 1, |ci| - |ext|;
      assert ci[lo..hi] == Decimal(i);
      assert cj[lo..hi] == Decimal(j);
      assert Decimal(i) != Decimal(j);
    }
  }

  /*** What the probes are ***/

  /** The search from `i` probes the candidates for `i`, `i+1`, ... and stops after the first one not found. */
  lemma {:induction false} SearchProbesShape(stem: string, ext: string, stat: string -> StatOutcome, i: nat)
    requires 1 <= i <= MaxUint32
    ensures |SearchProbes(stem, ext, stat, i)| <= MaxUint32 - i
    ensures forall k :: 0 <= k < |SearchProbes(stem, ext, stat, i)| ==>
      SearchProbes(stem, ext, stat, i)[k] == Candidate(stem, ext, i + k)
    ensures forall k :: 0 <= k < |SearchProbes(stem, ext, stat, i)| - 1 ==>
      stat(SearchProbes(stem, ext, stat, i)[k]) == Found
    decreases MaxUint32 - i
  {
    if i < MaxUint32 && stat(Candidate(stem, ext, i)) == Found {
      SearchProbesShape(stem, ext, stat, i + 1);
      var rest := SearchProbes(stem, ext, stat, i + 1);
      assert SearchProbes(stem, ext, stat, i) == [Candidate(stem, ext, i)] + rest;
      forall k | 1 <= k < |rest| + 1
        ensures SearchProbes(stem, ext, stat, i)[k] == Candidate(stem, ext, i + k)
      {
        assert rest[k - 1] == Candidate(stem, ext, (i + 1) + (k - 1));
      }
    }
  }

  /**
   * NumberedFile asks the oracle about `stem+ext` first and then about the
   * counters in increasing order, never about a name twice, and every name
   * it asks about except the last one exists.
   */
  lemma ProbesShape(file: string, stat: string -> StatOutcome)
    ensures 1 <= |Probes(file, stat)| <= MaxUint32
    ensures Probes(file, stat)[0] == Base(file)
    ensures forall k :: 0 <= k < |Probes(file, stat)| ==>
      Probes(file, stat)[k] == Candidate(GetFilename(file), Ext(file), k)
    ensures forall k :: 0 <= k < |Probes(file, stat)| - 1 ==> stat(Probes(file, stat)[k]) == Found
  {
    var stem, ext := GetFilename(file), Ext(file);
    SearchProbesShape(stem, ext, stat, 1);
    var rest := SearchProbes(stem, ext, stat, 1);
    if stat(stem + ext) == Found {
      forall k | 1 <= k < |rest| + 1
        ensures Probes(file, stat)[k] == Candidate(stem, ext, k)
      {
        assert rest[k - 1] == Candidate(stem, ext, 1 + (k - 1));
      }
    }
  }

  /** Once a probe from counter `i` on finds no entry or fails, the search probes nothing more. */
  lemma {:induction false} SearchProbesStop(stem: string, ext: string, stat: string -> StatOutcome, i: nat, k: nat)
    requires 1 <= i <= k < MaxUint32
    requires forall j :: i <= j < k ==> stat(Candidate(stem, ext, j)) == Found
    requires stat(Candidate(stem, ext, k)) != Found
    ensures |SearchProbes(stem, ext, stat, i)| == k - i + 1
    decreases k - i
  {
    if i < k {
      SearchProbesStop(stem, ext, stat, i + 1, k);
    }
  }

  /**
   * If the names for counters 0..k-1 exist and the probe for `k` finds no
   * entry or fails, NumberedFile makes exactly k+1 probes: in particular,
   * when `stem+ext` is free or its probe fails, it probes nothing else.
   */
  lemma ProbesStop(file: string, stat: string -> StatOutcome, k: nat)
    requires k < MaxUint32
    requires AllFound(GetFilename(file), Ext(file), stat, k)
    requires stat(Candidate(GetFilename(file), Ext(file), k)) != Found
    ensures |Probes(file, stat)| == k + 1
  {
    if k > 0 {
      assert stat(Candidate(GetFilename(file), Ext(file), 0)) == Found;
      SearchProbesStop(GetFilename(file), Ext(file), stat, 1, k);
    }
  }

  /** NumberedFile never asks the oracle about the same name twice. */
  lemma ProbesDistinct(file: string, stat: string -> StatOutcome)
    ensures forall i, j :: 0 <= i < j < |Probes(file, stat)| ==> Probes(file, stat)[i] != Probes(file, stat)[j]
  {
    ProbesShape(file, stat);
    forall i, j | 0 <= i < j < |Probes(file, stat)|
      ensures Probes(file, stat)[i] != Probes(file, stat)[j]
    {
      CandidatesDistinct(GetFilename(file), Ext(file), i, j);
    }
  }

  /** A name NumberedFile returns is the last name it probed. */
  lemma AllocateReturnsLastProbe(file: string, stat: string -> StatOutcome)
    requires Allocate(file, stat).Ok?
    ensures Allocate(file, stat).value == Probes(file, stat)[|Probes(file, stat)| - 1]
  {
    var k := AllocateResultIsFirstFree(file, stat);
    ProbesStop(file, stat, k);
    ProbesShape(file, stat);
  }

  /*** Worked examples ***/

  /** The existence oracle of a directory holding exactly the names in `entries`. */
  function Directory(entries: set<string>): string -> StatOutcome
  {
    name => if name in entries then Found else NotExist
  }

  /** A directory holding testfile.txt: the next name is testfile-1.txt. */
  lemma NumberedFileExample()
    ensures Allocate("testfile.txt", Directory({"testfile.txt"})) == Ok("testfile-1.txt")
  {
    var stat := Directory({"testfile.txt"});
    assert "testfile.txt" == "testfile" + "." + "txt";
    SplitDottedName("testfile", "txt");
    assert GetFilename("testfile.txt") == "testfile" && Ext("testfile.txt") == ".txt";
    assert Decimal(1) == "1";
    assert Candidate("testfile", ".txt", 0) == "testfile.txt";
    assert Candidate("testfile", ".txt", 1) == "testfile-1.txt";
    assert stat("testfile-1.txt") == NotExist by {
      assert |"testfile-1.txt"| != |"testfile.txt"|;
    }
    assert AllFound("testfile", ".txt", stat, 1);
    AllocateFirstNotFound("testfile.txt", stat, 1);
  }

  /** A directory holding notes and notes-1: the next name is notes-2. */
  lemma NumberedFileNoExtensionExample()
    ensures Allocate("notes", Directory({"notes", "notes-1"})) == Ok("notes-2")
  {
    var stat := Directory({"notes", "notes-1"});
    SplitPlainName("notes");
    assert Decimal(1) == "1" && Decimal(2) == "2";
    assert Candidate("notes", "", 0) == "notes";
    assert Candidate("notes", "", 1) == "notes-1";
    assert Candidate("notes", "", 2) == "notes-2";
    assert stat("notes-2") == NotExist by {
      assert "notes-2" != "notes-1" by { assert "notes-2"[6] != "notes-1"[6]; }
      assert |"notes-2"| != |"notes"|;
    }
    assert AllFound("notes", "", stat, 2);
    AllocateFirstNotFound("notes", stat, 2);
  }

  /** A failing first probe is returned as the error, with no further probe. */
  lemma NumberedFileErrorExample(file: string, cause: string)
    ensures Allocate(file, (name: string) => Failed(cause)) == Err(StatFailed(cause))
    ensures Probes(file, (name: string) => Failed(cause)) == [Base(file)]
  {
    FirstCandidateIsBase(file);
  }
}
