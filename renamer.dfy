/**
 * main of rename_images.c: argument checks, the collection pass over the
 * directory, the sort, the composition of every new name and the rename pass.
 *
 * The directory is given as the sequence of entry names readdir returns
 * (None when opendir fails); rename is an oracle that answers, for the
 * i-th call with its two names, whether the call succeeded.
 */
module Renamer {
  import opened Bytes
  import opened Extensions
  import opened Decimal
  import opened Sorting
  import opened Collection

  datatype Option<T> = None | Some(value: T)

  /** sizeof(ext_upper) */
  const ExtBufferSize: nat := 32
  /** sizeof(new_name) */
  const NameBufferSize: nat := 256
  /** The accepted range of the digits argument. */
  const MinDigits: int := 1
  const MaxDigits: int := 20

  /** The answer of rename for the i-th call, from, to. */
  type RenameOracle = (nat, seq<byte>, seq<byte>) -> bool

  /** One rename call: what was renamed, to what, and whether rename succeeded. */
  datatype Attempt = Attempt(source: seq<byte>, target: seq<byte>, renamed: bool)

  function Min(a: int, b: int): int { if a <= b then a else b }

  // ---------------------------------------------------------------- names

  /** ext_upper: the first 31 bytes of the extension, upper-cased byte by byte. */
  function UpperExt(ext: seq<byte>): (r: seq<byte>)
    ensures |r| == Min(|ext|, ExtBufferSize - 1)
    ensures forall k :: 0 <= k < |r| ==> r[k] == ToUpper(ext[k])
  {
    UpperAll(ext[..Min(|ext|, ExtBufferSize - 1)])
  }

  /** The loop that fills ext_upper[32] one byte at a time and terminates it. */
  method UpperExtension(ext: seq<byte>) returns (upper: seq<byte>)
    ensures |upper| == Min(|ext|, ExtBufferSize - 1)
    ensures forall k :: 0 <= k < |upper| ==> upper[k] == ToUpper(ext[k])
    ensures upper == UpperExt(ext)
  {
    var buffer := new byte[ExtBufferSize];
    var j := 0;
    while j < |ext| && j < ExtBufferSize - 1
      invariant 0 <= j <= Min(|ext|, ExtBufferSize - 1)
      invariant forall k :: 0 <= k < j ==> buffer[k] == ToUpper(ext[k])
    {
      buffer[j] := ToUpper(ext[j]);
      j := j + 1;
    }
    buffer[j] := NUL;
    upper := buffer[..j];
  }

  /**
   * snprintf(new_name, 256, "%s%0*d%s", prefix, digits, rank, ext_upper):
   * the composed name, cut to the 255 bytes that fit before the NUL.
   */
  function NewName(prefix: seq<byte>, digits: int, rank: nat, extUpper: seq<byte>): seq<byte> {
    var full := prefix + Pad(rank, digits) + extUpper;
    full[..Min(|full|, NameBufferSize - 1)]
  }

  /** The new name of the name at 0-based position i of the sorted list. */
  function TargetName(prefix: seq<byte>, digits: int, i: nat, name: seq<byte>): seq<byte> {
    NewName(prefix, digits, i + 1, UpperExt(GetFileExtension(name)))
  }

  /**
   * When nothing is cut, the composed name starts with the prefix, ends with
   * the extension, and the digits after the prefix read back as the rank:
   * the rank can be recovered from the name.
   */
  lemma NewNameRoundTrip(prefix: seq<byte>, digits: int, rank: nat, extUpper: seq<byte>)
    requires |prefix| + |Pad(rank, digits)| + |extUpper| < NameBufferSize
    requires extUpper == [] || !IsDigit(extUpper[0])
    ensures var r := NewName(prefix, digits, rank, extUpper);
      |prefix| <= |r| && r[..|prefix|] == prefix &&
      |extUpper| <= |r| && r[|r| - |extUpper|..] == extUpper &&
      Value(LeadingDigits(r[|prefix|..])) == rank
  {
    var pad := Pad(rank, digits);
    var full := prefix + pad + extUpper;
    assert NewName(prefix, digits, rank, extUpper) == full by {
      assert full[..|full|] == full;
    }
    ComposedParts(prefix, pad, extUpper);
    assert full[|prefix|..] == pad + extUpper;
    assert full[|full| - |extUpper|..] == extUpper;
    PadRoundTrip(rank, digits);
    LeadingDigitsOfNumeral(pad, extUpper);
  }

  /**
   * An image's extension is one of the ten allowlisted ones, so after upper
   * casing it is 4 or 5 bytes, starts with '.', is never cut at 31 bytes and
   * is the upper-case form of an EXT_LIST entry.
   */
  lemma ImageExtension(name: seq<byte>)
    requires IsCString(name) && IsImageFile(name)
    ensures var ext := GetFileExtension(name);
      4 <= |ext| <= 5 && UpperExt(ext) == UpperAll(ext) && UpperExt(ext)[0] == DOT &&
      exists j :: 0 <= j < |ExtList| && UpperExt(ext) == UpperAll(ExtList[j])
  {
    IsImageFileIff(name);
    var ext := GetFileExtension(name);
    var j :| 0 <= j < |ExtList| && ExtList[j] == LowerAll(ext);
    AllowlistedUpper(ext, ExtList[j]);
  }

  lemma AllowlistedUpper(ext: seq<byte>, e: seq<byte>)
    requires Allowlisted(e) && LowerAll(ext) == e
    ensures 4 <= |ext| <= 5 && UpperExt(ext) == UpperAll(ext) && UpperExt(ext)[0] == DOT
    ensures UpperExt(ext) == UpperAll(e)
  {
    AllowlistShape(e);
    UpperOfCaseEqual(ext, e);
    UpperExtOfShort(ext);
  }

  lemma UpperExtOfShort(ext: seq<byte>)
    requires |ext| < ExtBufferSize
    ensures UpperExt(ext) == UpperAll(ext)
  {
    assert ext[..Min(|ext|, ExtBufferSize - 1)] == ext;
  }

  /** Strings that agree after lower-casing agree after upper-casing. */
  lemma UpperOfCaseEqual(a: seq<byte>, b: seq<byte>)
    requires LowerAll(a) == LowerAll(b)
    ensures UpperAll(a) == UpperAll(b)
  {
    forall k | 0 <= k < |a|
      ensures UpperAll(a)[k] == UpperAll(b)[k]
    {
      assert LowerAll(a)[k] == LowerAll(b)[k];
      UpperOfSameLower(a[k], b[k]);
    }
  }

  // ---------------------------------------------------------- collection

  /** The elements of s that accept holds of, in their order in s. */
  function Filter<T>(s: seq<T>, accept: T -> bool): seq<T> {
    if s == [] then []
    else if accept(s[|s| - 1]) then Filter(s[..|s| - 1], accept) + [s[|s| - 1]]
    else Filter(s[..|s| - 1], accept)
  }

  /** Filtering keeps every accepted element as often as it occurs and drops the rest. */
  lemma {:induction false} FilterCount<T>(s: seq<T>, accept: T -> bool, x: T)
    ensures multiset(Filter(s, accept))[x] == if accept(x) then multiset(s)[x] else 0
    decreases |s|
  {
    if s != [] {
      var init := s[..|s| - 1];
      FilterCount(init, accept, x);
      assert s == init + [s[|s| - 1]];
    }
  }

  /** Filtering one more accepted element appends it. */
  lemma FilterKeep<T>(s: seq<T>, accept: T -> bool, x: T)
    requires accept(x)
    ensures Filter(s + [x], accept) == Filter(s, accept) + [x]
  {
    assert (s + [x])[..|s|] == s;
  }

  /** Filtering one more rejected element changes nothing. */
  lemma FilterDrop<T>(s: seq<T>, accept: T -> bool, x: T)
    requires !accept(x)
    ensures Filter(s + [x], accept) == Filter(s, accept)
  {
    assert (s + [x])[..|s|] == s;
  }

  /** The entries is_image_file accepts, in enumeration order. */
  function Images(entries: seq<seq<byte>>): seq<seq<byte>> {
    Filter(entries, IsImageFile)
  }

  /** The collected names are exactly the image entries, each as often as it was enumerated. */
  lemma ImagesCount(entries: seq<seq<byte>>, x: seq<byte>)
    ensures multiset(Images(entries))[x] == if IsImageFile(x) then multiset(entries)[x] else 0
  {
    FilterCount(entries, IsImageFile, x);
  }

  lemma ImagesMembers(entries: seq<seq<byte>>)
    ensures forall x :: x in Images(entries) <==> x in entries && IsImageFile(x)
  {
    forall x ensures x in Images(entries) <==> x in entries && IsImageFile(x) {
      ImagesCount(entries, x);
    }
  }

  /** The first pass: every entry is tested once, in order, and the images are pushed. */
  method Collect(entries: seq<seq<byte>>) returns (list: ImageList)
    ensures fresh(list) && fresh(list.files)
    ensures list.Valid() && list.Contents() == Images(entries)
  {
    list := new ImageList();
    var k := 0;
    while k < |entries|
      invariant 0 <= k <= |entries|
      invariant fresh(list) && fresh(list.files)
      invariant list.Valid() && list.Contents() == Images(entries[..k])
    {
      assert entries[..k + 1][..k] == entries[..k];
      if IsImageFile(entries[k]) {
        list.Push(entries[k]);
      }
      k := k + 1;
    }
    assert entries[..k] == entries;
  }

  // -------------------------------------------------------------- renames

  /** The rename call for the name at 0-based position i. */
  function AttemptAt(prefix: seq<byte>, digits: int, i: nat, name: seq<byte>, rename: RenameOracle): Attempt {
    var target := TargetName(prefix, digits, i, name);
    Attempt(name, target, rename(i, name, target))
  }

  /** f applied to every name together with its 0-based position, in order. */
  function MapIndexed<T>(f: (nat, seq<byte>) -> T, names: seq<seq<byte>>): seq<T>
    decreases |names|
  {
    if names == [] then []
    else
      var last := |names| - 1;
      MapIndexed(f, names[..last]) + [f(last, names[last])]
  }

  lemma {:induction false} MapIndexedIndex<T>(f: (nat, seq<byte>) -> T, names: seq<seq<byte>>)
    ensures |MapIndexed(f, names)| == |names|
    ensures forall k :: 0 <= k < |names| ==> MapIndexed(f, names)[k] == f(k, names[k])
    decreases |names|
  {
    if names != [] {
      var last := |names| - 1;
      MapIndexedIndex(f, names[..last]);
      assert forall k :: 0 <= k < last ==> names[..last][k] == names[k];
    }
  }

  /** The rename calls for the sorted names, one per name, in order. */
  function Attempts(prefix: seq<byte>, digits: int, sorted: seq<seq<byte>>, rename: RenameOracle): seq<Attempt> {
    MapIndexed((i: nat, name: seq<byte>) => AttemptAt(prefix, digits, i, name, rename), sorted)
  }

  /** The k-th call is the call for the k-th sorted name, and there is one per name. */
  lemma AttemptsIndex(prefix: seq<byte>, digits: int, sorted: seq<seq<byte>>, rename: RenameOracle)
    ensures |Attempts(prefix, digits, sorted, rename)| == |sorted|
    ensures forall k :: 0 <= k < |sorted| ==>
      Attempts(prefix, digits, sorted, rename)[k] == AttemptAt(prefix, digits, k, sorted[k], rename)
  {
    MapIndexedIndex((i: nat, name: seq<byte>) => AttemptAt(prefix, digits, i, name, rename), sorted);
  }

  lemma AttemptsSnoc(prefix: seq<byte>, digits: int, sorted: seq<seq<byte>>, i: nat, rename: RenameOracle)
    requires i < |sorted|
    ensures Attempts(prefix, digits, sorted[..i + 1], rename) ==
      Attempts(prefix, digits, sorted[..i], rename) + [AttemptAt(prefix, digits, i, sorted[i], rename)]
  {
    assert sorted[..i + 1][..i] == sorted[..i];
  }

  /** The names rename was called on, in call order. */
  function Sources(log: seq<Attempt>): seq<seq<byte>> {
    seq(|log|, i requires 0 <= i < |log| => log[i].source)
  }

  /**
   * The batch the second pass performs: its sources are the images sorted
   * under strcmp, each is tried once in that order, whatever the answers of
   * earlier calls, and each target is that of its rank.
   */
  ghost predicate IsBatch(prefix: seq<byte>, digits: int, entries: seq<seq<byte>>, rename: RenameOracle, log: seq<Attempt>) {
    var sources := Sources(log);
    Sorted(sources) &&
    multiset(sources) == multiset(Images(entries)) &&
    log == Attempts(prefix, digits, sources, rename)
  }

  /** argc == 3 and 1 <= atoi(argv[2]) <= 20. */
  predicate ArgsValid(argv: seq<seq<byte>>) {
    |argv| == 3 && MinDigits <= Atoi(argv[2]) <= MaxDigits
  }

  /**
   * The second pass: for each sorted name in turn, upper-case its extension,
   * compose the new name and call rename; a failed call is reported and the
   * loop goes on with the next name.
   */
  method RenameAll(list: ImageList, prefix: seq<byte>, digits: int, rename: RenameOracle)
    returns (log: seq<Attempt>)
    requires list.Valid()
    ensures log == Attempts(prefix, digits, list.Contents(), rename)
  {
    ghost var names := list.Contents();
    log := [];
    var i := 0;
    while i < list.count
      invariant 0 <= i <= list.count
      invariant log == Attempts(prefix, digits, names[..i], rename)
    {
      var name := list.files[i];
      var ext := GetFileExtension(name);
      var upper := UpperExtension(ext);
      var newName := NewName(prefix, digits, i + 1, upper);
      var ok := rename(i, name, newName);
      assert Attempt(name, newName, ok) == AttemptAt(prefix, digits, i, names[i], rename);
      AttemptsSnoc(prefix, digits, names, i, rename);
      log := log + [Attempt(name, newName, ok)];
      i := i + 1;
    }
    assert names[..i] == names;
  }

  /**
   * main. exit is the status returned; dirOpened says whether opendir was
   * called; log lists the rename calls with their outcome (the lines
   * printed).
   */
  method Run(argv: seq<seq<byte>>, dir: Option<seq<seq<byte>>>, rename: RenameOracle)
    returns (exit: int, dirOpened: bool, log: seq<Attempt>)
    ensures dirOpened <==> ArgsValid(argv)
    ensures exit == if ArgsValid(argv) && dir.Some? then 0 else 1
    ensures !(ArgsValid(argv) && dir.Some?) ==> log == []
    ensures ArgsValid(argv) && dir.Some? ==> IsBatch(argv[1], Atoi(argv[2]), dir.value, rename, log)
  {
    if |argv| != 3 {
      return 1, false, [];
    }
    var prefix := argv[1];
    var digits := Atoi(argv[2]);
    if digits <= 0 || digits > 20 {
      return 1, false, [];
    }
    dirOpened := true;
    if dir.None? {
      return 1, dirOpened, [];
    }

    var list := Collect(dir.value);
    SortNames(list.files, list.count);
    log := RenameAll(list, prefix, digits, rename);
    SourcesOfAttempts(prefix, digits, list.Contents(), rename);
    exit := 0;
  }

  // ------------------------------------------------------- batch properties

  lemma SourcesOfAttempts(prefix: seq<byte>, digits: int, sorted: seq<seq<byte>>, rename: RenameOracle)
    ensures Sources(Attempts(prefix, digits, sorted, rename)) == sorted
  {
    AttemptsIndex(prefix, digits, sorted, rename);
  }

  /**
   * Only images are renamed, every image is tried, and there is one call per
   * collected name.
   */
  lemma BatchCoversImages(prefix: seq<byte>, digits: int, entries: seq<seq<byte>>, rename: RenameOracle, log: seq<Attempt>)
    requires IsBatch(prefix, digits, entries, rename, log)
    ensures |log| == |Images(entries)|
    ensures forall x :: x in Sources(log) <==> x in entries && IsImageFile(x)
  {
    var sources := Sources(log);
    assert |multiset(sources)| == |multiset(Images(entries))|;
    ImagesMembers(entries);
    forall x ensures x in sources <==> x in Images(entries) {
      assert x in sources <==> x in multiset(sources);
    }
  }

  /**
   * The i-th call renames the i-th sorted name to the name of rank i + 1
   * and records the oracle's answer; the same sources with every answer
   * flipped also form a batch.
   */
  lemma BatchCall(prefix: seq<byte>, digits: int, entries: seq<seq<byte>>, rename: RenameOracle, log: seq<Attempt>, i: nat)
    requires IsBatch(prefix, digits, entries, rename, log) && i < |log|
    ensures log[i].target == TargetName(prefix, digits, i, log[i].source)
    ensures log[i].renamed == rename(i, log[i].source, log[i].target)
    ensures IsBatch(prefix, digits, entries, (k: nat, a: seq<byte>, b: seq<byte>) => !rename(k, a, b),
                    Attempts(prefix, digits, Sources(log), (k: nat, a: seq<byte>, b: seq<byte>) => !rename(k, a, b)))
  {
    var flipped := (k: nat, a: seq<byte>, b: seq<byte>) => !rename(k, a, b);
    AttemptsIndex(prefix, digits, Sources(log), rename);
    SourcesOfAttempts(prefix, digits, Sources(log), flipped);
  }

  /**
   * The answers of rename do not steer the batch: for C-string names, two
   * batches over the same directory with different oracles call rename on
   * the same names with the same targets, in the same order.
   */
  lemma BatchIndependentOfAnswers(prefix: seq<byte>, digits: int, entries: seq<seq<byte>>,
                                  rename1: RenameOracle, log1: seq<Attempt>, rename2: RenameOracle, log2: seq<Attempt>)
    requires forall x :: x in entries ==> IsCString(x)
    requires IsBatch(prefix, digits, entries, rename1, log1)
    requires IsBatch(prefix, digits, entries, rename2, log2)
    ensures |log1| == |log2|
    ensures forall i :: 0 <= i < |log1| ==> log1[i].source == log2[i].source && log1[i].target == log2[i].target
  {
    BatchCoversImages(prefix, digits, entries, rename1, log1);
    SortedIsUnique(Sources(log1), Sources(log2));
    AttemptsIndex(prefix, digits, Sources(log1), rename1);
    AttemptsIndex(prefix, digits, Sources(log2), rename2);
  }

  /**
   * The batch is determined by the set of directory entries: for C-string
   * names, whatever order readdir enumerates them in, the same calls are made.
   */
  lemma BatchIsDetermined(prefix: seq<byte>, digits: int, entries1: seq<seq<byte>>, entries2: seq<seq<byte>>,
                          rename: RenameOracle, log1: seq<Attempt>, log2: seq<Attempt>)
    requires forall x :: x in entries1 ==> IsCString(x)
    requires multiset(entries1) == multiset(entries2)
    requires IsBatch(prefix, digits, entries1, rename, log1)
    requires IsBatch(prefix, digits, entries2, rename, log2)
    ensures log1 == log2
  {
    forall x ensures multiset(Images(entries1))[x] == multiset(Images(entries2))[x] {
      ImagesCount(entries1, x);
      ImagesCount(entries2, x);
    }
    assert multiset(Sources(log1)) == multiset(Sources(log2));
    BatchCoversImages(prefix, digits, entries1, rename, log1);
    SortedIsUnique(Sources(log1), Sources(log2));
  }

  /**
   * For an image at position i whose rank fits the width and whose name fits
   * the buffer, the new name is exactly prefix, the digits-wide rank and the
   * upper-cased allowlisted extension.
   */
  lemma TargetOfImage(prefix: seq<byte>, digits: nat, i: nat, name: seq<byte>)
    requires IsCString(name) && IsImageFile(name)
    requires MinDigits <= digits && |prefix| + digits + 5 < NameBufferSize && i + 1 < Pow10(digits)
    ensures |Pad(i + 1, digits)| == digits
    ensures TargetName(prefix, digits, i, name) == prefix + Pad(i + 1, digits) + UpperAll(GetFileExtension(name))
  {
    ImageExtension(name);
    PadWidth(i + 1, digits);
  }

  /** The i-th target of a batch whose names fit, spelled out. */
  lemma BatchTarget(prefix: seq<byte>, digits: nat, entries: seq<seq<byte>>, rename: RenameOracle, log: seq<Attempt>, i: nat)
    requires forall x :: x in entries ==> IsCString(x)
    requires IsBatch(prefix, digits, entries, rename, log) && i < |log|
    requires MinDigits <= digits && |prefix| + digits + 5 < NameBufferSize && |log| < Pow10(digits)
    ensures IsCString(log[i].source) && IsImageFile(log[i].source)
    ensures |Pad(i + 1, digits)| == digits
    ensures log[i].target == prefix + Pad(i + 1, digits) + UpperAll(GetFileExtension(log[i].source))
  {
    BatchCoversImages(prefix, digits, entries, rename, log);
    BatchCall(prefix, digits, entries, rename, log, i);
    assert Sources(log)[i] == log[i].source;
    TargetOfImage(prefix, digits, i, log[i].source);
  }

  lemma ComposedParts(prefix: seq<byte>, pad: seq<byte>, ext: seq<byte>)
    ensures var t := prefix + pad + ext;
      t[..|prefix|] == prefix && t[|prefix|..|prefix| + |pad|] == pad
  {
    var t := prefix + pad + ext;
    assert t[..|prefix|] == prefix;
    assert t[|prefix|..|prefix| + |pad|] == pad;
  }

  /**
   * With prefix, digits and the longest extension within 255 bytes and fewer
   * than 10^digits images, the i-th target is the prefix followed by exactly
   * digits digits that read back as i + 1, and no two calls of one batch
   * share a target.
   */
  lemma BatchTargetsDistinct(prefix: seq<byte>, digits: nat, entries: seq<seq<byte>>, rename: RenameOracle, log: seq<Attempt>)
    requires forall x :: x in entries ==> IsCString(x)
    requires IsBatch(prefix, digits, entries, rename, log)
    requires MinDigits <= digits && |prefix| + digits + 5 < NameBufferSize && |log| < Pow10(digits)
    ensures forall i :: 0 <= i < |log| ==>
      |log[i].target| > |prefix| + digits &&
      log[i].target[..|prefix|] == prefix &&
      AllDigits(log[i].target[|prefix|..|prefix| + digits]) &&
      Value(log[i].target[|prefix|..|prefix| + digits]) == i + 1
    ensures forall i, j :: 0 <= i < j < |log| ==> log[i].target != log[j].target
  {
    forall i | 0 <= i < |log|
      ensures |log[i].target| > |prefix| + digits
      ensures log[i].target[..|prefix|] == prefix
      ensures log[i].target[|prefix|..|prefix| + digits] == Pad(i + 1, digits)
      ensures AllDigits(Pad(i + 1, digits)) && Value(Pad(i + 1, digits)) == i + 1
    {
      BatchTarget(prefix, digits, entries, rename, log, i);
      ImageExtension(log[i].source);
      ComposedParts(prefix, Pad(i + 1, digits), UpperAll(GetFileExtension(log[i].source)));
      PadRoundTrip(i + 1, digits);
    }
  }

  /**
   * snprintf cuts every name to 255 bytes, so with a prefix of 255 bytes or
   * more every call of a batch gets the same target: the first 255 bytes of
   * the prefix.
   */
  lemma LongPrefixTargetsCollide(prefix: seq<byte>, digits: int, entries: seq<seq<byte>>, rename: RenameOracle, log: seq<Attempt>)
    requires IsBatch(prefix, digits, entries, rename, log)
    requires |prefix| >= NameBufferSize - 1
    ensures forall i :: 0 <= i < |log| ==> log[i].target == prefix[..NameBufferSize - 1]
  {
    forall i | 0 <= i < |log|
      ensures log[i].target == prefix[..NameBufferSize - 1]
    {
      BatchCall(prefix, digits, entries, rename, log, i);
      LongPrefixName(prefix, digits, i + 1, UpperExt(GetFileExtension(log[i].source)));
    }
  }

  lemma LongPrefixName(prefix: seq<byte>, digits: int, rank: nat, extUpper: seq<byte>)
    requires |prefix| >= NameBufferSize - 1
    ensures NewName(prefix, digits, rank, extUpper) == prefix[..NameBufferSize - 1]
  {
    var full := prefix + Pad(rank, digits) + extUpper;
    assert full[..NameBufferSize - 1] == prefix[..NameBufferSize - 1];
  }
}
