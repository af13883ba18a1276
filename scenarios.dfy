/**
 * Concrete cases of the behaviour: usage errors, case folding of the
 * extension, strcmp order and one whole batch. Names are written as their
 * bytes, with the text beside them.
 */
module Scenarios {
  import opened Bytes
  import opened Extensions
  import opened Decimal
  import opened Sorting
  import opened Renamer

  const Program: seq<byte> := [114, 101, 110, 97, 109, 101, 95, 105, 109, 97, 103, 101, 115]  // "rename_images"
  const Prefix: seq<byte> := [73, 77, 71, 95]  // "IMG_"
  const Three: seq<byte> := [51]  // "3"
  const Zero: seq<byte> := [48]  // "0"
  const TwentyOne: seq<byte> := [50, 49]  // "21"
  const Word: seq<byte> := [116, 104, 114, 101, 101]  // "three"
  const ZeroZeroSeven: seq<byte> := [48, 48, 55]  // "007"
  const ZPng: seq<byte> := [122, 46, 112, 110, 103]  // "z.png"
  const AJpg: seq<byte> := [97, 46, 106, 112, 103]  // "a.jpg"
  const MGif: seq<byte> := [109, 46, 103, 105, 102]  // "m.gif"
  const Readme: seq<byte> := [114, 101, 97, 100, 109, 101, 46, 116, 120, 116]  // "readme.txt"
  const Sub: seq<byte> := [115, 117, 98]  // "sub"
  const Img001: seq<byte> := [73, 77, 71, 95, 48, 48, 49, 46, 74, 80, 71]  // "IMG_001.JPG"
  const Img002: seq<byte> := [73, 77, 71, 95, 48, 48, 50, 46, 71, 73, 70]  // "IMG_002.GIF"
  const Img003: seq<byte> := [73, 77, 71, 95, 48, 48, 51, 46, 80, 78, 71]  // "IMG_003.PNG"
  const UpperA: seq<byte> := [65, 46, 106, 112, 103]  // "A.jpg"
  const BJpg: seq<byte> := [98, 46, 106, 112, 103]  // "b.jpg"
  const Img10: seq<byte> := [105, 109, 103, 49, 48, 46, 106, 112, 103]  // "img10.jpg"
  const Img2: seq<byte> := [105, 109, 103, 50, 46, 106, 112, 103]  // "img2.jpg"
  const Photo: seq<byte> := [112, 104, 111, 116, 111, 46, 74, 112, 71]  // "photo.JpG"
  const P: seq<byte> := [80]  // "P"
  const P005: seq<byte> := [80, 48, 48, 53, 46, 74, 80, 71]  // "P005.JPG"

  /** One or three arguments after the program name are a usage error. */
  lemma WrongArgumentCount()
    ensures !ArgsValid([Program, Prefix])
    ensures !ArgsValid([Program, Prefix, Three, Three])
  {
  }

  /** A digit count of "3" is accepted. */
  lemma ThreeDigitsAccepted()
    ensures ArgsValid([Program, Prefix, Three])
  {
    AtoiOfNumeral(Three);
  }

  /** "0" is below the smallest digit count. */
  lemma ZeroDigitsRejected()
    ensures !ArgsValid([Program, Prefix, Zero])
  {
    AtoiOfNumeral(Zero);
  }

  /** "21" is above the largest digit count. */
  lemma TwentyOneDigitsRejected()
    ensures !ArgsValid([Program, Prefix, TwentyOne])
  {
    assert TwentyOne[..1] == [50];
    AtoiOfNumeral(TwentyOne);
  }

  /** A word reads as 0 and is therefore rejected. */
  lemma WordDigitsRejected()
    ensures Atoi(Word) == 0 && !ArgsValid([Program, Prefix, Word])
  {
    assert !IsSpace(Word[0]);
    assert SkipSpaces(Word) == Word;
    assert LeadingDigits(Word) == [];
  }

  /** Leading zeros in the digit count are read past: "007" is 7. */
  lemma LeadingZerosInCount()
    ensures Atoi(ZeroZeroSeven) == 7
  {
    assert ZeroZeroSeven[..2] == [48, 48];
    assert [48, 48][..1] == [48];
    assert [48][..0] == [];
    AtoiOfNumeral(ZeroZeroSeven);
  }

  /** Byte order: upper case before lower case, and "img10" before "img2". */
  lemma OrdinalOrder()
    ensures Strcmp(UpperA, AJpg) < 0 && Strcmp(AJpg, BJpg) < 0
    ensures Strcmp(Img10, Img2) < 0
  {
  }

  /** "photo.JpG" is an image: the extension is compared ignoring case. */
  lemma MixedCaseIsImage()
    ensures IsImageFile(Photo)
  {
    assert GetFileExtension(Photo) == Photo[5..];
    assert LowerAll(Photo[5..]) == ExtList[0];
    IsImageFileIff(Photo);
  }

  /** At rank 5 with prefix "P" and 3 digits "photo.JpG" becomes "P005.JPG". */
  lemma MixedCaseTarget()
    ensures TargetName(P, 3, 4, Photo) == P005
  {
    assert GetFileExtension(Photo) == Photo[5..];
    PadOfSmall(5, [48, 48, 53]);
    UpperOfExtension(Photo[5..], [46, 74, 80, 71]);
    TargetOfParts(P, 3, 4, Photo, [48, 48, 53], [46, 74, 80, 71]);
  }

  /** "%03d" of a one-digit rank. */
  lemma PadOfSmall(rank: nat, pad: seq<byte>)
    requires 1 <= rank <= 9 && pad == [ZERO, ZERO, ZERO + rank]
    ensures Pad(rank, 3) == pad
  {
    assert Digits(rank) == [ZERO + rank];
    assert Zeros(2) == [ZERO, ZERO];
  }

  /** The upper-cased form of a four-byte extension. */
  lemma UpperOfExtension(ext: seq<byte>, upper: seq<byte>)
    requires |ext| == 4 && |upper| == 4
    requires forall k :: 0 <= k < 4 ==> upper[k] == ToUpper(ext[k])
    ensures UpperExt(ext) == upper
  {
  }

  /** A target that is not cut is the prefix, the padding and the upper-cased extension. */
  lemma TargetOfParts(prefix: seq<byte>, digits: int, i: nat, name: seq<byte>, pad: seq<byte>, upper: seq<byte>)
    requires Pad(i + 1, digits) == pad && UpperExt(GetFileExtension(name)) == upper
    requires |prefix| + |pad| + |upper| < NameBufferSize
    ensures TargetName(prefix, digits, i, name) == prefix + pad + upper
  {
  }

  /** The directory of the example batch: three images, a text file and a sub-directory. */
  const Entries: seq<seq<byte>> := [ZPng, AJpg, MGif, Readme, Sub]

  lemma PngIsImage()
    ensures IsImageFile(ZPng)
  {
    assert GetFileExtension(ZPng) == ZPng[1..];
    assert LowerAll(ZPng[1..]) == ExtList[2];
    IsImageFileIff(ZPng);
  }

  lemma JpgIsImage()
    ensures IsImageFile(AJpg)
  {
    assert GetFileExtension(AJpg) == AJpg[1..];
    assert LowerAll(AJpg[1..]) == ExtList[0];
    IsImageFileIff(AJpg);
  }

  lemma GifIsImage()
    ensures IsImageFile(MGif)
  {
    assert GetFileExtension(MGif) == MGif[1..];
    assert LowerAll(MGif[1..]) == ExtList[3];
    IsImageFileIff(MGif);
  }

  /** ".txt" is not in the allowlist. */
  lemma TextIsNotImage()
    ensures !IsImageFile(Readme)
  {
    var ext := Readme[6..];
    assert GetFileExtension(Readme) == ext;
    assert LowerAll(ext) == ext;
    forall j | 0 <= j < |ExtList|
      ensures ExtList[j] != ext
    {
      assert ExtList[j][1] != ext[1] || ExtList[j][2] != ext[2];
    }
    IsImageFileIff(Readme);
  }

  /** A name is tested by its text alone: "sub" has no '.', so it is not an image. */
  lemma SubIsNotImage()
    ensures !IsImageFile(Sub)
  {
    NoDotIsNoImage(Sub);
  }

  /** The first pass keeps the three images in directory order. */
  lemma ExampleImages()
    ensures Images(Entries) == [ZPng, AJpg, MGif]
  {
    PngIsImage();
    JpgIsImage();
    GifIsImage();
    TextIsNotImage();
    SubIsNotImage();
    ThreeOfFive(IsImageFile, ZPng, AJpg, MGif, Readme, Sub);
  }

  /** Filtering five elements of which the first three are accepted keeps those three. */
  lemma ThreeOfFive<T>(accept: T -> bool, x1: T, x2: T, x3: T, y1: T, y2: T)
    requires accept(x1) && accept(x2) && accept(x3) && !accept(y1) && !accept(y2)
    ensures Filter([x1, x2, x3, y1, y2], accept) == [x1, x2, x3]
  {
    FilterKeep([], accept, x1);
    FilterKeep([x1], accept, x2);
    FilterKeep([x1, x2], accept, x3);
    FilterDrop([x1, x2, x3], accept, y1);
    FilterDrop([x1, x2, x3, y1], accept, y2);
    assert [] + [x1] == [x1] && [x1] + [x2] == [x1, x2];
    assert [x1, x2] + [x3] == [x1, x2, x3];
    assert [x1, x2, x3] + [y1] == [x1, x2, x3, y1];
    assert [x1, x2, x3, y1] + [y2] == [x1, x2, x3, y1, y2];
  }

  /** "a.jpg" < "m.gif" < "z.png" under strcmp. */
  lemma ExampleOrder()
    ensures Sorted([AJpg, MGif, ZPng])
  {
    assert Strcmp(AJpg, MGif) < 0 && Strcmp(MGif, ZPng) < 0;
    AdjacentSortedIsSorted([AJpg, MGif, ZPng]);
  }

  /** With "IMG_" and 3 digits, rank 1 of "a.jpg" is "IMG_001.JPG". */
  lemma FirstTarget()
    ensures TargetName(Prefix, 3, 0, AJpg) == Img001
  {
    assert GetFileExtension(AJpg) == AJpg[1..];
    PadOfSmall(1, [48, 48, 49]);
    UpperOfExtension(AJpg[1..], [46, 74, 80, 71]);
    TargetOfParts(Prefix, 3, 0, AJpg, [48, 48, 49], [46, 74, 80, 71]);
  }

  lemma SecondTarget()
    ensures TargetName(Prefix, 3, 1, MGif) == Img002
  {
    assert GetFileExtension(MGif) == MGif[1..];
    PadOfSmall(2, [48, 48, 50]);
    UpperOfExtension(MGif[1..], [46, 71, 73, 70]);
    TargetOfParts(Prefix, 3, 1, MGif, [48, 48, 50], [46, 71, 73, 70]);
  }

  lemma ThirdTarget()
    ensures TargetName(Prefix, 3, 2, ZPng) == Img003
  {
    assert GetFileExtension(ZPng) == ZPng[1..];
    PadOfSmall(3, [48, 48, 51]);
    UpperOfExtension(ZPng[1..], [46, 80, 78, 71]);
    TargetOfParts(Prefix, 3, 2, ZPng, [48, 48, 51], [46, 80, 78, 71]);
  }

  /** The sorted order of the example is forced: only one sorted permutation exists. */
  lemma ExampleSources(sources: seq<seq<byte>>)
    requires Sorted(sources) && multiset(sources) == multiset([ZPng, AJpg, MGif])
    ensures sources == [AJpg, MGif, ZPng]
  {
    var sorted := [AJpg, MGif, ZPng];
    ExampleOrder();
    assert multiset([ZPng, AJpg, MGif]) == multiset(sorted);
    ExampleCStrings(sources);
    SortedIsUnique(sources, sorted);
  }

  lemma ExampleCStrings(sources: seq<seq<byte>>)
    requires multiset(sources) == multiset([ZPng, AJpg, MGif])
    ensures forall x :: x in sources ==> IsCString(x)
  {
    forall x | x in sources
      ensures IsCString(x)
    {
      assert x in multiset([ZPng, AJpg, MGif]);
    }
  }

  /**
   * The whole example: whatever the rename calls answer, the batch renames
   * a.jpg, m.gif and z.png, in that order, to IMG_001.JPG, IMG_002.GIF and
   * IMG_003.PNG, and leaves readme.txt and sub alone.
   */
  lemma ExampleBatch(rename: RenameOracle, log: seq<Attempt>)
    requires IsBatch(Prefix, 3, Entries, rename, log)
    ensures Sources(log) == [AJpg, MGif, ZPng]
    ensures log[0].target == Img001 && log[1].target == Img002 && log[2].target == Img003
  {
    ExampleImages();
    ExampleSources(Sources(log));
    assert log[0].source == AJpg && log[1].source == MGif && log[2].source == ZPng;
    BatchCall(Prefix, 3, Entries, rename, log, 0);
    BatchCall(Prefix, 3, Entries, rename, log, 1);
    BatchCall(Prefix, 3, Entries, rename, log, 2);
    FirstTarget();
    SecondTarget();
    ThirdTarget();
  }
}
