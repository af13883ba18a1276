/**
 * The extension allowlist, extension extraction and the image test
 * (EXT_LIST, get_file_extension and is_image_file in rename_images.c).
 */
module Extensions {
  import opened Bytes

  /** EXT_LIST: the recognised suffixes, all lower case and dot-inclusive, as bytes. */
  const ExtList: seq<seq<byte>> := [
    [46, 106, 112, 103],  // ".jpg"
    [46, 106, 112, 101, 103],  // ".jpeg"
    [46, 112, 110, 103],  // ".png"
    [46, 103, 105, 102],  // ".gif"
    [46, 98, 109, 112],  // ".bmp"
    [46, 104, 101, 105, 99],  // ".heic"
    [46, 100, 110, 103],  // ".dng"
    [46, 116, 105, 102],  // ".tif"
    [46, 109, 111, 118],  // ".mov"
    [46, 109, 112, 52]  // ".mp4"
  ]

  /** EXT_COUNT */
  const ExtCount: nat := 10

  /** strrchr as an index: the position of the last c in s, or -1 when there is none. */
  function LastIndexOf(s: seq<byte>, c: byte): (r: int)
    ensures -1 <= r < |s|
    ensures r == -1 <==> c !in s
    ensures r >= 0 ==> s[r] == c && c !in s[r + 1..]
  {
    if |s| == 0 then -1
    else if s[|s| - 1] == c then |s| - 1
    else LastIndexOf(s[..|s| - 1], c)
  }

  /**
   * get_file_extension: the suffix that starts at the last '.', or the empty
   * string when the name has no '.'.
   */
  function GetFileExtension(name: seq<byte>): (ext: seq<byte>)
    ensures DOT !in name ==> ext == []
    ensures DOT in name ==> |ext| >= 1 && ext[0] == DOT && DOT !in ext[1..]
    ensures |ext| <= |name| && name[|name| - |ext|..] == ext
  {
    var dot := LastIndexOf(name, DOT);
    if dot < 0 then [] else name[dot..]
  }

  /** The loop of is_image_file from index i on: some entry from i compares equal ignoring case. */
  predicate MatchesFrom(dot: seq<byte>, i: nat)
    requires |ExtList| == ExtCount
    decreases ExtCount - i
  {
    i < ExtCount && (StrCaseCmp(dot, ExtList[i]) == 0 || MatchesFrom(dot, i + 1))
  }

  /** is_image_file: the name has a '.' and the suffix from the last '.' is in EXT_LIST, ignoring case. */
  predicate IsImageFile(name: seq<byte>) {
    var dot := LastIndexOf(name, DOT);
    if dot < 0 then false else MatchesFrom(name[dot..], 0)
  }

  /** e is one of the EXT_LIST entries. */
  predicate Allowlisted(e: seq<byte>) {
    exists j :: 0 <= j < |ExtList| && ExtList[j] == e
  }

  /** Every allowlisted extension is a lower-case C string of 4 or 5 bytes starting with its only '.'. */
  lemma AllowlistShape(e: seq<byte>)
    requires Allowlisted(e)
    ensures IsCString(e) && LowerAll(e) == e && 4 <= |e| <= 5 && e[0] == DOT && DOT !in e[1..]
  {
    ExtListForm();
    ExtListLower();
  }

  /** EXT_LIST has EXT_COUNT entries, each a C string of 4 or 5 bytes with a '.' in front only. */
  lemma ExtListForm()
    ensures |ExtList| == ExtCount
    ensures forall j :: 0 <= j < |ExtList| ==>
      IsCString(ExtList[j]) && 4 <= |ExtList[j]| <= 5 && ExtList[j][0] == DOT && DOT !in ExtList[j][1..]
  {
  }

  /** The EXT_LIST entries are written in lower case. */
  lemma ExtListLower()
    ensures forall j :: 0 <= j < |ExtList| ==> LowerAll(ExtList[j]) == ExtList[j]
  {
  }

  /** The early-return loop over EXT_LIST is an existential over its remaining entries. */
  lemma {:induction false} MatchesFromIff(dot: seq<byte>, i: nat)
    requires |ExtList| == ExtCount
    ensures MatchesFrom(dot, i) <==> exists j :: i <= j < ExtCount && StrCaseCmp(dot, ExtList[j]) == 0
    decreases ExtCount - i
  {
    if i < ExtCount {
      MatchesFromIff(dot, i + 1);
    }
  }

  /**
   * A C string is an image exactly when it has a '.' and its extension,
   * lower-cased, is one of the EXT_LIST entries.
   */
  lemma IsImageFileIff(name: seq<byte>)
    requires IsCString(name)
    ensures IsImageFile(name) <==> DOT in name && Allowlisted(LowerAll(GetFileExtension(name)))
  {
    var ext := GetFileExtension(name);
    if DOT in name {
      ExtensionIsCString(name);
      MatchesFromIff(ext, 0);
      if IsImageFile(name) {
        var j :| 0 <= j < ExtCount && StrCaseCmp(ext, ExtList[j]) == 0;
        MatchIsAllowlisted(ext, j);
      }
      if Allowlisted(LowerAll(ext)) {
        AllowlistedIsMatch(ext);
      }
    }
  }

  lemma ExtensionIsCString(name: seq<byte>)
    requires IsCString(name)
    ensures IsCString(GetFileExtension(name))
  {
    var ext := GetFileExtension(name);
    assert forall i :: 0 <= i < |ext| ==> ext[i] == name[|name| - |ext| + i];
  }

  lemma MatchIsAllowlisted(ext: seq<byte>, j: nat)
    requires IsCString(ext) && j < |ExtList| && StrCaseCmp(ext, ExtList[j]) == 0
    ensures Allowlisted(LowerAll(ext))
  {
    AllowlistShape(ExtList[j]);
    StrCaseCmpZeroIff(ext, ExtList[j]);
  }

  lemma AllowlistedIsMatch(ext: seq<byte>)
    requires IsCString(ext) && Allowlisted(LowerAll(ext))
    ensures exists j :: 0 <= j < ExtCount && StrCaseCmp(ext, ExtList[j]) == 0
  {
    var j :| 0 <= j < |ExtList| && ExtList[j] == LowerAll(ext);
    AllowlistShape(ExtList[j]);
    StrCaseCmpZeroIff(ext, ExtList[j]);
  }

  /** A name without a '.' is never an image. */
  lemma NoDotIsNoImage(name: seq<byte>)
    requires DOT !in name
    ensures !IsImageFile(name)
  {
  }
}
