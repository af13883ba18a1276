# rename_images in Dafny

`rename_images prefix digits` renames the image and video files of the
current directory to `<prefix><rank><EXT>`. `<rank>` is the 1-based position
of the file in strcmp order, zero-padded to `digits` digits. `<EXT>` is the
file's own extension, upper-cased. This project models the whole program,
`rename_images.c`, and proves what it does:

- the extension allowlist and the image test (`is_image_file`, `get_file_extension`);
- the argument checks of `main` (argc, then `atoi` of the digit count in [1, 20]);
- the first pass, which collects the names of the images into a growable array. The array starts with 10 slots and doubles when it is full;
- the `qsort` with `cmpstr`, which is strcmp order on the names;
- the second pass. For each name it upper-cases at most 31 bytes of the extension into `ext_upper[32]` and composes `%s%0*d%s` into `new_name[256]`, cutting it to 255 bytes. It then calls `rename`, reports the outcome and goes on;
- the exit status.

Names are C strings, modelled as byte sequences (`seq<byte>`) without NUL.
`strcmp` and `strcasecmp` are modelled byte by byte, as in the C locale:
comparison stops at the first differing byte or at the NUL, and the result is
the difference of the two bytes.

The program's environment becomes parameters of `Renamer.Run`:

- the directory is the sequence of entry names `readdir` returns, or `None` when `opendir` fails;
- `rename` is an oracle `(call index, from, to) -> bool` that says whether each call succeeded;
- the lines the program prints are the returned log of `Attempt(source, target, renamed)`.

Modules:

| file | module | models |
|---|---|---|
| bytes.dfy | `Bytes` | bytes, C strings, `toupper`/`tolower`, `strcmp`, `strcasecmp` |
| extensions.dfy | `Extensions` | `EXT_LIST`, `strrchr`, `get_file_extension`, `is_image_file` |
| decimal.dfy | `Decimal` | `%0*d` of a positive number, `atoi` |
| collection.dfy | `Collection` | `image_files` / `image_count` / `array_size` as class `ImageList` |
| sorting.dfy | `Sorting` | `qsort(…, cmpstr)` as an in-place sort of the array prefix |
| renamer.dfy | `Renamer` | `main`: argument checks, both passes, the batch properties |
| scenarios.dfy | `Scenarios` | concrete cases: usage errors, byte order, the example directory |

## Model

| member | source | states |
|---|---|---|
| Bytes.Strcmp | rename_images.c:37-42 | strcmp: the byte difference at the first position where the names differ, reading a missing byte as NUL, or 0 when they agree up to a NUL; StrcmpLex shows this is byte-lexicographic order, and StrcmpZeroIff, StrcmpAntisymmetric, StrcmpTransitive and StrcmpReflexive show that it is a total order on C strings |
| Bytes.StrcmpLex | rename_images.c:37-42 | on C strings, strcmp is negative exactly when, after a common prefix of some length k, the first string ends or its byte k is smaller than the second's |
| Bytes.StrCaseCmp | rename_images.c:22 | strcasecmp: strcmp with every byte taken through tolower first; characterised by StrCaseCmpIsStrcmpOfLower and StrCaseCmpZeroIff |
| Bytes.StrcmpZeroIff | rename_images.c:37-42 | on C strings, strcmp is 0 exactly when the two names are equal |
| Bytes.StrcmpAntisymmetric | rename_images.c:37-42 | swapping the arguments of strcmp negates the result, so cmpstr is a consistent comparator |
| Bytes.StrcmpTransitive | rename_images.c:37-42 | strcmp order is transitive: a <= b and b <= c give a <= c |
| Bytes.StrcmpReflexive | rename_images.c:37-42 | every name compares equal to itself |
| Bytes.StrCaseCmpIsStrcmpOfLower | rename_images.c:22 | strcasecmp is strcmp of the two lower-cased strings |
| Bytes.StrCaseCmpZeroIff | rename_images.c:22 | on C strings, strcasecmp is 0 exactly when the lower-cased strings are equal |
| Bytes.ToUpper | rename_images.c:135 | toupper in the C locale: 'a'..'z' move to 'A'..'Z', every other byte is kept; applied byte by byte by UpperAll |
| Bytes.ToLower | rename_images.c:22 | tolower in the C locale, the case folding inside strcasecmp: 'A'..'Z' move to 'a'..'z', every other byte is kept; applied byte by byte by LowerAll |
| Bytes.UpperAll | rename_images.c:133-136 | upper-casing keeps the length and maps every byte through toupper |
| Bytes.LowerAll | rename_images.c:22 | lower-casing keeps the length and maps every byte through tolower |
| Extensions.LastIndexOf | rename_images.c:31-35 | strrchr: -1 exactly when the byte is absent; otherwise the index holds the byte and no later index does |
| Extensions.GetFileExtension | rename_images.c:31-35 | the result is the empty string when the name has no '.'; otherwise it is the suffix of the name that starts with its last '.' and holds no other '.' |
| Extensions.ExtList | rename_images.c:10 | EXT_LIST: the ten extensions .jpg, .jpeg, .png, .gif, .bmp, .heic, .dng, .tif, .mov and .mp4, in that order, as bytes; their shape is stated by ExtListForm, ExtListLower and AllowlistShape |
| Extensions.ExtCount | rename_images.c:11 | EXT_COUNT is 10, the length of ExtList (ExtListForm) |
| Extensions.AllowlistShape | rename_images.c:10-11 | every EXT_LIST entry is a lower-case C string of 4 or 5 bytes whose only '.' is the first byte |
| Extensions.MatchesFrom | rename_images.c:20-27 | the loop over EXT_LIST from index i: true as soon as an entry matches ignoring case, false after the last entry; characterised by MatchesFromIff |
| Extensions.IsImageFile | rename_images.c:14-28 | is_image_file: false without a '.', otherwise the loop over EXT_LIST on the suffix from the last '.'; characterised by IsImageFileIff and NoDotIsNoImage |
| Extensions.MatchesFromIff | rename_images.c:20-27 | the early-return loop over EXT_LIST from index i answers yes exactly when some entry from i on matches ignoring case |
| Extensions.IsImageFileIff | rename_images.c:14-28 | a C string is an image exactly when it has a '.' and its lower-cased extension is an EXT_LIST entry |
| Extensions.NoDotIsNoImage | rename_images.c:16-18 | a name without '.' is not an image |
| Decimal.Digits | rename_images.c:140 | the `%d` numeral of a non-negative n, most significant digit first; characterised by DigitsShape, ValueOfDigits and DigitsLength |
| Decimal.Zeros | rename_images.c:140 | the zero padding has the requested length, or none for a non-positive count, and is all '0' |
| Decimal.DigitsShape | rename_images.c:140 | the numeral of n is a nonempty digit string without a superfluous leading '0' |
| Decimal.ValueOfDigits | rename_images.c:140 | reading the numeral of n back gives n |
| Decimal.ValueIgnoresZeros | rename_images.c:140 | leading '0' bytes do not change the value of a numeral |
| Decimal.DigitsLength | rename_images.c:140 | the numeral of n has at most k digits exactly when k >= 1 and n < 10^k |
| Decimal.Pad | rename_images.c:140 | `%0*d` for a width >= 0 (main passes only 1..20): the numeral of n with '0' bytes in front up to the width; characterised by PadRoundTrip and PadWidth |
| Decimal.PadRoundTrip | rename_images.c:140 | for a width >= 0, `%0*d` gives max(width, length of the numeral) digits, ending in the numeral and reading back as n |
| Decimal.PadWidth | rename_images.c:140 | the padded rank has exactly `digits` digits when it is below 10^digits, and more otherwise |
| Decimal.IsSpace | rename_images.c:53 | the white space atoi skips in the C locale: ' ', '\t', '\n', '\v', '\f' and '\r'; used by SkipSpaces |
| Decimal.LeadingDigits | rename_images.c:53 | the longest digit prefix: all digits, a prefix of the input, followed by a non-digit or the end |
| Decimal.SkipSpaces | rename_images.c:53 | the result is a suffix of the input, every byte dropped before it is white space, and it does not start with white space |
| Decimal.LeadingDigitsOfNumeral | rename_images.c:53 | a digit string followed by a non-digit is read back whole |
| Decimal.Atoi | rename_images.c:53 | atoi: skip white space, take an optional sign, then the value of the leading digits (0 when there are none), negated for '-'; characterised by AtoiOfNumeral and AtoiOfPad |
| Decimal.AtoiOfNumeral | rename_images.c:53 | atoi of a nonempty digit string is its value |
| Decimal.AtoiOfPad | rename_images.c:53 | atoi reads a zero-padded rank back as the rank |
| Collection.ImageList.Valid | rename_images.c:62-91 | the array has array_size slots, image_count <= array_size, array_size is 10·2^k, and beyond 10 it is less than twice image_count; established by the constructor and kept by Push |
| Collection.ImageList.constructor | rename_images.c:61-74 | an empty list with array_size 10 and a fresh array of that size |
| Collection.ImageList.Push | rename_images.c:88-119 | appends the name and increments image_count. When the array is full it first doubles array_size into a fresh array. Otherwise the array and its size stay the same. The capacity invariant (10·2^k, never below the count, doubled only when full) is kept |
| Sorting.AdjacentSortedIsSorted | rename_images.c:37-42 | neighbours in strcmp order put the whole sequence in strcmp order |
| Sorting.SortNames | rename_images.c:125 | a[..n] ends up in strcmp order as a permutation of what was there; a[n..] is unchanged |
| Sorting.InsertNext | rename_images.c:125 | one insertion step extends the sorted prefix by one, permutes the array and leaves the rest alone |
| Sorting.SortedIsUnique | rename_images.c:125 | two sorted permutations of the same C strings are equal, so the order does not depend on how qsort reaches it |
| Renamer.UpperExt | rename_images.c:130-137 | ext_upper holds the first min(length, 31) bytes of the extension, each upper-cased |
| Renamer.UpperExtension | rename_images.c:130-137 | the byte loop into the 32-byte buffer yields exactly UpperExt of the extension |
| Renamer.NewName | rename_images.c:139-140 | snprintf into new_name[256]: prefix, padded rank and extension, cut to 255 bytes; characterised by NewNameRoundTrip and LongPrefixName |
| Renamer.TargetName | rename_images.c:130-140 | the new name of the name at position i: rank i + 1 and the upper-cased extension of that name; characterised by TargetOfImage |
| Renamer.NewNameRoundTrip | rename_images.c:139-140 | when the composed name fits in 255 bytes, it starts with the prefix, ends with the extension, and the digits after the prefix read back as the rank |
| Renamer.LongPrefixName | rename_images.c:139-140 | with a prefix of 255 bytes or more, snprintf leaves only the first 255 bytes of the prefix |
| Renamer.ImageExtension | rename_images.c:130-137 | an image's extension has 4 or 5 bytes and starts with '.'. It is never cut at 31 bytes, and upper-cased it is the upper-case form of an EXT_LIST entry |
| Renamer.Images | rename_images.c:83-121 | the entries is_image_file accepts, in readdir order; characterised by ImagesCount and ImagesMembers, and computed by Collect |
| Renamer.FilterCount | rename_images.c:83-121 | filtering keeps every accepted element as often as it occurs and drops the rest |
| Renamer.ImagesCount | rename_images.c:83-121 | the collected names are the image entries, each as often as readdir returned it |
| Renamer.ImagesMembers | rename_images.c:83-121 | a name is collected exactly when it is an entry and an image |
| Renamer.Collect | rename_images.c:61-121 | the first pass returns a valid, fresh list whose contents are the image entries in readdir order |
| Renamer.Attempts | rename_images.c:128-151 | one call per sorted name, the i-th with the target of rank i + 1 and the oracle's answer; characterised by AttemptsSnoc, SourcesOfAttempts and BatchCall, and performed by RenameAll |
| Renamer.ArgsValid | rename_images.c:46-58 | argc is 3 and atoi of argv[2] is in [1, 20]; decides Run's exit status, with the cases in WrongArgumentCount, ThreeDigitsAccepted, ZeroDigitsRejected, TwentyOneDigitsRejected and WordDigitsRejected |
| Renamer.AttemptsIndex | rename_images.c:128-151 | there is one call per sorted name, and call k is the call for name k with the target of rank k + 1 |
| Renamer.AttemptsSnoc | rename_images.c:128-151 | the calls for one more name are the earlier calls followed by the call for that name |
| Renamer.RenameAll | rename_images.c:128-151 | the second pass performs exactly Attempts for the sorted list; a failed call does not stop it |
| Renamer.Run | rename_images.c:44-154 | exit 1 with no renames on a wrong argc, on digits outside [1, 20] (both before the directory is opened) or when opendir fails. Otherwise exit 0 after a batch over the sorted images |
| Renamer.SourcesOfAttempts | rename_images.c:128-151 | the sources of the calls are the sorted names, in order |
| Renamer.BatchCoversImages | rename_images.c:83-128 | a batch makes one call per collected image, and rename is called on a name exactly when it is an entry and an image (whether that call succeeds is the oracle's answer) |
| Renamer.BatchCall | rename_images.c:128-149 | call i targets the composed name of rank i + 1, and its outcome is the oracle's answer for that call. The same sources with every answer flipped also form a batch |
| Renamer.BatchIndependentOfAnswers | rename_images.c:128-149 | for C-string entries, two batches over the same directory with different rename oracles have the same length and call rename on the same names with the same targets, in the same order |
| Renamer.BatchIsDetermined | rename_images.c:83-151 | directories of C-string names that list the same names in any order give the same batch |
| Renamer.TargetOfImage | rename_images.c:130-140 | for an image C string at position i with 1 <= digits, i + 1 < 10^digits and prefix length + digits + 5 < 256 (room for the longest extension), the padded rank has exactly `digits` digits and the target is the prefix, that rank and the upper-cased extension, uncut |
| Renamer.BatchTarget | rename_images.c:128-140 | under the same bounds (for C-string entries, fewer than 10^digits calls), every name rename is called on is an image C string, and its target is prefix + padded rank + upper-cased extension |
| Renamer.BatchTargetsDistinct | rename_images.c:128-142 | for C-string entries, 1 <= digits, prefix length + digits + 5 < 256 (room for the longest, 5-byte, extension) and fewer than 10^digits images, target i is the prefix followed by `digits` digits that read back as i + 1. No two calls share a target |
| Renamer.LongPrefixTargetsCollide | rename_images.c:139-142 | with a prefix of 255 bytes or more, every call of a batch gets the same target |
| Scenarios.WrongArgumentCount | rename_images.c:46-50 | one or three arguments after the program name are rejected |
| Scenarios.ThreeDigitsAccepted | rename_images.c:53-58 | "3" is an accepted digit count |
| Scenarios.ZeroDigitsRejected | rename_images.c:53-58 | "0" is rejected |
| Scenarios.TwentyOneDigitsRejected | rename_images.c:53-58 | "21" is rejected |
| Scenarios.WordDigitsRejected | rename_images.c:53-58 | a word reads as 0 and is rejected |
| Scenarios.LeadingZerosInCount | rename_images.c:53 | "007" reads as 7 |
| Scenarios.OrdinalOrder | rename_images.c:37-42 | "A.jpg" sorts before "a.jpg" before "b.jpg", and "img10.jpg" before "img2.jpg" |
| Scenarios.MixedCaseIsImage | rename_images.c:14-28 | "photo.JpG" is an image |
| Scenarios.MixedCaseTarget | rename_images.c:130-140 | at rank 5 with prefix "P" and 3 digits, "photo.JpG" becomes "P005.JPG" |
| Scenarios.TextIsNotImage | rename_images.c:14-28 | "readme.txt" is not an image |
| Scenarios.SubIsNotImage | rename_images.c:14-18 | "sub" is not an image |
| Scenarios.ExampleImages | rename_images.c:83-121 | the directory z.png, a.jpg, m.gif, readme.txt, sub yields z.png, a.jpg, m.gif |
| Scenarios.ExampleOrder | rename_images.c:125 | a.jpg, m.gif, z.png is in strcmp order |
| Scenarios.ExampleSources | rename_images.c:125 | the only sorted order of the three images is a.jpg, m.gif, z.png |
| Scenarios.FirstTarget | rename_images.c:130-140 | a.jpg at rank 1 with "IMG_" and 3 digits becomes IMG_001.JPG |
| Scenarios.SecondTarget | rename_images.c:130-140 | m.gif at rank 2 becomes IMG_002.GIF |
| Scenarios.ThirdTarget | rename_images.c:130-140 | z.png at rank 3 becomes IMG_003.PNG |
| Scenarios.ExampleBatch | rename_images.c:44-154 | for the example directory with "IMG_" and 3, the batch renames a.jpg, m.gif and z.png, in that order, to IMG_001.JPG, IMG_002.GIF and IMG_003.PNG, whatever the rename calls answer |

## Left out

- Directory kinds: main tests only the entry name (rename_images.c:85), and the model's entries are names only. So a subdirectory whose name ends in an allowlisted extension is collected and renamed like a file.
- `opendir`, `readdir` and `closedir`: the directory is given as the sequence of entry names (`None` when `opendir` fails); the order readdir returns is a parameter.
- `rename`, `errno` and `strerror`: a rename call is an oracle that says whether it succeeded. What happens on disk is not modelled, and so neither is a target that overwrites another file.
- `printf` and `perror`: the messages are not modelled; the log of attempts carries the information they print.
- Allocation failures of `malloc`, `realloc` and `strdup` (rename_images.c:75-80, 92-102, 108-118), and the `free` calls: Dafny allocation does not fail and memory is not freed explicitly.
- `qsort` internals: `Sorting.SortNames` is an insertion sort with the same result. Its result is unique, as `Sorting.SortedIsUnique` shows.
- Decimal.Pad: a negative `*` width, which C reads as the `-` flag (left-justify with spaces), is not modelled; Pad treats it as width 0. main never passes one, since it rejects digits outside [1, 20] first, so the Pad and PadRoundTrip rows hold for widths >= 0 only.
- Decimal.Atoi: does not model `int` overflow of atoi for numerals beyond 2^31 - 1; such a count is outside [1, 20] in the model.
- `int` overflow of `image_count`, `array_size` and the rank `i + 1`: integers are unbounded.
- Locales: `toupper`, `tolower` and `strcasecmp` are those of the C locale (ASCII letters only).
- Names with a NUL byte cannot come from readdir; lemmas that need it require `IsCString`. The `ext[j]` test of the upper-casing loop (rename_images.c:133) is therefore the same as the end of the extension.
