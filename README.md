# toolshed: GPS coordinates from EXIF text and FASTA splitting, in Dafny

This project models the string-and-arithmetic core of three small Python
scripts and proves properties of that model.

- `googlemapcoord_from_jpeg_exif.py` turns EXIF GPS tag text into decimal
  degrees. Its pieces are:
  - `convert_fraction_string_to_float`: a plain number or `"num/den"`;
  - `convert_dms_string_to_decimal`: a `"[d, m, s]"` text plus a hemisphere
    reference;
  - `get_lat_lon_from_jpeg`: chooses the latitude and longitude tags, with
    defaults `N`/`E` for missing references.
- `split_fasta.py` and `split_fasta_keepheaders.py` split a multi-record
  FASTA file into one file per record. Each file is named after the
  record's accession, which is the leftmost match of `[A-Z0-9_]+\.\d+` in
  the record id. Without a match, the name is the id's first whitespace
  token with `|`→`_`, `>` removed and `:`→`_`. The first script writes only
  the sequence; the second writes the whole record.

Modules, in dependency order:

| file | module | what it holds |
|---|---|---|
| `wrappers.dfy` | `Wrappers` | `Option` |
| `py_text.dfy` | `PyText` | Python `str` operations: `strip`, `strip(chars)`, `split(sep)` with `join`, `split()`, `upper`, `replace` |
| `py_float.dfy` | `PyFloat` | `float()` on a restricted decimal grammar, with values over `real` |
| `py_path.dfy` | `PyPath` | `os.path.join` and `os.path.basename` for POSIX paths |
| `exif_coord.dfy` | `ExifCoord` | the fraction and DMS conversions and the tag selection |
| `fasta_naming.dfy` | `FastaNaming` | the accession search, the fallback name and the output path |
| `fasta_split.dfy` | `FastaSplit` | the record loop shared by both split scripts, over a `FileStore` class |
| `split_fasta.dfy` | `SplitFasta` | `split_and_process_fasta` writing sequences only |
| `split_fasta_keepheaders.dfy` | `SplitFastaKeepHeaders` | `split_and_process_fasta` writing full records |

Modelling choices:

- Every exception that a conversion catches becomes `None`. The model's
  functions are total.
- The record loop is a `while` loop in `FastaSplit.ProcessRecords`. It
  overwrites entries of a `FileStore` object, one per record. Its contract
  ties the final files to `ApplyWrites(old files, Plan(...))`. The lemmas
  beside it give the consequences:
  - last writer wins;
  - untouched files stay as they were;
  - no more files than records.
- A record whose name cannot be derived ends the run with
  `Aborted(index)`. In the scripts this is an `IndexError`, which the
  generic handler catches.
- The full-record rendering of `SeqIO.write` is the function parameter
  `render`.

Points where the code behaves differently from what a reader might
expect; the model follows the code:

- A fraction is split at every `/`, not only the first. Two or more
  slashes make the tuple unpack fail, so the result is `None`
  (`ExifCoord.ConvertFractionManySlashes`).
- A degrees or minutes component that is not a number also gives `None`.
  The catch-all handler at lines 63-65 catches that error too
  (`ExifCoord.ConvertDmsFractionalDegrees`, `ExifCoord.ConvertDmsText`).
- Brackets are stripped before whitespace. A DMS text with whitespace
  before its `[` keeps the bracket in the degrees component, and the
  conversion fails (`ExifCoord.ConvertDmsLeadingSpace`).
- A latitude or longitude tag whose value is empty counts as missing, like
  an absent one.

## Model

| member | source | states |
|---|---|---|
| ExifCoord.ConvertFractionOfParts | googlemapcoord_from_jpeg_exif.py:24-34 | `"n/d"` with one slash converts exactly when both parts parse as numbers and the denominator is not zero, and the value is their quotient |
| ExifCoord.ConvertFractionManySlashes | googlemapcoord_from_jpeg_exif.py:24-34 | a text with two or more `/` converts to `None` (the unpack fails) |
| ExifCoord.ConvertFractionPlain | googlemapcoord_from_jpeg_exif.py:35-39 | a text without `/` converts to what `float()` makes of it, `None` when that fails |
| ExifCoord.ConvertFractionDigits | googlemapcoord_from_jpeg_exif.py:24-31 | a fraction of two digit strings is the quotient of their values, `None` for a zero denominator |
| ExifCoord.ConvertFractionRatio | googlemapcoord_from_jpeg_exif.py:24-31 | the text `"a/b"` of two naturals reads back as `a / b`, or `None` when `b` is 0 |
| ExifCoord.ConvertFractionExampleSeconds | googlemapcoord_from_jpeg_exif.py:24-31 | `"463/10"` converts to 46.3 |
| ExifCoord.ConvertFractionExampleZero | googlemapcoord_from_jpeg_exif.py:29-34 | `"0/0"` converts to `None` |
| ExifCoord.ConvertFractionExamplePlain | googlemapcoord_from_jpeg_exif.py:35-36 | `"46.3"` converts to 46.3 |
| ExifCoord.NegatesRefLetters | googlemapcoord_from_jpeg_exif.py:59-60 | a reference negates exactly when it is one of `S`, `s`, U+017F, `W`, `w`; `"SOUTH"` and every other text do not |
| ExifCoord.ConvertDmsSign | googlemapcoord_from_jpeg_exif.py:57-62 | for the same DMS text, a negating reference gives exactly the negation of the `N` result, and any other reference gives the `N` result |
| ExifCoord.ConvertDmsUnsigned | googlemapcoord_from_jpeg_exif.py:57-62 | the conversion is the reference-free value, negated when the reference negates |
| ExifCoord.ConvertDmsCommas | googlemapcoord_from_jpeg_exif.py:44-48 | the number of components is the number of commas plus one, so a text without exactly two commas converts to `None` |
| ExifCoord.DmsComponentsCount | googlemapcoord_from_jpeg_exif.py:44-45 | stripping brackets and whitespace keeps every comma: one more component than commas |
| ExifCoord.ConvertDmsFractionalDegrees | googlemapcoord_from_jpeg_exif.py:50-51 | a `/` in the degrees or minutes component makes the conversion `None`: only the seconds may be a fraction |
| ExifCoord.DmsComponentsOfText | googlemapcoord_from_jpeg_exif.py:44-45 | the text `"[d, m, s]"` is read back into the components `d`, `m`, `s` |
| ExifCoord.DmsComponentsOfPlainText | googlemapcoord_from_jpeg_exif.py:44-45 | the text `"d, m, s"` without brackets is read back into the components `d`, `m`, `s` |
| ExifCoord.ConvertDmsOfComponents | googlemapcoord_from_jpeg_exif.py:47-62 | any text whose components are `d`, `m`, `s` converts to `d + m/60 + s/3600` with the reference's sign when all three convert, else `None` |
| ExifCoord.ConvertDmsText | googlemapcoord_from_jpeg_exif.py:42-65 | `"[d, m, s]"` converts to `d + m/60 + s/3600` with the sign of the reference when all three parse, and to `None` when any does not |
| ExifCoord.ConvertDmsPlainText | googlemapcoord_from_jpeg_exif.py:42-65 | `"d, m, s"` converts to `d + m/60 + s/3600` with the sign of the reference when all three parse, and to `None` when any does not |
| ExifCoord.ConvertDmsRoundTrip | googlemapcoord_from_jpeg_exif.py:42-62 | the tag text of naturals `d`, `m` and seconds `a/b` converts to `d + m/60 + (a/b)/3600` with the reference's sign, or `None` when `b` is 0 |
| ExifCoord.ConvertDmsLeadingSpace | googlemapcoord_from_jpeg_exif.py:44-51 | whitespace before `[` leaves the bracket in the degrees component and the conversion is `None` |
| ExifCoord.ConvertDmsExampleSouth | googlemapcoord_from_jpeg_exif.py:42-62 | `"[40, 26, 463/10]"` with `S` converts to `-(40 + 26/60 + 46.3/3600)` |
| ExifCoord.ConvertDmsExampleNorth | googlemapcoord_from_jpeg_exif.py:42-62 | `"[40, 26, 46.3]"` with `N` converts to `40 + 26/60 + 46.3/3600` |
| ExifCoord.ConvertDmsExamplePlainSouth | googlemapcoord_from_jpeg_exif.py:42-62 | `"40, 26, 46.3"` with `S` converts to `-(40 + 26/60 + 46.3/3600)` |
| ExifCoord.ConvertDmsExampleTwoComponents | googlemapcoord_from_jpeg_exif.py:44-48 | `"10, 20"` converts to `None` |
| ExifCoord.LatLonMissing | googlemapcoord_from_jpeg_exif.py:70-83 | without tags, or with the latitude or the longitude absent or empty, the pair is `(None, None)` |
| ExifCoord.LatLonDefaults | googlemapcoord_from_jpeg_exif.py:73-81 | without reference tags both coordinates are the unsigned DMS values (defaults `N` and `E`) |
| ExifCoord.LatLonSouthWest | googlemapcoord_from_jpeg_exif.py:73-81 | with references `S` and `W` both coordinates are negated |
| ExifCoord.LatLonExplicitDefaults | googlemapcoord_from_jpeg_exif.py:75-76 | explicit `N` and `E` references give the same pair as missing ones |
| PyFloat.ParseFloatAlphabet | googlemapcoord_from_jpeg_exif.py:27-28 | text that `float()` accepts uses only digits, `.`, signs and the whitespace `float()` strips (`str.isspace()` without U+001C-U+001F) |
| PyFloat.ParseFloatRejectsOthers | googlemapcoord_from_jpeg_exif.py:27-28 | a text with any other character is rejected |
| PyFloat.ParseFloatRejectsSeparator | googlemapcoord_from_jpeg_exif.py:27-28 | `"5\x1c"` is rejected: `float()` does not strip U+001C although `strip()` does |
| PyFloat.ParseFloatRejectsSlash | googlemapcoord_from_jpeg_exif.py:50-51 | a text with `/` is rejected |
| PyFloat.ParseFloatDigits | googlemapcoord_from_jpeg_exif.py:36 | a digit string parses to its decimal value |
| PyFloat.ParseFloatNegDigits | googlemapcoord_from_jpeg_exif.py:36 | `-` followed by a digit string parses to the negated value |
| PyFloat.ParseFloatDecimal | googlemapcoord_from_jpeg_exif.py:36 | `w.f` parses to the value of `w` plus the fraction `0.f` |
| PyFloat.ParseFloatNatStr | googlemapcoord_from_jpeg_exif.py:36 | the decimal text of a natural parses back to it |
| PyFloat.ParseFloatNegNatStr | googlemapcoord_from_jpeg_exif.py:36 | the text `-n` parses back to `-n` |
| PyFloat.NatStrDigits | googlemapcoord_from_jpeg_exif.py:36 | the decimal text of a natural is a non-empty digit string with that value |
| PyFloat.ParseFloatExampleDecimal | googlemapcoord_from_jpeg_exif.py:36 | `"46.3"` parses to 46.3 |
| PyFloat.ParseFloatExampleNegativeZero | googlemapcoord_from_jpeg_exif.py:36 | `"-0"` parses to 0 |
| PyText.StripCharsShape | googlemapcoord_from_jpeg_exif.py:44 | `strip(chars)` removes only characters of the set, from both ends |
| PyText.StripCharsExact | googlemapcoord_from_jpeg_exif.py:44-45 | characters of the set around a core that starts and ends outside it are exactly what is removed |
| PyText.StripCharsIdempotent | googlemapcoord_from_jpeg_exif.py:44-45 | stripping twice removes nothing more |
| PyText.StripCharsCount | googlemapcoord_from_jpeg_exif.py:44 | stripping keeps every character outside the set |
| PyText.JoinSplit | googlemapcoord_from_jpeg_exif.py:26 | joining the pieces of `split(c)` with `c` gives back the text |
| PyText.SplitJoin | googlemapcoord_from_jpeg_exif.py:45 | splitting a join of separator-free pieces gives back the pieces |
| PyText.SplitPieces | googlemapcoord_from_jpeg_exif.py:45 | no piece of `split(c)` contains `c` |
| PyText.SplitCount | googlemapcoord_from_jpeg_exif.py:26 | `split(c)` has one piece more than there are `c` |
| PyText.Tokens | split_fasta.py:30 | `split()` pieces are non-empty and hold no whitespace |
| PyText.FirstToken | split_fasta.py:30 | `split()` is empty exactly for all-whitespace text; otherwise its first piece follows the leading whitespace and runs to whitespace or the end |
| PyText.Upper | googlemapcoord_from_jpeg_exif.py:59 | `upper()` keeps the length and maps each character |
| PyText.ReplaceAbsent | split_fasta.py:30 | after `replace(c, r)` no `c` remains unless `r` holds one, and no new character appears |
| PyText.ReplaceByChar | split_fasta.py:30 | replacing by one character keeps the length and changes exactly the positions of `c` |
| PyPath.BasenameOfJoin | split_fasta.py:33 | a name without `/` is the basename of the joined path |
| PyPath.PathJoinInjective | split_fasta.py:33 | relative names joined onto one directory give different paths for different names |
| PyPath.PathJoinPrefix | split_fasta.py:33 | a relative name's path starts with the directory |
| PyPath.PathJoinAbsolute | split_fasta.py:33 | an absolute name discards the directory |
| FastaNaming.SearchFrom | split_fasta.py:25 | the scan returns the first start with a match, and no earlier start has one |
| FastaNaming.MatchEndSound | split_fasta.py:25 | a match found matches `[A-Z0-9_]+\.\d+` and is not followed by a digit |
| FastaNaming.MatchEndComplete | split_fasta.py:25 | every pattern match starting at a position is found there, and the found one is at least as long |
| FastaNaming.SearchAccessionSpec | split_fasta.py:25-27 | the name is the leftmost match and the longest at its start, not preceded by a class character nor followed by a digit; there is none exactly when no substring matches |
| FastaNaming.PatternShape | split_fasta.py:25-27 | a matched name has exactly one `.`, starts with a class character, ends with a digit, and holds no `/` and no whitespace |
| FastaNaming.AccessionNameWhole | split_fasta.py:25-27 | an id that is itself an accession is its own name |
| FastaNaming.CleanTokenEach | split_fasta.py:30 | the three replacements clean each character alone: `|` and `:` become `_`, `>` is dropped, all else is kept |
| FastaNaming.CleanTokenChars | split_fasta.py:30 | a cleaned token contains none of `|`, `>`, `:` |
| FastaNaming.CleanTokenUnchanged | split_fasta.py:30 | a token without those characters is used unchanged |
| FastaNaming.AccessionNameFails | split_fasta.py:25-30 | naming fails (`split()[0]` raises) exactly for an id made only of whitespace |
| FastaNaming.AccessionNameShape | split_fasta.py:25-30 | a searched name has the pattern's shape; a fallback name is the cleaned first token and contains none of `|`, `>`, `:` |
| FastaNaming.AccessionNameExampleBracket | split_fasta.py:28-30 | the id `">"` has no accession and gets the empty name |
| FastaNaming.OutputFilenameOfMatch | split_fasta.py:33 | for a matched accession the output path has basename `<accession>.fasta` and starts with the directory |
| FastaNaming.OutputFilenameSame | split_fasta.py:33 | ids whose names do not start with `/` get the same path exactly when they get the same name |
| FastaSplit.ProcessedCount | split_fasta.py:20-45 | the count is the number of records before the first that cannot be named; all before it can be, and it cannot |
| FastaSplit.ProcessedFrom | split_fasta.py:23-39 | the first index at or after `i` whose record cannot be named, or the end |
| FastaSplit.FileStore.WriteText | split_fasta.py:36-37 | a write in mode `"w"` creates or replaces exactly one file |
| FastaSplit.ProcessRecords | split_fasta.py:20-45 | the loop processes `ProcessedCount` records, ends `Completed` or `Aborted` at the first unnamed record, and leaves the files of one overwrite per processed record, in order |
| FastaSplit.ApplyWritesAt | split_fasta.py:36 | after overwrites a path holds the text of its last write, or its old content if nothing wrote it; the paths are the old ones and the written ones |
| FastaSplit.LastWriteToAt | split_fasta.py:36 | a write that no later write to its path follows is the last write there |
| FastaSplit.LastWriteToIsLast | split_fasta.py:36 | the last write to a path is a write that no later one to that path follows |
| FastaSplit.WrittenPathsBound | split_fasta.py:36-39 | there are no more written paths than writes |
| FastaSplit.RunWrites | split_fasta.py:33-39 | one write per processed record; the written paths are the processed records' output paths; at most `processed_count` files |
| FastaSplit.RunPathsIgnoreContent | split_fasta.py:33-37 | which files are written does not depend on what is written |
| FastaSplit.LastRecordIsLastWrite | split_fasta.py:33-37 | a record is the last processed one named after a path exactly when its write is the last to that path |
| FastaSplit.LastWriterWins | split_fasta.py:36 | a file holds the content of the last processed record with its path |
| FastaSplit.RunFilesWritten | split_fasta.py:36-37 | every written file holds the content of the last processed record named after it |
| FastaSplit.RunFilesUntouched | split_fasta.py:36 | a file no processed record names is unchanged |
| FastaSplit.DuplicateIds | split_fasta.py:36 | two records with the same id leave one file, holding the second record's content |
| SplitFasta.SplitAndProcess | split_fasta.py:20-45 | the run counts the processed records and leaves each processed record's sequence in its file, last writer winning |
| SplitFasta.FilesHoldSequences | split_fasta.py:36-37 | every written file holds exactly a record's sequence text, with no header |
| SplitFastaKeepHeaders.SplitAndProcess | split_fasta_keepheaders.py:20-46 | the same run, writing the rendering of each whole record |
| SplitFastaKeepHeaders.FilesHoldRecords | split_fasta_keepheaders.py:36-37 | every written file holds the rendering of the last processed record named after it |
| SplitFastaKeepHeaders.SameFilesAsSplitFasta | split_fasta_keepheaders.py:25-33 | on the same records and directory both scripts write the same files and process the same number of records |

## Left out

- Reading the image and decoding EXIF (`get_exif_data_exifread`, the
  `exifread` library) is not modelled. `ExifCoord.LatLon` takes its result
  as a parameter: `None` when the file could not be read, otherwise the map
  from tag name to tag text.
- Logging, `print`, the `argparse` and `sys.argv` blocks, and the creation
  of the output directory are not modelled; none of them affects a result.
- `Bio.SeqIO.parse` is not modelled: records are given as `(id, sequence)`
  pairs. `SeqIO.write` is the function parameter `render`.
- Failures of `open` are not modelled. This covers a missing input file, and
  an output path in a missing directory (a fallback name containing `/`).
  Every write in the model succeeds.
- After an abort the script returns without reporting its count. The model
  still returns the count reached.
- PyFloat.ParseFloat: accepts only an optional sign, ASCII digits, at most
  one `.` and surrounding whitespace (the `str.isspace()` characters except
  U+001C-U+001F, which `float()` does not strip). Exponents, `inf`, `nan`, underscores
  and non-ASCII digits, which Python's `float()` also accepts, are left out.
- Numbers are Dafny `real`: there is no IEEE-754 rounding. `463/10` is
  exactly 46.3 and `d + m/60 + s/3600` is exact.
- FastaNaming.MatchEnd: `\d` is ASCII `0`-`9` only. In a Python `str`
  pattern it also matches other Unicode decimal digits.
- PyText.Upper: upper-cases ASCII letters and U+017F only. This is exact
  for the comparison with `S` and `W`, the only use in the source, but not
  for other letters.
- `str(fraction_str)` is the identity, because every tag value is already
  text.
