# mtree verification, modelled in Dafny

This project models the core of `truenas_verify/mtree_verify.py`. The script
checks a live root filesystem against an mtree-style manifest. It does three
things:

- **decode** each manifest line (`parse_mtree_entry`) into an entry record, or
  into nothing for a comment line;
- **verify** each entry (`validate_mtree_entry`, `validate_file_sha256sum`)
  against `lstat` and the file contents, appending a diagnostic line to a
  shared `errors` list for each mismatch;
- **accumulate** those lines over the whole manifest in `main`.

The model has five modules:

- `Wrappers` (`wrappers.dfy`) holds `Option` and `Result`.
- `Text` (`text.dfy`) models the Python string operations the decoder relies
  on: `str.split()`, `str.split(maxsplit=k)`, `str.split('=')`, `int()` on a
  token, and `oct()`.
- `Manifest` (`manifest.dfy`) models the decoder as a pure function
  `Decode`. Three kinds of exception become a `Failure`: an unpack with
  the wrong number of fields, an `int()` that raises `ValueError`, and the
  `IndexError` from `token.split('=')[1]` on a token without `=` (`NoValue`,
  for a mode, link, type or digest token). It also proves that decoding
  inverts a manifest-line encoder.
- `Verifier` (`verifier.dfy`) specifies each entry check as a pure function
  (`HashCheck`, `EntryCheck`). It implements the two checks as methods that
  append to an `ErrorList` object, and proves the methods against the
  functions. The filesystem is a map from path to stat record plus a map from
  path to readable contents. SHA-256 is a function parameter.
- `Scan` (`run.dfy`) holds the loop of `main` as the method `VerifyManifest`.
  It is proved equal to the recursive specification `Run`. An exception ends
  the scan: a decode failure, an ownership assertion, or an `open` that
  fails. The result is then `Crash` instead of a `Report` holding the list
  the log would receive.

Two behaviours of the code are easy to misread, and the model follows the
code in both:

- **Blank lines.** One might expect blank lines to be skipped. The code only
  skips lines that start with `#`. A blank line leaves no fields for the
  five-way unpack, so it raises and ends the run. See
  `Scan.BlankLineEndsScan` and `Manifest.DecodeFailures`.
- **Trailing tokens after `type=dir`.** One might expect a `type=dir` line
  with an extra token to be rejected. The code only tests the prefix of the
  fifth field, so anything after `type=dir` is ignored. See
  `Manifest.DirRemainderIgnored`.

## Model

| member | source | states |
|---|---|---|
| Text.Split | truenas_verify/mtree_verify.py:28 | `str.split()` yields only non-empty, whitespace-free tokens. |
| Text.SplitMax | truenas_verify/mtree_verify.py:15 | `split(maxsplit=k)` yields at most k+1 pieces, none of them empty. |
| Text.SplitOn | truenas_verify/mtree_verify.py:19-21 | `split('=')` yields at least one piece, and no piece holds the separator. |
| Text.SplitMaxAgrees | truenas_verify/mtree_verify.py:15 | `split(maxsplit=k)` returns `split()` unchanged when there are at most k words. Otherwise it returns exactly k+1 pieces: the first k words of `split()`, then a remainder that re-splits into the rest of `split()`. |
| Text.SplitJoinSpaced | truenas_verify/mtree_verify.py:28 | `split()` of tokens joined by single spaces, followed by any trailing whitespace such as the newline, gives back exactly those tokens. |
| Text.SplitMaxJoinSpaced | truenas_verify/mtree_verify.py:15 | `split(maxsplit=k)` of such a line gives the first k tokens, then the untouched rest of the line, trailing whitespace included. |
| Text.JoinOnSplitOn | truenas_verify/mtree_verify.py:19 | `'='.join(s.split('='))` is `s`, so splitting on `=` loses nothing. |
| Text.SplitOnJoinOn | truenas_verify/mtree_verify.py:19 | `split('=')` undoes joining `=`-free parts with `=`. |
| Text.ParseInt | truenas_verify/mtree_verify.py:20 | `int()` on a whitespace-free token accepts only a sign, digits and underscores, ending in a digit. A negative result needs a leading `-`, and a plain digit string reads as its decimal value. `None` stands for the `ValueError`. |
| Text.ParseIntText | truenas_verify/mtree_verify.py:20 | `int()` reads back the decimal text of any integer, negative ones included. The digit limit of CPython is not modelled (see "## Left out"). |
| Text.Octal | truenas_verify/mtree_verify.py:85 | `oct(n)[2:]` is a canonical octal numeral (no leading zero unless it is `0`) whose value is n. |
| Text.OctalOfValue | truenas_verify/mtree_verify.py:85 | A canonical octal numeral is the `oct()` text of its own value. |
| Text.OctalTextIff | truenas_verify/mtree_verify.py:85 | The `oct()` text of n equals s exactly when s is canonical octal with value n. This is the mode comparison stated on numbers. |
| Manifest.Decode | truenas_verify/mtree_verify.py:11-13 | A line decodes to "no entry" exactly when it starts with `#`. Every other line yields an entry or fails. |
| Manifest.DecodeFields | truenas_verify/mtree_verify.py:15-50 | The path is the first field. Mode, gid and uid come from fields 2, 3 and 4, with key names ignored. The optional fields match the kind: dir has none; link has only the target, from a 2-token remainder; any other type has size and digest, from a 3-token remainder, with the type equal to the first token's value. A non-integer uid or gid fails. |
| Manifest.FieldPositions | truenas_verify/mtree_verify.py:15-21 | For a decoded line, the path is the first `split()` token after the first character is dropped. Mode, gid and uid are the values of tokens 2, 3 and 4. |
| Manifest.DecodeFailures | truenas_verify/mtree_verify.py:15-48 | Decoding fails in these cases: fewer than five fields, reported with the count found; a non-integer uid or gid; a link remainder that is not 2 tokens; another type's remainder that is not 3 tokens; a non-integer size. |
| Manifest.DirRemainderIgnored | truenas_verify/mtree_verify.py:16-26 | Two `type=dir` lines that agree on their first four fields decode identically, whatever follows `type=dir`. |
| Manifest.DecodeEncode | truenas_verify/mtree_verify.py:11-52 | Decoding the manifest line written for any well-formed entry gives back that entry. |
| Verifier.HashCheck | truenas_verify/mtree_verify.py:55-59 | An unreadable path raises. A readable one gets at most one finding, and gets none exactly when the entry's digest equals the hash of the contents. |
| Verifier.EntryCheck | truenas_verify/mtree_verify.py:62-86 | A missing path gives exactly the "file does not exist." line and nothing else. An owner mismatch raises and appends nothing. At most 3 lines are appended, and at most 2 for types other than `file`. The only exceptions are the ownership assertion, or an unreadable `file`. |
| Verifier.EntryCleanIff | truenas_verify/mtree_verify.py:62-86 | An entry is checked with no finding and no exception exactly when the live path conforms to it: it exists, owners match, the type matches, a file's digest matches, and the entry's mode is the canonical octal text of the permission bits. |
| Verifier.FindingsInCheckOrder | truenas_verify/mtree_verify.py:72-86 | A type finding appears exactly when the type bits are wrong, and it comes first. A mode finding appears exactly when `oct(S_IMODE)[2:]` differs from the entry's mode, and it comes last. Between them sit exactly the hash check's lines for a `file` entry, and no line for any other kind. The list holds nothing else. |
| Verifier.HashFindingNamesBothDigests | truenas_verify/mtree_verify.py:58-59 | A digest-mismatch line contains both the expected and the computed digest. |
| Verifier.ZeroPaddedModeAlwaysReported | truenas_verify/mtree_verify.py:85-86 | A mode written with a leading zero, such as `0755`, is always reported, because the comparison is on text. |
| Verifier.FileHashedDespiteWrongType | truenas_verify/mtree_verify.py:76-80 | A `file` entry is hashed even when its type check failed. The type line comes first, followed by the hash check's outcome. |
| Verifier.OtherKindOnlyModeChecked | truenas_verify/mtree_verify.py:72-86 | A type other than dir, file or link gets only the mode check. |
| Verifier.DirectoryFoundAsFile | truenas_verify/mtree_verify.py:73-75 | A `dir` entry whose path is a correctly owned regular file with the right mode yields exactly one line, the type line. |
| Verifier.WrongDigestOnly | truenas_verify/mtree_verify.py:55-59 | A `file` entry that matches in everything but its digest yields exactly one line, the digest mismatch. |
| Verifier.ErrorList.constructor | truenas_verify/mtree_verify.py:96 | The errors list starts empty. |
| Verifier.ErrorList.Append | truenas_verify/mtree_verify.py:66 | `errors.append` adds the line at the end and leaves earlier lines unchanged. |
| Verifier.ValidateFileSha256sum | truenas_verify/mtree_verify.py:55-59 | Appends exactly the lines `HashCheck` gives, after the caller's earlier lines, and raises exactly when `HashCheck` does. |
| Verifier.ValidateEntry | truenas_verify/mtree_verify.py:62-86 | Appends exactly the lines `EntryCheck` gives, after the earlier ones, and ends with its exception. |
| Scan.Step | truenas_verify/mtree_verify.py:99-100 | One loop iteration reports only if its line decodes, and then adds at most three lines. A comment adds nothing. |
| Scan.Run | truenas_verify/mtree_verify.py:96-100 | A completed scan means every line decoded. It holds at most three lines per manifest line. An all-comment manifest gives an empty list. |
| Scan.ScanLine | truenas_verify/mtree_verify.py:99-100 | The loop body raises exactly when `Step` does. Otherwise it appends `Step`'s lines to the list. |
| Scan.VerifyManifest | truenas_verify/mtree_verify.py:96-100 | The loop in `main` produces exactly `Run` of the manifest's lines. |
| Scan.RunConcat | truenas_verify/mtree_verify.py:98-100 | Scanning two manifest parts is scanning the first, then the second. Lines appear in manifest order, and an exception in the first part ends the run. |
| Scan.CommentsIgnored | truenas_verify/mtree_verify.py:99 | Comment lines contribute nothing: the scan equals the scan with them removed. |
| Scan.CleanReportIff | truenas_verify/mtree_verify.py:96-100 | The log is written empty exactly when every line decodes and every entry conforms to the live filesystem. |
| Scan.BlankLineEndsScan | truenas_verify/mtree_verify.py:15 | A blank or whitespace-only line ends the scan with a five-field unpack failure that found zero fields. |
| Scan.RunOfEncoded | truenas_verify/mtree_verify.py:98-100 | Scanning a manifest written from well-formed entries checks exactly those entries, in order. |

## Left out

- `load_mtree_file` and the log write in `main` (lines 89-92 and 102-103) are file I/O on fixed paths. The scan takes the manifest as a sequence of lines, and its `Report` holds the list that would be written.
- SHA-256 (`hashlib.file_digest`) is a function parameter `hash`. The digest algorithm is not modelled.
- `lstat` and `open` are an abstract filesystem. A path missing from `lstat` is `FileNotFoundError`. A path missing from `contents` is any failure of `open` or of reading. No other `lstat` error is modelled.
- Python's exception types are modelled as outcomes: `DecodeError` for the decoder, `Fault` for the verifier, `Crash` for the run. The assertion message and the traceback are not modelled.
- The ownership asserts raise only when assertions are enabled. Running Python with `-O`, which removes them, is not modelled.
- Text.ParseInt: accepts an optional sign, ASCII digits and single underscores between digits. It does not model `int()`'s acceptance of non-ASCII decimal digits. It does not model the stripping of surrounding whitespace either, because a `split()` token never holds whitespace.
- Text.ParseIntText: `ParseInt` and `IntText` do not model CPython's limit of 4300 digits on `int()` and `str()` conversions, above which both raise `ValueError`. `Text.ParseIntText`, `Manifest.DecodeEncode` and `Scan.RunOfEncoded` therefore hold in Python only when uid, gid and size have at most 4300 digits.
- The verifier compares the entry's type as a string. Symlink targets and sizes are decoded but never checked, as in the code.
