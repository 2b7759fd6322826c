# Duplicates — a verified model of the duplicate-file finder

Duplicates.py walks a directory tree, computes the MD5 digest of every regular
file by reading it in 4096-byte parts, and groups the paths whose digests
coincide. A digest shared by two or more files becomes a group of duplicates;
the groups are written to a text report.

This project models that core in Dafny:

- `filehash.dfy`, module `FileHash`: the read loop of `get_file_hash`. Each
  read returns at most 4096 bytes, and the loop stops at the first empty read.
  The MD5 accumulator is modelled by the bytes fed to it so far. The final
  digest is `md5(fed)`, where `md5` is a function supplied by the caller.
- `duplicates.dfy`, module `Duplicates`: the pass of `find_duplicates`. It is a
  method with the two local dictionaries of the source:
  - `hashes` maps a digest to the first path seen with it;
  - `duplicates` maps a digest to every path seen with it, once a second path
    turns up.
  The directory walk is given as the sequence of entries it yields. An entry is
  one of three things: something that is not a regular file; a path for which
  `is_file()` or the hashing of the file raised `OSError`; or a regular file
  with its bytes. The result is a Python dictionary, so it keeps
  its insertion order. It is modelled as a key sequence plus a map (`Groups`).
  The pass is proved against reference definitions over the records of the
  hashed files:
  - `PathsWith(rs, h)`: the paths hashed to `h`, in discovery order;
  - `PositionsOf(rs, h)`: the positions of those records;
  - `SecondOccurrenceOrder(rs)`: the shared digests, in the order their second
    file was found.
  Lemmas then state soundness, completeness, counts, order and the
  skip-on-failure rule about those definitions.
- `report.dfy`, module `Report`: the report text that `main` writes. It is a
  header line, then per group a `Hash: <digest> has <n> duplicates:` line
  followed by one tab-indented line per path. There is no text at all when
  there are no groups. A parser reads a report back, and round-trip lemmas show
  that it recovers every group, in order, with its paths.
- `wrappers.dfy`, module `Wrappers`: an `Option` type.

## Model

| member | source | states |
|---|---|---|
| `FileHash.Read` | Duplicates.py:19 | a read at offset `pos` returns the next bytes of the file, at most `n` of them, and is empty exactly at end of file |
| `FileHash.GetFileHash` | Duplicates.py:10-21 | the loop feeds the accumulator exactly the 4096-byte parts of the content, in order: the bytes fed are the parts laid end to end, which is the whole content, and the digest is `md5` of the whole content, so it depends on the bytes alone |
| `FileHash.ReadIsNextChunk` | Duplicates.py:19 | a non-empty `f.read(4096)` at an offset returns the first 4096-byte part of the rest of the file, and the parts after it start where it ends |
| `FileHash.FeedStep` | Duplicates.py:19-20 | feeding the next non-empty read keeps the loop state: the bytes fed are the parts read so far laid end to end, which are the file's bytes up to the offset, and the parts still to come are those of the rest of the file |
| `FileHash.ChunksConcat` | Duplicates.py:14-21 | for every part size, the parts laid end to end are the file's bytes, so the digest does not depend on the part size |
| `FileHash.ChunksBounded` | Duplicates.py:19-20 | every part fed is non-empty and at most the part size long, and all parts but the last are exactly the part size |
| `Duplicates.FindDuplicates` | Duplicates.py:23-48 | the result is a well-formed dictionary. Its keys are exactly the digests shared by two or more hashed files, in the order each digest's second file was found. Each key maps to all paths hashed to it, in discovery order |
| `Duplicates.Hashed` | Duplicates.py:34-37 | each entry of the walk gives at most one record. Which records it gives is stated by `Duplicates.HashedRecords`, `Duplicates.HashedAppend` and `Duplicates.FailureIsSkipped` |
| `Duplicates.FirstSighting` | Duplicates.py:38-44 | a digest seen for the first time is stored in `hashes` with its path, and `duplicates` stays as it is |
| `Duplicates.FirstHash` | Duplicates.py:43-44 | after a new digest is stored, `hashes` again maps exactly the digests seen so far, each to its first path |
| `Duplicates.FirstKeepsGroups` | Duplicates.py:43-44 | a file with a digest not seen before leaves every group as it is |
| `Duplicates.RepeatSighting` | Duplicates.py:38-42 | a digest already in `hashes` leaves `hashes` as it is, so the first path is never overwritten |
| `Duplicates.SecondSighting` | Duplicates.py:38-42 | a digest seen for the second time enters `duplicates` as the last key, with exactly the first path and the new one |
| `Duplicates.SecondGroup` | Duplicates.py:41-42 | the group created at a digest's second sighting, the path kept in `hashes` followed by the new path, is exactly the list of paths hashed to that digest |
| `Duplicates.LaterSighting` | Duplicates.py:39-40 | a digest seen a third time or later gets the new path appended to its group, and no other group or key changes |
| `Duplicates.FailureIsSkipped` | Duplicates.py:35-46 | an entry that is not a regular file, or whose processing raised `OSError`, changes no record wherever it occurs in the walk, so the scan goes on as if it were absent |
| `Duplicates.HashedAppend` | Duplicates.py:34-37 | the records of a walk split in two are the records of the first part followed by those of the second |
| `Duplicates.HashedRecords` | Duplicates.py:36-37 | a (path, digest) record is hashed exactly when some regular file of the walk has that path and a content with that digest |
| `Duplicates.PathsWithMembers` | Duplicates.py:37-44 | a path is in the group of `h` exactly when it was hashed to `h` (soundness and completeness) |
| `Duplicates.PathsWithCount` | Duplicates.py:38-44 | a group holds as many paths as there are hashed files with its digest, so a digest produced by one file is in no group |
| `Duplicates.PositionsOfOrder` | Duplicates.py:40-44 | a group lists its paths in the order their files were discovered, and lists every one of them |
| `Duplicates.GroupHeadIsFirstSeen` | Duplicates.py:42-44 | the first path of a group is the first path hashed to that digest, the value `hashes` keeps |
| `Duplicates.PrefixesGrow` | Duplicates.py:39-42 | after any prefix of the walk, every group and the key order are prefixes of the final ones, so groups only grow |
| `Duplicates.SecondOccurrenceKeys` | Duplicates.py:39-42 | a digest is a key exactly when two or more files share it, and no key is listed twice |
| `Duplicates.SecondOccurrenceSorted` | Duplicates.py:41-42 | keys are ordered by the position of each digest's second file |
| `Duplicates.DistinctDigestsNoGroups` | Duplicates.py:31-48 | when no two hashed files share a digest, which includes a walk with no files, every digest has at most one path and there are no keys |
| `Duplicates.SameContentGrouped` | Duplicates.py:36-44 | two regular files with the same bytes, zero-byte files included, both end up in one group of at least two paths |
| `Duplicates.HelloWorldWalk` | Duplicates.py:31-48 | for a directory, `a.txt` and `b.txt` holding "hello", an unreadable file and `c.txt` holding "world", the only group is `[a.txt, b.txt]` under the digest of "hello" |
| `Report.Decimal` | Duplicates.py:63 | the count is written as a non-empty string of decimal digits without leading zeros: it starts with `0` only for zero, which is written `0` |
| `Report.DecimalRoundTrip` | Duplicates.py:63 | the written count reads back as `len(paths)` |
| `Report.HashLine` | Duplicates.py:63 | a group's opening line starts with `H`, so it is never taken for a tab-indented path line, and it holds a line break only if the digest does. `Report.HashLineRoundTrip` states that it reads back as its digest and count |
| `Report.PathLines` | Duplicates.py:64-65 | one line per path, in group order, each made of a tab followed by the path |
| `Report.Listing` | Duplicates.py:62 | the groups of the result in dictionary order: one entry per key, the i-th entry under the i-th key (the order in which each digest's second file was found, by `Duplicates.FindDuplicates`), no digest twice, every group of two or more paths, and every group of the result present with its paths |
| `Report.BodyLines` | Duplicates.py:62-65 | the lines written for the groups, empty exactly when there are no groups. `Report.BodyRoundTrip` states that they read back as the listing |
| `Report.ReportLines` | Duplicates.py:61-65 | the first line is the header, and it is the only line exactly when there are no groups. `Report.ReportLinesRoundTrip` states that the lines read back as every group |
| `Report.JoinLines` | Duplicates.py:61-65 | each line is followed by a line break, so the text is empty only for no lines and otherwise ends with a line break. `Report.SplitLinesRoundTrip` states that it splits back into the same lines |
| `Report.ReportText` | Duplicates.py:53-65 | there is no report exactly when there are no groups; otherwise the text starts with the header line and ends with a line break |
| `Report.HashLineRoundTrip` | Duplicates.py:63 | a group's opening line gives back its digest and its count when read |
| `Report.TakePathsRoundTrip` | Duplicates.py:64-65 | the tab-indented lines after a group's opening line give back that group's paths, in order |
| `Report.BodyTakePaths` | Duplicates.py:63-65 | after a group's opening line, the tab-indented lines read back as that group's paths and stop at the next group's opening line |
| `Report.BodyRoundTripStep` | Duplicates.py:62-65 | one group written in front of groups that read back reads back with that group in front |
| `Report.BodyRoundTrip` | Duplicates.py:62-65 | the group lines read back as the listing, in order |
| `Report.ReportLinesRoundTrip` | Duplicates.py:61-65 | the report's first line is the header, and reading its lines back gives every group in dictionary order, each with its count and paths |
| `Report.SplitLinesRoundTrip` | Duplicates.py:61-65 | lines each ended by a line break split back into the same lines, provided none of them contains a break |
| `Report.ReportTextRoundTrip` | Duplicates.py:61-65 | reading the whole text back gives every group of the result with its paths. This needs digests without spaces or line breaks, which holds for hex digests, and paths without line breaks |

## Left out

- The directory walk `Path(...).rglob('*')`: its entries are the input sequence, in the order it yields them. An `OSError` raised by the walk itself, outside the `try`, is not modelled.
- `is_file()`, `open` and `f.read`: their outcome is carried by each entry. An entry is not a regular file, or raised `OSError` in `is_file()`, `open` or a read, or was read in full. A read that fails part-way raises `OSError` and is modelled by the same `Unreadable` entry.
- The MD5 algorithm: `md5` is a parameter, a function from the bytes to the hex digest, and nothing is assumed about it. Hash collisions are therefore modelled faithfully: files with different contents but equal digests are grouped together.
- The `print` of each failed path (line 46) and the other console messages (lines 54, 66, 68). The model does not return the failed paths, because the source only prints them.
- Writing the report file, `datetime.now()` and the timestamped file name (lines 56-60): the report is a value, `Report.ReportText`.
- Argument parsing (lines 70-76).
- Python's `hexdigest()` always gives 32 lower-case hex characters. The model does not assume this. The report round trip only needs digests without spaces or line breaks.
- A path containing a line break makes the report ambiguous, because the report has no escaping. `Report.ReportTextRoundTrip` therefore requires paths without line breaks. The line-level round trip `Report.ReportLinesRoundTrip` has no such requirement on paths.

## Notes on the source

- Per-file failures are only printed, not collected, so the result is the `duplicates` dictionary alone.
- `duplicates` is built while the walk runs, not filtered from a full index at the end. The model follows the code: `hashes` holds only the first path of each digest, and a group is created when its second path appears. The lemmas show that the result is the same as a filter of the full index to digests with two or more paths (`Duplicates.FindDuplicates` together with `Duplicates.PathsWithCount`).
- The number in `Hash: <h> has <n> duplicates:` is the number of paths in the group, the first file included.
