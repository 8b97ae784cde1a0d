# MPQ carver

A Dafny model of the carving loop of `extract_mpqs`. The loop scans an
installer blob for embedded MPQ archives, which start with the signature
`"MPQ\x1a"`. At each occurrence it reads two little-endian unsigned 32-bit
fields: `header_size` at offset +4 and `archive_size` at offset +8. An
occurrence is kept when `header_size` is 32 (an MPQv1 header) and
`archive_size` is above 1000. Each kept archive is the blob's bytes from the
signature on, `min(archive_size, len(data) - pos)` of them, and goes to a
file numbered from zero. The scan then resumes four bytes past the
signature, whether or not the occurrence was kept. At the end it reports
how many archives it extracted.

The model has four modules:

- `LittleEndian` covers `struct.unpack_from("<I", ...)`.
  - `UnpackU32` returns `None` where Python raises `struct.error`.
  - `DecodeU32` and `EncodeU32` are proved to be inverses.
- `MpqCarver` holds the carving loop.
  - `Carve` is a pure recursive specification. `CarveFrom` mirrors the loop
    state: the cursor `pos`, plus the archives emitted so far, whose number
    is `idx`.
  - `ExtractMpqs` is the imperative `while True` loop. It is proved equal to
    `Carve`.
  - `FindSignature` is the byte-by-byte search that stands for
    `data.find(sig, pos)`. It is proved against `NextMatch`.
  - The result is a `Scan`: the archives in order, plus the outcome. The
    outcome is either `Completed(count)` or `HeaderUnreadable(sigAt, field)`.
    `HeaderUnreadable` is the `struct.error` raised by a signature whose start
    lies fewer than 12 bytes before the end of the blob.
- `CarverProperties` holds the properties of `Carve`, and so of
  `ExtractMpqs`.
- `CarverScenarios` holds concrete blobs and what the loop extracts from
  them.

A signature with fewer than 12 bytes from its start to the end of the blob
is not skipped. Both header reads are plain `struct.unpack_from` calls, with
no length check before them (`priv/sandbox/extract_mpqs.py:20-21`), so such
a signature makes Python raise `struct.error`. The model follows the code, not a skip:
- The scan ends with `HeaderUnreadable`.
- The archives written before that point are kept.
- `field` says which of the two reads failed.

## Model

| member | source | states |
|---|---|---|
| `LittleEndian.UnpackU32` | priv/sandbox/extract_mpqs.py:20-21 | The read succeeds exactly when at least four bytes remain at the offset. Its value is below 2^32, and its little-endian encoding is exactly those four bytes. |
| `LittleEndian.DecodeEncode` | priv/sandbox/extract_mpqs.py:20-21 | Decoding the little-endian encoding of any 32-bit value gives that value back. |
| `LittleEndian.EncodeDecode` | priv/sandbox/extract_mpqs.py:20-21 | Encoding what any four bytes decode to gives those bytes back, so the field read is one-to-one. |
| `MpqCarver.NextMatchIsFirst` | priv/sandbox/extract_mpqs.py:17 | The search skips nothing. No occurrence lies between the cursor and the match found, and when there is no match there is no occurrence at or after the cursor. |
| `MpqCarver.FindSignature` | priv/sandbox/extract_mpqs.py:17-18 | The search returns the first occurrence at or after `pos`, or -1 when there is none. |
| `MpqCarver.ExtractMpqs` | priv/sandbox/extract_mpqs.py:12-35 | The loop emits exactly the archives, and ends with exactly the outcome, that the recursive specification `Carve` gives for the blob. |
| `CarverProperties.SignatureDoesNotOverlapItself` | priv/sandbox/extract_mpqs.py:33 | No occurrence starts one to three bytes after another, so the four-byte step past a match cannot jump over an occurrence. |
| `CarverProperties.OutcomeFrom` | priv/sandbox/extract_mpqs.py:16-35 | From any loop state, a completed scan reports the number of archives and leaves every later occurrence readable. A raising scan stops at the first occurrence with fewer than 12 bytes left, in the read that runs off the end. |
| `CarverProperties.ArchivesFrom` | priv/sandbox/extract_mpqs.py:20-32 | From any loop state, every newly emitted archive starts at an accepted, readable occurrence at or after the cursor. It has the next index and the clamped length, and it lies before the point where the scan raised. |
| `CarverProperties.StartsIncreaseFrom` | priv/sandbox/extract_mpqs.py:17-33 | From any loop state whose archives are at least four bytes apart and behind the cursor, all the archives are at least four bytes apart. |
| `CarverProperties.CompleteFrom` | priv/sandbox/extract_mpqs.py:16-33 | From any loop state, every accepted occurrence at or after the cursor, and before the point where the scan raised, is emitted. |
| `CarverProperties.EmittedArchivesAreGenuine` | priv/sandbox/extract_mpqs.py:20-32 | Each archive carries index i and starts at a signature. Its `header_size` is 32 and its `archive_size` is above 1000. Its length is `min(archive_size, len - start)`, which is positive and stays within the blob. It lies before the point where the scan raised, if it did. |
| `CarverProperties.ClampingLaw` | priv/sandbox/extract_mpqs.py:26 | An archive whose declared size runs past the blob ends exactly at the blob's end. One that fits keeps its declared size. |
| `CarverProperties.RejectedNeverEmitted` | priv/sandbox/extract_mpqs.py:24 | A readable occurrence whose header fails the test is never emitted. |
| `CarverProperties.StartsStrictlyIncrease` | priv/sandbox/extract_mpqs.py:17-33 | Archive starts strictly increase, each at least four bytes past the previous one. |
| `CarverProperties.NoGenuineMatchSkipped` | priv/sandbox/extract_mpqs.py:16-33 | Every accepted occurrence before the point where the scan raised (anywhere, if it did not raise) is emitted. |
| `CarverProperties.HeaderReadFailsIff` | priv/sandbox/extract_mpqs.py:20-21 | The scan raises exactly when some occurrence has fewer than 12 bytes left. It raises at the first such occurrence, in the read that runs off the end. |
| `CarverProperties.CountIsNumberEmitted` | priv/sandbox/extract_mpqs.py:32-35 | A completed scan reports a count equal to the number of archives emitted. |
| `CarverProperties.NoSignatureNoArchives` | priv/sandbox/extract_mpqs.py:17-19 | A blob without the signature yields no archive and a count of zero. |
| `CarverProperties.Payload` | priv/sandbox/extract_mpqs.py:29 | The bytes written for an archive are exactly `length` bytes of the blob. |
| `CarverProperties.PayloadStartsWithHeader` | priv/sandbox/extract_mpqs.py:26-29 | Each written file has at least 12 bytes. It begins with the signature and a `header_size` of 32. |
| `CarverScenarios.HeaderReadBack` | priv/sandbox/extract_mpqs.py:20-21 | A header placed anywhere in a blob is found there and read back field for field. |
| `CarverScenarios.SoleGenuineArchive` | priv/sandbox/extract_mpqs.py:16-35 | A blob with all occurrences readable and exactly one accepted yields that one archive, index 0, and a count of 1. |
| `CarverScenarios.TwoGenuineArchives` | priv/sandbox/extract_mpqs.py:16-35 | A blob with all occurrences readable and exactly two accepted yields both, in order of offset, with indices 0 and 1 and a count of 2. |
| `CarverScenarios.SignaturesOfTwoHeaders` | priv/sandbox/extract_mpqs.py:17 | In a zero-filled blob with two headers whose fields hold no 'M' byte, the signature occurs only at the two headers. |
| `CarverScenarios.TruncatedTrailingArchive` | priv/sandbox/extract_mpqs.py:24-26 | An archive at offset 50 that declares 2000 bytes, with only 1500 left, is extracted as 1500 bytes. |
| `CarverScenarios.TwoArchivesInOrder` | priv/sandbox/extract_mpqs.py:16-35 | Archives at offsets 100 and 6000 are extracted as archives 0 and 1, with their declared sizes. |
| `CarverScenarios.IncidentalSignatureSkipped` | priv/sandbox/extract_mpqs.py:24 | A signature with `header_size` 7 is passed over, and the genuine archive after it is still extracted as archive 0. |
| `CarverScenarios.SignatureAtEndRaises` | priv/sandbox/extract_mpqs.py:20-21 | A signature with eight bytes left raises in the `archive_size` read. One with four bytes left raises in the `header_size` read. Nothing is extracted. |
| `CarverScenarios.EmptyBlob` | priv/sandbox/extract_mpqs.py:17-19 | The empty blob yields nothing and a count of zero. |

## Left out

- Reading the installer file and creating the output directory (lines 8-11) are left out. The blob is the parameter `data`, and I/O errors are not modelled.
- Writing each archive file is represented by appending an `Archive(index, start, length)` to the result. The bytes written are `Payload`. The file name `d2demo_<index>.mpq` and the file I/O are left out.
- The progress and summary `print` calls are left out, including the floating-point megabyte figure. The final count is `Completed(count)`.
- The command-line entry point with its default paths (lines 37-40) is left out.
- `MpqCarver.FindSignature` models `bytes.find` only for this four-byte signature. It is not a general substring search.
- `priv/python/claude_agent.py` is not part of this model. It is a separate agent bridge with no part in carving.
