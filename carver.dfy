/** The MPQ carving loop of `extract_mpqs`: scan a host blob for the MPQ
    signature "MPQ\x1a", read the two little-endian header fields that follow
    each occurrence, keep the occurrences whose header looks like an MPQv1
    archive, and emit each kept one as a byte range clamped to the end of the
    blob, numbered from zero. */
module MpqCarver {
  import opened LittleEndian

  /** The bytes 'M', 'P', 'Q', 0x1A. */
  const Signature: seq<Byte> := [0x4D, 0x50, 0x51, 0x1A]

  /** The only `header_size` accepted: the size of an MPQv1 header. */
  const MpqV1HeaderSize: nat := 32

  /** Declared archive sizes must be strictly above this floor. */
  const MinArchiveSize: nat := 1000

  /** Which of the two header reads raised `struct.error`. */
  datatype HeaderField = HeaderSizeField | ArchiveSizeField

  /** How a scan ends: normally, reporting the number of archives extracted,
      or with the `struct.error` raised by reading the header of the
      signature found at `sigAt` too close to the end of the blob. */
  datatype Outcome =
    | Completed(count: nat)
    | HeaderUnreadable(sigAt: nat, field: HeaderField)

  /** One extracted archive: the file `d2demo_<index>.mpq`, holding the
      bytes `[start, start + length)` of the blob. */
  datatype Archive = Archive(index: nat, start: nat, length: nat)

  /** The archives a scan emits, in order, and how it ends. */
  datatype Scan = Scan(archives: seq<Archive>, outcome: Outcome)

  /** The signature occurs in `data` at offset `k`. */
  predicate IsSigAt(data: seq<Byte>, k: nat)
  {
    k + 4 <= |data| && data[k..k + 4] == Signature
  }

  /** The validation applied to the two header fields. */
  predicate Accepts(headerSize: nat, archiveSize: nat)
  {
    headerSize == MpqV1HeaderSize && archiveSize > MinArchiveSize
  }

  function Min(a: int, b: int): int
  {
    if a <= b then a else b
  }

  /** `data.find(Signature, pos)`, with `None` for -1: the first occurrence
      of the signature at or after `pos` (see `NextMatchIsFirst`). */
  function NextMatch(data: seq<Byte>, pos: nat): (r: Option<nat>)
    decreases |data| - pos
    ensures r.Some? ==> pos <= r.value && IsSigAt(data, r.value)
  {
    if pos + 4 > |data| then None
    else if IsSigAt(data, pos) then Some(pos)
    else NextMatch(data, pos + 1)
  }

  /** `NextMatch` skips no occurrence: nothing between `pos` and the match
      it returns is an occurrence, and when it finds none there is none. */
  lemma {:induction false} NextMatchIsFirst(data: seq<Byte>, pos: nat)
    decreases |data| - pos
    ensures NextMatch(data, pos).Some? ==>
      forall k :: pos <= k < NextMatch(data, pos).value ==> !IsSigAt(data, k)
    ensures NextMatch(data, pos).None? ==> forall k :: pos <= k ==> !IsSigAt(data, k)
  {
    if pos + 4 <= |data| && !IsSigAt(data, pos) {
      NextMatchIsFirst(data, pos + 1);
    }
  }

  /** The scan resumed at cursor `pos` after emitting the archives `done`:
      find the next match, or stop and report the count. */
  function CarveFrom(data: seq<Byte>, pos: nat, done: seq<Archive>): Scan
    decreases |data| - pos, 1
  {
    match NextMatch(data, pos)
    case None => Scan(done, Completed(|done|))
    case Some(m) => CarveAt(data, m, done)
  }

  /** The scan at a match `m`: read the header, which raises when the blob
      ends too early, emit the archive, numbered by the count so far, when
      the header is accepted, and whether it is or not, go on four bytes past
      the match. */
  function CarveAt(data: seq<Byte>, m: nat, done: seq<Archive>): Scan
    requires m + 4 <= |data|
    decreases |data| - m, 0
  {
    match UnpackU32(data, m + 4)
    case None => Scan(done, HeaderUnreadable(m, HeaderSizeField))
    case Some(headerSize) =>
      match UnpackU32(data, m + 8)
      case None => Scan(done, HeaderUnreadable(m, ArchiveSizeField))
      case Some(archiveSize) =>
        if Accepts(headerSize, archiveSize) then
          CarveFrom(data, m + 4, done + [Archive(|done|, m, Min(archiveSize, |data| - m))])
        else
          CarveFrom(data, m + 4, done)
  }

  /** The whole scan of a blob: the cursor starts at zero, with nothing
      emitted yet. */
  function Carve(data: seq<Byte>): Scan
  {
    CarveFrom(data, 0, [])
  }

  /** `data.find(Signature, pos)`: the offset of the first occurrence at or
      after `pos`, or -1 when there is none. */
  method FindSignature(data: seq<Byte>, pos: nat) returns (found: int)
    ensures found >= -1
    ensures NextMatch(data, pos) == if found < 0 then None else Some(found)
  {
    var i := pos;
    while i + 4 <= |data|
      invariant pos <= i
      invariant NextMatch(data, i) == NextMatch(data, pos)
      decreases |data| - i
    {
      if data[i] == Signature[0] && data[i + 1] == Signature[1]
        && data[i + 2] == Signature[2] && data[i + 3] == Signature[3]
      {
        assert data[i..i + 4] == Signature;
        return i;
      }
      assert !IsSigAt(data, i);
      i := i + 1;
    }
    return -1;
  }

  /** The `while True` loop of `extract_mpqs`, with the blob already read:
      each accepted archive is appended to `archives` where the source writes
      it to a file, and `outcome` is the count printed at the end or the
      header read that raised. */
  method ExtractMpqs(data: seq<Byte>) returns (archives: seq<Archive>, outcome: Outcome)
    ensures Scan(archives, outcome) == Carve(data)
  {
    archives := [];
    var pos: nat := 0;
    var idx: nat := 0;
    while true
      invariant pos <= |data|
      invariant idx == |archives|
      invariant Carve(data) == CarveFrom(data, pos, archives)
      decreases |data| - pos
    {
      var found := FindSignature(data, pos);
      if found < 0 {
        outcome := Completed(idx);
        return;
      }
      pos := found;
      var headerSize := UnpackU32(data, pos + 4);
      if headerSize.None? {
        outcome := HeaderUnreadable(pos, HeaderSizeField);
        return;
      }
      var archiveSize := UnpackU32(data, pos + 8);
      if archiveSize.None? {
        outcome := HeaderUnreadable(pos, ArchiveSizeField);
        return;
      }
      if Accepts(headerSize.value, archiveSize.value) {
        var actualSize := Min(archiveSize.value, |data| - pos);
        archives := archives + [Archive(idx, pos, actualSize)];
        idx := idx + 1;
      }
      pos := pos + 4;
    }
  }
}
