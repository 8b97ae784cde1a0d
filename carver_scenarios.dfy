/** Concrete blobs and what the carving loop extracts from them: a
    truncated trailing archive, two archives in a row, a signature that
    occurs by accident in unrelated data, and the empty blob. */
module CarverScenarios {
  import opened LittleEndian
  import opened MpqCarver
  import opened CarverProperties

  /** A signature followed by the two header fields. */
  function Header(headerSize: nat, archiveSize: nat): (h: seq<Byte>)
    requires headerSize < U32Limit && archiveSize < U32Limit
    ensures |h| == 12 && h[..4] == Signature
  {
    Signature + EncodeU32(headerSize) + EncodeU32(archiveSize)
  }

  function Zeros(n: nat): (z: seq<Byte>)
    ensures |z| == n && forall k :: 0 <= k < n ==> z[k] == 0
  {
    seq(n, _ => 0)
  }

  /** A header placed at offset |pre| is read back field for field. */
  lemma HeaderReadBack(pre: seq<Byte>, headerSize: nat, archiveSize: nat, post: seq<Byte>)
    requires headerSize < U32Limit && archiveSize < U32Limit
    ensures var data := pre + Header(headerSize, archiveSize) + post;
      IsSigAt(data, |pre|) && Readable(data, |pre|) &&
      HeaderSizeAt(data, |pre|) == headerSize && ArchiveSizeAt(data, |pre|) == archiveSize
  {
    var data := pre + Header(headerSize, archiveSize) + post;
    var m := |pre|;
    assert data[m..m + 4] == Signature;
    assert data[m + 4..m + 8] == EncodeU32(headerSize);
    assert data[m + 8..m + 12] == EncodeU32(archiveSize);
    DecodeEncode(headerSize);
    DecodeEncode(archiveSize);
  }

  /** When every occurrence can be read and exactly one of them is genuine,
      the scan extracts that one archive and reports a count of one. */
  lemma SoleGenuineArchive(data: seq<Byte>, m: nat)
    requires forall k :: IsSigAt(data, k) ==> Readable(data, k)
    requires Genuine(data, m)
    requires forall k :: Genuine(data, k) ==> k == m
    ensures Carve(data) == Scan([Archive(0, m, Min(ArchiveSizeAt(data, m), |data| - m))], Completed(1))
  {
    var r := Carve(data);
    HeaderReadFailsIff(data);
    CountIsNumberEmitted(data);
    NoGenuineMatchSkipped(data, m);
    var i :| 0 <= i < |r.archives| && r.archives[i].start == m;
    forall j | 0 <= j < |r.archives| ensures r.archives[j].start == m {
      EmittedArchivesAreGenuine(data, j);
      assert Genuine(data, r.archives[j].start);
    }
    if |r.archives| > 1 {
      StartsStrictlyIncrease(data);
      FirstTwoApart(r.archives);
      assert false;
    }
    EmittedArchivesAreGenuine(data, 0);
  }

  /** The first two of several archives with increasing starts. */
  lemma FirstTwoApart(archives: seq<Archive>)
    requires StartsApart(archives) && |archives| > 1
    ensures archives[0].start < archives[1].start
  {
  }

  /** Archives with increasing starts, all at `m1` or `m2`, with both
      present, are exactly one at `m1` followed by one at `m2`. */
  lemma TwoStarts(archives: seq<Archive>, m1: nat, m2: nat, i1: nat, i2: nat)
    requires StartsApart(archives) && m1 < m2
    requires forall i :: 0 <= i < |archives| ==> archives[i].start == m1 || archives[i].start == m2
    requires i1 < |archives| && archives[i1].start == m1
    requires i2 < |archives| && archives[i2].start == m2
    ensures |archives| == 2 && archives[0].start == m1 && archives[1].start == m2
  {
    assert i1 < i2;
    if |archives| > 2 {
      FirstThreeApart(archives);
      assert false;
    }
  }

  /** The first three of several archives with increasing starts. */
  lemma FirstThreeApart(archives: seq<Archive>)
    requires StartsApart(archives) && |archives| > 2
    ensures archives[0].start < archives[1].start < archives[2].start
  {
  }

  /** When every occurrence can be read and exactly two of them, `m1` before
      `m2`, are genuine, the scan extracts those two archives in that order,
      numbered 0 and 1. */
  lemma TwoGenuineArchives(data: seq<Byte>, m1: nat, m2: nat)
    requires forall k :: IsSigAt(data, k) ==> Readable(data, k)
    requires m1 < m2 && Genuine(data, m1) && Genuine(data, m2)
    requires forall k :: Genuine(data, k) ==> k == m1 || k == m2
    ensures Carve(data) == Scan([Archive(0, m1, Min(ArchiveSizeAt(data, m1), |data| - m1)),
                                 Archive(1, m2, Min(ArchiveSizeAt(data, m2), |data| - m2))], Completed(2))
  {
    var r := Carve(data);
    HeaderReadFailsIff(data);
    CountIsNumberEmitted(data);
    NoGenuineMatchSkipped(data, m1);
    NoGenuineMatchSkipped(data, m2);
    var i1 :| 0 <= i1 < |r.archives| && r.archives[i1].start == m1;
    var i2 :| 0 <= i2 < |r.archives| && r.archives[i2].start == m2;
    forall i | 0 <= i < |r.archives|
      ensures r.archives[i].start == m1 || r.archives[i].start == m2
    {
      EmittedArchivesAreGenuine(data, i);
      assert Genuine(data, r.archives[i].start);
    }
    StartsStrictlyIncrease(data);
    TwoStarts(r.archives, m1, m2, i1, i2);
    EmittedArchivesAreGenuine(data, 0);
    EmittedArchivesAreGenuine(data, 1);
    assert r.archives == [r.archives[0], r.archives[1]];
  }

  /** None of the four bytes that encode `v` is an 'M'. */
  predicate MFree(v: nat)
    requires v < U32Limit
  {
    var b := EncodeU32(v);
    b[0] != 0x4D && b[1] != 0x4D && b[2] != 0x4D && b[3] != 0x4D
  }

  /** A zero-filled blob holding two headers, the first at offset `pre`. */
  function TwoHeaders(pre: nat, h1: nat, s1: nat, gap: nat, h2: nat, s2: nat, post: nat): seq<Byte>
    requires h1 < U32Limit && s1 < U32Limit && h2 < U32Limit && s2 < U32Limit
  {
    Zeros(pre) + Header(h1, s1) + Zeros(gap) + Header(h2, s2) + Zeros(post)
  }

  /** In such a blob, when the header fields hold no 'M', the signature
      occurs only where a header starts. */
  lemma SignaturesOfTwoHeaders(data: seq<Byte>, pre: nat, h1: nat, s1: nat, gap: nat, h2: nat, s2: nat, post: nat, k: nat)
    requires h1 < U32Limit && s1 < U32Limit && h2 < U32Limit && s2 < U32Limit
    requires MFree(h1) && MFree(s1) && MFree(h2) && MFree(s2)
    requires data == TwoHeaders(pre, h1, s1, gap, h2, s2, post)
    requires IsSigAt(data, k)
    ensures k == pre || k == pre + 12 + gap
  {
    var first, second := Header(h1, s1), Header(h2, s2);
    var at2 := pre + 12 + gap;
    assert first == Signature + EncodeU32(h1) + EncodeU32(s1);
    assert second == Signature + EncodeU32(h2) + EncodeU32(s2);
    assert data[k] ==
      if pre <= k < pre + 12 then first[k - pre]
      else if at2 <= k < at2 + 12 then second[k - at2]
      else 0;
    assert data[k] == data[k..k + 4][0] == 0x4D;
  }

  /** Reading back both headers of such a blob. */
  lemma TwoHeadersReadBack(pre: nat, h1: nat, s1: nat, gap: nat, h2: nat, s2: nat, post: nat)
    requires h1 < U32Limit && s1 < U32Limit && h2 < U32Limit && s2 < U32Limit
    ensures var data := TwoHeaders(pre, h1, s1, gap, h2, s2, post);
      IsSigAt(data, pre) && Readable(data, pre) &&
      HeaderSizeAt(data, pre) == h1 && ArchiveSizeAt(data, pre) == s1 &&
      IsSigAt(data, pre + 12 + gap) && Readable(data, pre + 12 + gap) &&
      HeaderSizeAt(data, pre + 12 + gap) == h2 && ArchiveSizeAt(data, pre + 12 + gap) == s2
  {
    var data := TwoHeaders(pre, h1, s1, gap, h2, s2, post);
    var tail := Zeros(gap) + Header(h2, s2) + Zeros(post);
    assert data == Zeros(pre) + Header(h1, s1) + tail;
    HeaderReadBack(Zeros(pre), h1, s1, tail);
    HeaderReadBack(Zeros(pre) + Header(h1, s1) + Zeros(gap), h2, s2, Zeros(post));
  }

  /** A blob of 50 bytes of filler, then an archive that declares 2000
      bytes but is cut off after 1500: one archive of 1500 bytes at
      offset 50. */
  lemma TruncatedTrailingArchive()
    ensures Carve(Zeros(50) + Header(32, 2000) + Zeros(1488)) ==
      Scan([Archive(0, 50, 1500)], Completed(1))
  {
    var data := Zeros(50) + Header(32, 2000) + Zeros(1488);
    assert data == TwoHeaders(50, 32, 2000, 1488, 32, 2000, 0)[..1550];
    HeaderReadBack(Zeros(50), 32, 2000, Zeros(1488));
    forall k: nat | IsSigAt(data, k) ensures k == 50 {
      var whole := TwoHeaders(50, 32, 2000, 1488, 32, 2000, 0);
      assert whole[k..k + 4] == data[k..k + 4];
      SignaturesOfTwoHeaders(whole, 50, 32, 2000, 1488, 32, 2000, 0, k);
    }
    SoleGenuineArchive(data, 50);
  }

  /** Two archives in a row, at offsets 100 (5000 bytes) and 6000 (3000
      bytes), both complete: extracted as archives 0 and 1, in that order. */
  lemma TwoArchivesInOrder()
    ensures Carve(TwoHeaders(100, 32, 5000, 5888, 32, 3000, 3000)) ==
      Scan([Archive(0, 100, 5000), Archive(1, 6000, 3000)], Completed(2))
  {
    var data := TwoHeaders(100, 32, 5000, 5888, 32, 3000, 3000);
    TwoHeadersReadBack(100, 32, 5000, 5888, 32, 3000, 3000);
    forall k: nat | IsSigAt(data, k) ensures k == 100 || k == 6000 {
      SignaturesOfTwoHeaders(data, 100, 32, 5000, 5888, 32, 3000, 3000, k);
    }
    TwoGenuineArchives(data, 100, 6000);
  }

  /** The signature at offset 10 occurs by accident: its `header_size` is
      7. It is passed over, and the genuine archive at offset 100 is still
      found. */
  lemma IncidentalSignatureSkipped()
    ensures Carve(TwoHeaders(10, 7, 5000, 78, 32, 2000, 2000)) ==
      Scan([Archive(0, 100, 2000)], Completed(1))
  {
    var data := TwoHeaders(10, 7, 5000, 78, 32, 2000, 2000);
    TwoHeadersReadBack(10, 7, 5000, 78, 32, 2000, 2000);
    forall k: nat | IsSigAt(data, k) ensures k == 10 || k == 100 {
      SignaturesOfTwoHeaders(data, 10, 7, 5000, 78, 32, 2000, 2000, k);
    }
    SoleGenuineArchive(data, 100);
  }

  /** A signature too close to the end of the blob to hold its header makes
      the scan raise: with eight bytes left the `archive_size` read fails,
      with fewer the `header_size` read does; nothing is extracted. */
  lemma SignatureAtEndRaises()
    ensures Carve(Signature + EncodeU32(32)) == Scan([], HeaderUnreadable(0, ArchiveSizeField))
    ensures Carve(Zeros(5) + Signature) == Scan([], HeaderUnreadable(5, HeaderSizeField))
  {
    var short := Signature + EncodeU32(32);
    assert short[0..4] == Signature;
    CarveFromStep(short, 0, []);

    var tail := Zeros(5) + Signature;
    assert tail[5..9] == Signature;
    forall k: nat | k < 5 ensures !IsSigAt(tail, k) {
      assert tail[k] == 0;
    }
    assert IsSigAt(tail, 5);
    NextMatchIsFirst(tail, 0);
    assert NextMatch(tail, 0).Some?;
    assert NextMatch(tail, 0) == Some(5);
    CarveFromStep(tail, 0, []);
  }

  /** The empty blob: no archive and a count of zero. */
  lemma EmptyBlob()
    ensures Carve([]) == Scan([], Completed(0))
  {
    NoSignatureNoArchives([]);
  }
}
