/** What the carving loop guarantees about the archives it emits, the order
    it emits them in, the matches it rejects, and how it ends. */
module CarverProperties {
  import opened LittleEndian
  import opened MpqCarver

  /** Both header fields of a match at `k` lie inside the blob, so neither
      read raises. */
  predicate Readable(data: seq<Byte>, k: nat)
  {
    k + 12 <= |data|
  }

  /** The `header_size` field of the match at `k`. */
  function HeaderSizeAt(data: seq<Byte>, k: nat): nat
    requires Readable(data, k)
  {
    DecodeU32(data[k + 4..k + 8])
  }

  /** The `archive_size` field of the match at `k`. */
  function ArchiveSizeAt(data: seq<Byte>, k: nat): nat
    requires Readable(data, k)
  {
    DecodeU32(data[k + 8..k + 12])
  }

  /** A signature occurrence whose header passes validation. */
  predicate Genuine(data: seq<Byte>, k: nat)
  {
    IsSigAt(data, k) && Readable(data, k) && Accepts(HeaderSizeAt(data, k), ArchiveSizeAt(data, k))
  }

  /** The scan got past offset `k` before it ended. */
  predicate Reached(outcome: Outcome, k: nat)
  {
    outcome.Completed? || k < outcome.sigAt
  }

  /** The header field whose read raises for a match at `k` that is not
      readable. */
  function FailingField(data: seq<Byte>, k: nat): HeaderField
  {
    if k + 8 > |data| then HeaderSizeField else ArchiveSizeField
  }

  /** The archive emitted for a match at `k`, numbered `index`. */
  predicate EmittedFor(data: seq<Byte>, a: Archive, index: nat, k: nat)
    requires Readable(data, k)
  {
    a == Archive(index, k, Min(ArchiveSizeAt(data, k), |data| - k))
  }

  /** The signature cannot overlap itself: four bytes past an occurrence is
      the earliest place the next one can start. */
  lemma SignatureDoesNotOverlapItself(data: seq<Byte>, m: nat, k: nat)
    requires IsSigAt(data, m) && m < k < m + 4
    ensures !IsSigAt(data, k)
  {
    assert data[k] == data[m..m + 4][k - m] == Signature[k - m];
    assert k + 4 <= |data| ==> data[k..k + 4][0] == data[k];
  }

  /** The two header reads of the scan agree with the field readers above. */
  lemma HeaderReads(data: seq<Byte>, m: nat)
    ensures UnpackU32(data, m + 4).Some? <==> m + 8 <= |data|
    ensures UnpackU32(data, m + 8).Some? <==> Readable(data, m)
    ensures Readable(data, m) ==> UnpackU32(data, m + 4) == Some(HeaderSizeAt(data, m))
    ensures Readable(data, m) ==> UnpackU32(data, m + 8) == Some(ArchiveSizeAt(data, m))
  {
  }

  /** One step of the scan resumed at `pos`: what happens at the next
      match. */
  lemma CarveFromStep(data: seq<Byte>, pos: nat, done: seq<Archive>)
    ensures NextMatch(data, pos).None? ==> CarveFrom(data, pos, done) == Scan(done, Completed(|done|))
    ensures NextMatch(data, pos).Some? ==>
      var m := NextMatch(data, pos).value;
      CarveFrom(data, pos, done) ==
        if !Readable(data, m) then Scan(done, HeaderUnreadable(m, FailingField(data, m)))
        else if Accepts(HeaderSizeAt(data, m), ArchiveSizeAt(data, m)) then
          CarveFrom(data, m + 4, done + [Archive(|done|, m, Min(ArchiveSizeAt(data, m), |data| - m))])
        else CarveFrom(data, m + 4, done)
  {
    if NextMatch(data, pos).Some? {
      HeaderReads(data, NextMatch(data, pos).value);
    }
  }

  /** How a scan resumed at `pos` ends: normally only when every occurrence
      from `pos` on is readable, reporting the number of archives emitted, and
      otherwise with the error of the first occurrence that is not. */
  lemma {:induction false} OutcomeFrom(data: seq<Byte>, pos: nat, done: seq<Archive>)
    decreases |data| - pos
    ensures var r := CarveFrom(data, pos, done);
      r.outcome.Completed? ==>
        r.outcome.count == |r.archives| &&
        forall k :: pos <= k && IsSigAt(data, k) ==> Readable(data, k)
    ensures var r := CarveFrom(data, pos, done);
      r.outcome.HeaderUnreadable? ==>
        pos <= r.outcome.sigAt && IsSigAt(data, r.outcome.sigAt) &&
        !Readable(data, r.outcome.sigAt) &&
        r.outcome.field == FailingField(data, r.outcome.sigAt) &&
        forall k :: pos <= k < r.outcome.sigAt && IsSigAt(data, k) ==> Readable(data, k)
  {
    CarveFromStep(data, pos, done);
    NextMatchIsFirst(data, pos);
    if NextMatch(data, pos).Some? {
      var m := NextMatch(data, pos).value;
      if Readable(data, m) {
        var next := if Accepts(HeaderSizeAt(data, m), ArchiveSizeAt(data, m))
          then done + [Archive(|done|, m, Min(ArchiveSizeAt(data, m), |data| - m))]
          else done;
        OutcomeFrom(data, m + 4, next);
        forall k | pos <= k < m + 4 && IsSigAt(data, k)
          ensures Readable(data, k)
        {
          if m < k { SignatureDoesNotOverlapItself(data, m, k); }
        }
      }
    }
  }

  /** A resumed scan keeps the archives emitted before it, in front. */
  lemma {:induction false} KeepsDone(data: seq<Byte>, pos: nat, done: seq<Archive>)
    decreases |data| - pos
    ensures var r := CarveFrom(data, pos, done);
      |done| <= |r.archives| && r.archives[..|done|] == done
  {
    CarveFromStep(data, pos, done);
    if NextMatch(data, pos).Some? {
      var m := NextMatch(data, pos).value;
      if Readable(data, m) {
        if Accepts(HeaderSizeAt(data, m), ArchiveSizeAt(data, m)) {
          var next := done + [Archive(|done|, m, Min(ArchiveSizeAt(data, m), |data| - m))];
          KeepsDone(data, m + 4, next);
          var r := CarveFrom(data, m + 4, next);
          assert r.archives[..|done|] == r.archives[..|next|][..|done|];
        } else {
          KeepsDone(data, m + 4, done);
        }
      }
    }
  }

  /** What is known of the archive numbered `index` emitted by a scan
      resumed at `pos` that ended with `outcome`. */
  predicate WellEmitted(data: seq<Byte>, pos: nat, outcome: Outcome, a: Archive, index: nat)
  {
    pos <= a.start && Genuine(data, a.start) &&
    EmittedFor(data, a, index, a.start) && Reached(outcome, a.start)
  }

  /** Every archive a scan resumed at `pos` emits is the clamped extent of a
      genuine match at or after `pos` that the scan reached, numbered by its
      place in the list. */
  lemma {:induction false} ArchivesFrom(data: seq<Byte>, pos: nat, done: seq<Archive>)
    decreases |data| - pos
    ensures var r := CarveFrom(data, pos, done);
      forall i :: |done| <= i < |r.archives| ==> WellEmitted(data, pos, r.outcome, r.archives[i], i)
  {
    var next := NextMatch(data, pos);
    if next.Some? && Readable(data, next.value) {
      var m := next.value;
      if Accepts(HeaderSizeAt(data, m), ArchiveSizeAt(data, m)) {
        var head := Archive(|done|, m, Min(ArchiveSizeAt(data, m), |data| - m));
        ArchivesFrom(data, m + 4, done + [head]);
        OutcomeFrom(data, m + 4, done + [head]);
        KeepsDone(data, m + 4, done + [head]);
        AcceptedArchives(data, pos, done, m);
      } else {
        ArchivesFrom(data, m + 4, done);
        RejectedArchives(data, pos, done, m);
      }
    } else {
      CarveFromStep(data, pos, done);
    }
  }

  /** The inductive step of `ArchivesFrom` at an accepted match `m`. */
  lemma AcceptedArchives(data: seq<Byte>, pos: nat, done: seq<Archive>, m: nat)
    requires NextMatch(data, pos) == Some(m) && Readable(data, m)
    requires Accepts(HeaderSizeAt(data, m), ArchiveSizeAt(data, m))
    requires var next := done + [Archive(|done|, m, Min(ArchiveSizeAt(data, m), |data| - m))];
      var r := CarveFrom(data, m + 4, next);
      (forall i :: |next| <= i < |r.archives| ==> WellEmitted(data, m + 4, r.outcome, r.archives[i], i)) &&
      (r.outcome.HeaderUnreadable? ==> m + 4 <= r.outcome.sigAt) &&
      |next| <= |r.archives| && r.archives[..|next|] == next
    ensures var r := CarveFrom(data, pos, done);
      forall i :: |done| <= i < |r.archives| ==> WellEmitted(data, pos, r.outcome, r.archives[i], i)
  {
    var head := Archive(|done|, m, Min(ArchiveSizeAt(data, m), |data| - m));
    var next := done + [head];
    CarveFromStep(data, pos, done);
    assert CarveFrom(data, pos, done) == CarveFrom(data, m + 4, next);
    var r := CarveFrom(data, m + 4, next);
    assert r.archives[|done|] == r.archives[..|next|][|done|] == head;
    forall i | |done| <= i < |r.archives|
      ensures WellEmitted(data, pos, r.outcome, r.archives[i], i)
    {
      if i > |done| {
        assert WellEmitted(data, m + 4, r.outcome, r.archives[i], i);
      }
    }
  }

  /** The inductive step of `ArchivesFrom` at a rejected match `m`. */
  lemma RejectedArchives(data: seq<Byte>, pos: nat, done: seq<Archive>, m: nat)
    requires NextMatch(data, pos) == Some(m) && Readable(data, m)
    requires !Accepts(HeaderSizeAt(data, m), ArchiveSizeAt(data, m))
    requires var r := CarveFrom(data, m + 4, done);
      forall i :: |done| <= i < |r.archives| ==> WellEmitted(data, m + 4, r.outcome, r.archives[i], i)
    ensures var r := CarveFrom(data, pos, done);
      forall i :: |done| <= i < |r.archives| ==> WellEmitted(data, pos, r.outcome, r.archives[i], i)
  {
    CarveFromStep(data, pos, done);
    assert CarveFrom(data, pos, done) == CarveFrom(data, m + 4, done);
    var r := CarveFrom(data, m + 4, done);
    forall i | |done| <= i < |r.archives|
      ensures WellEmitted(data, pos, r.outcome, r.archives[i], i)
    {
      assert WellEmitted(data, m + 4, r.outcome, r.archives[i], i);
    }
  }

  /** The starts of `archives` are increasing, at least four bytes apart. */
  predicate StartsApart(archives: seq<Archive>)
  {
    forall i, j :: 0 <= i < j < |archives| ==> archives[i].start + 4 <= archives[j].start
  }

  /** A scan resumed at `pos`, after archives that all start four bytes or
      more before `pos` in increasing order, keeps the starts increasing. */
  lemma {:induction false} StartsIncreaseFrom(data: seq<Byte>, pos: nat, done: seq<Archive>)
    decreases |data| - pos
    requires StartsApart(done)
    requires forall i :: 0 <= i < |done| ==> done[i].start + 4 <= pos
    ensures StartsApart(CarveFrom(data, pos, done).archives)
  {
    CarveFromStep(data, pos, done);
    if NextMatch(data, pos).Some? {
      var m := NextMatch(data, pos).value;
      if Readable(data, m) {
        if Accepts(HeaderSizeAt(data, m), ArchiveSizeAt(data, m)) {
          var next := done + [Archive(|done|, m, Min(ArchiveSizeAt(data, m), |data| - m))];
          assert StartsApart(next) by {
            forall i, j | 0 <= i < j < |next|
              ensures next[i].start + 4 <= next[j].start
            {
              if j == |done| { assert next[i] == done[i]; }
            }
          }
          StartsIncreaseFrom(data, m + 4, next);
        } else {
          StartsIncreaseFrom(data, m + 4, done);
        }
      }
    }
  }

  /** A scan resumed at `pos` emits every genuine match at or after `pos`
      that it reaches. */
  lemma {:induction false} CompleteFrom(data: seq<Byte>, pos: nat, done: seq<Archive>, k: nat)
    decreases |data| - pos
    requires pos <= k && Genuine(data, k)
    requires Reached(CarveFrom(data, pos, done).outcome, k)
    ensures var r := CarveFrom(data, pos, done);
      exists i :: 0 <= i < |r.archives| && r.archives[i].start == k
  {
    CarveFromStep(data, pos, done);
    NextMatchIsFirst(data, pos);
    var m := NextMatch(data, pos).value;
    assert m <= k;
    var r := CarveFrom(data, pos, done);
    var head := Archive(|done|, m, Min(ArchiveSizeAt(data, m), |data| - m));
    if m == k {
      KeepsDone(data, m + 4, done + [head]);
      assert r.archives[|done|] == r.archives[..|done| + 1][|done|] == head;
    } else {
      if k < m + 4 { SignatureDoesNotOverlapItself(data, m, k); }
      assert Readable(data, m);
      if Accepts(HeaderSizeAt(data, m), ArchiveSizeAt(data, m)) {
        CompleteFrom(data, m + 4, done + [head], k);
      } else {
        CompleteFrom(data, m + 4, done, k);
      }
    }
  }

  /** Every archive starts at a signature whose `header_size` is 32 and
      whose `archive_size` is above 1000; its length is `archive_size`
      clamped to the end of the blob, so it lies inside the blob and is not
      empty; the i-th archive emitted carries index i; and it lies before
      the signature at which the scan raised, if it did. */
  lemma EmittedArchivesAreGenuine(data: seq<Byte>, i: nat)
    requires i < |Carve(data).archives|
    ensures var a := Carve(data).archives[i];
      a.index == i &&
      IsSigAt(data, a.start) && Readable(data, a.start) &&
      HeaderSizeAt(data, a.start) == MpqV1HeaderSize &&
      ArchiveSizeAt(data, a.start) > MinArchiveSize &&
      a.length == Min(ArchiveSizeAt(data, a.start), |data| - a.start) &&
      0 < a.length && a.start + a.length <= |data| &&
      Reached(Carve(data).outcome, a.start)
  {
    var r := Carve(data);
    assert r == CarveFrom(data, 0, []);
    ArchivesFrom(data, 0, []);
    assert WellEmitted(data, 0, r.outcome, r.archives[i], i);
  }

  /** The clamping law: an archive whose declared size runs past the end of
      the blob is cut off exactly at the end of the blob, and one that fits
      keeps its declared size. */
  lemma ClampingLaw(data: seq<Byte>, i: nat)
    requires i < |Carve(data).archives|
    ensures var a := Carve(data).archives[i];
      Readable(data, a.start) &&
      (ArchiveSizeAt(data, a.start) > |data| - a.start ==> a.start + a.length == |data|) &&
      (ArchiveSizeAt(data, a.start) <= |data| - a.start ==> a.length == ArchiveSizeAt(data, a.start))
  {
    EmittedArchivesAreGenuine(data, i);
  }

  /** A match whose `header_size` is not 32, or whose `archive_size` is 1000
      or less, is never emitted. */
  lemma RejectedNeverEmitted(data: seq<Byte>, k: nat)
    requires IsSigAt(data, k) && Readable(data, k)
    requires !Accepts(HeaderSizeAt(data, k), ArchiveSizeAt(data, k))
    ensures forall i :: 0 <= i < |Carve(data).archives| ==> Carve(data).archives[i].start != k
  {
    forall i | 0 <= i < |Carve(data).archives| ensures Carve(data).archives[i].start != k {
      EmittedArchivesAreGenuine(data, i);
    }
  }

  /** Archives are emitted in strictly increasing order of start offset, at
      least four bytes apart. */
  lemma StartsStrictlyIncrease(data: seq<Byte>)
    ensures StartsApart(Carve(data).archives)
  {
    StartsIncreaseFrom(data, 0, []);
  }

  /** No genuine match is skipped: each one that lies before the point where
      the scan raised (anywhere, if it did not) is emitted. */
  lemma NoGenuineMatchSkipped(data: seq<Byte>, k: nat)
    requires Genuine(data, k) && Reached(Carve(data).outcome, k)
    ensures exists i :: 0 <= i < |Carve(data).archives| && Carve(data).archives[i].start == k
  {
    CompleteFrom(data, 0, [], k);
  }

  /** The scan raises exactly when the signature occurs fewer than twelve
      bytes before the end of the blob, and then it raises at the first such
      occurrence, in the read that runs past the end. */
  lemma HeaderReadFailsIff(data: seq<Byte>)
    ensures Carve(data).outcome.HeaderUnreadable? <==>
      exists k :: IsSigAt(data, k) && !Readable(data, k)
    ensures var o := Carve(data).outcome;
      o.HeaderUnreadable? ==>
        IsSigAt(data, o.sigAt) && !Readable(data, o.sigAt) &&
        o.field == FailingField(data, o.sigAt) &&
        forall k: nat :: k < o.sigAt && IsSigAt(data, k) ==> Readable(data, k)
  {
    OutcomeFrom(data, 0, []);
  }

  /** A scan that completes reports as its count the number of archives it
      emitted. */
  lemma CountIsNumberEmitted(data: seq<Byte>)
    requires Carve(data).outcome.Completed?
    ensures Carve(data).outcome.count == |Carve(data).archives|
  {
    OutcomeFrom(data, 0, []);
  }

  /** A blob in which the signature does not occur, the empty blob among
      them, yields no archive and a count of zero. */
  lemma NoSignatureNoArchives(data: seq<Byte>)
    requires forall k :: !IsSigAt(data, k)
    ensures Carve(data) == Scan([], Completed(0))
  {
  }

  /** The bytes written to an archive's file: its range of the blob. */
  function Payload(data: seq<Byte>, a: Archive): (bytes: seq<Byte>)
    requires a.start + a.length <= |data|
    ensures |bytes| == a.length
  {
    data[a.start..a.start + a.length]
  }

  /** Each archive's file holds at least twelve bytes of the blob, starting
      with the signature and a `header_size` of 32. */
  lemma PayloadStartsWithHeader(data: seq<Byte>, i: nat)
    requires i < |Carve(data).archives|
    ensures var a := Carve(data).archives[i];
      a.start + a.length <= |data| && 12 <= a.length &&
      Payload(data, a)[..4] == Signature &&
      DecodeU32(Payload(data, a)[4..8]) == MpqV1HeaderSize
  {
    EmittedArchivesAreGenuine(data, i);
    var a := Carve(data).archives[i];
    assert Readable(data, a.start) && 12 <= a.length;
    var p := Payload(data, a);
    assert forall t :: 0 <= t < 8 ==> p[t] == data[a.start + t];
    assert p[..4] == data[a.start..a.start + 4];
    assert p[4..8] == data[a.start + 4..a.start + 8];
  }
}
