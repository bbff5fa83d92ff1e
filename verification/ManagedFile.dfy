/**
  `ManagedFile`: replace one file of the configuration directory so that a crash at any
  step, any failing call, and another process editing the file before the exchange never
  lose the only copy of the previous contents.
*/
module ManagedFiles {
  import opened Bytes
  import opened Directories

  datatype Outcome = Done | WriteFailed | RecoveryRequired

  datatype Contents = Contents(identity: FileIdentity, bytes: Octets)

  /** The bytes a reader gets from a name: nothing when it is unbound. */
  function BytesOf(version: Version): Octets {
    if version.Some? then version.value.1.bytes else []
  }

  /** `version` holds exactly the bytes and permissions the call was asked to install. */
  ghost predicate Written(version: Version, bytes: Octets, mode: nat) {
    version.Some? && version.value.1.regular && version.value.1.bytes == bytes && version.value.1.mode == mode
  }

  /** One request to replace `target`; `removes` is the effective flag: an absent file is never removed. */
  datatype Job = Job(target: string, temporary: string, expected: FileIdentity, removes: bool, bytes: Octets, mode: nat)
  {
    /** The state the call wants: the file gone, or bound to a flushed inode with the new bytes. */
    ghost predicate Intended(image: Image)
      requires image.Valid()
    {
      if removes then target !in image.entries
      else Written(image.At(target), bytes, mode) && image.entries[target] in image.flushed
    }

    /**
      Nothing is lost in this image: `previous`, the version the target had when the rename was
      issued, is still at the target or under the temporary name, or the intended state stands in
      for it. Only a version the caller expected may be stood in for.
    */
    ghost predicate Safe(image: Image, previous: Version)
      requires image.Valid()
    {
      || image.At(target) == previous
      || (previous.Some? && image.At(temporary) == previous)
      || (IdentityOf(previous) == expected && Intended(image))
    }

    /** The target shows the previous version, the complete new one, or nothing if it is to go. */
    ghost predicate Known(image: Image, previous: Version)
      requires image.Valid()
    {
      || image.At(target) == previous
      || Written(image.At(target), bytes, mode)
      || (removes && target !in image.entries)
    }

    /** What every image of the installation satisfies, `base` being the one the rename was issued in. */
    ghost predicate Undisturbed(image: Image, base: Image) {
      && image.Valid() && base.Valid()
      && Safe(image, base.At(target)) && Known(image, base.At(target))
      && (!removes && target in base.entries ==> target in image.entries)
      && image.SameElsewhere(base, target, temporary)
    }

    ghost predicate AllUndisturbed(history: seq<Image>, from: nat, base: Image) {
      from <= |history| && forall i :: from <= i < |history| ==> Undisturbed(history[i], base)
    }

    /** The temporary file is complete: right bytes, right mode, flushed. */
    ghost predicate Prepared(image: Image) {
      && image.Valid() && target != temporary
      && Written(image.At(temporary), bytes, mode) && image.entries[temporary] in image.flushed
    }

    /** Images that only worked on the temporary file have lost nothing either. */
    lemma PreparationIsSafe(history: seq<Image>, from: nat, upto: nat, before: Image, base: Image)
      requires from <= upto <= |history| && target != temporary
      requires before.Valid() && base.Valid()
      requires forall i :: from <= i < upto ==> history[i].Valid() && history[i].SameElsewhere(before, temporary, temporary)
      requires base.SameElsewhere(before, temporary, temporary)
      ensures AllUndisturbed(history[..upto], from, base)
    {
      forall i | from <= i < upto ensures Undisturbed(history[i], base) {
        assert history[i].At(target) == before.At(target) == base.At(target);
      }
    }

    lemma StillIsSafe(base: Image)
      requires base.Valid()
      ensures Undisturbed(base, base)
    {}

    lemma ExchangeIsSafe(base: Image)
      requires Prepared(base)
      ensures Undisturbed(base, base) && Undisturbed(base.Without(temporary), base)
      ensures target in base.entries ==> Undisturbed(base.Swap(temporary, target), base)
    {}

    lemma SettleIsSafe(base: Image)
      requires Prepared(base) && target in base.entries && base.IdentityAt(target) == expected
      ensures var exchanged := base.Swap(temporary, target);
              && exchanged.Swap(temporary, target) == base
              && exchanged.Without(target).Move(temporary, target) == base.Without(temporary)
              && (removes ==> Undisturbed(exchanged.Without(target), base) && Intended(exchanged.Without(target))
                              && Undisturbed(exchanged.Without(target).Without(temporary), base))
              && (!removes ==> Intended(exchanged) && Undisturbed(exchanged.Without(temporary), base))
    {
      SwapTwice(base, temporary, target);
      SwapUnlinkMove(base, temporary, target);
    }

    lemma NewIsSafe(base: Image)
      requires Prepared(base) && target !in base.entries && expected.Missing? && !removes
      ensures var moved := base.Move(temporary, target);
              Undisturbed(moved, base) && Intended(moved) && moved.Without(temporary) == moved
    {
      var moved := base.Move(temporary, target);
      assert moved.Without(temporary).entries == moved.entries;
    }
  }

  function IdentityOf(version: Version): FileIdentity {
    if version.Some? then Identify(version.value.0, version.value.1) else Missing
  }

  ghost predicate EmptyFile(version: Version) {
    version.Some? && version.value.1.regular && version.value.1.bytes == []
  }

  // ---- reading while others write

  /** The inode with this identity's number has all of this identity. */
  predicate HasIdentity(image: Image, identity: FileIdentity) {
    identity.Present? && identity.id in image.inodes && Identify(identity.id, image.inodes[identity.id]) == identity
  }

  /**
    What an editor does to an inode shows in its identity: an inode that has the same identity at two
    moments has not changed in between.
  */
  ghost predicate EditsShow(moments: seq<Image>, id: InodeId) {
    forall i, j, k :: 0 <= i <= j <= k < |moments| && id in moments[i].inodes && id in moments[k].inodes
      && Identify(id, moments[i].inodes[id]) == Identify(id, moments[k].inodes[id]) && id in moments[j].inodes
      ==> moments[j].inodes[id] == moments[i].inodes[id]
  }

  /** An inode with the same identity before and after, whose edits show, is steady in between. */
  lemma ShownIsSteady(moments: seq<Image>, identity: FileIdentity)
    requires 4 <= |moments| && HasIdentity(moments[0], identity) && EditsShow(moments, identity.id)
    requires HasIdentity(moments[|moments| - 1], identity)
    requires forall k :: 2 <= k < |moments| - 1 ==> identity.id in moments[k].inodes
    ensures Steady(identity.id, moments[2..|moments| - 1], moments[0].inodes[identity.id].bytes)
  {
    var pieces := moments[2..|moments| - 1];
    forall k | 0 <= k < |pieces| ensures pieces[k].inodes[identity.id].bytes == moments[0].inodes[identity.id].bytes {
      UnchangedBetween(moments, identity, k + 2);
    }
  }

  /**
    Without that, a torn read: between two pieces an editor writes over the file in place and sets the
    modification time back; every check passes, and the first byte read is old, the second one new.
  */
  lemma TornRead() returns (moments: seq<Image>, id: InodeId, ends: seq<nat>)
    ensures |moments| == 5 && |ends| == 2 && forall k :: 0 <= k < 5 ==> moments[k].Valid()
    ensures exists identity :: HasIdentity(moments[0], identity) && HasIdentity(moments[4], identity) && identity.id == id
    ensures forall k :: 0 <= k < 5 ==>
              id in moments[k].inodes && moments[k].inodes[id].bytes != Pieced(id, moments[2..4], ends)
    ensures ends[1] == |moments[3].inodes[id].bytes|
    ensures !EditsShow(moments, id)
  {
    id := InodeId(0, 0);
    var old0, new1 := Inode(true, 0, 384, [0x61, 0x61]), Inode(true, 0, 384, [0x62, 0x62]);
    var before, after := Image(map["t" := id], map[id := old0], {}), Image(map["t" := id], map[id := new1], {});
    moments := [before, before, before, after, after];
    ends := [1, 2];
    assert moments[2..4] == [before, after];
    assert Pieced(id, [before], [1]) == [0x61] by {
      assert Pieced(id, [], []) == [];
    }
    assert [before, after][..1] == [before] && ends[..1] == [1];
    assert Pieced(id, moments[2..4], ends) == [0x61, 0x62];
    assert HasIdentity(moments[0], Identify(id, old0)) && HasIdentity(moments[4], Identify(id, old0));
    assert moments[0].inodes[id] != moments[4].inodes[id] && Identify(id, moments[0].inodes[id]) == Identify(id, moments[4].inodes[id]);
  }

  lemma UnchangedBetween(moments: seq<Image>, identity: FileIdentity, k: nat)
    requires k < |moments| && HasIdentity(moments[0], identity) && EditsShow(moments, identity.id)
    requires HasIdentity(moments[|moments| - 1], identity) && identity.id in moments[k].inodes
    ensures moments[k].inodes[identity.id] == moments[0].inodes[identity.id]
  {}

  /** What one `read` at an offset yields, no further than `upto`. */
  function Piece(image: Image, fd: InodeId, offset: nat, upto: nat): Octets {
    if fd !in image.inodes then []
    else
      var bytes := image.inodes[fd].bytes;
      var end := if upto <= |bytes| then upto else |bytes|;
      if offset <= end then bytes[offset..end] else []
  }

  /** What reading piece by piece yields when the file changes underneath. */
  function Pieced(fd: InodeId, moments: seq<Image>, ends: seq<nat>): Octets {
    if moments == [] || |ends| < |moments| then []
    else
      var last := |moments| - 1;
      var before := Pieced(fd, moments[..last], ends[..last]);
      before + Piece(moments[last], fd, |before|, ends[last])
  }

  /** Every change of the inode gives it a later modification time. */
  ghost predicate TimesGrow(moments: seq<Image>, id: InodeId) {
    forall i, k :: 0 <= i <= k < |moments| && id in moments[i].inodes && id in moments[k].inodes ==>
      && moments[i].inodes[id].modified <= moments[k].inodes[id].modified
      && (moments[i].inodes[id] != moments[k].inodes[id] ==> moments[i].inodes[id].modified < moments[k].inodes[id].modified)
  }

  /** Modification times that only grow make edits show. */
  lemma GrowingTimesShow(moments: seq<Image>, id: InodeId)
    requires TimesGrow(moments, id)
    ensures EditsShow(moments, id)
  {}

  /** What the pieces are read from: it ends as `bytes`, and before it was never anything but a beginning of them. */
  ghost predicate Steady(fd: InodeId, pieces: seq<Image>, bytes: Octets) {
    && pieces != [] && (forall k :: 0 <= k < |pieces| ==> fd in pieces[k].inodes && pieces[k].inodes[fd].bytes <= bytes)
    && pieces[|pieces| - 1].inodes[fd].bytes == bytes
  }

  /** Where the pieces end: anywhere, but the last one at the end of the file. */
  ghost predicate Complete(fd: InodeId, pieces: seq<Image>, ends: seq<nat>) {
    && pieces != [] && |ends| == |pieces| && fd in pieces[|pieces| - 1].inodes
    && ends[|ends| - 1] == |pieces[|pieces| - 1].inodes[fd].bytes|
  }

  /** Some reading of the pieces gives these bytes. */
  ghost predicate Yields(fd: InodeId, pieces: seq<Image>, bytes: Octets) {
    exists ends: seq<nat> :: Complete(fd, pieces, ends) && Pieced(fd, pieces, ends) == bytes
  }

  lemma PieceContinues(image: Image, fd: InodeId, before: Octets, upto: nat, bytes: Octets)
    requires fd in image.inodes && image.inodes[fd].bytes <= bytes && before <= bytes
    ensures before + Piece(image, fd, |before|, upto) <= bytes
    ensures image.inodes[fd].bytes == bytes && upto == |bytes| ==> before + Piece(image, fd, |before|, upto) == bytes
  {}

  lemma {:induction false} PiecesWithin(fd: InodeId, pieces: seq<Image>, ends: seq<nat>, bytes: Octets)
    requires |ends| == |pieces| && forall k :: 0 <= k < |pieces| ==> fd in pieces[k].inodes && pieces[k].inodes[fd].bytes <= bytes
    ensures Pieced(fd, pieces, ends) <= bytes
    ensures Steady(fd, pieces, bytes) && Complete(fd, pieces, ends) ==> Pieced(fd, pieces, ends) == bytes
  {
    hide Piece;
    if pieces != [] {
      var last := |pieces| - 1;
      PiecesWithin(fd, pieces[..last], ends[..last], bytes);
      PieceContinues(pieces[last], fd, Pieced(fd, pieces[..last], ends[..last]), ends[last], bytes);
    }
  }

  lemma SteadyReads(fd: InodeId, pieces: seq<Image>, ends: seq<nat>, bytes: Octets)
    requires Steady(fd, pieces, bytes) && Complete(fd, pieces, ends)
    ensures Pieced(fd, pieces, ends) == bytes
  {
    hide Pieced;
    PiecesWithin(fd, pieces, ends, bytes);
  }

  lemma OnePieceMore(fd: InodeId, pieces: seq<Image>, ends: seq<nat>, n: nat)
    requires 0 < n <= |pieces| == |ends|
    ensures var before := Pieced(fd, pieces[..n - 1], ends[..n - 1]);
            Pieced(fd, pieces[..n], ends[..n]) == before + Piece(pieces[n - 1], fd, |before|, ends[n - 1])
  {
    hide Piece;
    assert pieces[..n][..n - 1] == pieces[..n - 1] && ends[..n][..n - 1] == ends[..n - 1];
  }

  /** A reading that takes nothing before moment `k`, all there is then, and from then on only what is new at the end. */
  ghost function Greedy(fd: InodeId, pieces: seq<Image>, k: nat): (ends: seq<nat>)
    requires k < |pieces| && forall i :: 0 <= i < |pieces| ==> fd in pieces[i].inodes
    ensures |ends| == |pieces|
  {
    seq(|pieces|, i requires 0 <= i < |pieces| => if i == k || i == |pieces| - 1 then |pieces[i].inodes[fd].bytes| else 0)
  }

  lemma GreedyStep(fd: InodeId, pieces: seq<Image>, k: nat, n: nat, before: Octets)
    requires k < |pieces| && n < |pieces| - 1 && forall i :: 0 <= i < |pieces| ==> fd in pieces[i].inodes
    requires before == if n <= k then [] else pieces[k].inodes[fd].bytes
    ensures before + Piece(pieces[n], fd, |before|, Greedy(fd, pieces, k)[n]) == if n + 1 <= k then [] else pieces[k].inodes[fd].bytes
  {}

  lemma {:induction false} GreedyReads(fd: InodeId, pieces: seq<Image>, k: nat, n: nat)
    requires k < |pieces| && n < |pieces| && forall i :: 0 <= i < |pieces| ==> fd in pieces[i].inodes
    ensures Pieced(fd, pieces[..n], Greedy(fd, pieces, k)[..n]) == if n <= k then [] else pieces[k].inodes[fd].bytes
  {
    hide Piece, Greedy;
    if n == 0 {
      assert pieces[..0] == [];
    } else {
      hide Pieced;
      GreedyReads(fd, pieces, k, n - 1);
      OnePieceMore(fd, pieces, Greedy(fd, pieces, k), n);
      GreedyStep(fd, pieces, k, n - 1, Pieced(fd, pieces[..n - 1], Greedy(fd, pieces, k)[..n - 1]));
    }
  }

  /**
    Reading piece by piece can only give `bytes`, wherever the pieces end, exactly when the file held
    nothing but beginnings of them while it was read, and all of them in the end.
  */
  lemma ReadsIffSteady(fd: InodeId, pieces: seq<Image>, bytes: Octets)
    requires pieces != [] && forall i :: 0 <= i < |pieces| ==> fd in pieces[i].inodes
    ensures (forall read: Octets :: Yields(fd, pieces, read) ==> read == bytes) <==> Steady(fd, pieces, bytes)
  {
    hide Pieced;
    if Steady(fd, pieces, bytes) {
      forall read: Octets | Yields(fd, pieces, read) ensures read == bytes {
        var ends: seq<nat> :| Complete(fd, pieces, ends) && Pieced(fd, pieces, ends) == read;
        SteadyReads(fd, pieces, ends, bytes);
      }
    }
    if forall read: Octets :: Yields(fd, pieces, read) ==> read == bytes {
      GreedyIsAll(fd, pieces, |pieces| - 1, bytes);
      forall k | 0 <= k < |pieces| ensures pieces[k].inodes[fd].bytes <= bytes {
        GreedyIsAll(fd, pieces, k, bytes);
      }
    }
  }

  lemma GreedyIsAll(fd: InodeId, pieces: seq<Image>, k: nat, bytes: Octets)
    requires k < |pieces| && forall i :: 0 <= i < |pieces| ==> fd in pieces[i].inodes
    requires forall read: Octets :: Yields(fd, pieces, read) ==> read == bytes
    ensures pieces[k].inodes[fd].bytes <= bytes && (k == |pieces| - 1 ==> pieces[k].inodes[fd].bytes == bytes)
  {
    var last := |pieces| - 1;
    var ends := Greedy(fd, pieces, k);
    GreedyReads(fd, pieces, k, last);
    assert Complete(fd, pieces, ends);
    assert Yields(fd, pieces, Pieced(fd, pieces, ends));
  }

  // ---- which failing calls lead to which outcome

  const READING: set<Site> := {LookToRead, OpenToRead, ReadOn, LookRead}
  const CLEANING: set<Site> := {RemoveTemporary, LookRemoved, SyncRemoved, LookStillRemoved}

  /** The calls that take an installation back; a file that was unlinked in between leaves nothing to look at. */
  function TakingBack(removes: bool): set<Site> {
    if removes then {PutBack, LookPutBack, SyncPutBack} else {PutBack, LookPutBack, LookSpare, SyncPutBack}
  }

  /** From the moment both names hold what they should. */
  function AfterLook(calls: Calls, removes: bool): Outcome {
    if removes && !calls.Works(RemoveInstalled) then RecoveryRequired
    else if calls.Works(SyncInstalled) then Done
    else if calls.AllWork(TakingBack(removes)) then WriteFailed
    else RecoveryRequired
  }

  /**
    What becomes of an exchange that met a regular file with the identity `met`: a file that somebody
    edited in place is put back, one that somebody replaced is kept for recovery.
  */
  function Exchanged(calls: Calls, met: FileIdentity, expected: FileIdentity): Option<Outcome> {
    if !calls.Works(Install) then Some(WriteFailed)
    else if !calls.AllWork({LookDisplaced, LookInstalled}) then Some(RecoveryRequired)
    else if met == expected then None
    else if met.SameInode(expected) && calls.AllWork(TakingBack(false)) then Some(WriteFailed)
    else Some(RecoveryRequired)
  }

  /** When nothing fails: the expected file is replaced, another version of it put back, another file kept for recovery. */
  lemma ExchangedTells(met: FileIdentity, expected: FileIdentity)
    requires met.Present? && expected.Present?
    ensures Exchanged(NoneFails, met, expected)
            == if met == expected then None else if met.id == expected.id then Some(WriteFailed) else Some(RecoveryRequired)
  {}

  /** From the rename on, with nobody else at work. */
  function AfterCheck(calls: Calls, present: bool, removes: bool): Outcome {
    if !calls.Works(Install) then WriteFailed
    else if !calls.AllWork(if present then {LookDisplaced, LookInstalled} else {LookInstalled}) then RecoveryRequired
    else AfterLook(calls, removes)
  }

  /** From the creation of the temporary file on; `ready` says whether it was completed. */
  function AfterCreation(calls: Calls, ready: bool, present: bool, removes: bool): Outcome {
    var outcome := if ready && calls.AllWork({CheckParent, LookPrepared, LookExpected})
                   then AfterCheck(calls, present, removes) else WriteFailed;
    if outcome.RecoveryRequired? || calls.AllWork(CLEANING) then outcome else RecoveryRequired
  }

  /**
    How a replacement ends with nobody else at work, for every set of failing calls. `present` says
    whether there is a file to replace.
  */
  function OutcomeOf(calls: Calls, present: bool, removes: bool): Outcome {
    if !calls.AllWork({OpenParent, LookBefore}) || !calls.AllWork({CreateTemporary, SetMode}) then WriteFailed
    else AfterCreation(calls, calls.AllWork({WriteTemporary, LookWritten}), present, removes)
  }

  /**
    When nothing fails it succeeds. When one call fails: before the rename, and when the directory
    cannot be synced after it, the old file is there as before; only a look at an exchanged file, the
    unlinking, and the clean-up require recovery.
  */
  lemma OneFault(site: Site, present: bool, removes: bool)
    ensures OutcomeOf(NoneFails, present, removes) == Done
    ensures OutcomeOf(OnlyFail({site}), present, removes) ==
              if site in {OpenParent, LookBefore, CreateTemporary, SetMode, WriteTemporary, LookWritten,
                          CheckParent, LookPrepared, LookExpected, Install, SyncInstalled} then WriteFailed
              else if site in {LookInstalled, RemoveTemporary, LookRemoved, SyncRemoved, LookStillRemoved}
                      || (present && site == LookDisplaced) || (removes && site == RemoveInstalled) then RecoveryRequired
              else Done
  {}

  class ManagedFile {
    const directory: Directory
    const target: string

    constructor (directory: Directory, target: string)
      ensures this.directory == directory && this.target == target
    {
      this.directory := directory;
      this.target := target;
    }

    /**
      `read`, while others may work on the file: `moments` are the images in which its calls happen, in
      order. The first is that of `statat`, the second that of `openat`, the last that of `fstat`, and
      each one in between is that of a `read` of some piece, the last of them reading to the end.
      The bytes are those of the version that had the identity if the file was steady, and it is if
      edits show in the identity.
    */
    method ReadAcross(moments: seq<Image>) returns (r: Option<Contents>)
      requires 4 <= |moments| && forall k :: 0 <= k < |moments| ==> moments[k].Valid()
      ensures r.Some? ==> r.value.identity == moments[0].IdentityAt(target)
      ensures r.Some? && moments[0].At(target).Some? ==> moments[0].At(target).value.1.regular
      ensures r.Some? && r.value.identity.Missing? ==> r.value.bytes == []
      ensures r.Some? && r.value.identity.Present? ==>
                && var id := r.value.identity.id;
                && moments[1].At(target).Some? && moments[1].At(target).value.0 == id
                && HasIdentity(moments[|moments| - 1], r.value.identity)
                && Yields(id, moments[2..|moments| - 1], r.value.bytes)
                && (Steady(id, moments[2..|moments| - 1], BytesOf(moments[0].At(target))) ==>
                      r.value.bytes == BytesOf(moments[0].At(target)))
                && (EditsShow(moments, id) ==> r.value.bytes == BytesOf(moments[0].At(target)))
      ensures directory.calls.AllFail? ==> r.None?
      ensures r.None? && directory.calls.AllWork(READING) && (forall k :: 0 < k < |moments| ==> moments[k] == moments[0])
              ==> moments[0].At(target).Some? && !moments[0].At(target).value.1.regular
    {
      hide Steady, EditsShow, Pieced;
      var first, last := moments[0], moments[|moments| - 1];
      var failed := directory.Fault(LookToRead);
      if failed || (target in first.entries && !first.inodes[first.entries[target]].regular) {
        return None;
      }
      var identity := first.IdentityAt(target);
      if identity.Missing? {
        return Some(Contents(Missing, []));
      }
      failed := directory.Fault(OpenToRead);
      if failed || target !in moments[1].entries {
        return None;
      }
      var fd := moments[1].entries[target];
      var pieces := moments[2..|moments| - 1];
      var bytes;
      ghost var ends;
      bytes, ends := ReadPieces(fd, pieces);
      failed := directory.Fault(LookRead);
      if failed || bytes.None? || fd != identity.id || !HasIdentity(last, identity) {
        return None;
      }
      assert Complete(fd, pieces, ends);
      if Steady(fd, pieces, first.inodes[fd].bytes) {
        SteadyReads(fd, pieces, ends, first.inodes[fd].bytes);
      }
      if EditsShow(moments, fd) {
        ShownIsSteady(moments, identity);
        SteadyReads(fd, pieces, ends, first.inodes[fd].bytes);
      }
      r := Some(Contents(identity, bytes.value));
    }

    /** `read_to_end`: any number of pieces, the last of them up to the end. */
    method ReadPieces(fd: InodeId, pieces: seq<Image>) returns (r: Option<Octets>, ghost ends: seq<nat>)
      requires pieces != []
      ensures r.Some? ==>
                && |ends| == |pieces| && r.value == Pieced(fd, pieces, ends)
                && (forall k :: 0 <= k < |pieces| ==> fd in pieces[k].inodes)
                && ends[|ends| - 1] == |pieces[|pieces| - 1].inodes[fd].bytes|
      ensures directory.calls.Works(ReadOn) && (forall k :: 0 <= k < |pieces| ==> fd in pieces[k].inodes) ==> r.Some?
    {
      var bytes: Octets := [];
      ends := [];
      for k := 0 to |pieces|
        invariant |ends| == k && bytes == Pieced(fd, pieces[..k], ends)
        invariant forall i :: 0 <= i < k ==> fd in pieces[i].inodes
        invariant k == |pieces| ==> ends[k - 1] == |pieces[k - 1].inodes[fd].bytes|
      {
        var failed := directory.Fault(ReadOn);
        if failed || fd !in pieces[k].inodes {
          return None, [];
        }
        var upto: nat := *;
        if k == |pieces| - 1 {
          upto := |pieces[k].inodes[fd].bytes|;
        }
        assert pieces[..k + 1][..k] == pieces[..k] && (ends + [upto])[..k] == ends;
        bytes := bytes + Piece(pieces[k], fd, |bytes|, upto);
        ends := ends + [upto];
      }
      assert pieces[..|pieces|] == pieces;
      r := Some(bytes);
    }

    /** `read` with nobody else at work. */
    method Read() returns (r: Option<Contents>)
      requires directory.Valid()
      ensures r.Some? ==> r.value.identity == directory.image.IdentityAt(target)
      ensures r.Some? ==> r.value.bytes == BytesOf(directory.image.At(target))
      ensures r.Some? && directory.image.At(target).Some? ==> directory.image.At(target).value.1.regular
      ensures directory.calls.AllFail? ==> r.None?
      ensures r.None? && directory.calls.AllWork(READING) ==>
                && directory.image.At(target).Some? && !directory.image.At(target).value.1.regular
    {
      var image := directory.image;
      var pieces: int := *;
      var moments := seq(if pieces < 1 then 4 else pieces + 3, _ => image);
      assert EditsShow(moments, if target in image.entries then image.entries[target] else InodeId(0, 0));
      r := ReadAcross(moments);
    }

    /** `cleanup_temporary`: the name is gone, and durably so, or the caller must recover. */
    method CleanupTemporary(temporary: string) returns (ok: bool)
      requires directory.Valid()
      modifies directory
      ensures directory.Valid()
      ensures directory.Visited(|old(directory.history)|, {old(directory.image).Without(temporary)})
      ensures directory.Extends(old(directory.history))
      ensures directory.image in {old(directory.image), old(directory.image).Without(temporary)}
      ensures ok ==> temporary !in directory.image.entries && directory.durable == |directory.history| - 1
      ensures directory.calls.Scripted() ==> (ok <==> directory.calls.AllWork(CLEANING))
      ensures directory.calls.Works(RemoveTemporary) ==> temporary !in directory.image.entries
    {
      var outcome := directory.Unlink(temporary, RemoveTemporary);
      if outcome.Refused? {
        return false;
      }
      assert temporary !in directory.image.entries;
      ok := ConfirmAbsent(temporary, LookRemoved);
      if ok {
        ok := directory.Sync(SyncRemoved);
      }
      if ok {
        ok := ConfirmAbsent(temporary, LookStillRemoved);
      }
    }

    method ConfirmAbsent(name: string, site: Site) returns (absent: bool)
      requires directory.Valid()
      ensures absent ==> name !in directory.image.entries
      ensures directory.calls.Works(site) && name !in directory.image.entries ==> absent
      ensures directory.calls.Fails(site) ==> !absent
    {
      var identity := directory.Stat(name, site);
      absent := identity == Some(Missing);
    }

    /** Undo an exchange, and confirm that both names hold what they held before it. */
    method RollBackExchange(temporary: string, wanted: FileIdentity, spare: FileIdentity) returns (ok: bool)
      requires directory.Valid()
      requires target in directory.image.entries && temporary in directory.image.entries
      modifies directory
      ensures directory.Valid()
      ensures directory.Visited(|old(directory.history)|, {old(directory.image).Swap(temporary, target)})
      ensures directory.Extends(old(directory.history))
      ensures directory.image in {old(directory.image), old(directory.image).Swap(temporary, target)}
      ensures ok ==> directory.image == old(directory.image).Swap(temporary, target)
      ensures ok ==> directory.durable == |directory.history| - 1
      ensures directory.calls.Scripted() && BothRegular(old(directory.image), temporary)
              && old(directory.image).IdentityAt(temporary) == wanted && old(directory.image).IdentityAt(target) == spare
              ==> (ok <==> directory.calls.AllWork(TakingBack(false)))
      ensures directory.calls.Works(PutBack) ==> directory.image == old(directory.image).Swap(temporary, target)
    {
      ok := directory.ExchangeNames(temporary, target, PutBack);
      if ok {
        var identity := directory.Stat(target, LookPutBack);
        ok := identity == Some(wanted);
      }
      if ok {
        var identity := directory.Stat(temporary, LookSpare);
        ok := identity == Some(spare);
      }
      if ok {
        ok := directory.Sync(SyncPutBack);
      }
    }

    ghost predicate BothRegular(image: Image, temporary: string)
      requires image.Valid() && target in image.entries && temporary in image.entries
    {
      image.inodes[image.entries[target]].regular && image.inodes[image.entries[temporary]].regular
    }

    /** Undo an exchange whose installed file has been unlinked again: move the original back. */
    method RollBackRemoval(temporary: string, expected: FileIdentity) returns (ok: bool)
      requires directory.Valid()
      requires target !in directory.image.entries && temporary in directory.image.entries
      modifies directory
      ensures directory.Valid()
      ensures directory.Visited(|old(directory.history)|, {old(directory.image).Move(temporary, target)})
      ensures directory.Extends(old(directory.history))
      ensures directory.image in {old(directory.image), old(directory.image).Move(temporary, target)}
      ensures ok ==> directory.image == old(directory.image).Move(temporary, target)
      ensures ok ==> directory.durable == |directory.history| - 1
      ensures directory.calls.Scripted() && old(directory.image).IdentityAt(temporary) == expected
              && old(directory.image).inodes[old(directory.image).entries[temporary]].regular
              ==> (ok <==> directory.calls.AllWork(TakingBack(true)))
    {
      ok := directory.RenameNoReplace(temporary, target, PutBack);
      if ok {
        var identity := directory.Stat(target, LookPutBack);
        ok := identity == Some(expected);
      }
      if ok {
        ok := directory.Sync(SyncPutBack);
      }
    }

    /**
      The exchange and the look at what it displaced. `None` means both names hold what they
      should and the temporary name now carries the previous contents.
    */
    method Exchange(temporary: string, expected: FileIdentity, written: FileIdentity)
      returns (outcome: Option<Outcome>, retain: bool)
      requires directory.Valid() && temporary != target
      requires temporary in directory.image.entries
      modifies directory
      ensures directory.Valid() && directory.Extends(old(directory.history))
      ensures target !in old(directory.image).entries ==>
                && outcome == Some(WriteFailed) && !retain && directory.image == old(directory.image)
                && directory.history == old(directory.history)
      ensures target in old(directory.image).entries ==>
                var base := old(directory.image);
                && directory.Visited(|old(directory.history)|, {base, base.Swap(temporary, target)})
                && directory.image in {base, base.Swap(temporary, target)}
                && (outcome.None? ==>
                      && directory.image == base.Swap(temporary, target) && retain
                      && base.IdentityAt(target) == expected && base.IdentityAt(temporary) == written)
                && (outcome == Some(WriteFailed) ==> !retain && directory.image == base)
                && (outcome == Some(RecoveryRequired) ==> retain)
      ensures outcome != Some(Done)
      ensures directory.calls.Scripted() && target in old(directory.image).entries
              && BothRegular(old(directory.image), temporary) && old(directory.image).IdentityAt(temporary) == written
              ==> outcome == Exchanged(directory.calls, old(directory.image).IdentityAt(target), expected)
    {
      ghost var base := directory.image;
      var ok := directory.ExchangeNames(temporary, target, Install);
      if !ok {
        return Some(WriteFailed), false;
      }
      SwapTwice(base, temporary, target);
      var displaced := directory.Stat(temporary, LookDisplaced);
      if displaced.None? {
        return Some(RecoveryRequired), true;
      }
      var installed := directory.Stat(target, LookInstalled);
      if installed.None? {
        return Some(RecoveryRequired), true;
      }
      if displaced.value == expected && installed.value == written {
        return None, true;
      }
      var rolledBack := displaced.value.SameInode(expected);
      if rolledBack {
        rolledBack := RollBackExchange(temporary, displaced.value, installed.value);
      }
      if !rolledBack {
        return Some(RecoveryRequired), true;
      }
      return Some(WriteFailed), false;
    }

    /** After a clean exchange: unlink if the file is to go, make it durable, or take it all back. */
    method Settle(temporary: string, expected: FileIdentity, written: FileIdentity, removeFile: bool)
      returns (outcome: Outcome, retain: bool)
      requires directory.Valid() && temporary != target
      requires target in directory.image.entries && temporary in directory.image.entries
      modifies directory
      ensures directory.Valid() && directory.Extends(old(directory.history))
      ensures var exchanged := old(directory.image);
              && directory.Visited(|old(directory.history)|, SettleImages(exchanged, temporary, removeFile))
              && directory.image in SettleImages(exchanged, temporary, removeFile)
              && (outcome.Done? ==>
                    && !retain && directory.image == if removeFile then exchanged.Without(target) else exchanged)
              && (outcome.WriteFailed? ==>
                    && !retain
                    && directory.image == if removeFile then exchanged.Without(target).Move(temporary, target)
                                          else exchanged.Swap(temporary, target))
              && (outcome.RecoveryRequired? ==> retain)
      ensures directory.calls.Scripted() && BothRegular(old(directory.image), temporary)
              && old(directory.image).IdentityAt(temporary) == expected && old(directory.image).IdentityAt(target) == written
              ==> outcome == AfterLook(directory.calls, removeFile)
    {
      ghost var exchanged := directory.image;
      if removeFile {
        var unlinked := directory.Unlink(target, RemoveInstalled);
        if !unlinked.Removed? {
          return RecoveryRequired, true;
        }
      }
      var ok := directory.Sync(SyncInstalled);
      if ok {
        return Done, false;
      }
      var rolledBack;
      if removeFile {
        rolledBack := RollBackRemoval(temporary, expected);
      } else {
        rolledBack := RollBackExchange(temporary, expected, written);
      }
      if !rolledBack {
        return RecoveryRequired, true;
      }
      return WriteFailed, false;
    }

    ghost function SettleImages(exchanged: Image, temporary: string, removeFile: bool): set<Image>
      requires temporary != target && target in exchanged.entries && temporary in exchanged.entries
    {
      if removeFile then
        {exchanged, exchanged.Without(target), exchanged.Without(target).Move(temporary, target)}
      else
        {exchanged, exchanged.Swap(temporary, target)}
    }

    /** Undo the installation of a new file: its name is free again, and the temporary one holds it. */
    method RollBackNew(temporary: string, written: FileIdentity) returns (ok: bool)
      requires directory.Valid() && temporary != target
      requires target in directory.image.entries && temporary !in directory.image.entries
      modifies directory
      ensures directory.Valid()
      ensures directory.Visited(|old(directory.history)|, {old(directory.image).Move(target, temporary)})
      ensures directory.Extends(old(directory.history))
      ensures directory.image in {old(directory.image), old(directory.image).Move(target, temporary)}
      ensures ok ==> directory.image == old(directory.image).Move(target, temporary)
      ensures ok ==> directory.durable == |directory.history| - 1
      ensures directory.calls.Scripted() && old(directory.image).IdentityAt(target) == written
              && old(directory.image).inodes[old(directory.image).entries[target]].regular
              ==> (ok <==> directory.calls.AllWork(TakingBack(false)))
    {
      ok := directory.RenameNoReplace(target, temporary, PutBack);
      if ok {
        ok := ConfirmAbsent(target, LookPutBack);
      }
      if ok {
        var spare := directory.Stat(temporary, LookSpare);
        ok := spare == Some(written);
      }
      if ok {
        ok := directory.Sync(SyncPutBack);
      }
    }

    /** The branch for a missing target: NOREPLACE in, and NOREPLACE back out if it cannot be made durable. */
    method InstallNew(temporary: string, written: FileIdentity) returns (outcome: Outcome, retain: bool)
      requires directory.Valid() && temporary != target
      requires temporary in directory.image.entries && directory.image.IdentityAt(temporary) == written
      modifies directory
      ensures directory.Valid() && directory.Extends(old(directory.history))
      ensures target in old(directory.image).entries ==>
                && outcome == WriteFailed && !retain && directory.image == old(directory.image)
                && directory.history == old(directory.history)
      ensures target !in old(directory.image).entries ==>
                var base := old(directory.image);
                && directory.Visited(|old(directory.history)|, {base, base.Move(temporary, target)})
                && directory.image in {base, base.Move(temporary, target)}
                && (outcome.Done? ==> !retain && directory.image == base.Move(temporary, target))
                && (outcome.WriteFailed? ==> !retain && directory.image == base)
                && (outcome.RecoveryRequired? ==> retain)
      ensures directory.calls.Scripted() && target !in old(directory.image).entries
              && old(directory.image).inodes[old(directory.image).entries[temporary]].regular
              ==> outcome == AfterCheck(directory.calls, false, false)
    {
      ghost var base := directory.image;
      var ok := directory.RenameNoReplace(temporary, target, Install);
      if !ok {
        return WriteFailed, false;
      }
      assert base.Move(temporary, target).Move(target, temporary) == base by {
        assert base.Move(temporary, target).Move(target, temporary).entries == base.entries;
      }
      var installed := directory.Stat(target, LookInstalled);
      if installed != Some(written) {
        return RecoveryRequired, true;
      }
      ok := directory.Sync(SyncInstalled);
      if ok {
        return Done, false;
      }
      ok := RollBackNew(temporary, written);
      if !ok {
        return RecoveryRequired, true;
      }
      return WriteFailed, false;
    }

    /**
      Create the temporary file, give it its exact mode, write and flush the bytes, and take its
      identity. A failed `fchmod` leaves the empty file behind; later failures leave it for clean-up.
    */
    method PrepareTemporary(temporary: string, bytes: Octets, mode: nat) returns (prepared: Prepared)
      requires directory.Valid()
      modifies directory
      ensures directory.Valid() && directory.Extends(old(directory.history))
      ensures KeptOthers(|old(directory.history)|, old(directory.image), temporary)
      ensures prepared.NotCreated? ==> directory.image == old(directory.image)
      ensures prepared.Abandoned? ==> EmptyFile(directory.image.At(temporary))
      ensures prepared.Ready? ==>
                && Written(directory.image.At(temporary), bytes, mode)
                && directory.image.entries[temporary] in directory.image.flushed
                && directory.image.entries[temporary] !in old(directory.image).inodes
                && prepared.identity == directory.image.IdentityAt(temporary)
      ensures !prepared.NotCreated? ==>
                && temporary !in old(directory.image).entries && temporary in directory.image.entries
      ensures directory.calls.Scripted() && temporary !in old(directory.image).entries ==>
                && (prepared.NotCreated? <==> !directory.calls.Works(CreateTemporary))
                && (prepared.NotCreated? || prepared.Abandoned? <==> !directory.calls.AllWork({CreateTemporary, SetMode}))
                && (prepared.Ready? <==> directory.calls.AllWork({CreateTemporary, SetMode})
                                         && directory.calls.AllWork({WriteTemporary, LookWritten}))
    {
      var fd := directory.Create(temporary, CreateTemporary);
      if fd.None? {
        return NotCreated;
      }
      var ok := directory.Chmod(fd.value, mode, SetMode);
      if !ok {
        return Abandoned;
      }
      ok := directory.WriteAndSync(fd.value, bytes, WriteTemporary);
      if !ok {
        return Incomplete;
      }
      var failed := directory.Fault(LookWritten);
      if failed {
        return Incomplete;
      }
      prepared := Ready(Identify(fd.value, directory.image.inodes[fd.value]));
    }

    /** Every image since `from`, and the current one, agrees with `before` on all names but one. */
    ghost predicate KeptOthers(from: nat, before: Image, name: string)
      requires before.Valid() && directory.Valid()
      reads directory
    {
      && from <= |directory.history|
      && (forall i :: from <= i < |directory.history| ==> directory.history[i].SameElsewhere(before, name, name))
      && directory.image.SameElsewhere(before, name, name)
    }

    /** The branch for an existing target: exchange, then settle. */
    method InstallOver(job: Job, written: FileIdentity) returns (outcome: Outcome, retain: bool)
      requires directory.Valid() && job.target == target && job.Prepared(directory.image)
      requires job.expected.Present? && written == directory.image.IdentityAt(job.temporary)
      modifies directory
      ensures Installed(job, old(directory.image), old(directory.history), outcome, retain)
      ensures directory.calls.Scripted() && target in old(directory.image).entries
              && old(directory.image).inodes[old(directory.image).entries[target]].regular
              ==> outcome == var exchanged := Exchanged(directory.calls, old(directory.image).IdentityAt(target), job.expected);
                             if exchanged.Some? then exchanged.value else AfterLook(directory.calls, job.removes)
    {
      ghost var base := directory.image;
      job.ExchangeIsSafe(base);
      var exchanged;
      exchanged, retain := Exchange(job.temporary, job.expected, written);
      if exchanged.Some? {
        outcome := exchanged.value;
        return;
      }
      job.SettleIsSafe(base);
      outcome, retain := Settle(job.temporary, job.expected, written, job.removes);
    }

    /** What an installation branch started in `base` promises, clean-up excluded. */
    ghost predicate Installed(job: Job, base: Image, earlier: seq<Image>, outcome: Outcome, retain: bool)
      requires base.Valid()
      reads directory
    {
      && directory.Valid() && directory.Extends(earlier)
      && job.AllUndisturbed(directory.history, |earlier|, base)
      && (outcome.RecoveryRequired? <==> retain)
      && (outcome.Done? ==>
            && base.IdentityAt(target) == job.expected && job.Intended(directory.image)
            && job.Undisturbed(directory.image.Without(job.temporary), base))
      && (outcome.WriteFailed? ==>
            && directory.image.At(target) == base.At(target)
            && job.Undisturbed(directory.image.Without(job.temporary), base))
    }

    /** The second identity check, the rename and what follows it, up to but not including the clean-up. */
    method RecheckAndInstall(job: Job, written: FileIdentity, externalWriter: bool)
      returns (outcome: Outcome, retain: bool, ghost at: nat)
      requires directory.Valid() && job.target == target && job.Prepared(directory.image)
      requires written == directory.image.IdentityAt(job.temporary)
      requires job.expected.Missing? ==> !job.removes
      modifies directory
      ensures directory.Valid() && directory.Extends(old(directory.history))
      ensures |old(directory.history)| - 1 <= at < |directory.history|
      ensures directory.history[at].SameElsewhere(old(directory.image), target, target)
      ensures !externalWriter ==> at == |old(directory.history)| - 1
      ensures Installed(job, directory.history[at], directory.history[..at + 1], outcome, retain)
      ensures job.Undisturbed(directory.history[at], directory.history[at])
      ensures directory.calls.Scripted() && !externalWriter && Expected(old(directory.image), job.expected) ==>
                outcome == if directory.calls.AllWork({CheckParent, LookPrepared, LookExpected})
                           then AfterCheck(directory.calls, job.expected.Present?, job.removes) else WriteFailed
      ensures EditedInPlace(directory.history[at], job.expected) && directory.faultless ==> outcome.WriteFailed?
    {
      hide Job.Safe, Job.Intended, Job.Undisturbed, AfterCheck, EditedInPlace, Image.Swap;
      if externalWriter {
        directory.ExternalWrite(target);
      }
      at := |directory.history| - 1;
      job.ExchangeIsSafe(directory.image);
      var moved := directory.Fault(CheckParent);
      var spare := directory.Stat(job.temporary, LookPrepared);
      var current := directory.Stat(target, LookExpected);
      if moved || spare != Some(written) || current != Some(job.expected) {
        return WriteFailed, false, at;
      }
      if externalWriter {
        directory.ExternalWrite(target);
      }
      at := |directory.history| - 1;
      job.ExchangeIsSafe(directory.image);
      outcome, retain := InstallPrepared(job, written);
    }

    /** The rename of either kind, issued in the current image. */
    method InstallPrepared(job: Job, written: FileIdentity) returns (outcome: Outcome, retain: bool)
      requires directory.Valid() && job.target == target && job.Prepared(directory.image)
      requires written == directory.image.IdentityAt(job.temporary)
      requires job.expected.Missing? ==> !job.removes
      modifies directory
      ensures Installed(job, old(directory.image), old(directory.history), outcome, retain)
      ensures directory.calls.Scripted() && Expected(old(directory.image), job.expected)
              ==> outcome == AfterCheck(directory.calls, job.expected.Present?, job.removes)
      ensures directory.faultless && EditedInPlace(old(directory.image), job.expected) ==> outcome.WriteFailed?
    {
      hide Job.Safe, Image.Swap;
      job.ExchangeIsSafe(directory.image);
      if job.expected.Missing? {
        if target !in directory.image.entries {
          job.NewIsSafe(directory.image);
        }
        outcome, retain := InstallNew(job.temporary, written);
      } else {
        outcome, retain := InstallOver(job, written);
      }
    }

    /** Somebody edited the expected file where it is: the same regular inode, another identity. */
    ghost predicate EditedInPlace(image: Image, expected: FileIdentity)
      requires image.Valid()
    {
      && target in image.entries && image.inodes[image.entries[target]].regular
      && image.IdentityAt(target) != expected && expected.Present? && image.entries[target] == expected.id
    }

    /** Everything after the temporary file was created: install it if it is complete, then clean up. */
    method InstallAndClean(job: Job, prepared: Prepared, externalWriter: bool) returns (outcome: Outcome, ghost at: nat)
      requires directory.Valid() && job.target == target != job.temporary
      requires prepared.Ready? ==>
                 job.Prepared(directory.image) && prepared.identity == directory.image.IdentityAt(job.temporary)
      requires job.expected.Missing? ==> !job.removes
      modifies directory
      ensures directory.Valid() && directory.Extends(old(directory.history))
      ensures |old(directory.history)| - 1 <= at < |directory.history|
      ensures directory.history[at].SameElsewhere(old(directory.image), target, target)
      ensures !externalWriter ==> at == |old(directory.history)| - 1
      ensures job.AllUndisturbed(directory.history, at, directory.history[at])
      ensures directory.image.SameElsewhere(old(directory.image), target, job.temporary)
      ensures outcome.Done? ==>
                && directory.history[at].IdentityAt(target) == job.expected && job.Intended(directory.image)
                && job.temporary !in directory.image.entries && directory.durable == |directory.history| - 1
      ensures outcome.WriteFailed? ==>
                && directory.image.At(target) == directory.history[at].At(target)
                && job.temporary !in directory.image.entries
      ensures directory.calls.Scripted() && !externalWriter && Expected(old(directory.image), job.expected) ==>
                outcome == AfterCreation(directory.calls, prepared.Ready?, job.expected.Present?, job.removes)
      ensures directory.faultless && EditedInPlace(directory.history[at], job.expected) ==> outcome.WriteFailed?
    {
      var retain := false;
      outcome := WriteFailed;
      at := |directory.history| - 1;
      if prepared.Ready? {
        outcome, retain, at := RecheckAndInstall(job, prepared.identity, externalWriter);
      }
      if retain {
        return;
      }
      ghost var installed := directory.history;
      var cleaned := CleanupTemporary(job.temporary);
      assert job.AllUndisturbed(directory.history, at, installed[at]) by {
        assert directory.history[..|installed|] == installed;
      }
      if !cleaned {
        outcome := RecoveryRequired;
      }
    }

    /** The target is what the caller expects, and a regular file if it is there. */
    ghost predicate Expected(image: Image, expected: FileIdentity)
      requires image.Valid()
    {
      && image.IdentityAt(target) == expected
      && (target in image.entries ==> image.inodes[image.entries[target]].regular)
    }

    /** Work on the temporary name leaves the target what it is. */
    lemma SameTarget(before: Image, now: Image, job: Job)
      requires before.Valid() && now.Valid() && now.SameElsewhere(before, job.temporary, job.temporary) && target != job.temporary
      ensures Expected(now, job.expected) == Expected(before, job.expected)
    {
      assert now.At(target) == before.At(target);
    }

    /** The contract of a replacement that started in `before`, the rename being issued in image `at`. */
    ghost predicate Replaced(job: Job, before: Image, earlier: seq<Image>, outcome: Outcome, at: nat, externalWriter: bool)
      requires before.Valid()
      reads directory
    {
      && directory.Valid() && directory.Extends(earlier) && |earlier| <= at + 1 <= |directory.history|
      && var base := directory.history[at];
      // what the rename met: the old target, unless somebody else was at work
      && (!externalWriter ==> base.At(target) == before.At(target))
      // every crash point
      && job.AllUndisturbed(directory.history, if externalWriter || |earlier| == 0 then at else |earlier| - 1, base)
      && directory.image.SameElsewhere(before, target, job.temporary)
      // the outcomes; `RecoveryRequired` promises what every crash point does
      && (outcome.Done? ==>
            && base.IdentityAt(target) == job.expected && job.Intended(directory.image)
            && job.temporary !in directory.image.entries && directory.durable == |directory.history| - 1)
      && (outcome.WriteFailed? ==>
            && directory.image.At(target) == base.At(target)
            && (directory.image.At(job.temporary) == before.At(job.temporary)
                || EmptyFile(directory.image.At(job.temporary))))
    }

    /** The replacement once the first check of the target has passed. */
    method CreateAndInstall(job: Job, externalWriter: bool) returns (outcome: Outcome, ghost at: nat)
      requires directory.Valid() && job.target == target != job.temporary
      requires job.expected.Missing? ==> !job.removes
      modifies directory
      ensures Replaced(job, old(directory.image), old(directory.history), outcome, at, externalWriter)
      ensures directory.calls.Scripted() && !externalWriter && job.temporary !in old(directory.image).entries
              && Expected(old(directory.image), job.expected) && directory.calls.AllWork({OpenParent, LookBefore})
              ==> outcome == OutcomeOf(directory.calls, job.expected.Present?, job.removes)
      ensures directory.faultless && EditedInPlace(directory.history[at], job.expected) ==> outcome.WriteFailed?
    {
      hide Job.Undisturbed, Job.Intended, EmptyFile, Calls.AllWork, OutcomeOf, EditedInPlace, Expected;
      if externalWriter {
        directory.ExternalWrite(target);
      }
      outcome, at := PrepareAndInstall(job, externalWriter);
    }

    method PrepareAndInstall(job: Job, externalWriter: bool) returns (outcome: Outcome, ghost at: nat)
      requires directory.Valid() && job.target == target != job.temporary
      requires job.expected.Missing? ==> !job.removes
      modifies directory
      ensures Replaced(job, old(directory.image), old(directory.history), outcome, at, externalWriter)
      ensures directory.calls.Scripted() && !externalWriter && job.temporary !in old(directory.image).entries
              && Expected(old(directory.image), job.expected) && directory.calls.AllWork({OpenParent, LookBefore})
              ==> outcome == OutcomeOf(directory.calls, job.expected.Present?, job.removes)
      ensures directory.faultless && EditedInPlace(directory.history[at], job.expected) ==> outcome.WriteFailed?
    {
      hide Job.Undisturbed, Job.Safe, Job.Known, Job.Intended, Job.Prepared, Identify, Written, EmptyFile;
      hide Calls.AllWork, AfterCreation, EditedInPlace, Expected;
      ghost var before := directory.image;
      ghost var from := |directory.history|;
      var prepared := PrepareTemporary(job.temporary, job.bytes, job.mode);
      ghost var ready := |directory.history|;
      SameTarget(before, directory.image, job);
      if prepared.NotCreated? || prepared.Abandoned? {
        at := ready - 1;
        outcome := WriteFailed;
      } else {
        outcome, at := InstallAndClean(job, prepared, externalWriter);
      }
      job.StillIsSafe(directory.history[at]);
      if !externalWriter {
        job.PreparationIsSafe(directory.history, from - 1, ready, before, directory.history[at]);
      }
    }

    /**
      `replace_with_mode`. `temporary` is the random name; `externalWriter` says whether another
      process may work on the target while the call runs, up to the moment the rename is issued.
      `at` is the index of the image in which the rename was issued, or of the last image when the
      call gave up earlier.
    */
    method ReplaceWithMode(temporary: string, expected: FileIdentity, bytes: Octets, removeFile: bool, mode: nat,
                           externalWriter: bool)
      returns (outcome: Outcome, ghost at: nat)
      requires directory.Valid() && temporary != target
      modifies directory
      ensures var job := Job(target, temporary, expected, removeFile && expected.Present?, bytes, mode);
              Replaced(job, old(directory.image), old(directory.history), outcome, at, externalWriter)
      ensures directory.calls.Scripted() && !externalWriter && temporary !in old(directory.image).entries
              && Expected(old(directory.image), expected)
              ==> outcome == OutcomeOf(directory.calls, expected.Present?, removeFile && expected.Present?)
      ensures directory.faultless && EditedInPlace(directory.history[at], expected) ==>
                outcome.WriteFailed? && directory.image.At(target) == directory.history[at].At(target)
    {
      var job := Job(target, temporary, expected, removeFile && expected.Present?, bytes, mode);
      at := |directory.history| - 1;
      outcome := WriteFailed;
      var refused := directory.Fault(OpenParent);      // parent missing, replaced, or not a private directory
      var current := directory.Stat(target, LookBefore);
      if !refused && current == Some(expected) {
        outcome, at := CreateAndInstall(job, externalWriter);
      }
    }

    ghost function JobOf(temporary: string, expected: FileIdentity, bytes: Octets, removeFile: bool): Job {
      Job(target, temporary, expected, removeFile && expected.Present?, bytes, ModeOf(expected))
    }

    /** `replace`: the new file keeps the permissions of the old one. */
    method Replace(temporary: string, expected: FileIdentity, bytes: Octets, removeFile: bool, externalWriter: bool)
      returns (outcome: Outcome, ghost at: nat)
      requires directory.Valid() && temporary != target
      modifies directory
      ensures Replaced(JobOf(temporary, expected, bytes, removeFile), old(directory.image), old(directory.history),
                       outcome, at, externalWriter)
      ensures directory.calls.Scripted() && !externalWriter && temporary !in old(directory.image).entries
              && Expected(old(directory.image), expected)
              ==> outcome == OutcomeOf(directory.calls, expected.Present?, removeFile && expected.Present?)
      ensures directory.faultless && EditedInPlace(directory.history[at], expected) ==>
                outcome.WriteFailed? && directory.image.At(target) == directory.history[at].At(target)
    {
      outcome, at := ReplaceWithMode(temporary, expected, bytes, removeFile, ModeOf(expected), externalWriter);
    }
  }

  /** Permissions of a file that did not exist before: owner read and write. */
  const NEW_FILE_MODE: nat := 384

  function ModeOf(expected: FileIdentity): nat {
    if expected.Present? then expected.mode else NEW_FILE_MODE
  }

  datatype Prepared = NotCreated | Abandoned | Incomplete | Ready(identity: FileIdentity)
}
