/**
  The configuration directory as the kernel shows it to the Routing Service.

  Names are bound to inodes, an inode carries its contents and the metadata that
  make up a `FileIdentity`, and every call that can fail may fail. Each call that
  changes the directory appends the resulting `Image` to `history`, so `history`
  lists every state in which the process can be killed; `durable` is the index of
  the last image known to be on disk, so a power loss leaves one of
  `history[durable..]`.
*/
module Directories {
  import opened Bytes

  datatype InodeId = InodeId(device: nat, number: nat)

  datatype Inode = Inode(regular: bool, modified: nat, mode: nat, bytes: Octets)

  /** What `stat` reports about one name, reduced to the fields the service compares. */
  datatype FileIdentity =
    | Missing
    | Present(id: InodeId, modified: nat, length: nat, mode: nat)
  {
    predicate Exists() { Present? }

    predicate SameInode(other: FileIdentity) {
      Present? && other.Present? && id == other.id
    }
  }

  /** Permission bits kept by the identity: `mode & 0o777`. */
  function PermissionBits(mode: nat): nat { mode % 512 }

  function Identify(id: InodeId, inode: Inode): FileIdentity {
    Present(id, inode.modified, |inode.bytes|, PermissionBits(inode.mode))
  }

  /** Versions are told apart by inode, modification time, length and permissions, and by nothing else. */
  lemma IdentityIff(id: InodeId, inode: Inode, other: InodeId, another: Inode)
    ensures Identify(id, inode) == Identify(other, another)
            <==> && id.device == other.device && id.number == other.number && inode.modified == another.modified
                 && |inode.bytes| == |another.bytes| && inode.mode % 0x200 == another.mode % 0x200
    ensures Identify(id, inode).SameInode(Identify(other, another)) <==> id == other
  {}

  /** One file with its contents; `None` when the name is unbound. */
  type Version = Option<(InodeId, Inode)>

  /** The visible directory: bindings, inodes, and the inodes whose data was fsynced. */
  datatype Image = Image(entries: map<string, InodeId>, inodes: map<InodeId, Inode>, flushed: set<InodeId>)
  {
    ghost predicate Valid() {
      forall name <- entries :: entries[name] in inodes
    }

    function At(name: string): Version
      requires Valid()
    {
      if name in entries then Some((entries[name], inodes[entries[name]])) else None
    }

    function IdentityAt(name: string): FileIdentity
      requires Valid()
    {
      if name in entries then Identify(entries[name], inodes[entries[name]]) else Missing
    }

    function Without(name: string): Image { this.(entries := entries - {name}) }

    function Bind(name: string, id: InodeId): Image { this.(entries := entries[name := id]) }

    function Swap(a: string, b: string): Image
      requires a in entries && b in entries
    {
      this.(entries := entries[a := entries[b]][b := entries[a]])
    }

    function Move(a: string, b: string): Image
      requires a in entries
    {
      Without(a).Bind(b, entries[a])
    }

    /** `other` binds every name except `a` and `b` as this image does, to the same contents. */
    ghost predicate SameElsewhere(other: Image, a: string, b: string)
      requires Valid() && other.Valid()
    {
      forall name :: name != a && name != b ==> At(name) == other.At(name)
    }
  }

  datatype Unlinked = Removed | NotFound | Refused

  /** The places in the program from which the directory is called. */
  datatype Site =
    | OpenParent | LookBefore | CreateTemporary | SetMode | WriteTemporary | LookWritten      // preparing the temporary file
    | CheckParent | LookPrepared | LookExpected | Install                                     // the second check and the rename
    | LookDisplaced | LookInstalled | RemoveInstalled | SyncInstalled                         // settling it
    | PutBack | LookPutBack | LookSpare | SyncPutBack                                         // taking it back
    | RemoveTemporary | LookRemoved | SyncRemoved | LookStillRemoved                          // cleaning up
    | LookToRead | OpenToRead | ReadOn | LookRead                                             // reading

  /** How the calls of one process fare: any of them may fail, or exactly those from certain places do. */
  datatype Calls = NoneFails | SomeFail | AllFail | OnlyFail(sites: set<Site>)
  {
    predicate Works(site: Site) { NoneFails? || (OnlyFail? && site !in sites) }

    predicate Fails(site: Site) { AllFail? || (OnlyFail? && site in sites) }

    /** Nothing is left to chance. */
    predicate Scripted() { !SomeFail? }

    predicate AllWork(needed: set<Site>) { forall site <- needed :: Works(site) }
  }

  class Directory {
    var image: Image
    const calls: Calls
    const faultless := calls.NoneFails?
    var history: seq<Image>           // every state so far, in order; only contracts and crashes look at it
    ghost var durable: nat

    ghost predicate Valid()
      reads this
    {
      && image.Valid()
      && 0 < |history|
      && history[|history| - 1] == image
      && durable < |history|
      && forall i :: 0 <= i < |history| ==> history[i].Valid()
    }

    /** Nothing recorded so far was rewritten. */
    ghost predicate Extends(earlier: seq<Image>)
      reads this
    {
      |earlier| <= |history| && forall i :: 0 <= i < |earlier| ==> history[i] == earlier[i]
    }

    /** All images recorded since the history had length `from` lie in `allowed`. */
    ghost predicate Visited(from: nat, allowed: set<Image>)
      reads this
    {
      from <= |history| && forall i :: from <= i < |history| ==> history[i] in allowed
    }

    /** The directory found on disk at start-up. */
    constructor (found: Image, calls: Calls)
      requires found.Valid()
      ensures Valid() && image == found && history == [found] && this.calls == calls
    {
      this.image := found;
      this.calls := calls;
      this.history := [found];
      this.durable := 0;
    }

    method Fault(site: Site) returns (failed: bool)
      ensures calls.Works(site) ==> !failed
      ensures calls.Fails(site) ==> failed
    {
      failed := *;
      if calls.Scripted() {
        failed := calls.Fails(site);
      }
    }

    /** `statat` without following links; anything but a regular file is an error. */
    method Stat(name: string, site: Site) returns (r: Option<FileIdentity>)
      requires Valid()
      ensures r.Some? ==> r.value == image.IdentityAt(name)
      ensures r.None? && calls.Works(site) ==> name in image.entries && !image.inodes[image.entries[name]].regular
      ensures calls.Fails(site) || (name in image.entries && !image.inodes[image.entries[name]].regular) ==> r.None?
    {
      var failed := Fault(site);
      if failed {
        return None;
      }
      if name in image.entries && !image.inodes[image.entries[name]].regular {
        return None;
      }
      r := Some(image.IdentityAt(name));
    }

    method Become(next: Image)
      requires Valid() && next.Valid()
      modifies this
      ensures Valid() && image == next && durable == old(durable)
      ensures history == old(history) + [next]
    {
      image := next;
      history := history + [next];
    }

    /** `openat` with O_CREAT | O_EXCL: a fresh empty regular file, or nothing. */
    method Create(name: string, site: Site) returns (fd: Option<InodeId>)
      requires Valid()
      modifies this
      ensures Valid() && durable == old(durable)
      ensures fd.None? ==> image == old(image) && history == old(history)
      ensures fd.Some? ==>
                && name !in old(image).entries && fd.value !in old(image).inodes
                && fd.value !in old(image).flushed
                && history == old(history) + [image]
                && image.entries == old(image).entries[name := fd.value]
                && image.flushed == old(image).flushed
                && fd.value in image.inodes
                && image.inodes == old(image).inodes[fd.value := image.inodes[fd.value]]
                && image.inodes[fd.value].regular && image.inodes[fd.value].bytes == []
      ensures calls.Works(site) && name !in old(image).entries ==> fd.Some?
      ensures calls.Fails(site) ==> fd.None?
    {
      var failed := Fault(site);
      if failed || name in image.entries {
        return None;
      }
      var id := FreshInode();
      var modified: nat := *;
      var masked: nat := *;  // the umask decides; the caller sets the exact mode with `Chmod`
      var inode := Inode(true, modified, masked, []);
      Become(image.(inodes := image.inodes[id := inode], entries := image.entries[name := id]));
      fd := Some(id);
    }

    method FreshInode() returns (id: InodeId)
      requires Valid()
      ensures id !in image.inodes && id !in image.flushed
    {
      FreshExists(image.inodes.Keys + image.flushed);
      id :| id !in image.inodes.Keys + image.flushed;
    }

    /** `fchmod` on an open descriptor. */
    method Chmod(fd: InodeId, mode: nat, site: Site) returns (ok: bool)
      requires Valid() && fd in image.inodes
      modifies this
      ensures Valid() && durable == old(durable)
      ensures !ok ==> image == old(image) && history == old(history)
      ensures ok ==> image == old(image).(inodes := old(image).inodes[fd := old(image).inodes[fd].(mode := mode)])
      ensures ok ==> history == old(history) + [image]
      ensures calls.Works(site) ==> ok
      ensures calls.Fails(site) ==> !ok
    {
      var failed := Fault(site);
      if failed {
        return false;
      }
      Become(image.(inodes := image.inodes[fd := image.inodes[fd].(mode := mode)]));
      ok := true;
    }

    /**
      `write_all`, `flush` and `sync_all`. The bytes reach the inode piece by piece and any
      piece, or the final sync, may fail; only a completed sync marks the inode as flushed.
    */
    method WriteAndSync(fd: InodeId, bytes: Octets, site: Site) returns (ok: bool)
      requires Valid() && fd in image.inodes && image.inodes[fd].bytes == []
      requires image.inodes[fd].regular
      modifies this
      ensures Valid() && durable == old(durable)
      ensures Extends(old(history))
      ensures forall i :: |old(history)| <= i < |history| ==> OnlyWrote(old(image), history[i], fd)
      ensures OnlyWrote(old(image), image, fd)
      ensures ok ==> fd in image.flushed && image.inodes[fd].bytes == bytes
      ensures calls.Works(site) ==> ok
      ensures calls.Fails(site) ==> !ok
    {
      var written := 0;
      while written < |bytes|
        invariant written <= |bytes|
        invariant Valid() && durable == old(durable)
        invariant Extends(old(history))
        invariant forall i :: |old(history)| <= i < |history| ==> OnlyWrote(old(image), history[i], fd)
        invariant OnlyWrote(old(image), image, fd)
        invariant image.inodes[fd].bytes == bytes[..written]
      {
        var failed := Fault(site);
        if failed {
          return false;
        }
        var piece: nat := *;
        var upto := if 0 < piece <= |bytes| - written then written + piece else |bytes|;
        var modified: nat := *;
        Become(image.(inodes :=
          image.inodes[fd := image.inodes[fd].(bytes := bytes[..upto], modified := modified)]));
        written := upto;
      }
      assert bytes[..written] == bytes;
      var failed := Fault(site);
      if failed {
        return false;
      }
      Become(image.(flushed := image.flushed + {fd}));
      ok := true;
    }

    /** `renameat2` with RENAME_EXCHANGE: both names must exist. */
    method ExchangeNames(a: string, b: string, site: Site) returns (ok: bool)
      requires Valid()
      modifies this
      ensures Valid() && durable == old(durable)
      ensures !ok ==> image == old(image) && history == old(history)
      ensures ok ==> a in old(image).entries && b in old(image).entries && image == old(image).Swap(a, b)
      ensures ok ==> history == old(history) + [image]
      ensures calls.Works(site) && a in old(image).entries && b in old(image).entries ==> ok
      ensures calls.Fails(site) ==> !ok
    {
      var failed := Fault(site);
      if failed || a !in image.entries || b !in image.entries {
        return false;
      }
      Become(image.Swap(a, b));
      ok := true;
    }

    /** `renameat2` with RENAME_NOREPLACE: the new name must not exist. */
    method RenameNoReplace(a: string, b: string, site: Site) returns (ok: bool)
      requires Valid()
      modifies this
      ensures Valid() && durable == old(durable)
      ensures !ok ==> image == old(image) && history == old(history)
      ensures ok ==> a in old(image).entries && b !in old(image).entries && image == old(image).Move(a, b)
      ensures ok ==> history == old(history) + [image]
      ensures calls.Works(site) && a in old(image).entries && b !in old(image).entries ==> ok
      ensures calls.Fails(site) ==> !ok
    {
      var failed := Fault(site);
      if failed || a !in image.entries || b in image.entries {
        return false;
      }
      Become(image.Move(a, b));
      ok := true;
    }

    method Unlink(name: string, site: Site) returns (outcome: Unlinked)
      requires Valid()
      modifies this
      ensures Valid() && durable == old(durable)
      ensures outcome.Removed? ==>
                name in old(image).entries && image == old(image).Without(name) && history == old(history) + [image]
      ensures !outcome.Removed? ==> image == old(image) && history == old(history)
      ensures outcome.NotFound? ==> name !in old(image).entries
      ensures calls.Works(site) ==> !outcome.Refused?
      ensures calls.Fails(site) ==> outcome.Refused?
    {
      var failed := Fault(site);
      if failed {
        return Refused;
      }
      if name !in image.entries {
        return NotFound;
      }
      Become(image.Without(name));
      outcome := Removed;
    }

    /** `fsync` of the directory: on success the current bindings are on disk. */
    method Sync(site: Site) returns (ok: bool)
      requires Valid()
      modifies `durable
      ensures Valid()
      ensures ok ==> durable == |history| - 1
      ensures !ok ==> durable == old(durable)
      ensures calls.Works(site) ==> ok
      ensures calls.Fails(site) ==> !ok
    {
      var failed := Fault(site);
      if failed {
        return false;
      }
      durable := |history| - 1;
      ok := true;
    }

    /**
      Another process works on `name`: it may edit the file in place, replace it, delete it or
      create it, any number of times. Other names and their inodes are left alone.
    */
    method ExternalWrite(name: string)
      requires Valid()
      modifies this
      ensures Valid() && durable == old(durable)
      ensures Extends(old(history))
      ensures forall other :: other != name ==> image.At(other) == old(image).At(other)
      ensures forall id :: id in old(image).inodes ==> id in image.inodes
      ensures image.flushed == old(image).flushed
    {
      var deletes: bool := *;
      if deletes {
        Become(image.Without(name));
        return;
      }
      var linked := set n | n in image.entries && n != name :: image.entries[n];
      var id: InodeId := *;
      var inode: Inode := *;
      if id !in linked {
        Become(image.(inodes := image.inodes[id := inode], entries := image.entries[name := id]));
      }
    }
  }

  /** `after` differs from `before` at most in the contents of inode `fd` and in what was flushed. */
  ghost predicate OnlyWrote(before: Image, after: Image, fd: InodeId) {
    && fd in before.inodes && fd in after.inodes
    && after.entries == before.entries
    && after.inodes == before.inodes[fd := after.inodes[fd]]
    && after.inodes[fd].regular == before.inodes[fd].regular
    && after.inodes[fd].mode == before.inodes[fd].mode
    && before.flushed <= after.flushed <= before.flushed + {fd}
  }

  lemma SwapTwice(image: Image, a: string, b: string)
    requires a in image.entries && b in image.entries
    ensures image.Swap(a, b).Swap(a, b) == image
  {
    assert image.Swap(a, b).Swap(a, b).entries == image.entries;
  }

  /** Unlinking the exchanged-in file and moving the old one back leaves only the spare name gone. */
  lemma SwapUnlinkMove(image: Image, a: string, b: string)
    requires a in image.entries && b in image.entries && a != b
    ensures image.Swap(a, b).Without(b).Move(a, b) == image.Without(a)
  {
    assert image.Swap(a, b).Without(b).Move(a, b).entries == image.Without(a).entries;
  }

  lemma FreshExists(used: set<InodeId>)
    ensures exists id: InodeId :: id !in used
  {
    var bound := UpperBound(used);
    assert InodeId(0, bound + 1) !in used;
  }

  lemma UpperBound(used: set<InodeId>) returns (bound: nat)
    ensures forall id :: id in used ==> id.number <= bound
  {
    if used == {} {
      bound := 0;
    } else {
      var id :| id in used;
      var rest := UpperBound(used - {id});
      bound := if id.number <= rest then rest else id.number;
      forall other | other in used ensures other.number <= bound {
        assert other == id || other in used - {id};
      }
    }
  }
}
