/** The earlier prototype of the allocator: one process-wide "allocating"
    flag set by an atomic fetch-or, one process-wide "deallocating" flag, and
    a registry of (mapping, file, path) entries. Every allocation asks the
    user for confirmation and a file. Unlike the thread-aware allocator, a
    deallocation of an address the registry does not hold is handed to the
    system allocator. */
module Prototype {
  import opened Backing

  class StupidAlloc {
    var registry: Registry
    var fs: FileSystem
    /** The process-wide flag raised while a file-backed allocation runs. */
    var allocating: bool
    /** The process-wide flag raised while a backing file is deleted. */
    var deallocating: bool
    /** The file and mapping effects performed so far, in order. */
    var trace: seq<Event>

    ghost predicate Valid()
      reads this
    {
      WellFormed(registry, fs)
    }

    constructor(fs: FileSystem)
      ensures Valid()
      ensures registry == map[] && this.fs == fs && !allocating && !deallocating && trace == []
    {
      registry := map[];
      this.fs := fs;
      allocating, deallocating := false, false;
      trace := [];
    }

    /** A re-entrant allocation at this moment would be served by the
        system allocator. */
    predicate Shielded(): (up: bool)
      reads this`allocating, this`deallocating
      ensures up <==> allocating || deallocating
    {
      deallocating || allocating
    }

    /** Allocation of `size` bytes. `answer` is the confirmation dialog's
        answer, `picked` the file picker's, `addr` the address the operating
        system maps the new file at.

        The guard reads the deallocating flag first and only when it is
        down fetch-ors the allocating flag, so with the deallocating flag up
        the allocating flag is not touched, and with the allocating flag
        already up it stays up; both cases delegate. Otherwise the call
        owns the allocating flag until it stores it down again at the end,
        on success and on error alike. */
    method Allocate(size: nat, answer: bool, picked: Option<Path>, addr: nat) returns (r: Outcome)
      requires Valid()
      requires FreshMapping(registry, addr, size)
      requires picked.Some? ==> !PathInUse(registry, picked.value)
      modifies this
      ensures Valid()
      ensures allocating == old(allocating) && deallocating == old(deallocating)
      ensures old(Shielded()) ==>
                r == Delegated(AllocateOp) && registry == old(registry) && fs == old(fs) && trace == old(trace)
      ensures !old(Shielded()) && !(answer && picked.Some?) ==>
                r == AllocError && registry == old(registry) && fs == old(fs) && trace == old(trace)
      ensures !old(Shielded()) && answer && picked.Some? ==>
                var path := picked.value;
                && r == Mapped(addr, size)
                && registry == old(registry)[addr := Handle(path, size)]
                && fs == old(fs)[path := Zeros(size)]
                && trace == old(trace) + [Event(CreateFile(path, size), true), Event(MapFile(addr, path), true)]
    {
      var fallback := deallocating;
      if !fallback {
        fallback := allocating;
        allocating := true;
      }
      if fallback {
        return Delegated(AllocateOp);
      }
      if answer {
        if picked.Some? {
          var path := picked.value;
          InsertKeepsWellFormed(registry, fs, addr, path, size);
          var truncated: seq<Byte> := [];
          SetLenOfEmpty(size);
          fs := fs[path := SetLen(truncated, size)];
          trace := trace + [Event(CreateFile(path, size), Shielded())];
          trace := trace + [Event(MapFile(addr, path), Shielded())];
          registry := registry[addr := Handle(path, size)];
          r := Mapped(addr, size);
        } else {
          r := AllocError;
        }
      } else {
        r := AllocError;
      }
      allocating := false;
    }

    /** Deallocation. A registered address loses its entry; its mapping and
        file handle are dropped while the guard is whatever it was on entry;
        the file is then deleted with the deallocating flag up, and the flag
        is stored down at the end, whatever it was before. Any other address
        is delegated to the system allocator and nothing changes. */
    method Deallocate(addr: nat) returns (delegated: bool)
      requires Valid()
      modifies this
      ensures Valid()
      ensures delegated <==> addr !in old(registry)
      ensures allocating == old(allocating)
      ensures delegated ==>
                && registry == old(registry) && fs == old(fs) && trace == old(trace)
                && deallocating == old(deallocating)
      ensures !delegated ==>
                var path := old(registry)[addr].path;
                && registry == old(registry) - {addr}
                && fs == old(fs) - {path}
                && !deallocating
                && trace == old(trace) + [Event(Unmap(addr), old(Shielded())), Event(DropFile(path), old(Shielded())),
                                          Event(RemoveFile(path), true)]
    {
      if addr in registry {
        RemoveKeepsWellFormed(registry, fs, addr);
        var handle := registry[addr];
        registry := registry - {addr};
        trace := trace + [Event(Unmap(addr), Shielded())];
        trace := trace + [Event(DropFile(handle.path), Shielded())];
        deallocating := true;
        fs := fs - {handle.path};
        trace := trace + [Event(RemoveFile(handle.path), Shielded())];
        deallocating := false;
        delegated := false;
      } else {
        delegated := true;
      }
    }
  }
}
