/** The thread-aware allocator: every allocation is a file of its own,
    mapped into memory; a per-thread reentrancy guard sends every call made
    while the allocator is already at work (or while the thread has opted
    out) to the system allocator. */
module ThreadAware {
  import opened Backing
  import FileNames

  /** Path `p` is the default file name of a counter value issued by one
      of the first `requests` requests counted from `start`. */
  ghost predicate IssuedBefore(tempDir: Path, start: nat, requests: nat, p: Path)
  {
    exists v: nat :: v < FileNames.U64Limit && p == FileNames.AllocFilePath(tempDir, v) && FileNames.Offset(start, v) < requests
  }

  /** What the counter's history says when dialogs are off: the counter
      holds the value issued to request number `requests` from `start`, and
      every live allocation's file is named by an earlier request. */
  ghost predicate NamedByCounter(tempDir: Path, reg: Registry, counter: nat, start: nat, requests: nat)
  {
    && start < FileNames.U64Limit
    && counter == FileNames.Issued(start, requests)
    && forall a :: a in reg ==> IssuedBefore(tempDir, start, requests, reg[a].path)
  }

  /** While fewer than 2^64 names have been issued, the name the counter
      gives next backs no live allocation, so opening it with truncation
      destroys no other allocation's contents. */
  lemma NextNameUnused(tempDir: Path, reg: Registry, counter: nat, start: nat, requests: nat)
    requires NamedByCounter(tempDir, reg, counter, start, requests)
    requires requests < FileNames.U64Limit
    ensures !PathInUse(reg, FileNames.AllocFilePath(tempDir, counter))
  {
    var p := FileNames.AllocFilePath(tempDir, counter);
    if PathInUse(reg, p) {
      var a :| a in reg && reg[a].path == p;
      assert IssuedBefore(tempDir, start, requests, reg[a].path);
      var v: nat :| v < FileNames.U64Limit && p == FileNames.AllocFilePath(tempDir, v) && FileNames.Offset(start, v) < requests;
      FileNames.AllocFilePathInjective(tempDir, v, counter);
      FileNames.OffsetOfIssued(start, requests);
    }
  }

  /** Issuing the counter's name and advancing the counter keeps the
      history; the name issued counts as issued from then on, and it backs
      no live allocation while fewer than 2^64 names have been issued. */
  lemma NamedAfterRequest(tempDir: Path, reg: Registry, counter: nat, start: nat, requests: nat)
    requires NamedByCounter(tempDir, reg, counter, start, requests)
    ensures counter < FileNames.U64Limit
    ensures NamedByCounter(tempDir, reg, FileNames.NextCount(counter), start, requests + 1)
    ensures IssuedBefore(tempDir, start, requests + 1, FileNames.AllocFilePath(tempDir, counter))
    ensures requests < FileNames.U64Limit ==> !PathInUse(reg, FileNames.AllocFilePath(tempDir, counter))
  {
    FileNames.IssuedStep(start, requests);
    FileNames.OffsetOfIssued(start, requests);
    if requests < FileNames.U64Limit {
      NextNameUnused(tempDir, reg, counter, start, requests);
    }
    assert FileNames.Offset(start, counter) < requests + 1;
    forall a | a in reg
      ensures IssuedBefore(tempDir, start, requests + 1, reg[a].path)
    {
      assert IssuedBefore(tempDir, start, requests, reg[a].path);
    }
  }

  /** Moving a live allocation to a new base address keeps the history:
      its file keeps its name. */
  lemma ResizeKeepsNamed(tempDir: Path, reg: Registry, counter: nat, start: nat, requests: nat,
                         addr: nat, len: nat, addr': nat)
    requires NamedByCounter(tempDir, reg, counter, start, requests) && addr in reg
    ensures NamedByCounter(tempDir, (reg - {addr})[addr' := Handle(reg[addr].path, len)], counter, start, requests)
  {
    var reg' := (reg - {addr})[addr' := Handle(reg[addr].path, len)];
    forall a | a in reg'
      ensures IssuedBefore(tempDir, start, requests, reg'[a].path)
    {
      if a == addr' {
        assert IssuedBefore(tempDir, start, requests, reg[addr].path);
      } else {
        assert IssuedBefore(tempDir, start, requests, reg[a].path);
      }
    }
  }

  /** Dropping a live allocation keeps the history. */
  lemma RemoveKeepsNamed(tempDir: Path, reg: Registry, counter: nat, start: nat, requests: nat, addr: nat)
    requires NamedByCounter(tempDir, reg, counter, start, requests)
    ensures NamedByCounter(tempDir, reg - {addr}, counter, start, requests)
  {
    forall a | a in reg - {addr}
      ensures IssuedBefore(tempDir, start, requests, (reg - {addr})[a].path)
    {
      assert IssuedBefore(tempDir, start, requests, reg[a].path);
    }
  }

  /** What holds of the allocator between calls: the counter is a `u64`,
      the registry is well formed and, without dialogs, the counter's
      history holds. */
  ghost predicate Invariant(interactive: bool, tempDir: Path, reg: Registry, fs: FileSystem, counter: nat,
                            start: nat, requests: nat)
  {
    && counter < FileNames.U64Limit
    && WellFormed(reg, fs)
    && (!interactive ==> NamedByCounter(tempDir, reg, counter, start, requests))
  }

  /** Registering a fresh mapping at `addr` backed by a new file `p` of
      `len` zero bytes keeps the invariant, provided `p` backs no live
      allocation and, without dialogs, was issued by the counter. */
  lemma RegisterKeepsInvariant(interactive: bool, tempDir: Path, reg: Registry, fs: FileSystem, counter: nat,
                               start: nat, requests: nat, addr: nat, p: Path, len: nat)
    requires Invariant(interactive, tempDir, reg, fs, counter, start, requests)
    requires FreshMapping(reg, addr, len) && !PathInUse(reg, p)
    requires !interactive ==> IssuedBefore(tempDir, start, requests, p)
    ensures Invariant(interactive, tempDir, reg[addr := Handle(p, len)], fs[p := Zeros(len)], counter, start, requests)
  {
    InsertKeepsWellFormed(reg, fs, addr, p, len);
    if !interactive {
      var reg' := reg[addr := Handle(p, len)];
      forall a | a in reg'
        ensures IssuedBefore(tempDir, start, requests, reg'[a].path)
      {
        if a != addr {
          assert IssuedBefore(tempDir, start, requests, reg[a].path);
        }
      }
    }
  }

  /** Moving a live allocation to `addr'` with its file set to `len`
      bytes keeps the invariant. */
  lemma ResizeKeepsInvariant(interactive: bool, tempDir: Path, reg: Registry, fs: FileSystem, counter: nat,
                             start: nat, requests: nat, addr: nat, len: nat, addr': nat)
    requires Invariant(interactive, tempDir, reg, fs, counter, start, requests) && addr in reg
    requires FreshMapping(reg - {addr}, addr', len)
    ensures var path := reg[addr].path;
            Invariant(interactive, tempDir, (reg - {addr})[addr' := Handle(path, len)],
                      fs[path := SetLen(fs[path], len)], counter, start, requests)
  {
    ResizeKeepsWellFormed(reg, fs, addr, len, addr');
    if !interactive {
      ResizeKeepsNamed(tempDir, reg, counter, start, requests, addr, len, addr');
    }
  }

  /** Dropping a live allocation and deleting its file keeps the
      invariant. */
  lemma RemoveKeepsInvariant(interactive: bool, tempDir: Path, reg: Registry, fs: FileSystem, counter: nat,
                             start: nat, requests: nat, addr: nat)
    requires Invariant(interactive, tempDir, reg, fs, counter, start, requests) && addr in reg
    ensures Invariant(interactive, tempDir, reg - {addr}, fs - {reg[addr].path}, counter, start, requests)
  {
    RemoveKeepsWellFormed(reg, fs, addr);
    if !interactive {
      RemoveKeepsNamed(tempDir, reg, counter, start, requests, addr);
    }
  }

  /** The process-wide once-flag that tells the first thread to use the
      allocator from every later one. */
  class InitDetector {
    var completed: bool

    constructor()
      ensures !completed
    {
      completed := false;
    }

    /** The lazy initialiser of a thread's switch-off flag: the first thread
        gets `false` (file-backed allocation enabled) and completes the
        detector; every later thread gets `true`. */
    method InitSwitchOff() returns (off: bool)
      modifies this
      ensures off == old(completed)
      ensures completed
    {
      if completed {
        off := true;
      } else {
        completed := true;
        off := false;
      }
    }
  }

  /** The allocator as seen from one thread: the process-wide registry,
      filesystem and file counter, and this thread's guard counters and
      switch-off flag. The ghost `start` and `requests` record the counter's
      history: its value at process start and the number of names issued. */
  class StupidAlloc {
    /** Whether confirmation and file-picking dialogs are enabled. */
    const interactive: bool
    /** The process's temporary directory. */
    const tempDir: Path

    var registry: Registry
    var fs: FileSystem
    /** Nesting depth of file-backed allocations on this thread. */
    var allocating: nat
    /** Nesting depth of file-backed deallocations on this thread. */
    var deallocating: nat
    /** This thread has opted out of file-backed allocation. */
    var switchOff: bool
    /** The `u64` counter that numbers default allocation files. */
    var fileCounter: nat
    /** The file and mapping effects performed through this view, in order. */
    var trace: seq<Event>
    ghost const start: nat
    ghost var requests: nat

    ghost predicate Valid()
      reads this`registry, this`fs, this`fileCounter, this`requests
    {
      Invariant(interactive, tempDir, registry, fs, fileCounter, start, requests)
    }

    /** The allocator on a thread's first use: the process-wide registry,
        files and counter as they stand at that moment, both guard counters
        at zero, and the switch-off flag the detector hands out. At process
        start the registry is empty and the counter is 0 (with `start` 0 and
        no `requests`). */
    constructor(detector: InitDetector, interactive: bool, tempDir: Path,
                registry: Registry, fs: FileSystem, fileCounter: nat, ghost start: nat, ghost requests: nat)
      requires WellFormed(registry, fs) && fileCounter < FileNames.U64Limit
      requires !interactive ==> NamedByCounter(tempDir, registry, fileCounter, start, requests)
      modifies detector
      ensures Valid()
      ensures this.interactive == interactive && this.tempDir == tempDir
      ensures this.registry == registry && this.fs == fs && this.fileCounter == fileCounter
      ensures this.start == start && this.requests == requests
      ensures allocating == 0 && deallocating == 0 && trace == []
      ensures switchOff == old(detector.completed) && detector.completed
    {
      var off := detector.InitSwitchOff();
      this.interactive := interactive;
      this.tempDir := tempDir;
      this.registry := registry;
      this.fs := fs;
      this.fileCounter := fileCounter;
      this.start := start;
      this.requests := requests;
      allocating, deallocating := 0, 0;
      trace := [];
      switchOff := off;
    }

    /** The reentrancy guard: the call must be served by the system
        allocator. */
    function UseFallback(): (up: bool)
      reads this`switchOff, this`allocating, this`deallocating
      ensures up <==> switchOff || allocating > 0 || deallocating > 0
    {
      switchOff || deallocating != 0 || allocating != 0
    }

    /** Enables (`true`) or disables (`false`) file-backed allocation on
        this thread. */
    method EnableInThread(value: bool)
      modifies this`switchOff
      ensures switchOff == !value
      ensures UseFallback() <==> !value || deallocating != 0 || allocating != 0
    {
      switchOff := !value;
    }

    /** The confirmation step: without dialogs every allocation is
        confirmed; with them, the user's answer decides. */
    function Confirm(answer: bool): (confirmed: bool)
      ensures !interactive ==> confirmed
      ensures interactive ==> (confirmed <==> answer)
    {
      if interactive then answer else true
    }

    /** The path the path provider will hand out next: the user's pick with
        dialogs, otherwise the file numbered by the counter. */
    function NextPath(picked: Option<Path>): (path: Option<Path>)
      reads this`fileCounter
      ensures interactive ==> path == picked
      ensures !interactive ==> path.Some? && path.value == FileNames.AllocFilePath(tempDir, fileCounter)
    {
      if interactive then picked else Some(FileNames.AllocFilePath(tempDir, fileCounter))
    }

    /** The counter after the path provider has been asked once. */
    function CounterAfterRequest(): (counter: nat)
      reads this`fileCounter
      requires fileCounter < FileNames.U64Limit
      ensures counter < FileNames.U64Limit
      ensures interactive ==> counter == fileCounter
      ensures !interactive && fileCounter + 1 < FileNames.U64Limit ==> counter == fileCounter + 1
      ensures !interactive && fileCounter + 1 == FileNames.U64Limit ==> counter == 0
    {
      if interactive then fileCounter else FileNames.NextCount(fileCounter)
    }

    /** The path provider's answer does not back a live allocation: opening
        it with truncation cannot destroy another allocation's contents.
        Callers must show this only for a picked path, or once 2^64 names
        have been issued and the counter's names may repeat; otherwise
        `NextNameUnused` proves it. */
    ghost predicate PathAvailable(picked: Option<Path>)
      reads this`registry, this`fileCounter
    {
      NextPath(picked).Some? ==> !PathInUse(registry, NextPath(picked).value)
    }

    /** The path provider: the user's pick with dialogs; otherwise the next
        numbered file under the temporary directory, post-incrementing the
        counter with `u64` wrap-around. */
    method GetAllocFilePath(picked: Option<Path>) returns (path: Option<Path>)
      requires Valid()
      modifies this`fileCounter, this`requests
      ensures Valid()
      ensures interactive ==> path == picked && fileCounter == old(fileCounter) && requests == old(requests)
      ensures !interactive ==> path == Some(FileNames.AllocFilePath(tempDir, old(fileCounter)))
      ensures !interactive ==> fileCounter == FileNames.NextCount(old(fileCounter)) && requests == old(requests) + 1
      ensures !interactive ==> IssuedBefore(tempDir, start, requests, path.value)
      ensures !interactive && old(requests) < FileNames.U64Limit ==> !PathInUse(registry, path.value)
    {
      if interactive {
        path := picked;
      } else {
        NamedAfterRequest(tempDir, registry, fileCounter, start, requests);
        path := Some(FileNames.AllocFilePath(tempDir, fileCounter));
        fileCounter := FileNames.NextCount(fileCounter);
        requests := requests + 1;
      }
    }

    /** The registry, filesystem, file counter and trace are as they were. */
    twostate predicate Untouched()
      reads this`registry, this`fs, this`fileCounter, this`trace, this`requests
    {
      && registry == old(registry) && fs == old(fs) && fileCounter == old(fileCounter) && trace == old(trace)
      && requests == old(requests)
    }

    /** The guard counters and switch-off flag are as they were. */
    twostate predicate GuardRestored()
      reads this`allocating, this`deallocating, this`switchOff
    {
      allocating == old(allocating) && deallocating == old(deallocating) && switchOff == old(switchOff)
    }

    /** What provisioning a confirmed allocation of `size` bytes does: the
        path provider is asked once; a missing path is an allocation error
        that changes nothing but the counter; a path gets a fresh file of
        `size` zero bytes, mapped at `addr` and registered under `addr`,
        with both effects performed while the guard is up. */
    twostate predicate ProvisionBehaviour(size: nat, picked: Option<Path>, addr: nat, r: Outcome)
      reads this`registry, this`fs, this`fileCounter, this`trace, this`requests
    {
      && old(fileCounter) < FileNames.U64Limit
      && fileCounter == old(CounterAfterRequest())
      && requests == old(requests) + (if interactive then 0 else 1)
      && match old(NextPath(picked))
         case None =>
           r == AllocError && registry == old(registry) && fs == old(fs) && trace == old(trace)
         case Some(path) =>
           && r == Mapped(addr, size)
           && registry == old(registry)[addr := Handle(path, size)]
           && fs == old(fs)[path := Zeros(size)]
           && trace == old(trace) + [Event(CreateFile(path, size), true), Event(MapFile(addr, path), true)]
    }

    /** A new backing file at `p`: opened with truncation, set to `size`
        bytes, mapped at `addr` and registered under `addr`, with the guard
        as it stands recorded on both effects. */
    method MapNewFile(p: Path, size: nat, addr: nat)
      requires Valid()
      requires FreshMapping(registry, addr, size) && !PathInUse(registry, p)
      requires !interactive ==> IssuedBefore(tempDir, start, requests, p)
      modifies this`registry, this`fs, this`trace
      ensures Valid()
      ensures registry == old(registry)[addr := Handle(p, size)]
      ensures fs == old(fs)[p := Zeros(size)]
      ensures trace == old(trace) + [Event(CreateFile(p, size), UseFallback()), Event(MapFile(addr, p), UseFallback())]
    {
      RegisterKeepsInvariant(interactive, tempDir, registry, fs, fileCounter, start, requests, addr, p, size);
      var truncated: seq<Byte> := [];
      SetLenOfEmpty(size);
      fs := fs[p := SetLen(truncated, size)];
      trace := trace + [Event(CreateFile(p, size), UseFallback())];
      trace := trace + [Event(MapFile(addr, p), UseFallback())];
      registry := registry[addr := Handle(p, size)];
    }

    /** The body of a confirmed allocation, run with the allocation counter
        raised. */
    method Provision(size: nat, picked: Option<Path>, addr: nat) returns (r: Outcome)
      requires Valid() && allocating > 0
      requires FreshMapping(registry, addr, size)
      requires interactive || requests >= FileNames.U64Limit ==> PathAvailable(picked)
      modifies this
      ensures Valid()
      ensures GuardRestored()
      ensures ProvisionBehaviour(size, picked, addr, r)
    {
      var path := GetAllocFilePath(picked);
      if path.Some? {
        MapNewFile(path.value, size, addr);
        r := Mapped(addr, size);
      } else {
        r := AllocError;
      }
    }

    /** What an allocation of `size` bytes does. With the guard up it
        delegates and touches nothing. Otherwise it asks for confirmation:
        a refusal is an allocation error that changes nothing; a
        confirmation provisions the allocation. Either way the guard ends
        where it started. */
    twostate predicate AllocateBehaviour(size: nat, fallback: SystemOp, answer: bool, picked: Option<Path>,
                                         addr: nat, r: Outcome)
      reads this
    {
      && GuardRestored()
      && (old(UseFallback()) ==> r == Delegated(fallback) && Untouched())
      && (!old(UseFallback()) && !Confirm(answer) ==> r == AllocError && Untouched())
      && (!old(UseFallback()) && Confirm(answer) ==> ProvisionBehaviour(size, picked, addr, r))
    }

    /** Allocation, with `fallback` the system operation to delegate to.
        `answer` is the confirmation dialog's answer, `picked` the file
        picker's, `addr` the address the operating system maps the new file
        at. */
    method InnerAllocate(size: nat, fallback: SystemOp, answer: bool, picked: Option<Path>, addr: nat)
      returns (r: Outcome)
      requires Valid()
      requires FreshMapping(registry, addr, size)
      requires interactive || requests >= FileNames.U64Limit ==> PathAvailable(picked)
      modifies this
      ensures Valid()
      ensures AllocateBehaviour(size, fallback, answer, picked, addr, r)
    {
      if UseFallback() {
        return Delegated(fallback);
      }
      allocating := allocating + 1;
      if Confirm(answer) {
        r := Provision(size, picked, addr);
      } else {
        r := AllocError;
      }
      allocating := allocating - 1;
    }

    method Allocate(size: nat, answer: bool, picked: Option<Path>, addr: nat) returns (r: Outcome)
      requires Valid()
      requires FreshMapping(registry, addr, size)
      requires interactive || requests >= FileNames.U64Limit ==> PathAvailable(picked)
      modifies this
      ensures Valid()
      ensures AllocateBehaviour(size, AllocateOp, answer, picked, addr, r)
    {
      r := InnerAllocate(size, AllocateOp, answer, picked, addr);
    }

    /** Zeroed allocation: file-backed memory is always zeroed, so only the
        system operation it delegates to differs from `Allocate`. */
    method AllocateZeroed(size: nat, answer: bool, picked: Option<Path>, addr: nat) returns (r: Outcome)
      requires Valid()
      requires FreshMapping(registry, addr, size)
      requires interactive || requests >= FileNames.U64Limit ==> PathAvailable(picked)
      modifies this
      ensures Valid()
      ensures AllocateBehaviour(size, AllocateZeroedOp, answer, picked, addr, r)
    {
      r := InnerAllocate(size, AllocateZeroedOp, answer, picked, addr);
    }

    /** The bytes of the live allocation at `a`: those of its backing
        file. */
    function Contents(a: nat): (bytes: seq<Byte>)
      reads this`registry, this`fs, this`fileCounter, this`requests
      requires Valid() && a in registry
      ensures |bytes| == registry[a].len
    {
      fs[registry[a].path]
    }

    /** What a resize of the allocation at `addr` to `newSize` bytes does.
        With the guard up it delegates and touches nothing. Otherwise the
        handle leaves its old key, its file is set to `newSize` bytes and
        mapped afresh at `newAddr`, and the handle with the same path ends
        up registered under `newAddr`. The effects are setting the length,
        the new mapping, and then the drop of the old mapping; none of this
        raises the guard. No other entry changes. */
    twostate predicate ResizeBehaviour(addr: nat, newSize: nat, fallback: SystemOp, newAddr: nat, r: Outcome)
      reads this
    {
      && GuardRestored()
      && fileCounter == old(fileCounter) && requests == old(requests)
      && (old(UseFallback()) ==> r == Delegated(fallback) && Untouched())
      && (!old(UseFallback()) ==>
            && addr in old(registry)
            && var path := old(registry)[addr].path;
            && r == Mapped(newAddr, newSize)
            && registry == (old(registry) - {addr})[newAddr := Handle(path, newSize)]
            && path in old(fs)
            && fs == old(fs)[path := SetLen(old(fs)[path], newSize)]
            && trace == old(trace) + [Event(SetFileLen(path, newSize), false),
                                      Event(MapFile(newAddr, path), false),
                                      Event(Unmap(addr), false)])
    }

    /** Grow, zeroed grow and shrink. A resize on the file-backed path of an
        address that is not registered cannot happen. `newAddr` is where
        the operating system maps the resized file. */
    method GrowOrShrink(addr: nat, newSize: nat, fallback: SystemOp, newAddr: nat) returns (r: Outcome)
      requires Valid()
      requires !UseFallback() ==> addr in registry
      requires addr in registry ==> FreshMapping(registry - {addr}, newAddr, newSize)
      modifies this
      ensures Valid()
      ensures ResizeBehaviour(addr, newSize, fallback, newAddr, r)
    {
      if UseFallback() {
        return Delegated(fallback);
      }
      ResizeKeepsInvariant(interactive, tempDir, registry, fs, fileCounter, start, requests, addr, newSize, newAddr);
      // take the handle out, set the file's length, map it afresh,
      // register it under the new address, then drop the old mapping
      var path := registry[addr].path;
      var shielded := UseFallback();
      var effects := [Event(SetFileLen(path, newSize), shielded), Event(MapFile(newAddr, path), shielded),
                      Event(Unmap(addr), shielded)];
      registry, fs, trace := (registry - {addr})[newAddr := Handle(path, newSize)],
                             fs[path := SetLen(fs[path], newSize)], trace + effects;
      r := Mapped(newAddr, newSize);
    }

    /** Growth to `newSize >= oldSize` bytes, `oldSize` being the size the
        block was allocated with: the old bytes come first, then zeros. */
    method Grow(addr: nat, oldSize: nat, newSize: nat, newAddr: nat) returns (r: Outcome)
      requires Valid()
      requires newSize >= oldSize
      requires !UseFallback() ==> addr in registry
      requires addr in registry ==> registry[addr].len == oldSize
      requires addr in registry ==> FreshMapping(registry - {addr}, newAddr, newSize)
      modifies this
      ensures Valid()
      ensures ResizeBehaviour(addr, newSize, GrowOp, newAddr, r)
      ensures r.Mapped? ==> r.ptr in registry && Contents(r.ptr) == old(Contents(addr)) + Zeros(newSize - oldSize)
    {
      r := GrowOrShrink(addr, newSize, GrowOp, newAddr);
      if r.Mapped? {
        SetLenKeepsPrefix(old(Contents(addr)), newSize);
      }
    }

    /** Zeroed growth: the same as `Grow`, since the extension of a file
        reads as zeros. */
    method GrowZeroed(addr: nat, oldSize: nat, newSize: nat, newAddr: nat) returns (r: Outcome)
      requires Valid()
      requires newSize >= oldSize
      requires !UseFallback() ==> addr in registry
      requires addr in registry ==> registry[addr].len == oldSize
      requires addr in registry ==> FreshMapping(registry - {addr}, newAddr, newSize)
      modifies this
      ensures Valid()
      ensures ResizeBehaviour(addr, newSize, GrowZeroedOp, newAddr, r)
      ensures r.Mapped? ==> r.ptr in registry && Contents(r.ptr) == old(Contents(addr)) + Zeros(newSize - oldSize)
    {
      r := GrowOrShrink(addr, newSize, GrowZeroedOp, newAddr);
      if r.Mapped? {
        SetLenKeepsPrefix(old(Contents(addr)), newSize);
      }
    }

    /** Shrinking to `newSize <= oldSize` bytes: the result is the prefix
        of the old bytes. */
    method Shrink(addr: nat, oldSize: nat, newSize: nat, newAddr: nat) returns (r: Outcome)
      requires Valid()
      requires newSize <= oldSize
      requires !UseFallback() ==> addr in registry
      requires addr in registry ==> registry[addr].len == oldSize
      requires addr in registry ==> FreshMapping(registry - {addr}, newAddr, newSize)
      modifies this
      ensures Valid()
      ensures ResizeBehaviour(addr, newSize, ShrinkOp, newAddr, r)
      ensures r.Mapped? ==> r.ptr in registry && Contents(r.ptr) == old(Contents(addr))[..newSize]
    {
      r := GrowOrShrink(addr, newSize, ShrinkOp, newAddr);
      if r.Mapped? {
        SetLenKeepsPrefix(old(Contents(addr)), newSize);
      }
    }

    /** Deallocation. With the guard up it delegates and touches nothing.
        Otherwise, with the deallocation counter raised, the entry is
        removed, the mapping dropped, then the file handle, and only then
        the file deleted; the counter then returns to where it was. A
        deallocation on the file-backed path of an address that is not
        registered cannot happen. */
    method Deallocate(addr: nat) returns (delegated: bool)
      requires Valid()
      requires !UseFallback() ==> addr in registry
      modifies this
      ensures Valid()
      ensures delegated == old(UseFallback())
      ensures GuardRestored() && fileCounter == old(fileCounter) && requests == old(requests)
      ensures delegated ==> Untouched()
      ensures !delegated ==>
                var path := old(registry)[addr].path;
                && registry == old(registry) - {addr}
                && fs == old(fs) - {path}
                && trace == old(trace) + [Event(Unmap(addr), true), Event(DropFile(path), true),
                                          Event(RemoveFile(path), true)]
    {
      if UseFallback() {
        return true;
      }
      deallocating := deallocating + 1;
      RemoveKeepsInvariant(interactive, tempDir, registry, fs, fileCounter, start, requests, addr);
      // take the handle out, drop the mapping, then the file handle, and
      // only then delete the file
      var path := registry[addr].path;
      var shielded := UseFallback();
      var effects := [Event(Unmap(addr), shielded), Event(DropFile(path), shielded), Event(RemoveFile(path), shielded)];
      registry, fs, trace := registry - {addr}, fs - {path}, trace + effects;
      deallocating := deallocating - 1;
      delegated := false;
    }

    /** A snapshot of the live allocations: base address to backing path. */
    function State(): (snapshot: map<nat, Path>)
      reads this`registry
      ensures snapshot.Keys == registry.Keys
      ensures forall a :: a in snapshot ==> snapshot[a] == registry[a].path
    {
      map a | a in registry :: registry[a].path
    }

    /** The backing path of the allocation whose mapping contains address
        `p`, which need not be a base address; `None` if no live mapping
        contains it. Mappings are disjoint, so at most one does. */
    function FileOf(p: nat): (r: Option<Path>)
      reads this`registry, this`fs, this`fileCounter, this`requests
      requires Valid()
      ensures r.None? <==> forall a :: a in registry ==> !Within(a, registry[a].len, p)
      ensures forall a :: a in registry && Within(a, registry[a].len, p) ==> r == Some(registry[a].path)
    {
      if exists a :: a in registry && Within(a, registry[a].len, p) then
        var a :| a in registry && Within(a, registry[a].len, p);
        Some(registry[a].path)
      else
        None
    }

    /** Every byte of a live mapping leads back to the path the snapshot
        lists for the mapping's base address. */
    lemma FileOfAgreesWithState(a: nat, i: nat)
      requires Valid() && a in registry && i < registry[a].len
      ensures a in State() && FileOf(a + i) == Some(State()[a])
    {
      assert Within(a, registry[a].len, a + i);
    }
  }
}
