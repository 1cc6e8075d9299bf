/** The backing store shared by both allocators: an abstract filesystem of
    byte files, the handle that ties a live allocation to its file and memory
    mapping, the registry of live allocations, and the record of file and
    mapping side effects an allocator performs. */
module Backing {

  datatype Option<+T> = None | Some(value: T)

  /** A byte of a backing file, and so of the memory mapped over it. */
  type Byte = bv8

  /** A filesystem location. */
  type Path = string

  /** The filesystem: every existing regular file with its contents. */
  type FileSystem = map<Path, seq<Byte>>

  /** `n` zero bytes. */
  function Zeros(n: nat): (z: seq<Byte>)
    ensures |z| == n
    ensures forall i :: 0 <= i < n ==> z[i] == 0
  {
    seq(n, _ => 0)
  }

  /** The contents of a file after `set_len(n)`: truncated to `n` bytes, or
      extended to `n` bytes where the extension reads as zeros (the behaviour
      of `ftruncate` in POSIX.1-2017). */
  function SetLen(contents: seq<Byte>, n: nat): (r: seq<Byte>)
    ensures |r| == n
    ensures forall i :: 0 <= i < n && i < |contents| ==> r[i] == contents[i]
    ensures forall i :: |contents| <= i < n ==> r[i] == 0
  {
    if n <= |contents| then contents[..n] else contents + Zeros(n - |contents|)
  }

  /** `set_len` on a freshly truncated file is the zero-fill the allocators
      rely on: the file holds exactly `n` zero bytes. */
  lemma SetLenOfEmpty(n: nat)
    ensures SetLen([], n) == Zeros(n)
  {
  }

  /** Resizing keeps the common prefix: after growing or shrinking, the
      first `min(old, new)` bytes are the old ones, and a grown file ends
      in zeros. */
  lemma SetLenKeepsPrefix(contents: seq<Byte>, n: nat)
    ensures n <= |contents| ==> SetLen(contents, n) == contents[..n]
    ensures n >= |contents| ==> SetLen(contents, n) == contents + Zeros(n - |contents|)
  {
  }

  /** A live file-backed allocation: the path of its backing file and the
      length of the memory mapping over it (`map.len()`). The mapping's base
      address is the registry key the handle is stored under. */
  datatype Handle = Handle(path: Path, len: nat)

  /** The allocation registry: base address of a mapping to its handle. */
  type Registry = map<nat, Handle>

  /** Address `p` lies in the interval `[base, base + len)`. */
  predicate Within(base: nat, len: nat, p: nat)
  {
    base <= p < base + len
  }

  /** The intervals `[a, a + m)` and `[b, b + n)` do not overlap. */
  predicate Apart(a: nat, m: nat, b: nat, n: nat)
  {
    a + m <= b || b + n <= a
  }

  /** Some live allocation is backed by the file at `path`. */
  ghost predicate PathInUse(reg: Registry, path: Path)
  {
    exists a :: a in reg && reg[a].path == path
  }

  /** What a new memory mapping of `len` bytes at `addr` is assumed to be:
      at an address that is not a live key, over an interval that overlaps
      no live mapping. The address itself comes from the operating system. */
  predicate FreshMapping(reg: Registry, addr: nat, len: nat)
  {
    addr !in reg && forall a :: a in reg ==> Apart(a, reg[a].len, addr, len)
  }

  /** The live mappings occupy pairwise disjoint intervals. */
  ghost predicate MappingsDisjoint(reg: Registry)
  {
    forall a, b :: a in reg && b in reg && a != b ==> Apart(a, reg[a].len, b, reg[b].len)
  }

  /** The registry invariant: every handle's backing file exists with exactly
      the mapped length, no two live allocations share a backing file, and
      the mappings are disjoint. */
  ghost predicate WellFormed(reg: Registry, fs: FileSystem)
  {
    && (forall a :: a in reg ==> reg[a].path in fs && |fs[reg[a].path]| == reg[a].len)
    && (forall a, b :: a in reg && b in reg && a != b ==> reg[a].path != reg[b].path)
    && MappingsDisjoint(reg)
  }

  /** Provisioning a fresh allocation keeps the registry invariant: the new
      file holds `len` zero bytes, at a path no live allocation uses, under a
      fresh mapping. */
  lemma {:induction false} InsertKeepsWellFormed(reg: Registry, fs: FileSystem, addr: nat, path: Path, len: nat)
    requires WellFormed(reg, fs)
    requires FreshMapping(reg, addr, len)
    requires !PathInUse(reg, path)
    ensures WellFormed(reg[addr := Handle(path, len)], fs[path := Zeros(len)])
  {
    var reg', fs' := reg[addr := Handle(path, len)], fs[path := Zeros(len)];
    forall a | a in reg'
      ensures reg'[a].path in fs' && |fs'[reg'[a].path]| == reg'[a].len
    {
      if a != addr {
        assert reg[a].path != path;
      }
    }
  }

  /** Resizing the allocation at `addr` and re-inserting its handle under a
      fresh mapping keeps the registry invariant. */
  lemma {:induction false} ResizeKeepsWellFormed(reg: Registry, fs: FileSystem, addr: nat, len: nat, addr': nat)
    requires WellFormed(reg, fs)
    requires addr in reg
    requires FreshMapping(reg - {addr}, addr', len)
    ensures var path := reg[addr].path;
            WellFormed((reg - {addr})[addr' := Handle(path, len)], fs[path := SetLen(fs[path], len)])
  {
    var path := reg[addr].path;
    var reg' := (reg - {addr})[addr' := Handle(path, len)];
    var fs' := fs[path := SetLen(fs[path], len)];
    forall a | a in reg'
      ensures reg'[a].path in fs' && |fs'[reg'[a].path]| == reg'[a].len
    {
      if a != addr' {
        assert a in reg && a != addr;
        assert reg[a].path != path;
      }
    }
    forall a, b | a in reg' && b in reg' && a != b
      ensures reg'[a].path != reg'[b].path
    {
      if a != addr' && b != addr' {
        assert reg'[a] == reg[a] && reg'[b] == reg[b];
      } else if a == addr' {
        assert b in reg && b != addr;
      } else {
        assert a in reg && a != addr;
      }
    }
  }

  /** Releasing the allocation at `addr` and deleting its file keeps the
      registry invariant. */
  lemma {:induction false} RemoveKeepsWellFormed(reg: Registry, fs: FileSystem, addr: nat)
    requires WellFormed(reg, fs)
    requires addr in reg
    ensures WellFormed(reg - {addr}, fs - {reg[addr].path})
  {
    var reg', fs' := reg - {addr}, fs - {reg[addr].path};
    forall a | a in reg'
      ensures reg'[a].path in fs' && |fs'[reg'[a].path]| == reg'[a].len
    {
      assert reg[a].path != reg[addr].path;
    }
  }

  /** A side effect on a file or a memory mapping. */
  datatype Effect =
    | CreateFile(path: Path, size: nat)  // open with create and truncate, then set_len(size)
    | SetFileLen(path: Path, size: nat)  // set_len on an open file
    | MapFile(addr: nat, path: Path)     // a read/write shared mapping of the whole file
    | Unmap(addr: nat)                   // the mapping is dropped
    | DropFile(path: Path)               // the file handle is dropped
    | RemoveFile(path: Path)             // the file is deleted

  /** An effect, with whether a re-entrant allocation made by it would be
      served by the system allocator (`shielded`) rather than by the file
      backed path. */
  datatype Event = Event(effect: Effect, shielded: bool)

  /** The system allocator operation a call is delegated to. */
  datatype SystemOp = AllocateOp | AllocateZeroedOp | GrowOp | GrowZeroedOp | ShrinkOp | DeallocateOp

  /** The result of an allocation or resize: delegated to the system
      allocator, a file-backed slice of `len` bytes at `ptr`, or the
      allocation error of a declined request. */
  datatype Outcome = Delegated(op: SystemOp) | Mapped(ptr: nat, len: nat) | AllocError
}
