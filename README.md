# stupidalloc, modelled in Dafny

stupidalloc is a Rust memory allocator that backs every allocation with a
file of its own. The file is created, set to the requested length and mapped
into memory. A registry maps the base address of each mapping to a handle
holding the mapping, the file and its path. The allocator must not recurse
into itself: creating files, mapping them and growing the registry all
allocate memory. So a reentrancy guard sends every call made while the
allocator is at work to the system allocator.

The project models three parts:

- `src/lib.rs`, the thread-aware allocator (module `ThreadAware`, file
  `thread_aware.dfy`, with the default file naming in `FileNames`,
  `file_names.dfy`). Its guard is per thread: an `ALLOCATING` counter, a
  `DEALLOCATING` counter and a switch-off flag. The first thread to use the
  allocator gets the flag down; every later thread gets it up.
- `src/main.rs`, the earlier prototype (module `Prototype`,
  `prototype.dfy`). Its guard is two process-wide booleans, and it asks the
  user for every allocation.
- `src/graphics.rs`, the bit view of an allocation (module `Graphics`,
  `graphics.dfy`). It draws every byte as 8 pixels, most significant bit
  first. A left click sets a bit and a right click clears it.

The shared vocabulary is in `Backing` (`backing.dfy`):

- The filesystem is a map from path to bytes.
- `SetLen` is `set_len`: it truncates, or it extends with zeros.
- The registry of handles carries the invariant `WellFormed`. Every handle's
  file exists with the mapped length. No two handles share a path. The
  mapped intervals are disjoint.
- A trace of file and mapping effects, each tagged with whether a
  re-entrant allocation at that moment would go to the system allocator.

The allocators are classes whose methods update the registry, the
filesystem, the guard and the trace in place. Each method's postcondition
states the whole new state. The properties are proved as lemmas about the
specification functions.

Some inputs come from outside the program and are passed in as parameters:

- the confirmation dialog's answer;
- the file picker's choice;
- the address the operating system maps a file at;
- the temporary directory.

## Model

| member | source | states |
|---|---|---|
| `Backing.SetLen` | src/lib.rs:511 | after `set_len(n)` a file holds `n` bytes, keeps its common prefix with the old contents and reads as zeros beyond the old end |
| `Backing.SetLenOfEmpty` | src/lib.rs:390-398 | a file opened with truncation and set to `n` bytes holds exactly `n` zero bytes, which is why allocation and zeroed allocation coincide |
| `Backing.SetLenKeepsPrefix` | src/lib.rs:510-511 | growing a file appends zeros to the old bytes; shrinking keeps a prefix |
| `Backing.InsertKeepsWellFormed` | src/lib.rs:455-466 | registering a fresh file under a fresh, disjoint mapping keeps every handle's file present at the mapped length, paths distinct and mappings disjoint |
| `Backing.ResizeKeepsWellFormed` | src/lib.rs:507-559 | removing a handle, resizing its file and re-registering it under a new disjoint mapping keeps the registry invariant |
| `Backing.RemoveKeepsWellFormed` | src/lib.rs:662-705 | removing a handle and deleting its file keeps the registry invariant |
| `FileNames.NextCount` | src/lib.rs:229-239 | `fetch_add(1)` on the `u64` counter yields `k + 1` below 2^64 and wraps to 0 at 2^64 |
| `FileNames.Decimal` | src/lib.rs:237-240 | the decimal rendering of the counter has at least one digit, and every character is a digit |
| `FileNames.ZeroPad` | src/lib.rs:238 | the `{:010}` format leaves a rendering of 10 or more digits as it is; a shorter one is left-padded with `'0'` to exactly 10 characters and ends in the original digits |
| `FileNames.ValueOfDecimal` | src/lib.rs:237-240 | reading the decimal rendering back gives the counter value |
| `FileNames.LeadingZeros` | src/lib.rs:238 | zero padding does not change the value a rendering denotes |
| `FileNames.ValueOfPadded` | src/lib.rs:237-240 | the padded rendering consists of digits and reads back as the counter value |
| `FileNames.AllocFilePathInjective` | src/lib.rs:230-240 | two counter values give the same `stupidalloc/alloc_NNNNNNNNNN.mem` path if and only if they are equal |
| `FileNames.IssuedPathsDistinct` | src/lib.rs:229-240 | fewer than 2^64 successive requests from any counter value get pairwise distinct paths |
| `FileNames.IssuedStep` | src/lib.rs:239 | the value issued to the next request is `NextCount` of the current one |
| `FileNames.Offset` | src/lib.rs:229-239 | for `u64` start and counter values, the number of requests between them, counted modulo 2^64, is itself below 2^64 |
| `FileNames.OffsetOfIssued` | src/lib.rs:229-239 | before 2^64 requests, the value issued to request `i` lies exactly `i` requests after the start value |
| `FileNames.AllocFileNameParts` | src/lib.rs:237-240 | an issued file name is `alloc_`, then at least ten decimal digits that read back as the counter value, then `.mem` |
| `FileNames.AllocFilePathParts` | src/lib.rs:230-240 | an issued path is the temporary directory, then `/stupidalloc/`, then the issued file name |
| `ThreadAware.NextNameUnused` | src/lib.rs:229-240 | while fewer than 2^64 names have been issued, the counter's next name backs no live allocation |
| `ThreadAware.NamedAfterRequest` | src/lib.rs:229-240 | issuing the counter's name and advancing the counter keeps every live file named by an earlier request; the issued name counts as issued, and it is unused below 2^64 requests |
| `ThreadAware.RegisterKeepsInvariant` | src/lib.rs:389-466 | registering a fresh disjoint mapping backed by a new, unused file (without dialogs, one the counter issued) keeps the counter a `u64`, the registry well formed and the counter's history |
| `ThreadAware.ResizeKeepsNamed` | src/lib.rs:507-559 | moving a live allocation to a new address keeps its file's name, so the counter's history still holds |
| `ThreadAware.RemoveKeepsNamed` | src/lib.rs:662-705 | dropping a live allocation keeps the counter's history |
| `ThreadAware.ResizeKeepsInvariant` | src/lib.rs:507-559 | a resize keeps the whole allocator invariant: counter, registry and history |
| `ThreadAware.RemoveKeepsInvariant` | src/lib.rs:662-705 | a deallocation keeps the whole allocator invariant |
| `ThreadAware.InitDetector.InitSwitchOff` | src/lib.rs:164-178 | the first thread to initialise its switch-off flag gets `false` and completes the once-flag; every later thread gets `true` |
| `ThreadAware.StupidAlloc.constructor` | src/lib.rs:153-178 | a thread's view of the allocator takes the process-wide registry, files and counter as they stand (kept as given), starts both of its own guard counters at zero, and gets the switch-off flag the once-flag hands out |
| `ThreadAware.StupidAlloc.UseFallback` | src/lib.rs:374-376 | the guard is up exactly when the thread is switched off or either of its counters is nonzero |
| `ThreadAware.StupidAlloc.Confirm` | src/lib.rs:193-214 | without dialogs every allocation is confirmed; with them the user's answer decides |
| `ThreadAware.StupidAlloc.NextPath` | src/lib.rs:217-241 | with dialogs the next path is the picker's choice; without them it is always present and is the file named by the current counter value |
| `ThreadAware.StupidAlloc.CounterAfterRequest` | src/lib.rs:229-239 | with dialogs the counter is unchanged; without them it goes up by one, wrapping to 0 at 2^64, and stays a `u64` |
| `ThreadAware.StupidAlloc.EnableInThread` | src/lib.rs:253-255 | the switch-off flag becomes `!value`, so afterwards the guard is up if and only if `!value` or a counter is nonzero |
| `ThreadAware.StupidAlloc.GetAllocFilePath` | src/lib.rs:217-242 | with dialogs the path is the picker's choice and the counter is untouched; without them it is the file named by the counter, and the counter advances with `u64` wrap-around. The invariant is kept, the name counts as issued, and before 2^64 requests it backs no live allocation |
| `ThreadAware.StupidAlloc.MapNewFile` | src/lib.rs:389-466 | a new file at the path holds `size` zero bytes, is mapped at the given address and registered there; the create and map effects are recorded in that order, and the invariant is kept |
| `ThreadAware.StupidAlloc.Provision` | src/lib.rs:387-473 | after a confirmation the path provider is asked once; a missing path is `AllocError` with only the counter changed, and a path gets a file of `size` zero bytes mapped and registered at the address with the guard up; the guard is not changed |
| `ThreadAware.StupidAlloc.InnerAllocate` | src/lib.rs:366-483 | with the guard up (switch-off, or either counter nonzero) the call delegates and changes nothing. Otherwise, a declined confirmation is `AllocError` with nothing changed, and a missing path is `AllocError` with only the counter changed. A path gets a file of `size` zero bytes, created and mapped with the guard up, and exactly one new registry entry at the mapping's address. The guard counters end where they started, and the registry invariant is kept |
| `ThreadAware.StupidAlloc.Allocate` | src/lib.rs:582-584 | `InnerAllocate` delegating to the system's `allocate` |
| `ThreadAware.StupidAlloc.AllocateZeroed` | src/lib.rs:643-645 | `InnerAllocate` delegating to the system's `allocate_zeroed` |
| `ThreadAware.StupidAlloc.GrowOrShrink` | src/lib.rs:488-568 | with the guard up the call delegates and changes nothing. Otherwise the handle moves from the old key to the new mapping's address with the same path, and its file is set to the new size. The effects are set-length, then map, then drop the old mapping, all with the guard down. No other entry, no other file and no guard value changes |
| `ThreadAware.StupidAlloc.Grow` | src/lib.rs:586-603 | a file-backed grow returns the old bytes followed by zeros up to the new size |
| `ThreadAware.StupidAlloc.GrowZeroed` | src/lib.rs:605-622 | a file-backed zeroed grow returns the old bytes followed by zeros, the same as `Grow` |
| `ThreadAware.StupidAlloc.Shrink` | src/lib.rs:624-641 | a file-backed shrink returns the first `newSize` old bytes |
| `ThreadAware.StupidAlloc.Deallocate` | src/lib.rs:647-723 | with the guard up the call delegates and changes nothing. Otherwise the entry is removed, and the mapping is dropped, then the file handle, then the file is deleted, all with the deallocation counter raised. The counter then returns to where it was |
| `ThreadAware.StupidAlloc.State` | src/lib.rs:259-266 | the snapshot has exactly the registry's addresses, each with its handle's path |
| `ThreadAware.StupidAlloc.FileOf` | src/lib.rs:270-284 | the result is `None` if and only if no live mapping contains the address; otherwise it is the path of the mapping that contains it, which is unique because mappings are disjoint |
| `ThreadAware.StupidAlloc.FileOfAgreesWithState` | src/lib.rs:259-284 | every byte inside a live mapping leads `file_of` to the path `state` lists for the mapping's base |
| `Prototype.StupidAlloc.constructor` | src/main.rs:19-31 | at process start the registry is empty and both global flags are down |
| `Prototype.StupidAlloc.Shielded` | src/main.rs:37 | a re-entrant allocation is delegated exactly when either global flag is up |
| `Prototype.StupidAlloc.Allocate` | src/main.rs:36-94 | with either global flag up the call delegates. It does not touch the allocating flag: the deallocating flag short-circuits the `fetch_or`, and a `fetch_or` on a raised flag leaves it raised. Otherwise a declined confirmation or no picked path is `AllocError` with nothing changed. A picked path gets a file of `size` zero bytes and one registry entry. The allocating flag is stored down at the end |
| `Prototype.StupidAlloc.Deallocate` | src/main.rs:96-128 | the call is delegated if and only if the address is not registered, and then nothing changes. Otherwise the entry is removed, the mapping and the file handle are dropped with the guard as it was on entry, and the file is deleted with the deallocating flag up. The flag is stored down at the end |
| `Graphics.ShiftReadsBit` | src/graphics.rs:22 | `byte >> i & 1` reads bit `i` of the byte |
| `Graphics.ShiftMakesMask` | src/graphics.rs:133 | `1 << k` is the byte with only bit `k` set |
| `Graphics.ReverseBits` | src/graphics.rs:18 | bit `k` of the result is bit `7 - k` of the input |
| `Graphics.Shade` | src/graphics.rs:20-28 | a clear bit is the black pixel `0x00000000` and a set bit the white pixel `0x00FFFFFF` |
| `Graphics.BitsAsPixels` | src/graphics.rs:17-30 | a byte becomes 8 pixels, and pixel `i` is white exactly when bit `7 - i` is set (most significant bit first) |
| `Graphics.PixelsAppend` | src/graphics.rs:115-116 | the frame buffer of a mapping extended by one byte is the old buffer followed by that byte's pixels |
| `Graphics.Pixels` | src/graphics.rs:116 | the frame buffer holds 8 pixels per byte of the mapping |
| `Graphics.PixelsAt` | src/graphics.rs:115-116 | pixel `8 * i + j` of the frame buffer is pixel `j` of byte `i` |
| `Graphics.FrameWidth` | src/graphics.rs:119 | the window is 8 pixels wide per byte column |
| `Graphics.FrameHeight` | src/graphics.rs:119 | the window shows as many whole rows of `columns` bytes as the mapping holds: `height * columns <= len < (height + 1) * columns` |
| `Graphics.BufferCoversFrame` | src/graphics.rs:118-120 | a window of `8 * columns` by `len / columns` pixels takes no more pixels than the buffer holds; the rest are the `8 * (len % columns)` pixels of an incomplete last row |
| `Graphics.RowsAndRest` | src/graphics.rs:118-120 | width times height plus the pixels of the incomplete row is 8 pixels per byte |
| `Graphics.ClickInBounds` | src/graphics.rs:124-149 | a pixel inside the window addresses a byte inside the mapping |
| `Graphics.ByteIndex` | src/graphics.rs:130-131 | a pixel column inside the window picks a byte in the pixel's row of `columns` bytes |
| `Graphics.Mask` | src/graphics.rs:129-133 | the mask has bit `7 - x % 8` set and no other bit |
| `Graphics.MaskIsShift` | src/graphics.rs:133 | the mask is `1 << (7 - x % 8)` |
| `Graphics.RowMajor` | src/graphics.rs:130-131 | byte `x / 8 + y * columns` and bit column `x % 8` are pixel `y * 8 * columns + x` of a row-major frame |
| `Graphics.ClickHitsPixel` | src/graphics.rs:115-149 | the byte and bit column a click edits are the ones drawn at the clicked pixel |
| `Graphics.SetMaskLights` | src/graphics.rs:130-135 | or-ing in `1 << (7 - x % 8)` turns pixel `x % 8` of the byte white and leaves its other pixels alone |
| `Graphics.ClearMaskDarkens` | src/graphics.rs:143-148 | and-ing with the complement of the mask turns pixel `x % 8` black and leaves the other pixels alone |
| `Graphics.MaskBits` | src/graphics.rs:133-148 | setting bit `k` makes it set and clearing it makes it clear; no other bit changes |
| `Graphics.SetBitLights` | src/graphics.rs:133-135 | setting bit `k` turns pixel `7 - k` of the byte white and leaves its other pixels alone |
| `Graphics.ClearBitDarkens` | src/graphics.rs:146-148 | clearing bit `k` turns pixel `7 - k` of the byte black and leaves its other pixels alone |
| `Graphics.SetBitPixel` | src/graphics.rs:133-135 | after setting bit `k`, pixel `7 - k` of the byte is white and its other pixels are unchanged |
| `Graphics.ClearBitPixel` | src/graphics.rs:146-148 | after clearing bit `k`, pixel `7 - k` of the byte is black and its other pixels are unchanged |
| `Graphics.LeftClick` | src/graphics.rs:124-136 | a left click at `(x, y)` keeps the mapping's length and changes no byte but the clicked one |
| `Graphics.LeftClickLights` | src/graphics.rs:124-136 | after a left click the redrawn frame is white at `(x, y)` |
| `Graphics.LeftClickKeepsNeighbours` | src/graphics.rs:124-136 | a left click leaves the clicked byte's other pixels unchanged |
| `Graphics.RightClick` | src/graphics.rs:137-149 | a right click at `(x, y)` keeps the mapping's length and changes no byte but the clicked one |
| `Graphics.RightClickDarkens` | src/graphics.rs:137-149 | after a right click the redrawn frame is black at `(x, y)` |
| `Graphics.RightClickKeepsNeighbours` | src/graphics.rs:137-149 | a right click leaves the clicked byte's other pixels unchanged |
| `Graphics.Viewer.constructor` | src/graphics.rs:33-54 | a view maps the whole file; with zero columns the height computation divides by zero and the loop does not run |
| `Graphics.Viewer.Remap` | src/graphics.rs:33-54 | remapping sees the file's current contents and starts an empty buffer |
| `Graphics.Viewer.Receive` | src/graphics.rs:92-111 | an empty channel changes nothing; `Free` or a disconnected channel ends the loop; `Grow` remaps with the same width; `Resize` sets the width and remaps, and a zero width ends the loop with the mapping and buffer untouched |
| `Graphics.Viewer.Redraw` | src/graphics.rs:114-116 | after clearing and refilling, the buffer is the flat map of `bits_as_pixels` over every byte of the mapping |
| `Graphics.Viewer.SetBitAt` | src/graphics.rs:124-136 | or-ing the mask `1 << (7 - x % 8)` into byte `x / 8 + y * columns` of the view leaves it as `LeftClick` of the old contents |
| `Graphics.Viewer.ClearBitAt` | src/graphics.rs:137-149 | and-ing byte `x / 8 + y * columns` of the view with the complement of the mask leaves it as `RightClick` of the old contents |

## Left out

- Real files, memory mappings and pointers are left out. A file is its contents in an abstract filesystem. A mapping is its base address and length, and its bytes are those of its file.
- The operating system's choice of mapping address is a parameter. It is required to be unused and disjoint from every live mapping (`FreshMapping`).
- `ThreadAware.StupidAlloc.InnerAllocate` requires the path a request gets not to back a live allocation (`PathAvailable`) only where the model cannot prove it: for the file picker's choice, and once 2^64 names have been issued and the counter's names repeat. Below 2^64 requests without dialogs it is proved from the counter's history (`NextNameUnused`). Opening a live allocation's file with truncation is not modelled.
- Panics from `unwrap` are not modelled; every such call succeeds. This covers `open`, `set_len`, `map_mut` and the dialogs in `InnerAllocate` (src/lib.rs:205, 221, 396-402), `set_len` and `map_mut` in `GrowOrShrink` (src/lib.rs:511-517), `remove_file` in `Deallocate` (src/lib.rs:705), and the same calls in the prototype (src/main.rs:54-73, 112, 122). Poisoned locks are not modelled either.
- `ThreadAware.StupidAlloc.GrowOrShrink` requires a registered address when the guard is down. The source reaches `unreachable!` there, and this is not modelled.
- `ThreadAware.StupidAlloc.Deallocate` requires a registered address when the guard is down. The source reaches `unreachable!` there, and this is not modelled.
- `ThreadAware.StupidAlloc.Grow`, `GrowZeroed` and `Shrink` require the old size to be the registered mapping length, as the `Allocator` contract requires of callers. The `debug_assert!` on the size order is a precondition.
- The system allocator is not modelled. A delegated call is reported as the operation it is delegated to, and its result is not modelled.
- Threads, locks and atomic memory orderings are not modelled. The thread-aware model is one thread's view, with its own guard counters; the process-wide registry, files and counter are handed to it when the thread first uses the allocator, and other threads' calls in between are not modelled. The prototype's flags are one global state.
- The confirmation dialog and the file picker are parameters. The confirmation dialog after a deallocation is left out, because its answer is ignored.
- Logging to `.md` files (the `logging` feature) is left out.
- The creation of the `stupidalloc` temporary directory is left out, including the panic when it fails for a reason other than already existing.
- `ThreadAware.StupidAlloc.GetAllocFilePath` does not model operating-system path syntax. The path is the directory, `/`, and the name joined as strings.
- Opening windows, `open_window_of`, `set_columns_of`, `close_graphics_of`, `DEFAULT_GRAPHICS_COLUMNS` and the `Grow`/`Free` messages lib.rs sends to a view are not modelled. A view is modelled alone, and its messages are inputs.
- `Graphics.Viewer.constructor` gives the view its own copy of the file's bytes. Sharing bytes with the allocator's mapping (aliasing) is not modelled, and neither are the minifb window, its open/closed state, `update_with_buffer` and the frame-rate limit.
- Mouse polling and the floor of the mouse coordinates are not modelled. A click is a pixel position with whole coordinates inside the window. A click while both buttons are down counts as a left click in the source, and this is not modelled separately.
- The `GlobalAlloc` wrappers (`alloc`, `dealloc`, `alloc_zeroed`), which unwrap the `Allocator` results, are not modelled.
- `Display for StupidAlloc` is left out. It prints `state()`.
- `examples/graphics.rs` is an example program and is not part of this model.
- `Graphics.Viewer.SetBitAt` and `ClearBitAt` require the byte index to be inside the mapping. A click outside it would panic in the source, and `ClickInBounds` shows that a click inside the window always satisfies this requirement.
