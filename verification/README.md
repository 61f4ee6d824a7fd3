# openTiger kernel services: a verified model

The project models the parts of the openTiger RISC-V kernel that keep state which must stay consistent: the
OTFS file system, the page allocator, the window compositor, the shell's redirection parser, the round-robin
scheduler, the keyboard and its routing to terminals, path normalization, the directory tree, and the shell's
overlay of files on that tree. Code that updates arrays and fields is written as classes and methods over arrays
and fields; each method is proved against a function on values, and what the kernel relies on is proved about
those functions, over every input and every run.

`dafny verify dfyconfig.toml` checks the whole project.

## How the parts fit together

**File system.** `OtfsHandle` holds the handle with its file allocation table, directory, descriptors and image.
`OtfsLayout` says which chains such a table and directory hold, `OtfsView` shows the state as a volume of files
with block-sized images, and `OtfsVolume` gives the operations on volumes. `OtfsRuns` proves properties of runs on
volumes, and `OtfsFlat` refines the volume to a map from names to byte strings. `OtfsProgress` follows the read
and write loops block by block. `OtfsMount` says what mount accepts and what that acceptance is worth.

**Memory.** `BitWords` proves the laws of the 64-bit bitmap, `PagePool` is the set of live pages and its runs, and
`PageAllocator` is the allocator with its hint and its count.

**Windows.** `WmWindow` is the geometry and colour of one window in 32-bit arithmetic, `Framebuffers` the
rectangle fill, `Layers` the window stack, and `Compositors` relates what is painted at a point to what a click
there hits.

**Shell lines.** `RedirLex` and `RedirGrammar` give the tokens and the grammar of a line, each with an independent
printer; `RedirBuffer` is the parser that cuts the line in place.

**Tasks.** `RoundRobin` is the scheduler as a state machine over timer interrupts, `Scheduler` the task table and
queue in arrays.

**Keys.** `Scancodes` and `Keyboards` go from scancodes to the ring of pending keys, `KeyDispatch` from there to the
terminals, `TerminalSessions` handles a key in one terminal, and `KeyRouting` proves what reaches which session
over whole runs.

**Paths and directories.** `PathAlgebra` is normalization as a walk over names and `FsPath` its buffers.
`DirForest` and `DirSpec` give the tree as a set of paths, `DirTree` the node table, and `CdTargets` says where
single names lead. `PathParts`,
`EntryArrays`, `Namespace`, `Listing`, `ShellRuns` and `PathStates` are the shell's files on that tree.

`Words` holds the machine integers that several parts share.

## What the code does not promise

Each of these is a property one might expect, an input on which it fails, and the exact condition under which it
holds, proved for all inputs.

- **A failed write leaves the files as they were.** Writing 513 bytes into an empty file on a volume with one free block
  answers NO_SPACE, yet keeps the block and its bytes beyond the recorded size
  (`OtfsRuns.FailedWriteLeavesDebris`). On a full disk it can overwrite recorded contents
  (`OtfsRuns.FailedWriteOverwrites`). `OtfsRuns.FailedWriteKeepsFilesIff`: the files stay as they were if and only if
  no block is free and the bytes that fit in the file's own blocks are there already.
- **Files stay clean**, with just the blocks their size calls for and zeros behind it. The first write above breaks
  this too, and a later write past the debris makes it contents (`OtfsRuns.DebrisSurfaces`).
  `OtfsRuns.CleanAfterWriteIff` is the exact condition for one write, `OtfsRuns.RunStaysCleanIff` for every step of
  a run.
- **Every recorded byte is backed by a block.** A write of no bytes past the end moves the recorded size over a gap
  that no block holds (`OtfsRuns.EmptyWriteLeavesGap`, for every offset above 0). It holds at every step of a run
  if and only if no empty write of the run lies past the blocks of its file (`OtfsRuns.RunStaysCoveredIff`).
- **An accepted image reads back.** Mount rounds the size up in 32 bits, so an entry of size 0xffffffff with no chain
  is accepted (`OtfsMount.OversizedAccepted`); seeking there, writing nothing and reading from the start gives a
  state error, and the entry still passes the mount check (`OtfsMount.EmptyWriteThenMount`). The chain of an
  accepted entry covers its size if and only if the size is at most 2^32 - 512 (`OtfsMount.AcceptedChainCovers`),
  and a read on an accepted image succeeds if and only if the size is at most that, or the offset is at or past
  it, or nothing is asked for (`OtfsMount.AcceptedReadsIff`).
- **An accepted image keeps its files apart.** Two files on one block pass the checks (`OtfsMount.CrossingAccepted`).
  An accepted image is sound if and only if no block is on two chains and every taken block is on one
  (`OtfsMount.SoundIff`, `OtfsHandle.Otfs.Mount`).
- **Unmounted volumes mount again.** A file of size 0 must have no block to be accepted, but a write to an empty file
  that runs out of space leaves it the blocks it took, so the volume is refused afterwards unless no block was free
  to take (`OtfsMount.FailedWriteThenRefused`, for every such write). After any run from a formatted image, mount
  accepts if and only if every stored file has the blocks that mount's own arithmetic asks for, and none when it
  asks for none (`OtfsMount.RunRemountsIff`, `OtfsHandle.Otfs.Remount`).
- **What is painted for a window lies in its frame.** A valid window whose title bar wraps around the 32-bit
  coordinates can paint its accent outside the frame, where a click does not hit it
  (`Compositors.WrappedAccentExists`, `Compositors.WrappedAccentIsNotHit`). It stays inside if and only
  if neither coordinate of the accent's corner wraps (`WmWindow.AccentInsideIff`, `WmWindow.OverIff`), and always when
  the frame's far edges fit in 32 bits (`WmWindow.EdgesFitStays`).
- **A window shows its border, title bar and content where its style puts them.** Corners that would pass the last
  32-bit coordinate are moved back to it, into the border (`WmWindow.CornersNeedNotFit`). The parts lie at the
  distances the style asks for, at every point of the frame, if and only if their corners are 32-bit numbers
  (`WmWindow.PartsAtIff`); then `WmWindow.ShadeMeans` gives the colour at each distance from the edges.
- **A null page means that none is free.** A pool that starts at address 0 hands out page 0 as a null pointer, which
  cannot be freed again (`PagePool.PageZeroIsLost`). A null answer means that no page is free if and only if the
  pool starts above 0, is empty, or has page 0 handed out already (`PagePool.NullMeansFullIff`); the same condition
  decides whether freeing undoes taking (`PagePool.TakeGiveIff`) and, for runs that allocate, whether the live
  pages are those held (`PagePool.RunNeverTwice`).
- **An aligned page range lies inside the given range.** Rounding the start up wraps in the last page of the address
  space, and the pool then starts at 0 (`PageAllocator.PoolWraps`); `PageAllocator.PoolInsideIff` is the exact
  condition.
- **`>` and `>` apart are two redirections.** `a> >b` is taken for an append, because the second `>` is looked for
  after the blanks (`RedirGrammar.SplitAppendIsAccepted`). The tokens are the usual ones if and only if no word
  is directly followed by `>`, blanks and another `>` (`RedirLex.LexIsPlainIff`), and the parse is the
  usual one if and only if there is no such place or the line is refused (`RedirGrammar.ParsesAsUsualIff`).
- **A path whose normal form fits is normalized.** `..` gives no room back in the pool of names, so `/a/..` taken
  often enough is refused although it leads to `/`; `PathAlgebra.RoundsFail` gives the exact number of rounds for
  every path that leads back, `PathAlgebra.OneRound` the room of that one, and `PathAlgebra.ResolveWalks` the exact
  condition for every path.
- **`cd ..` leads to the parent.** From a directory whose path is longer than 252 characters it is refused, because room
  is asked for the text before it is walked (`CdTargets.DeepCannotGoUp`); it leads to the parent if and only if the
  path is not that long (`CdTargets.UpLeadsToParentIff`).
- **Every key typed is delivered.** One press more than the queue holds, before any dispatch, loses a key
  (`KeyRouting.OnePressTooMany`). All keys of a run are accepted if and only if at no moment the keys typed since the
  last dispatch, with those pending before, are more than the queue holds (`KeyRouting.AcceptsAllIff`).
- **A refused file write changes nothing.** Too long a text for a new file makes the file, empty
  (`ShellRuns.RefusedWriteMakesFile`). A refused write leaves the shell as it was if and only if it could not go
  there at all, or the file was written before and is appended to or empty (`ShellRuns.RefusedKeepsShellIff`).
- **A failing `mkdir -p` makes nothing.** With a second name that is too long it makes the first
  (`DirSpec.FailedMkdirPMakesSome`). It leaves the directories as they were if and only if the first missing name is
  the one that is too long or has no node left (`DirSpec.FailedMkdirPKeepsIff`, `DirTree.DirTree.MkdirP`).

## Model

| member | source | states |
|---|---|---|
| OtfsVolume.FindName | fs/otfs.c:301-311 | the first stored slot of that name, or none when no slot stores it |
| OtfsRuns.RunConserves | fs/otfs.c:499-720 | along every run of calls, failing ones included, the volume stays well formed and free blocks plus blocks held by files add up to the disk |
| OtfsRuns.FormattedRunConserves | fs/otfs.c:358-421 | every run that starts at a formatted image conserves its blocks |
| OtfsRuns.OpenRefusesIff | fs/otfs.c:107-127 | open refuses its arguments if and only if the name is empty, too long or holds a slash, neither reading nor writing is asked for, or truncation without writing |
| OtfsRuns.OpenAnswers | fs/otfs.c:499-558 | otherwise it answers NOT_FOUND, NO_SPACE or OK by whether the name is stored, a slot is vacant and a descriptor closed, and what it leaves stored in each case |
| OtfsRuns.OpenGives | fs/otfs.c:499-558 | a successful open gives the lowest closed descriptor, at offset 0 of a file of that name, empty when it is new or truncated |
| OtfsRuns.WriteSucceedsIff | fs/otfs.c:652-720 | a write succeeds exactly when the blocks it lacks are free, fails only for space, takes precisely those blocks, or all that are left when it fails, and the file's image grows by just what left the free list |
| OtfsRuns.WriteOffsetStaysInData | fs/otfs.c:652-720 | a write moves the descriptor only forward and never past the bytes of the disk, or leaves it in place |
| OtfsRuns.FailedWriteKeepsFilesIff | fs/otfs.c:652-720 | a write that fails leaves all files as they were if and only if no block is free and what fits in the file's own blocks is there already |
| OtfsRuns.CleanAfterWriteIff | fs/otfs.c:652-720 | a write keeps every image exactly as long as its size and zero behind it if and only if: for no bytes, the size then recorded needs no further block; otherwise there is room, or the disk is full and what was stored past the end is zero |
| OtfsRuns.FailedWriteLeavesDebris | fs/otfs.c:688-694 | the literal NO_SPACE write that leaves an empty file a block of its bytes |
| OtfsRuns.FailedWriteOverwrites | fs/otfs.c:688-694 | a literal NO_SPACE write on a full disk that replaces all recorded contents and keeps the volume clean |
| OtfsRuns.DebrisSurfaces | fs/otfs.c:652-720 | a byte in a file's blocks between the recorded size and the place of a later successful write becomes part of its contents as it lay there |
| OtfsRuns.EmptyWriteLeavesGap | fs/otfs.c:708-710 | on an empty file an empty write at any offset above 0 succeeds and records a size no block backs |
| OtfsRuns.ApplyKeepsCoveredIff | fs/otfs.c:499-720 | a call leaves every recorded byte in a block if and only if it is no empty write past its file's blocks, whether or not it succeeds |
| OtfsRuns.RunStaysCoveredIff | fs/otfs.c:499-720 | so does every step of a run, if and only if each of its calls meets that |
| OtfsRuns.RunStaysCleanIff | fs/otfs.c:499-720 | every step of a run finds the volume clean if and only if each write of the run meets the condition of CleanAfterWriteIff where it happens |
| OtfsRuns.WriteReplacesSlice | fs/otfs.c:652-720 | with room, a write zero-extends the contents, replaces exactly the slice at the offset, advances one descriptor and touches no other file |
| OtfsRuns.ReadDeliversSlice | fs/otfs.c:590-650 | a read delivers exactly the contents between the offset and the end or the asked length, and moves only its descriptor |
| OtfsRuns.ReadBack | fs/otfs.c:590-720 | what was written is read back through any readable descriptor of the file after seeking to the same place |
| OtfsFlat.StepAgrees | fs/otfs.c:499-720 | on a clean volume, a gentle call (one that keeps it clean and, if a write, finds its room) and the same call on a map from names to byte strings give the same reply and states that still correspond |
| OtfsFlat.RunAgrees | fs/otfs.c:499-720 | so do whole gentle runs, reply by reply |
| OtfsFlat.FormattedRunAgrees | fs/otfs.c:358-720 | a gentle run from a formatted image replies like one on the empty map |
| OtfsFlat.RunKeepsNames | fs/otfs.c:499-558 | stored names stay distinct and valid along every run, failed writes included |
| OtfsLayout.ChainUnique | fs/otfs.c:129-157 | from one first block the table holds at most one chain |
| OtfsLayout.ChainDistinct | fs/otfs.c:129-157 | a chain that ends visits no block twice |
| OtfsLayout.ChainsDisjoint | fs/otfs.c:201-283 | no block is on the chains of two files, nor twice on one |
| OtfsLayout.UsedIffOnChain | fs/otfs.c:201-283 | a block is taken if and only if it is on some file's chain: nothing leaks |
| OtfsLayout.BlocksAddUp | fs/otfs.c:201-283 | free words of the table and the blocks of all chains add up to the table |
| OtfsLayout.HangKeepsLayout | fs/otfs.c:239-283 | hanging a free block at the end of a file's chain keeps the layout of all files and costs one free block |
| OtfsLayout.FreeKeepsLayout | fs/otfs.c:220-237 | freeing a file's chain keeps the layout of all others and gives back exactly its blocks |
| OtfsView.ViewSound | fs/otfs.c:201-283 | table, directory and data in a sound layout show as a well-formed volume that conserves blocks |
| OtfsView.HangShows | fs/otfs.c:239-283 | a block hung on a chain shows as one zero block more at the end of that file's image, and nothing else |
| OtfsView.BlockShows | fs/otfs.c:293-299 | storing a block shows as replacing its bytes in the image of the one file that holds it |
| OtfsView.FreeShows | fs/otfs.c:220-237 | releasing a chain shows as truncating that file |
| OtfsMount.AcceptedChainCovers | fs/otfs.c:129-157 | the chain of an accepted entry covers its size if and only if the size is at most 2^32 - 512 |
| OtfsMount.AcceptedChainSound | fs/otfs.c:129-199 | for every file of an accepted image there is a chain that ends, is no longer than the table, repeats no block, runs through taken blocks and covers the size under exactly that bound |
| OtfsMount.SoundIff | fs/otfs.c:159-199 | a disk whose files all have chains is sound, for some assignment of blocks to owners, if and only if no block is on two chains and every taken block is on one |
| OtfsMount.CrossingAccepted | fs/otfs.c:159-199 | the literal image of two files on one block that is accepted and not sound |
| OtfsMount.OversizedAccepted | fs/otfs.c:129-157 | the literal entry of size 0xffffffff without a block that is accepted |
| OtfsMount.AcceptedMeans | fs/otfs.c:129-199 | mount accepts metadata if and only if every word is a mark or a block, names are legal and distinct, and every file has a chain that covers its size, or none when the size is 0 or above 2^32 - 512 |
| OtfsMount.AcceptedReadsIff | fs/otfs.c:590-650 | on an accepted image a read succeeds if and only if the size is within the bound, or lies at or before the offset, or no bytes are asked; its only failure is a state error |
| OtfsMount.EmptyWriteThenMount | fs/otfs.c:575-720 | from every empty file, a seek to 0xffffffff and an empty write give an entry that mount accepts and whose first byte cannot be read |
| OtfsMount.RemountIff | fs/otfs.c:129-199 | mount accepts a sound disk if and only if the stored names are valid and distinct and every stored file passes the check on its own size and blocks |
| OtfsMount.FailedWriteThenRefused | fs/otfs.c:129-157 | after every write to an empty file that runs out of space, mount accepts the file if and only if no block was free before |
| OtfsMount.RunRemountsIff | fs/otfs.c:423-720 | the same for the disk after any run from a formatted image, with no condition on its writes |
| OtfsMount.AcceptedAgain | fs/otfs.c:423-497 | a clean volume is accepted again after unmounting |
| OtfsMount.RemountIdentity | fs/otfs.c:423-497 | after a remount, whatever layout is read from the image, the files and free blocks are those from before and all descriptors are closed |
| OtfsMount.FormattedMounts | fs/otfs.c:358-478 | a formatted image passes the checks and shows as the empty volume |
| OtfsHandle.RegionsTile | fs/otfs.c:9-19 | directory, table and data follow one another without gaps, are large enough for 64 bytes a file and 4 a block, and for 249 blocks and 32 files are the sizes of the source |
| OtfsHandle.Otfs.AllocateDataBlock | fs/otfs.c:201-218 | takes the first free block, ends its chain and zeroes its bytes, or changes nothing when none is free |
| OtfsHandle.Otfs.ReleaseChain | fs/otfs.c:220-237 | from any first block, frees exactly the blocks it visits; it succeeds if and only if there is a chain that ends, and else stops where the way leaves the table or comes back |
| OtfsHandle.Otfs.FindDataBlock | fs/otfs.c:239-283 | finds the block at a place of the chain, or says there is none |
| OtfsHandle.Otfs.ResolveDataBlock | fs/otfs.c:239-283 | finds the block or grows the chain up to it; on NO_SPACE the blocks hung so far stay |
| OtfsHandle.Otfs.Open | fs/otfs.c:499-558 | opening on arrays is opening on the volume: name and flag checks, creation, truncation, the first closed descriptor, and exactly which arguments are refused; truncation only on a sound disk |
| OtfsHandle.Otfs.Close | fs/otfs.c:560-573 | closing on arrays is closing on the volume, on every accepted image |
| OtfsHandle.Otfs.Seek | fs/otfs.c:575-588 | seeking on arrays is seeking on the volume, past the end too, on every accepted image |
| OtfsHandle.Otfs.Read | fs/otfs.c:590-650 | reading through the chain is reading the volume's file: status, count, bytes in the buffer, the rest of the buffer and the new state |
| OtfsHandle.Otfs.Write | fs/otfs.c:652-720 | writing through the chain is writing the volume's file, its failures and what they leave included, and after a success the image holds the metadata |
| OtfsHandle.Otfs.ValidateEntryChain | fs/otfs.c:129-157 | the bounded walk accepts if and only if a chain that ends exists and has the required blocks |
| OtfsHandle.Otfs.ValidateMetadata | fs/otfs.c:159-199 | accepts if and only if all words are in range, names are valid and distinct and every chain is accepted |
| OtfsHandle.Otfs.Mount | fs/otfs.c:423-478 | succeeds if and only if the superblock is the expected one and the metadata accepted, then holds the image's state with all descriptors closed, and is valid if and only if the chains are consistent |
| OtfsHandle.Otfs.Unmount | fs/otfs.c:480-497 | succeeds exactly on a mounted handle, puts table and directory on the image and clears the handle |
| OtfsHandle.Otfs.Remount | fs/otfs.c:423-497 | unmounting a sound volume and mounting it again succeeds if and only if mount accepts its files, and then keeps all files and closes all descriptors |
| OtfsHandle.FormatAndMount | fs/otfs.c:352-478 | a fresh image, formatted and mounted, always gives a valid handle showing the empty volume |
| OtfsHandle.Perform | fs/otfs.c:499-720 | each call on the arrays is the call on the volume, with what a caller sees of its reply |
| OtfsHandle.Play | fs/otfs.c:499-720 | any sequence of calls on the arrays is the volume's run, reply by reply |
| OtfsHandle.FormatAndPlay | fs/otfs.c:352-720 | from a formatted image, every run on the arrays is the run of the volume; a gentle one replies like the map from names to byte strings; and the metadata it leaves is accepted if and only if each file is |
| BitWords.BitsIndependent | kernel/mm/page_alloc.c:27-45 | setting or clearing one bit of the words changes that bit and no other |
| PagePool.TakenPage | kernel/mm/page_alloc.c:101-122 | a page handed out is aligned, in the pool, was not live and lies lowest of all free ones; without one nothing changes |
| PagePool.NullMeansFullIff | kernel/mm/page_alloc.c:101-122 | a null answer means that all pages are live if and only if the pool starts above 0, is empty, or has page 0 live |
| PagePool.PageZeroIsLost | kernel/mm/page_alloc.c:101-152 | in every pool from address 0 whose page 0 is free, that page comes next, as null, stays live and cannot be freed |
| PagePool.TakeGiveIff | kernel/mm/page_alloc.c:101-152 | with a page left, freeing the page just taken restores the pool if and only if it was not page 0, and freeing it before is refused |
| PagePool.GiveTake | kernel/mm/page_alloc.c:101-152 | taking after freeing the lowest page gives that page and restores the pool |
| PagePool.GiveIff | kernel/mm/page_alloc.c:134-152 | freeing succeeds if and only if the address is not null and that of a live page, and then takes back just that page |
| PagePool.RunNeverTwice | kernel/mm/page_alloc.c:101-152 | over every run in every pool no page is handed out while it is held; the live pages are those handed out and not freed, if and only if page 0 could not be handed out in the run, and always but for page 0 |
| PageAllocator.PoolInsideIff | kernel/mm/page_alloc.c:69-99 | the aligned pool lies within the given range if and only if rounding the start does not wrap or the end is below one page |
| PageAllocator.PoolHoldsAll | kernel/mm/page_alloc.c:69-99 | no whole page of the range is left out, unless the pool has its largest size and the page lies behind it |
| PageAllocator.PoolWraps | kernel/mm/page_alloc.c:69-99 | the literal range in the last page that gives a full pool from address 0 |
| PageAllocator.PageAlloc.Init | kernel/mm/page_alloc.c:69-99 | every range gives a valid allocator of its pool with no page live |
| PageAllocator.PageAlloc.BitmapSet | kernel/mm/page_alloc.c:35-39 | marks one page and no other |
| PageAllocator.PageAlloc.BitmapClear | kernel/mm/page_alloc.c:41-45 | unmarks one page and no other |
| PageAllocator.PageAlloc.PageIndexFromAddr | kernel/mm/page_alloc.c:47-67 | an address has an index exactly when it is that of a page of the pool |
| PageAllocator.PageAlloc.Alloc | kernel/mm/page_alloc.c:101-122 | the search from the hint finds the lowest free page, so the hint skips none |
| PageAllocator.PageAlloc.Free | kernel/mm/page_alloc.c:134-152 | frees a live page of the pool and refuses every other address without a change |
| WmWindow.PartsInside | kernel/wm/window.c:87-144 | title bar and content of a valid window lie in its frame |
| WmWindow.ValidIff | kernel/wm/window.c:62-85 | a window is valid if and only if a title bar is asked for and the frame has room, within the border, for the whole bar and something below it |
| WmWindow.PartsAre | kernel/wm/window.c:28-144 | title bar and content of a valid window, from frame and style: a border as thick as asked but at most half the frame, the bar over the whole width, the content below it |
| WmWindow.PartsAtIff | kernel/wm/window.c:87-144 | every point of the frame belongs to border, title bar or content by its distances from the edges, if and only if the corners are 32-bit numbers |
| WmWindow.CornersNeedNotFit | kernel/wm/window.c:12-18 | a literal valid window whose corner is moved into the border |
| WmWindow.ShadeMeans | kernel/wm/compositor.c:69-101 | the colour at each distance from the edges: border all around, title bar with the accent line at its place and length, content |
| WmWindow.AccentColorMeans | kernel/wm/compositor.c:95-99 | each byte of the accent colour is 0x20 and the low half of that byte of the title's hash |
| WmWindow.EdgesFitStays | kernel/wm/compositor.c:69-101 | a frame whose far edges fit in 32 bits keeps its accent inside |
| WmWindow.AccentInsideIff | kernel/wm/compositor.c:69-101 | the accent is inside the frame if and only if neither coordinate of its corner wraps |
| WmWindow.OverIff | kernel/wm/compositor.c:69-101 | painting a window changes exactly the points of its frame, to its shade, if and only if the accent stays |
| Framebuffers.PlaceOf | kernel/gfx/framebuffer.c:59-91 | column and row are recovered from a place in the pixel buffer |
| Framebuffers.Framebuffer.FillRect | kernel/gfx/framebuffer.c:59-91 | exactly the visible pixels inside the rectangle get the colour, clipping done without overflow |
| Layers.LiftedKeeps | kernel/wm/layers.c:64-90 | lifting a window keeps the windows of the stack, each once |
| Layers.LayerStack.PushBack | kernel/wm/layers.c:18-30 | puts the window on top unless the stack is full |
| Layers.LayerStack.IndexOf | kernel/wm/layers.c:48-62 | the first index of the window, or none |
| Layers.LayerStack.MoveToFront | kernel/wm/layers.c:64-90 | shifts the windows above down in place so that the window is on top and the order of the others kept |
| Compositors.PaintedIsHit | kernel/wm/compositor.c:157-181 | what painting back to front leaves at a point is the shade of the topmost window over it, the one a click hits, or the background |
| Compositors.WrappedAccentIsNotHit | kernel/wm/compositor.c:69-101 | a window whose accent leaves its frame is painted at a point where it cannot be hit |
| Compositors.WrappedAccentExists | kernel/wm/compositor.c:69-101 | a literal valid window of that kind |
| Compositors.RaisedIsHit | kernel/wm/compositor.c:146-153 | once raised, the window hit at a point is on top and hit there again |
| Compositors.RaisedElsewhere | kernel/wm/compositor.c:137-144 | raising a window changes no pixel outside its frame |
| Compositors.Compositor.AddWindow | kernel/wm/compositor.c:110-127 | adds a window on top and makes it active if and only if it is valid, new and there is a place |
| Compositors.Compositor.ActivateWindow | kernel/wm/compositor.c:137-144 | raises a window of the stack and makes it active, or changes nothing |
| Compositors.Compositor.HitTest | kernel/wm/focus.c:57-78 | the topmost window whose frame holds the point |
| Compositors.Compositor.ActivateAt | kernel/wm/compositor.c:146-155 | raises just the window hit, which is then hit on top, or changes nothing |
| Compositors.Compositor.DrawWindow | kernel/wm/compositor.c:69-101 | the four fills together paint the window over what was there, at every pixel |
| Compositors.Compositor.Render | kernel/wm/compositor.c:157-181 | every visible pixel is what the stack paints there, and with proper windows it is the shade of the window a click there hits |
| RedirLex.LexCovers | shell/parser_redir.c:31-109 | the tokens are proper and, joined, are the line without its blanks: no character is lost, made up or moved |
| RedirLex.LexPrint | shell/parser_redir.c:31-109 | printed tokens are read back as the same tokens |
| RedirLex.BlanksSeparate | shell/parser_redir.c:12-14 | spaces and tabs after a word end it, and any number of them is like one |
| RedirLex.LexIsPlainIff | shell/parser_redir.c:31-109 | the tokens are those of a reader that looks one character ahead if and only if no word is followed at once by `>`, blanks and `>` |
| RedirGrammar.ParseIff | shell/parser_redir.c:111-193 | the parser accepts tokens as a command if and only if the command is well formed and the tokens are its printed form: full grammar in both directions, and unambiguous |
| RedirGrammar.LineReadsBack | shell/parser_redir.c:111-193 | the printed line of every well-formed command parses to that command |
| RedirGrammar.PipeAndRedirect | shell/parser_redir.c:111-193 | two words with a pipe between them and `>` or `>>` and a third behind parse to that pipe with that redirection |
| RedirGrammar.AcceptedLine | shell/parser_redir.c:111-193 | every accepted line carries exactly its command's characters apart from blanks, and printing it again parses to the same command |
| RedirGrammar.ParsesAsUsualIff | shell/parser_redir.c:111-193 | the line parses as with the one-character-ahead reader if and only if no `>` is split after a word or the line is refused |
| RedirGrammar.SplitAppendIsAccepted | shell/parser_redir.c:43-58 | `a> >b` is accepted as an append to `b` |
| RedirBuffer.NextToken | shell/parser_redir.c:31-109 | the in-place reader delivers the next token, writing only terminators over what it has read |
| RedirBuffer.Take | shell/parser_redir.c:123-190 | one token taken into the result is one step of the grammar |
| RedirBuffer.ParseWithRedirection | shell/parser_redir.c:111-193 | the buffer parser accepts exactly the grammar's lines; then every pointer of the result leads to the right terminated word of the cut line, and nothing past the end of the line is touched |
| RoundRobin.RunKeeps | kernel/sched/rr.c:167-218 | any run of interrupts keeps the queue, the task identifiers and the slot in range, leaves no task marked running between interrupts, and keeps run counts equal to switches in |
| RoundRobin.TickMarks | kernel/sched/rr.c:167-218 | the task chosen was ready; it is counted once, ends as its entry leaves it, and holds the pc and cause of the frame if there is one; no other task changes with it |
| RoundRobin.OutgoingMarks | kernel/task/task.c:69-83 | the task that was current is counted out, made ready if it was running, and marked with the frame if there is one; no other changes |
| RoundRobin.NextSlotFirst | kernel/sched/rr.c:61-93 | the slot chosen is no farther around the queue than any ready one |
| RoundRobin.NobodyStarves | kernel/sched/rr.c:167-218 | a ready task is the current one after at most as many interrupts as the queue has slots, whatever the other tasks do to their states |
| RoundRobin.TakesTurns | kernel/sched/rr.c:167-218 | with tasks that stay ready, slot and counts after n interrupts are those of strict rotation |
| RoundRobin.EqualShares | kernel/sched/rr.c:167-218 | under strict rotation the shares of two slots differ by at most one, the earlier never behind |
| RoundRobin.FairRun | kernel/sched/rr.c:167-218 | so the run counts of any two tasks differ by at most one, equal their switches in, and match their switches out but for the current task |
| Scheduler.Scheduler.TaskCreate | kernel/task/task.c:31-55 | takes the first unused entry and resets it, or changes nothing when there is none |
| Scheduler.Scheduler.TaskFind | kernel/task/task.c:57-67 | the first used entry of that identifier |
| Scheduler.Scheduler.ContextSwitchOut | kernel/task/task.c:69-83 | one task is switched out, its frame recorded when there is one; no other changes |
| Scheduler.Scheduler.ContextSwitchIn | kernel/task/task.c:85-97 | one task is switched in; no other changes |
| Scheduler.Scheduler.Enqueue | kernel/sched/rr.c:115-122 | appends the task's identifier unless there is no task or no place |
| Scheduler.Scheduler.Bootstrap | kernel/sched/rr.c:142-165 | leaves two fresh ready tasks queued, which is where FairRun starts; a second call changes nothing |
| Scheduler.Scheduler.FindNextSlot | kernel/sched/rr.c:61-93 | the search around the queue in arrays finds the state machine's next slot |
| Scheduler.Scheduler.HandleTimerInterrupt | kernel/sched/rr.c:167-218 | one interrupt on the arrays is one step of the state machine |
| Scancodes.ShiftAndPrefix | drivers/input/keyboard.c:179-222 | a shift key is down from its byte to its byte with the high bit, the prefix hides one byte, and none of them types |
| Scancodes.OtherBytes | drivers/input/keyboard.c:179-226 | no other byte changes the decoder, and released keys type nothing |
| Scancodes.Rows | drivers/input/keyboard.c:62-163 | the rows of the keyboard with and without either shift key, through the decoder |
| Scancodes.Controls | drivers/input/keyboard.c:47-60 | the four control keys, and the bytes that type nothing |
| Keyboards.Keyboard.Push | drivers/input/keyboard.c:25-45 | the ring appends key and focused window, or drops the key when full |
| Keyboards.Keyboard.HandleScancode | drivers/input/keyboard.c:179-243 | modifiers and prefixes follow the decoder, and the key decoded, if any, is queued with the window in focus |
| Keyboards.Keyboard.Pop | drivers/input/keyboard.c:245-265 | the oldest key leaves the ring with its window |
| TerminalSessions.HistoryIsLastLines | kernel/tty/terminal_session.c:275-359 | after any keys, input is what editing left, the history is the last of all lines entered with a word, and each of them was counted and executed once, in order |
| TerminalSessions.ExecutedMeans | kernel/tty/terminal_session.c:275-319 | a line leaves no trace if it is all spaces and tabs; otherwise it ends a history of at most eight lines, is counted, and changes the body |
| TerminalSessions.KeysEdit | kernel/tty/terminal_session.c:321-359 | which characters are added to the line, while there is room, and what backspace, enter and the other controls do |
| TerminalSessions.TerminalSession.StoreHistory | kernel/tty/terminal_session.c:79-98 | the ring holds the last lines, the new one included |
| TerminalSessions.TerminalSession.ExecuteLine | kernel/tty/terminal_session.c:275-319 | a line that fits is, if it holds a word, stored, counted and executed; one that does not fit is refused without a change |
| TerminalSessions.TerminalSession.HandleEvent | kernel/tty/terminal_session.c:321-359 | a key edits the buffer or enters the line, and text past the capacity is refused |
| KeyRouting.DeliveredOnce | kernel/input/keyboard_dispatch.c:90-101 | over any run, keys queued before and accepted are those delivered and still queued, in order: none lost, repeated or reordered |
| KeyRouting.FocusStays | drivers/input/keyboard.c:25-45 | the focus a key is typed at is that of the last change of focus before it |
| KeyRouting.OwnKeysOnly | kernel/input/keyboard_dispatch.c:36-49 | delivering keys to all sessions does to one session what its own keys alone would do |
| KeyRouting.SessionIsItsOwn | kernel/input/keyboard_dispatch.c:36-101 | after any run a session's input, history and body are functions of the keys delivered to its endpoint |
| KeyRouting.OverflowsIff | kernel/input/keyboard_dispatch.c:36-101 | a key meets the full queue in a run if and only if, counted on the inputs alone, more keys wait at some moment than it holds; until then the queue is as long as that count |
| KeyRouting.AcceptsAllIff | drivers/input/keyboard.c:25-45 | all typed keys are accepted if and only if the keys typed since the last dispatch, with those pending, never exceed the queue; otherwise strictly fewer are |
| KeyRouting.OnePressTooMany | drivers/input/keyboard.c:25-45 | the run of one press more than the queue holds loses a key |
| KeyRouting.NoInterference | kernel/input/keyboard_dispatch.c:36-101 | two runs whose dispatches keep up and drain the queue, and that type the same at one terminal, leave it the same, whatever is typed elsewhere |
| KeyDispatch.TerminalDispatch.Register | kernel/wm/terminal_window.c:69-105 | registers a terminal if and only if it is known, or has an endpoint no other has and there is a place |
| KeyDispatch.TerminalDispatch.Unregister | kernel/wm/terminal_window.c:50-67 | takes out just that terminal |
| KeyDispatch.TerminalDispatch.DispatchEvent | kernel/wm/terminal_window.c:170-178 | the key changes the session of its endpoint and no other |
| KeyDispatch.KeyboardDispatch.RegisterWindow | kernel/input/keyboard_dispatch.c:63-84 | binds a window to an endpoint, anew if it is bound, unless one is missing or the table is full |
| KeyDispatch.KeyboardDispatch.DispatchToEndpoint | kernel/input/keyboard_dispatch.c:36-49 | the key reaches the endpoint its window is bound to, or is dropped |
| KeyDispatch.KeyboardDispatch.DispatchPending | kernel/input/keyboard_dispatch.c:90-101 | empties the queue, counts its keys and delivers them in order; without a sink they are dropped |
| KeyDispatch.Attach | kernel/wm/terminal_window.c:128-149 | succeeds if and only if the terminal can be registered, its window shown and its keys bound; a refused window takes the registration back, a full key table leaves terminal and window in place; wired terminals stay wired |
| KeyDispatch.TypedAtMineIff | kernel/input/keyboard_dispatch.c:36-49 | a wired terminal gets exactly the keys typed at its window if and only if no other window is bound to its endpoint |
| KeyDispatch.OnlyMine | kernel/wm/terminal_window.c:69-149 | with different endpoints, and only terminals' windows bound, no other window is |
| PathAlgebra.ComponentsOfPrint | fs/path.c:54-156 | printing a list of names and splitting it gives the names back |
| PathAlgebra.NormalizeFolds | fs/path.c:54-156 | a normalized path is the print of the walk over the names, fits, is canonical and as absolute as the path was |
| PathAlgebra.CanonicalIsNormal | fs/path.c:54-156 | a canonical path that fits is left as it is |
| PathAlgebra.NormalizeTwice | fs/path.c:54-156 | normalizing again changes nothing, and has room |
| PathAlgebra.UpTakesBack | fs/path.c:89-102 | after a canonical path with a name at its end, absolute or relative, `..` takes back that name and no other |
| PathAlgebra.UpAtRoot | fs/path.c:89-102 | at the root `..` stays at the root |
| PathAlgebra.UpStaysUp | fs/path.c:89-102 | in a relative path with no name to take back `..` is kept |
| PathAlgebra.DotStays | fs/path.c:85-87 | `.` after a canonical path changes nothing |
| PathAlgebra.NameGoesDown | fs/path.c:104-115 | any other name is added at the end |
| PathAlgebra.SlashesMerge | fs/path.c:67-83 | several slashes are like one, and one at the end like none |
| PathAlgebra.PrintMeans | fs/path.c:125-155 | a printed path is its names with single slashes between, after one if absolute |
| PathAlgebra.RoundsFail | fs/path.c:54-156 | n rounds of a path back to the root give `/` if and only if n times its room fits in the pool |
| PathAlgebra.OneRound | fs/path.c:54-156 | one round of `a/..` takes 2 places of the pool |
| PathAlgebra.PrintInjective | fs/path.c:125-155 | different lists of names print as different absolute paths |
| PathAlgebra.ResolveWalks | fs/path.c:158-197 | resolving is walking from the directory, or from the root for an absolute path, and the exact condition on room under which it succeeds |
| PathAlgebra.ResolvedIsPlace | fs/path.c:158-197 | where a resolved path leads, one can resolve from again |
| CdTargets.UpLeadsToParentIff | fs/path.c:158-197 | from every directory but the root `..` leads to the parent if and only if the path leaves room for the text |
| CdTargets.DeepCannotGoUp | fs/path.c:158-197 | the literal directory, with names that mkdir takes, from which `..` is refused |
| CdTargets.RootLeadsToRoot | fs/path.c:158-197 | from the root it leads to the root |
| CdTargets.DotLeadsHereIff | fs/path.c:158-197 | `.` leads to where one is, under the same kind of condition |
| CdTargets.NameLeadsBelowIff | fs/path.c:158-197 | any other single name leads to the place of that name below, if and only if the text has room |
| FsPath.Walk | fs/path.c:54-124 | the loop over the path's characters leaves spans that show the walk's names, and fails exactly for lack of room in the pool |
| FsPath.Emit | fs/path.c:125-155 | the names are printed with a terminator exactly when they fit |
| FsPath.NormalizePath | fs/path.c:54-156 | the buffers compute the normal form, in success and in failure |
| FsPath.ResolvePath | fs/path.c:158-197 | the buffers compute the resolved path, in success and in failure |
| DirForest.LessTotal | fs/dir.c:33-51 | any two names are ordered one way or are equal |
| DirForest.LessMeans | fs/dir.c:33-51 | one name is less than another if and only if, at the first place where they differ, it ends or has the smaller character |
| DirForest.LookupIff | fs/dir.c:181-221 | looking up names ends at a node if and only if they are the path of that node |
| DirForest.PathsDiffer | fs/dir.c:109-168 | different nodes have different paths |
| DirForest.AddedKeepsTree | fs/dir.c:73-107 | a child linked in at its place keeps the tree linked, rooted and sorted, adds exactly one path and keeps the path of every other node |
| DirSpec.MkdirMakesOne | fs/dir.c:223-295 | a plain mkdir succeeds if and only if the directory can be made, and then adds just that path |
| DirSpec.MkdirPMakesAll | fs/dir.c:223-295 | with parents it succeeds if and only if all names are short and the missing prefixes fit in the room, and then adds exactly all prefixes |
| DirSpec.MkdirPStopsAt | fs/dir.c:223-295 | a failing one has added exactly the prefixes before the name it stopped at, and stopped for its length or for room |
| DirSpec.FailedMkdirPKeepsIff | fs/dir.c:223-295 | a failing one leaves the directories as they were if and only if the first missing name is too long or has no node left |
| DirSpec.FailedMkdirPMakesSome | fs/dir.c:223-295 | the literal path whose first name is made before the second is refused |
| DirSpec.ChildInPaths | fs/dir.c:62-71 | a child of a name is there if and only if its path is, and has that path |
| DirSpec.ListsChildren | fs/dir.c:339-382 | a directory's children, in link order, are exactly the names below it, ascending |
| DirTree.StrCmp | fs/dir.c:33-51 | the comparison of terminated strings is negative exactly when the first comes before in a dictionary by character codes, and zero exactly when they are equal |
| DirTree.DirsCount | fs/dir.c:73-87 | there are as many directories as nodes |
| DirTree.DirTree.Init | fs/dir.c:297-310 | a fresh tree has the root alone and stands there |
| DirTree.DirTree.FindChild | fs/dir.c:62-71 | finds the child of that name or none |
| DirTree.DirTree.InsertChildSorted | fs/dir.c:89-107 | links the node in before the first larger name |
| DirTree.DirTree.MakeChild | fs/dir.c:256-277 | makes one directory more, and no other moves, or changes nothing when the table is full |
| DirTree.DirTree.PathFromIndex | fs/dir.c:109-168 | climbing to the root and back writes the node's path, exactly when it fits |
| DirTree.DirTree.LookupAbsolute | fs/dir.c:181-221 | on every text: the node its names lead to, or none when it is not absolute, has an empty name or leads nowhere |
| DirTree.LookupPrint | fs/dir.c:181-221 | on the printed form of names that is the lookup of the names |
| DirTree.DirTree.Mkdir | fs/dir.c:223-295 | on nodes, mkdir does to the set of directories what MkdirMakesOne says, and nothing when it fails |
| DirTree.DirTree.MkdirP | fs/dir.c:223-295 | on nodes, mkdir with parents does what MkdirPMakesAll and MkdirPStopsAt say, and a failing one changes nothing exactly when FailedMkdirPKeepsIff says so |
| DirTree.DirTree.Walk | fs/dir.c:312-333 | reaches the directory the path leads to if and only if it is there |
| DirTree.DirTree.Cd | fs/dir.c:384-396 | moves to where the path leads if and only if that directory is there, and then pwd is the resolved path |
| DirTree.DirTree.Pwd | fs/dir.c:398-403 | writes the current path; a buffer of the maximal length always suffices |
| DirTree.DirTree.Readdir | fs/dir.c:339-382 | lists the directory's names in order as far as they fit, counts all of them, and fails exactly when the directory is not there or they do not fit |
| Namespace.FilesStand | shell/path_state.c:522-599 | no file is a directory, and each stands in one |
| Namespace.ContentMeans | shell/path_state.c:184-204 | a file holds a text if and only if a used slot holds it under its path, or there is none and a seed does |
| Namespace.WrittenKeeps | shell/path_state.c:522-599 | a write keeps the slots in order: distinct paths, parents there, contents bounded |
| Namespace.WrittenContent | shell/path_state.c:522-599 | after a write the file holds what it held before, if it appends and there was a file, seeded or written, then the new text if both fit; every other file what it held |
| Namespace.RefusedKeepsIff | shell/path_state.c:522-599 | a write that does not fit leaves the slots as they were if and only if its file has one and is appended to or empty |
| Namespace.MkdirAmongFiles | shell/path_state.c:352-372 | a directory made where no file stands keeps files and directories apart |
| Listing.EntriesAreChildren | shell/path_state.c:374-486 | something is listed in a directory if and only if it is a directory or file right below it |
| Listing.NamesDiffer | shell/path_state.c:374-486 | no name is listed twice, so insertion drops nothing |
| Listing.SameListing | shell/path_state.c:255-293 | two ascending listings of the same entries are equal, so the order in which they were inserted does not show |
| EntryArrays.InsertSorted | shell/path_state.c:255-293 | inserts in place at the name's place, once, and refuses for lack of a place or a long name |
| PathParts.PathParent | shell/path_state.c:129-164 | on every text and buffer size: the text before the last slash, or the root's, and exactly when it is refused |
| PathParts.PathBasename | shell/path_state.c:107-127 | on every text and buffer size: the text after the last slash, and exactly when it is refused |
| PathParts.PartsOfPrint | shell/path_state.c:107-164 | on the printed form of names these are the parent's printed form and the last name |
| ShellRuns.RunKeepsOrder | shell/path_state.c:342-599 | any run of cd, mkdir and writes keeps files and directories in order and loses no directory |
| ShellRuns.NeverBoth | shell/path_state.c:342-599 | so after any run nothing is both a file and a directory, and every file's parent is a directory |
| ShellRuns.RunLeaves | shell/path_state.c:522-599 | a file no operation of the run writes keeps its content |
| ShellRuns.ReadsBack | shell/path_state.c:488-599 | a written file reads back as written after any later run that leaves it alone |
| ShellRuns.RefusedKeepsShellIff | shell/path_state.c:522-599 | a refused write leaves the shell as it was if and only if it could not go there, or the file was written before and is appended to or empty |
| ShellRuns.RefusedWriteMakesFile | shell/path_state.c:522-599 | the literal refused write that makes an empty file |
| ShellRuns.CanWriteIff | shell/path_state.c:522-560 | a write can go to a path if and only if it leads below a directory to no directory, and the file has a slot or one is free |
| PathStates.PathState.Init | shell/path_state.c:295-324 | a fresh shell has the start directories and seed files, stands at the root and has no dynamic file |
| PathStates.PathState.ViewInOrder | shell/path_state.c:295-324 | a valid shell is a state the runs start from |
| PathStates.PathState.Cd | shell/path_state.c:342-350 | moves as the tree does, and is the run's step |
| PathStates.PathState.Mkdir | shell/path_state.c:352-372 | makes a directory if and only if the tree can and no file stands there, and is the run's step |
| PathStates.PathState.Cat | shell/path_state.c:488-520 | gives the content of the file the path leads to, dynamic before seed, or none |
| PathStates.PathState.WriteFile | shell/path_state.c:522-599 | a write that can go there succeeds if and only if its content fits behind what it starts from, the file's text when appending; what the file then holds in each case, and that the new slots are the run's step |
| PathStates.PathState.Ls | shell/path_state.c:374-486 | lists a file as itself and a directory as its ascending entries, and fails exactly when the path leads nowhere, a name is too long or the entries do not fit |
| PathStates.DefaultSeedsOk | shell/path_state.c:27-31 | the three seed files stand in the start directories |
| PathStates.AppendToSeed | shell/path_state.c:566-574 | the literal append to a seeded file, which keeps the seeded text |

## Left out

- The image file and its failures: the stdio calls and their error returns (`fs/otfs.c:62-105`) are not part of this model; the image is an object that always answers. Reading a block is reading its array.
- Packed disk layouts and byte order: superblock and directory entries are records; the superblock is compared as a whole.
- Fixed character arrays of names, paths and contents inside records are strings without NUL, with the source's length checks; characters stand for bytes.
- Null arguments to the public functions are preconditions, except where the source gives them a meaning (no entries array, no sink, no window, no task).
- `resolve_data_block` is two methods, one for each value of its allocate argument: OtfsHandle.Otfs.FindDataBlock and OtfsHandle.Otfs.ResolveDataBlock.
- OtfsHandle.Otfs.Read: the buffer is required not to be one of the handle's own arrays, and no shorter than the length asked for; C has no such check.
- OtfsHandle.Otfs.Write: it is stated for sound disks. On an image whose chains cross (CrossingAccepted) a write to one file changes another, and no operation on separate files describes that; Mount says exactly which images are sound.
- OtfsHandle.Otfs.ResolveDataBlock: it is stated for sound disks, for the same reason; FindDataBlock, Read, Seek and Close are not.
- OtfsHandle.Otfs.Open: with truncation it is stated for sound disks, because freeing one of two crossing chains breaks the other; without, for every accepted image.
- OtfsHandle.Otfs.Remount: it is stated for sound disks, like Write.
- OtfsFlat.StepAgrees: it is about clean volumes and gentle calls, since otherwise bytes that no map of contents has come to light.
- OtfsFlat.RunAgrees: it is about gentle runs, for the same reason; RunConserves, RunKeepsNames, RunStaysCleanIff, RunStaysCoveredIff and RunRemountsIff cover all runs.
- `page_alloc_owns` and the accessors of the allocator would only add easy members.
- The framebuffer's initialisation, single pixels, test pattern and pixel hash, and the hash of a window title: a window carries an arbitrary number in place of the hash.
- Window dragging (`kernel/wm/drag.c`), the mouse and the generic event queue.
- `shell/parser.c` and the pipeline executor: of a line's words only whether there is one matters to a session.
- The token kind ERROR, which no input produces.
- Log lines, the switch log counters and the alternation report of the scheduler; task names and entry points; the simpler `kernel/sched/sched.c`. A task may change only its own state between interrupts.
- The commands that a session executes: they are one function from body and line to body, arbitrary in every theorem; the session's marker and cached directory are part of that body.
- Setting up a terminal again under another endpoint while it is registered.
- Shell contexts other than the default one, which have no dynamic files, and their lazy initialisation: the shell here is ready when constructed.
- File contents are the recorded number of bytes; what a reader makes of a NUL among them is not modelled.
