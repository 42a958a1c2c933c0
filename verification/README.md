# Verified model of tacklebox's image builders

Tacklebox turns container images into bootable media in pure Go. This project models its hardest
code in Dafny and proves that code correct for all inputs and all runs:

- `TreeDiff` diffs two root filesystems into an overlayfs layer. The specification is overlayfs
  itself: `Merged` resolves a path component by component, with whiteouts.
- `ErofsTree`, `Dirents` and `ErofsImage` build an EROFS image from a file tree. The specification
  is a reader of the bytes, from the superblock through directory blocks to file contents.
- `IsoTree`, `IsoRecord`, `IsoDirectory`, `IsoLayout`, `IsoTable`, `IsoImage`, `IsoVolume`,
  `IsoReadBack`, `IsoLongNames` and `IsoWriter` lay out and write an ISO 9660 image with Rock Ridge and El Torito. The
  specification is again a reader.
- `ResumingReader`, `VerifiedLayer`, `LayerPipeline`, `LayerApply` and `Unpack` download, verify and
  apply image layers. Everything the network and the scheduler decide is an arbitrary list of events.
- `ConsumingStore`, `ArenaRefs`, `OpfsArena` and `Operations` are the stores and the operation control
  around the builders: reference counting, the append-only browser arena, and the busy/reset machine.
- `Cpio`, `CloneTree` and `Versions` are the newc archive writer, the tree clone and version ordering.

`Basics`, `Strings`, `Codec`, `Seqs`, `SortNames` and `Paths` hold what they share. Code that changes state in
the source is a class or a loop here, proved against a specification function or a reader; pure code
is functions and lemmas. Blob stores are maps, SHA-256 is any function of the bytes, and clocks, I/O
failures and the network are parameters.

What the proofs found in the code:

- A delta cannot express sockets: where env has one, the base shows through (`TreeDiff.SocketIsLost`).
  The exact set of paths a delta gets right is `Expressible`, and `TreeDiff.TreeDiff` proves it both ways.
- The EROFS writer's comment promises to follow hardlink chains, but its path map holds no hardlinks,
  so a link shares an inode exactly when its target is a mirrored non-directory (`ErofsTree.FollowDecides`)
  and a link to a link is dropped (`ErofsTree.ChainIsDropped`, `ErofsImage.LinkToLinkIsLost`).
- An ISO record whose Rock Ridge name exceeds 144 bytes wraps its length byte, and nothing refuses it:
  an image reads back exactly when no component is longer (`IsoWriter.WriteIso9660`), and
  `IsoWriter.LongNameIsLost` is a lost file.
- A cpio member named `TRAILER!!!` ends the archive early (`Cpio.ArchiveReadsBack`, `Cpio.TrailerHidesAll`).
- A Put into the browser arena that fails part-way makes the next ref read wrong bytes until a seal
  (`OpfsArena.FailedPutShifts`; `OpfsArena.Arena.Put` states the exact shift).
- buildDdiIso discards the error of its deferred Destroy, so its arena can be lost
  (`Operations.DdiArenaCanLeak`); an arena is lost exactly then (`Operations.LostIff`), and no other
  operation loses one (`Operations.NoArenaIsLost`).
- Whiteout and opaque markers act in stream order within a layer, not only on lower layers
  (`LayerApply.LeafShownIff`).

## Model

| member | source | states |
|---|---|---|
| `TreeDiff.TreeDiff` | internal/install/treediff.go:52-65 | the diff succeeds on every pair of well-formed trees; at every path that is not excluded, overlayfs stacking of the delta over the base shows env (type, content, link target, device number, owner, permission bits) if and only if the path is `Expressible`: env has no whiteout look-alike there, a socket of env equals base's entry, and base shows nothing where env has a socket above; at and below env's sockets base shows through; and the delta holds exactly what is `Needed`: whiteouts of what env's directories lack, what lies at or below a changed entry (content, type, owner, permission or special bits), and directories leading to a difference, so equal trees give an empty delta |
| `TreeDiff.SettledDeltaShowsEnv` | internal/install/treediff.go:79-261 | any delta that is sound (only finished copies of env, whiteouts only for base-only paths) and settled (nothing left to do at any path) shows env at a path exactly when the path is expressible |
| `TreeDiff.ExactlyNeeded` | internal/install/treediff.go:18-24 | in a sound and settled delta a path is present exactly when it is needed |
| `TreeDiff.SocketsShowBase` | internal/install/treediff.go:252-254 | at and below a socket of env the merged view is whatever base shows, since sockets are never carried |
| `TreeDiff.SocketIsLost` | internal/install/treediff.go:252-254 | a concrete pair of trees whose TreeDiff output fails the documented promise of exact reproduction: a file that env turned into a socket still shows as the file |
| `TreeDiff.SameContent` | internal/install/treediff.go:335-369 | the chunked comparison answers yes exactly for equal files, whatever the chunk boundaries |
| `TreeDiff.TreeDiffer.EnsureParents` | internal/install/treediff.go:265-291 | never fails; every missing ancestor becomes a finished copy of env's directory and nothing else changes, so the next mkdir, symlink or mknod finds its parent |
| `TreeDiff.TreeDiffer.CopyLeaf` | internal/install/treediff.go:228-261 | a symlink, file, device or fifo ends up as env's finished copy even when copied twice, a socket adds nothing, and every earlier delta entry is kept |
| `TreeDiff.TreeDiffer.CopyDirectory` | internal/install/treediff.go:207-227 | afterwards everything of env at and below the directory that a delta can hold is in it; all earlier entries are kept, all new ones are finished copies |
| `TreeDiff.TreeDiffer.CopyEntry` | internal/install/treediff.go:199-261 | the same for any entry that is new or changed: never fails, excluded children are left out, and the soundness invariant of the delta (only finished copies, each for a reason) holds again |
| `TreeDiff.TreeDiffer.WriteWhiteout` | internal/install/treediff.go:187-195 | writes a whiteout only over a name the delta does not have, under parents that are directories, and keeps the delta sound |
| `TreeDiff.TreeDiffer.DiffEntry` | internal/install/treediff.go:132-184 | a path present on both sides, whatever the two types: afterwards it and everything below it is settled, with nothing added that is not needed, so an unchanged leaf adds nothing |
| `TreeDiff.TreeDiffer.DiffDirectory` | internal/install/treediff.go:144-152 | a directory on both sides: its entry is copied when its attributes differ, and everything below it is settled |
| `TreeDiff.TreeDiffer.VisitChild` | internal/install/treediff.go:105-126 | deleted, new or common child: the delta stays sound, keeps what it had, and the child's subtree is settled |
| `TreeDiff.TreeDiffer.DiffDir` | internal/install/treediff.go:79-129 | every path below the directory that is not excluded is settled, for any pair of directories and in any order of the children |
| `Dirents.PackDirents` | internal/purefs/erofs.go:307-366 | fails exactly when some name with its 12-byte record does not fit a block; otherwise the size is exactly that of greedily filled blocks, the padded bytes are the whole blocks it needs, and their exact-size prefix decodes to the very list, for NUL-free names, by a reader that refuses a block without entries |
| `Dirents.FillBlock` | internal/purefs/erofs.go:344-355 | the in-place filling of one block (records from the front, names behind them) yields the record table, the names and zeros |
| `Dirents.CountFitting` | internal/purefs/erofs.go:332-340 | the greedy count is maximal, one more entry would overflow the block, and it is the count the exact size is defined by |
| `Dirents.FittingIs` | internal/purefs/erofs.go:332-340 | the maximal count is unique |
| `Dirents.BlockReadsBack` | internal/purefs/erofs.go:344-355 | a reader that takes the entry count from the first name offset and name ends from the next offset, a NUL or the size recovers the block's entries |
| `Dirents.AppendBlock` | internal/purefs/erofs.go:354-365 | appending a block appends its entries to what the directory decodes to, also with the last block cut to its exact size |
| `ErofsTree.InodeTable.Mirror` | internal/purefs/erofs.go:72-93 | the rows appended for a subtree are exactly its non-hardlink paths, each naming its parent and its mirrored children; earlier rows are untouched |
| `ErofsTree.InodeTable.LinkHard` | internal/purefs/erofs.go:96-143 | rows at and below the directory name exactly the identities of the paths below them, nothing else changes |
| `ErofsTree.InodeTable.LinkChild` | internal/purefs/erofs.go:104-137 | one child: its entry is added, dropped or descended into as its identity says |
| `ErofsTree.FollowLinks` | internal/purefs/erofs.go:116-132 | the eight-hop loop computes the hop-bounded chain over the path map |
| `ErofsTree.FollowDecides` | internal/purefs/erofs.go:107-132 | because the path map never holds a hardlink, a link shares its target's inode exactly when the target is a mirrored non-directory; a link to a link is dropped, against the comment in the code |
| `ErofsTree.ChainIsDropped` | internal/purefs/erofs.go:107-132 | a concrete tree, a file, a link to it and a link to that link: the first link shares the file's inode, the second is absent |
| `ErofsTree.CountLinks` | internal/purefs/erofs.go:150-176 | after the three loops a directory's count is 2 plus its subdirectories and every other inode's count is the number of entries naming it; the zero-to-one fallback changes nothing |
| `ErofsTree.KeyInjective` | internal/purefs/erofs.go:88-88 | joined path keys of different valid paths differ, so the path map loses nothing |
| `ErofsTree.BuildTable` | internal/purefs/erofs.go:66-176 | the three passes together give one row per mirrored path, with entries as the identities say and exact link counts; following entries reaches a path exactly when it has an identity |
| `ErofsTree.WalkFindsIdentity` | internal/purefs/erofs.go:72-143 | following entries from nid 0 reaches exactly the paths that have an identity, at that identity's inode: names share an inode exactly when they should |
| `ErofsImage.Layout` | internal/purefs/erofs.go:196-206 | block addresses start after the inode slots and run contiguously in nid order by rounded-up size; empty inodes get none |
| `ErofsImage.SizePayload` | internal/purefs/erofs.go:178-194 | the exact size and the early bytes of one inode; a directory's bytes decode to its one sorted listing; fails exactly for a directory with a name that fits no block |
| `ErofsImage.EmitHead` | internal/purefs/erofs.go:208-258 | superblock and inode slots in a head of exactly the promised blocks; refused exactly for a size over 32 bits |
| `ErofsImage.EmitData` | internal/purefs/erofs.go:261-299 | the streamed blocks in nid order; fails exactly for a blob that is missing or of another length than declared |
| `ErofsImage.StreamPosition` | internal/purefs/erofs.go:261-299 | when an inode's data starts, the stream is at its block address, although directory data is written padded and its size is exact |
| `ErofsImage.SlotReadsBack` | internal/purefs/erofs.go:222-255 | format, mode, link count, size, address or device, inode number, uid and gid of a slot read back (ids and link count modulo 2^16) |
| `ErofsImage.ModeReadsBack` | internal/purefs/erofs.go:224-240 | the type bits of a mode name the node's type by the numbers of S_IFMT, and the permission bits are the node's, 0777 for a symlink |
| `ErofsImage.SuperReadsBack` | internal/purefs/erofs.go:210-220 | the superblock names root nid 0 and inode table block 1 |
| `ErofsImage.SuperCounts` | internal/purefs/erofs.go:210-220 | magic, both block size fields, build time, inode count and block count (modulo 2^32) read back |
| `ErofsImage.RdevReadsBack` | internal/purefs/erofs.go:247-248 | a device number with 12-bit major and 20-bit minor survives the kernel's encoding |
| `ErofsImage.ReadPathWalks` | internal/purefs/erofs.go:178-299 | resolving a path in the bytes of the image is following entries in the inode table |
| `ErofsImage.DirectoryListed` | internal/purefs/erofs.go:307-366 | in the image every directory inode's bytes decode to its sorted listing with "." naming itself and ".." its parent |
| `ErofsImage.ListingTyped` | internal/purefs/erofs.go:307-330 | in the image every directory entry announces the type that the inode it names has |
| `ErofsImage.DotsReadBack` | internal/purefs/erofs.go:312-316 | looking up "." and ".." in a directory of the image gives the directory and its parent |
| `ErofsImage.ImageIsFaithful` | internal/purefs/erofs.go:65-300 | at any path the image shows nothing where the tree gives no identity, and otherwise that node's type and permission bits, owner, content, link target or device, and for a directory "." and ".." leading to it and to the directory above |
| `ErofsImage.InodesShared` | internal/purefs/erofs.go:95-143 | in the bytes of the image two paths lead to one inode exactly when one is a hardlink to the other or both link to the same file |
| `ErofsImage.EmitImage` | internal/purefs/erofs.go:178-299 | the second pass fails exactly when some inode has a long name, an exact size over 32 bits or a bad blob; otherwise the image is the head followed by every payload at its address, and its length is the sum of the laid-out blocks of the exact sizes |
| `ErofsImage.WriteErofs` | internal/purefs/erofs.go:65-300 | fails exactly when an inode of the tree's table is refused: a name that fits no block, a file, directory or symlink of 4 GiB, or a blob that is missing or of another length; otherwise the length is what the exact sizes lay out, and up to 2^32 blocks a reader finds the source tree with type, permissions and content at every path, every directory decodes to its strictly sorted listing with entries that announce the types of their inodes, link counts are the numbers of entries, and the superblock tells block size, build time, inode and block counts |
| `ErofsImage.LinkToLinkIsLost` | internal/purefs/erofs.go:107-132 | WriteErofs makes an image of that tree, and in it the link leads to the file's inode and the link to the link leads nowhere |
| `Paths.SplitCleanPlain` | internal/oci/unpack.go:293-299 | no empty, ".", ".." or slash-bearing component survives cleaning, for any name |
| `Paths.CleanJoin` | internal/oci/unpack.go:293-299 | cleaning inverts joining for every path of plain components |
| `Paths.CleanRules` | internal/oci/unpack.go:293-299 | double and trailing slashes and "/./" say nothing, ".." takes back the component before it, and at the root it takes nothing |
| `LayerApply.RootFs.DirOf` | internal/oci/unpack.go:303-314 | every proper ancestor becomes a directory, replacing a non-directory; no other path changes |
| `LayerApply.RootFs.ApplyDir` | internal/oci/unpack.go:353-362 | an existing directory keeps its contents and takes the new attributes, with its old xattrs when the entry has none; no other path changes |
| `LayerApply.RootFs.ApplyLeaf` | internal/oci/unpack.go:363-389 | the node replaces what was there with everything below it; no other path changes |
| `LayerApply.RootFs.ApplyEntry` | internal/oci/unpack.go:316-390 | fails exactly when the store refuses a file body; otherwise every path of the tree changes as the entry's verdict on it says, and only directories have children, under plain names |
| `LayerApply.RootFs.ApplyAll` | internal/oci/unpack.go:264-276 | after any sequence of entries every path shows what a backward scan for the latest decisive entry says, markers acting in stream order; and a path on which an entry has the last word carries that header's kind, mode, owner, xattrs, stored ref and size, unchanged symlink target, cleaned hardlink target, or device numbers |
| `LayerApply.RootFs.Lookup` | internal/oci/unpack.go:393-402 | finds exactly the node at the cleaned path |
| `LayerApply.LatestDecides` | internal/oci/unpack.go:303-390 | the latest entry that does not pass over a path decides what it shows: gone, set, described or implied directory |
| `LayerApply.LeafShownIff` | internal/oci/unpack.go:316-390 | a non-directory shows at a path exactly when some entry set it there and all later ones (whiteouts, opaque markers, replaced or implied ancestors) pass over it |
| `LayerApply.FinalCarries` | internal/oci/unpack.go:340-390 | what the latest entry for a path puts there, field by field of its header; a directory that was there keeps its xattrs if the entry has none |
| `LayerApply.MarkersHide` | internal/oci/unpack.go:331-338 | ".wh.x" hides x and everything below it and ".wh..wh..opq" everything below its directory, unless a later entry says otherwise |
| `LayerApply.RootDescribed` | internal/oci/unpack.go:321-328 | an entry for the root sets its mode and owner |
| `LayerApply.ImpliedDirectory` | internal/oci/unpack.go:303-314 | a directory that entries only imply has mode 0755 and belongs to root; one that is there is left alone |
| `LayerApply.Trimmed` | internal/oci/unpack.go:317-320 | the filter sees the name without the slashes around it |
| `LayerApply.AncestorsAreDirs` | internal/oci/unpack.go:303-314 | in every tree reached, everything above a node is a directory |
| `Unpack.UnpackLayer` | internal/oci/unpack.go:77-96 | a layer is accepted exactly when its body was read to the end, it is the descriptor's, and the store took every file; then the tree shows its entries on top of the earlier ones; under a fair network and a decoder that does not give up it is always read |
| `Unpack.Unpack` | internal/oci/unpack.go:60-99 | for any order of completed fetches, any network behaviour and any decoder reads: a returned tree comes from layers whose bytes all match their digest and size, shows the latest word of their entries in manifest order, and carries the fields of the headers that have the last word; a rejected layer is bad or unstorable and all layers before it were good.  When every fetch finishes, none before its launch, and each layer has a fair network with no more interruptions than attempts, a tree is returned exactly when every layer is good, and otherwise a layer is rejected |
| `Unpack.Fetch` | internal/oci/unpack.go:148-162 | if every fetch finishes and none before it is launched, next never waits in vain, in any such order |
| `ResumingReader.Reader.constructor` | internal/oci/resume.go:86-100 | starts at offset 0 with one open call and the given or default attempts |
| `ResumingReader.Reader.Read` | internal/oci/resume.go:146-213 | under any chunk sizes, stalls, errors with bytes and reopens, the returned bytes continue the blob exactly where the last call stopped; the end is reported only after the whole blob; pending bytes are handed out at once; failure means attempts used up or three failed reopens; open is called at most 1 + 3 x attempts times; and whenever the network serves the blob, in any interleaving of reads, receives, stalls and abandoned pumps, with at most as many interruptions as attempts and an open call that works within three after each, every call returns data or the end |
| `ResumingReader.Reader.Select` | internal/oci/resume.go:168-210 | one event: a chunk's bytes become pending whole, an error that comes with bytes is held back until they are delivered, no byte is replayed, and a network that is good enough stays so |
| `ResumingReader.Reader.Resume` | internal/oci/resume.go:222-248 | reopens at the current offset with at most three open calls, or fails because no attempt is left or all three failed |
| `ResumingReader.Reader.Attach` | internal/oci/resume.go:105-129 | the new pump continues at the current offset, so the stream invariant holds again |
| `ResumingReader.NextEvent` | internal/oci/resume.go:168-248 | any event of a network that serves the blob leaves a waiting reader in a state from which it still does |
| `ResumingReader.SteadyServes` | internal/oci/resume.go:105-248 | a network whose reads each bring bytes and are received, with at most as many interruptions as attempts, serves the blob |
| `ResumingReader.Reader.StepPump` | internal/oci/resume.go:105-129 | a pump's read, also an abandoned one's, keeps the invariant that the current stream continues after the handed-out and pending bytes |
| `ResumingReader.Reader.Close` | internal/oci/resume.go:250-254 | after closing every Read reports closed |
| `ResumingReader.FollowsStep` | internal/oci/resume.go:105-129 | the chunks queued by a pump always continue the blob in order, with an error only on the last |
| `VerifiedLayer.VerifyingReader.Read` | internal/oci/client.go:586-612 | passes on exactly the body's next bytes; all of them are hashed, never more than one byte beyond a declared size is read, and the shortened buffer stays in bounds |
| `VerifiedLayer.VerifyingReader.Close` | internal/oci/client.go:614-630 | reports success exactly when no size limit was hit and, if the end was reached, size and digest match; it never reads |
| `VerifiedLayer.Finish` | internal/oci/unpack.go:283-291 | draining succeeds exactly when the end of the stream is reached within the declared size, and under a good enough network one or the other is always reached |
| `VerifiedLayer.ConsumeLayer` | internal/oci/unpack.go:74-98 | applying and closing both succeed exactly when the decoder did not give up, the end was reached, the whole blob hashes to the digest and has any declared size; with a good enough network and a decoder that is content, exactly when the bytes match the descriptor |
| `VerifiedLayer.Decode` | internal/oci/unpack.go:230-276 | the application reads on until the decoder gives up; under a good enough network it ends well exactly when the decoder never does |
| `LayerPipeline.Pipeline.constructor` | internal/oci/unpack.go:119-144 | launches the first min(n, depth) fetches, depth at least one |
| `LayerPipeline.Pipeline.Take` | internal/oci/unpack.go:148-162 | for any completion order the k-th call returns the result of fetch k; fetches are launched once each in index order, started = min(n, cur + depth) always, and the awaited slot is always launched |
| `LayerPipeline.Pipeline.Complete` | internal/oci/unpack.go:133-138 | a fetch delivers to its own slot, once |
| `CloneTree.CloneTree` | internal/purefs/clone.go:7-34 | on any finite graph, cyclic or shared, the result corresponds to the root under an injective map of nodes that preserves attributes, children by name and xattrs, and every copy, child map, xattr map and xattr value is freshly allocated |
| `CloneTree.Clone` | internal/purefs/clone.go:10-32 | one visit finishes every node it adds to the memo and returns the memoised copy for a node seen before; terminates on cycles |
| `CloneTree.CloneChildren` | internal/purefs/clone.go:19-24 | the copy's map has the same names leading to corresponding nodes |
| `CloneTree.CopyXattrs` | internal/purefs/clone.go:25-30 | equal keys and bytes in freshly allocated values |
| `ConsumingStore.CountRefs` | cmd/purebuild/main.go:766-772 | the walk visits every path below a directory once, and counts for each non-empty ref the files that have it |
| `ConsumingStore.CountsCoverReads` | cmd/purebuild/main.go:766-783 | no body is read more often by the EROFS pass than it was counted, and exactly as often when no file declares it empty, also when nodes share a ref |
| `ConsumingStore.Consuming.Close` | cmd/purebuild/main.go:976-983 | uses up one count of a ref that is not kept and deletes the blob with the last one; a kept ref is untouched |
| `ConsumingStore.ReadBodies` | internal/purefs/erofs.go:262-293 | before every read the store lacks exactly the refs that are not kept and have used up their count; every read finds the bytes of the full store; it fails exactly where the full store would |
| `ConsumingStore.CountAndRead` | cmd/purebuild/main.go:751-783 | the counts are exactly the files of the tree by ref; before every inode the store lacks exactly the bodies that are not kept and whose counted references are used up, and every needed body is found there with the bytes of the full store; it fails exactly for a file the full store cannot serve; kept refs survive, and every other read ref without empty declarations is gone afterwards |
| `ArenaRefs.ParseInvertsFormat` | cmd/tbwasm/refs.go:48-67 | parsing inverts formatting for 64-bit offsets and lengths exactly when the prefix has no colon; otherwise the ref is refused |
| `ArenaRefs.PrefixesSeparate` | cmd/tbwasm/refs.go:48-67 | equal refs come from the same prefix, offset and length |
| `OpfsArena.Arena.Put` | cmd/tbwasm/opfsstore.go:107-161 | succeeds exactly when the source and every write do; the ref names the next bytes of the arena's log, which are the source's bytes exactly shifted by what earlier failed Puts left behind the cursor, and the new remainder is exactly the rest; a failure hands out nothing and grows the remainder |
| `OpfsArena.Arena.Seal` | cmd/tbwasm/opfsstore.go:165-184 | makes every stored byte readable and clears the remainder |
| `OpfsArena.Arena.Reopen` | cmd/tbwasm/opfsstore.go:190-206 | appending continues at the end of the log without touching it |
| `OpfsArena.Arena.Open` | cmd/tbwasm/opfsstore.go:208-232 | refuses exactly malformed or foreign refs; otherwise yields what the clamped file slice reads as, which for a range inside the log is its bytes, sealed or not; the log is unchanged |
| `OpfsArena.ReadSlice` | cmd/tbwasm/opfsstore.go:265-288 | the chunked reads add up to the slice cut to the declared size, also when the slice is shorter or the size negative |
| `OpfsArena.Run` | cmd/tbwasm/opfsstore.go:107-232 | over any run of Put, Open and Seal in which no Put fails part-way: every Put that can succeed is handed the ref of the next range, the ranges are consecutive, and every Open of a ref handed out before it returns exactly what that Put stored, through every seal and reopen |
| `OpfsArena.Perform` | cmd/tbwasm/opfsstore.go:107-232 | one call of such a run keeps every earlier ref backed and answers rightly |
| `OpfsArena.OpenHybrid` | cmd/tbwasm/opfsstore.go:326-334 | a ref handed out by either arena reads that arena's bytes |
| `OpfsArena.FailedPutShifts` | cmd/tbwasm/opfsstore.go:136-160 | a concrete failed Put after which the next ref opens as wrong bytes: the stream's cursor stays ahead of the recorded offset |
| `Operations.InvNext` | cmd/tbwasm/main.go:77-230 | every atomic step of a page call, an operation goroutine or a cleanup goroutine keeps the invariant on busy flag, captured channels, failure record and arenas |
| `Operations.InvRun` | cmd/tbwasm/main.go:77-230 | the invariant holds in every state of every interleaving |
| `Operations.BodiesExclude` | cmd/tbwasm/main.go:149-230 | in every interleaving running operation bodies and running cleanups are at most one together, and at most one operation is acquired: the busy flag and the channel captured at acquisition suffice |
| `Operations.WaitsForRunningCleanup` | cmd/tbwasm/main.go:208-222 | a call that waits does so for a channel that is closed or whose cleanup is still running |
| `Operations.RefusedUntilReset` | cmd/tbwasm/main.go:149-230 | from a failed cleanup on, no operation body runs in any continuation until a reset succeeds |
| `Operations.SourceGivenUp` | cmd/tbwasm/main.go:77-88 | in every interleaving, when introspect's first or deferred reset or a page's reset gives up the source, the globals are empty afterwards, exactly the arenas whose destruction works are gone, and the others are recorded |
| `Operations.SourceFromIntrospect` | cmd/tbwasm/main.go:431-445 | in every interleaving the globals hold a source only during an introspect, or after a completed one whose source was not given up since |
| `Operations.BuildNeedsSource` | cmd/tbwasm/main.go:636-641 | in every interleaving, when buildIso's body begins, an introspect of two arenas completed before and nothing gave its source up since |
| `Operations.CalledAs` | cmd/tbwasm/main.go:208-230 | every live goroutine was started by a page call while nothing was busy, and runs the body of the kind that call asked for |
| `Operations.DestroyedIff` | cmd/tbwasm/main.go:89-107 | an arena that was created is dead exactly when some step of a body or a cleanup that held it could destroy it |
| `Operations.FailureIsRecorded` | cmd/tbwasm/main.go:132-147 | an arena that introspect or buildIso could not destroy stays recorded, and the failure keeps later bodies from running |
| `Operations.ResetFreesEverything` | cmd/tbwasm/main.go:149-203 | after a successful reset exactly the arenas buildDdiIso dropped are alive |
| `Operations.ResetRecovers` | cmd/tbwasm/main.go:149-230 | from any reachable state without live goroutines a reset whose destructions work frees everything and lets operations run again |
| `Operations.OthersNeverDropped` | cmd/tbwasm/main.go:431-537 | an arena created by introspect or buildIso is never dropped and never held by buildDdiIso, in runs with buildDdiIso too |
| `Operations.NoArenaIsLost` | cmd/tbwasm/main.go:132-203 | an arena created by introspect or buildIso is, ever after and in every interleaving, destroyed, reachable from the globals, recorded for a later reset, or owned by the build that runs |
| `Operations.DroppedIff` | cmd/tbwasm/ddi.go:94-98 | an arena is dropped exactly when buildDdiIso's deferred Destroy failed on it at some step |
| `Operations.LostIff` | cmd/tbwasm/ddi.go:94-98 | an arena is alive beyond the reach of any reset exactly when that happened |
| `Operations.DdiArenaCanLeak` | cmd/tbwasm/ddi.go:94-98 | a concrete run in which it happens: the error is discarded and the arena stays alive unrecorded |
| `Cpio.HexReadsBack` | internal/purefs/initrdoverlay.go:202-206 | an eight-digit field reads back for every value below 2^32 |
| `Cpio.EntryReadsBack` | internal/purefs/initrdoverlay.go:202-231 | a newc parser reads one written entry (inode number, mode, owner, link count, name, body) and stops exactly where the next begins |
| `Cpio.ArchiveReadsBack` | internal/purefs/initrdoverlay.go:202-248 | parsing a finished archive returns the written entries in order, numbered from 1 with one link each, up to the first one named like the trailer, so all of them if and only if there is none |
| `Cpio.CpioWriter.Emit` | internal/purefs/initrdoverlay.go:202-209 | one entry is appended at a 4-aligned position and ends 4-aligned |
| `Cpio.CpioWriter.PadBuf` | internal/purefs/initrdoverlay.go:211-215 | pads to a multiple of four, with fewer than four zeros |
| `Cpio.CpioWriter.MkdirAll` | internal/purefs/initrdoverlay.go:217-224 | adds exactly the missing directories at and above the path, outermost first, each once and before anything inside it |
| `Cpio.CpioWriter.File` | internal/purefs/initrdoverlay.go:226-231 | adds exactly the missing parents and then the file, whose mode has type 8 and the given permissions |
| `Cpio.CpioWriter.Symlink` | internal/purefs/initrdoverlay.go:233-238 | adds exactly the missing parents and then the link with its target as body and mode 0120777 |
| `Cpio.CpioWriter.Finish` | internal/purefs/initrdoverlay.go:240-248 | the length is a multiple of 512, and a parser returns everything written, in order, by path with mode and body, directories with mode 040755, up to the first member named like the trailer (fields below 2^32) |
| `Cpio.TrailerHidesAll` | internal/purefs/initrdoverlay.go:240-248 | a concrete archive of two files, the first named TRAILER!!!, from which a parser reads nothing |
| `Versions.CompareNum` | internal/purefs/sysupdate.go:154-176 | agrees with the order of natural numbers for digit runs of any width |
| `Versions.SplitLead` | internal/purefs/sysupdate.go:138-146 | splits off the maximal run of one class |
| `Versions.VersionLess` | internal/purefs/sysupdate.go:119-136 | decides the lexicographic order of token sequences, digit runs as numbers |
| `Versions.StrictWeakOrder` | internal/purefs/sysupdate.go:119-176 | on all strings: irreflexive, asymmetric, transitive, and incomparability is an equivalence |
| `Versions.TiesAreLeadingZeros` | internal/purefs/sysupdate.go:119-176 | two versions tie exactly when they are equal up to leading zeros in digit runs |
| `Versions.Scan` | internal/purefs/sysupdate.go:45-81 | each version's halves are the last listed artifacts of each kind for the wanted stem, and the stems are those listed |
| `Versions.SortVersions` | internal/purefs/sysupdate.go:104-104 | the same versions, none before an older one |
| `Versions.ResolveDdiRelease` | internal/purefs/sysupdate.go:44-115 | the chosen version has both artifacts with digests, and no complete version exceeds it; several stems without a choice, and otherwise no complete version, are refused exactly then; a missing digest is refused for a newest complete version that lacks one |
| `IsoRecord.LengthFits` | internal/purefs/iso9660.go:292-365 | a record's length fits its one byte exactly when the Rock Ridge name has at most 144 bytes, for any UTF-8 or invalid name |
| `IsoRecord.RecordReadsBack` | internal/purefs/iso9660.go:292-365 | identifier, extent, size, flags, Rock Ridge name, mode (040555 for directories, 0100444 for files) and link count of a fitting record read back, for the root's "." with its SP and ER entries too, by a reader that insists on the mandatory PX entry and on agreement of both byte orders |
| `IsoRecord.TimeReadsBack` | internal/purefs/iso9660.go:346-356 | the time of a record is where ECMA-119 has it |
| `IsoRecord.NameIsIdentifier` | internal/purefs/iso9660.go:167-193 | an identifier has at most 30 allowed characters, and a file's ends with its version |
| `IsoRecord.AsciiChars` | internal/purefs/iso9660.go:167-193 | an ASCII name keeps its length; letters become upper case and everything not allowed an underscore |
| `IsoRecord.LongRecord` | internal/purefs/iso9660.go:292-365 | a name of 145 to 216 bytes wraps the length byte to at most 70, and the record cut there is unreadable |
| `IsoRecord.NamesAreBounded` | internal/purefs/iso9660.go:292-365 | no record, whatever its bytes, yields a name of more than 216 bytes |
| `IsoRecord.ExtentSpans` | internal/purefs/iso9660.go:277-290 | at least one piece, each at a sector boundary and of at most 0xFFFFF800 bytes, each starting where the one before ends, from 0 to the size |
| `IsoDirectory.WriteRecords` | internal/purefs/iso9660.go:490-505 | the writing pass packs the records, moving one that would cross a sector to the next |
| `IsoDirectory.SizeRecords` | internal/purefs/iso9660.go:198-210 | the sizing pass computes the packed length from record lengths alone |
| `IsoDirectory.SizingAgrees` | internal/purefs/iso9660.go:198-228 | sizing equals the number of bytes the writing pass emits, for any records |
| `IsoDirectory.NoCrossing` | internal/purefs/iso9660.go:494-503 | no record of at most a sector crosses a sector boundary (section 6.8.1.1 of ECMA-119) |
| `IsoDirectory.ScanFindsAll` | internal/purefs/iso9660.go:490-528 | a reader that skips to the next sector at a zero length byte finds exactly the records written, in order |
| `IsoDirectory.WholeFromEnd` | internal/purefs/iso9660.go:490-528 | scanning a directory with wrapped length bytes fails, meets an unreadable record, or finds only records that were written whole |
| `IsoTree.GetDir` | internal/purefs/iso9660.go:83-100 | creates exactly the missing ancestors, moves no file and keeps the tree consistent |
| `IsoTree.BuildTree` | internal/purefs/iso9660.go:102-114 | the directories are exactly the ancestors of the inputs and hold exactly their entries; the boot entry is the last input with its path, absent exactly when there is none |
| `IsoTree.PathOfIs` | internal/purefs/iso9660.go:102-114 | a path of an image splits into the directory and the name that path.Dir and path.Base give |
| `IsoTree.SortFiles` | internal/purefs/iso9660.go:122-122 | an ordered permutation of the entries |
| `IsoTree.OrderDirs` | internal/purefs/iso9660.go:116-127 | every directory once, breadth first, children sorted |
| `IsoTree.ParentPositions` | internal/purefs/iso9660.go:116-127 | parents come before children, parent positions never decrease, and siblings are in name order |
| `IsoTree.LevelsInOrder` | internal/purefs/iso9660.go:116-127 | levels never decrease along the order |
| `IsoLayout.DirContentLen` | internal/purefs/iso9660.go:198-228 | the content length computed with all extents zero |
| `IsoLayout.PlacementKeepsShape` | internal/purefs/iso9660.go:128-132 | where things are placed never changes the kind and name of any record, so sizing before placement is sound |
| `IsoLayout.SizeDirs` | internal/purefs/iso9660.go:130-132 | every directory's size is its content length rounded up to sectors |
| `IsoLayout.SizeTable` | internal/purefs/iso9660.go:133-137 | the path table's length is the sum over the directories |
| `IsoLayout.PlaceDirs` | internal/purefs/iso9660.go:146-149 | directories are placed one after the other |
| `IsoLayout.PlaceFiles` | internal/purefs/iso9660.go:152-159 | files are placed one after the other, directory by directory |
| `IsoLayout.LayoutIso` | internal/purefs/iso9660.go:80-161 | fails exactly when the boot image is not among the inputs; otherwise a breadth-first tree of the inputs with every structure starting where the one before ends |
| `IsoTable.WriteTable` | internal/purefs/iso9660.go:454-483 | the concatenated table records of both byte orders |
| `IsoTable.TableReadsBack` | internal/purefs/iso9660.go:454-483 | a table of at most 65535 directories reads back as identifier, extent and parent number of each, in either byte order |
| `IsoImage.ChecksumIsZero` | internal/purefs/iso9660.go:534-546 | the words of the El Torito validation entry sum to zero modulo 2^16 |
| `IsoImage.PadTo` | internal/purefs/iso9660.go:385-402 | reports an overrun exactly when past the sector; otherwise adds exactly the missing zeros |
| `IsoImage.WriteAt` | internal/purefs/iso9660.go:385-402 | one structure at its sector never overruns and grows the settled image by its padded bytes |
| `IsoImage.DirSizeAgrees` | internal/purefs/iso9660.go:198-228 | every directory's written bytes, padded, are exactly its planned size |
| `IsoImage.WriteDir` | internal/purefs/iso9660.go:490-528 | the directory's bytes sit at its extent, earlier ones stay |
| `IsoImage.WriteDirs` | internal/purefs/iso9660.go:490-528 | all directories sit at their extents with no overrun |
| `IsoImage.WriteFile` | internal/purefs/iso9660.go:560-575 | fails exactly for a source that errs or yields another size; otherwise its bytes sit at its extent |
| `IsoImage.WriteFiles` | internal/purefs/iso9660.go:560-575 | the same over all files |
| `IsoImage.WriteHead` | internal/purefs/iso9660.go:404-488 | descriptors and both path tables sit at their sectors |
| `IsoImage.SelfDescribingIff` | internal/purefs/iso9660.go:292-365 | a record tells its own length, which scanning relies on, exactly for names of at most 144 bytes |
| `IsoImage.DirReadsBack` | internal/purefs/iso9660.go:490-528 | listing a directory of the image yields exactly its records |
| `IsoImage.JoinFinds` | internal/purefs/iso9660.go:517-526 | joining records by the multi-extent flag (section 9.1.6 of ECMA-119) yields exactly the directory's files with their pieces |
| `IsoImage.PiecesReadBack` | internal/purefs/iso9660.go:277-290 | the pieces of a file concatenate to its bytes, also over 4 GiB |
| `IsoVolume.VolumeReads` | internal/purefs/iso9660.go:410-445 | label, size in sectors, root directory and path tables read back from the primary descriptor, by a reader that checks signature, block size and both byte orders |
| `IsoVolume.DatesRead` | internal/purefs/iso9660.go:428-433 | both dates of the primary descriptor are where ECMA-119 has them |
| `IsoVolume.CatalogReads` | internal/purefs/iso9660.go:530-557 | a catalog reader that checks platform, key bytes, checksum and the boot indicator finds the boot extent and the sector count |
| `IsoReadBack.FilesDisjoint` | internal/purefs/iso9660.go:152-158 | no two files share a sector |
| `IsoReadBack.DirsDisjoint` | internal/purefs/iso9660.go:146-149 | no two directories share a sector |
| `IsoReadBack.DirsResolve` | internal/purefs/iso9660.go:490-528 | following records from the root reaches exactly the directories of the inputs, under directories whose names fit |
| `IsoReadBack.FilesReadBack` | internal/purefs/iso9660.go:490-575 | reading any path yields exactly the contents of the inputs that belong there, as a multiset when paths repeat |
| `IsoReadBack.DirWellListed` | internal/purefs/iso9660.go:490-528 | each directory lists itself first and the directory above it second, the root announces Rock Ridge, all other records have names and proper identifiers, and modes and link counts are those of directories and files |
| `IsoReadBack.BootImageFound` | internal/purefs/iso9660.go:530-557 | boot record and catalog, checked by the reader, lead to the boot image's bytes and tell how much of them to load |
| `IsoReadBack.PathTablesReadBack` | internal/purefs/iso9660.go:404-488 | both tables, found through the length and sector fields of the volume descriptor, list every directory with its identifier, its extent and the number of the entry above it |
| `IsoReadBack.PathTableOrder` | internal/purefs/iso9660.go:116-127 | table entries are ordered by level, then parent number, then name |
| `IsoReadBack.ShortEverywhere` | internal/purefs/iso9660.go:102-114 | no input has a component over 144 bytes exactly when no directory has an entry with such a name |
| `IsoLongNames.LongNameUnseen` | internal/purefs/iso9660.go:490-528 | the listing of a directory whose names have at most 216 bytes shows no name over 144 |
| `IsoLongNames.HugeNameUnseen` | internal/purefs/iso9660.go:490-528 | no listing shows a name over 216 bytes |
| `IsoLongNames.LongNamesAreLost` | internal/purefs/iso9660.go:490-575 | an image with any longer component does not read back as its inputs: some file or directory is missing |
| `IsoWriter.WriteImage` | internal/purefs/iso9660.go:404-578 | writing a laid-out image fails exactly for a bad source, never by overrun, and puts every structure at its sector |
| `IsoWriter.WriteIso9660` | internal/purefs/iso9660.go:39-45 | fails exactly when the boot image is missing or a source is bad; the length is the planned sectors times 2048; as long as directories stay below 4 GiB and sectors below 2^32, a reader that checks descriptors, catalog, both byte orders and the file types of PX recovers exactly the inputs' directories and bytes, well-formed listings and the boot image if and only if no path component exceeds 144 bytes |
| `IsoWriter.LongNameIsLost` | internal/purefs/iso9660.go:39-45 | two concrete empty files, one with a 145-byte name: the image is written without complaint and does not read back |

## Left out

- HTTP, tokens, timeouts and manifest parsing: a transport honouring the offset contract of section 14.2 of RFC 9110 is assumed.
- gzip, zstd and tar decoding: a decoder reads the verified stream as it likes and may give up; its entries are any function of the blob.
- Write errors of the output stream, and failures of seal and reopen in the arena: the sink always accepts.
- Subprocess orchestration, partitioning, FAT32 and go-diskfs media, boot entries, receipts and request validation: thin logic over foreign effects.
- Times: ISO times are parameters, mtimes of the delta are not modelled.
- TreeDiff.TreeDiff: does not cover set-id and sticky bits (dropped by the code), xattrs and hardlink groups (not carried by the code), or the root directory's own attributes.
- TreeDiff.TreeDiffer.CopyLeaf: file copying is one step; system calls other than an existing name or a missing parent do not fail.
- ErofsImage.WriteErofs: read-back is stated up to 2^32 blocks, and owner ids and link counts modulo 2^16, which is what compact inodes hold.
- ErofsTree.BuildTable: nodes are values and inodes are table positions, so a tree in which one node object hangs under two names is seen as two equal nodes, as the code's inodes are.
- LayerApply.RootFs.ApplyEntry: nodes are found by path, so no two paths can share a node object; the code never makes them.
- LayerApply.RootFs.ApplyAll: the store's ref and size for each body are given with its header.
- Unpack.Unpack: the RetainLayer hook, UnpackOnto's skip list and progress calls are not modelled.
- ResumingReader.Reader.Read: a call still waiting when its events run out is not continued; the timer is an event that may come at any time; a stream at its end answers io.EOF to a read that could bring bytes.
- LayerPipeline.Pipeline.Take: closing the pipeline and releasing unconsumed bodies is not modelled.
- CloneTree.CloneTree: two nodes that share one child map object get separate maps, as in the code; xattr values are compared by bytes.
- ConsumingStore.CountAndRead: which paths are kept is a parameter; a ref that some file declares empty may outlive the pass, as in the code.
- IsoWriter.WriteIso9660: images with a directory of 4 GiB or 2^32 sectors and more are written as modelled, but no read-back is stated for them.
- OpfsArena.Run: Destroy and the arena's copy buffer are not modelled.
- Operations.InvNext: each critical section and each group of deferred cleanups is one atomic step; promise plumbing and panics are not modelled.
- Cpio.CpioWriter.File: names are relative paths given as components; cleaning of unusual names by path.Dir is not modelled.
- Versions.ResolveDdiRelease: reading lines and matching them against the two name patterns is done beforehand.
- IsoTree.BuildTree: directories are identified by path; file sizes are non-negative.
- layerPipeline.close, splitRef and the keepRefs lookups.
