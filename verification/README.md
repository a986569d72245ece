# IRIX emulation tools: a verified model

A Dafny 4.11 model of the six pieces of this repository whose correctness is hardest to see by reading, with
proofs of what they promise. Check everything with `dafny verify dfyconfig.toml`.

- **EFS image builder** (`Efs*.dfy`, `Disk.dfy`): `EFSBuilder` of tar2efs.py as a class whose methods update the
  dictionaries, the bitmap, the bump pointer and the image file in place. `EfsTree`, `EfsOrder`, `EfsPlan` and
  `EfsNumbering` say what tree and numbering result, `EfsGeometry`, `EfsAlloc` and `EfsAllocRuns` where data
  goes, `EfsDir`, `EfsDirPack`, `EfsInode` and `EfsSuper` how records are laid out, `EfsImage` what the file
  holds at every stage. `EfsRead` is a reader written from the on-disk layout alone; `EfsReadBack`, `EfsCapacity`,
  `EfsExtents` and `EfsEndToEnd` prove exactly how much of what was added it finds, `EfsMetadata` what modes, owners,
  times and link counts the inodes hold, and `EfsShrunk` holds inputs on which something is lost.
- **Host/guest mailbox** (`Mailbox.dfy`, `Host*.dfy`): the agent of gwagent.c as a step machine, and the `Gateway` class of
  host_channel.py driving it (`HostGateway`) with any number of agent steps between any two accesses. `HostChannel` says
  what each command does, `HostExchange` what one posted command comes to in a given environment, and `HostFiles` the same
  of `push_file` and `pull_file`. An environment lists what goes by before each access; every theorem is for all of them.
- **DGL streams** (`Dgl*.dfy`): the framed connection and the unframed decoder as incremental parsers, and encoders written
  from the wire layout alone that say what a client may send them.
- **Visible-region clipping** (`Clip.dfy`): repeated rectangle subtraction into a capped array, against point sets.
- **Volume header tool** (`VolumeHeader*.dfy`, `BootDisk*.dfy`, `CopyVh.dfy`): header, checksum, file placement,
  extraction and copying.
- **Keyboard/mouse buffering** (`Pckm*.dfy`): one port of the STREAMS driver under interrupts, timers and flow
  control; `PckmHistory` reads off the list of events alone what must reach the stream.

Where a method changes state in place, its contract equates the new state with a function of the old one, and
the lemmas are about that function. Where a promise does not hold of the code, the code is kept and the exact
condition is proved:

- A file of more than 12 extents cannot be read (`EfsRead.BigFilesAreLost`), nor one that was cut short because a
  shrunk layout had no more blocks, and the superblock's replica overwrites a last data block that was handed out;
  `build` reports success all the same (`EfsShrunk.TenFilesAreWritten`, `EfsShrunk.TenFilesLoseOne`). The exact
  condition for one file is `EfsRead.NodeReadsIff`, for the whole tree `EfsEndToEnd.WholeTreeReadsIff`.
- A group no longer than its 8 inode blocks makes the allocator hand out inode blocks
  (`EfsAlloc.AllocAvoidsInodesIff`); a shrunk layout on a small image has such groups (`EfsShrunk.CrampedGroups`), or
  groups of no blocks at all, on which `build` raises (`EfsShrunk.EmptyGroups`).
- A file added twice is listed twice (`EfsTree.AddFileOkIff`), and a name over 255 bytes makes directory packing
  raise or stall (`EfsDirPack.PackSucceedsIff`).
- A command posted before the agent is quiet costs a command (`Mailbox.NothingLostIff`); `push_file` and
  `pull_file` do this themselves when they post CLOSE after a timeout (`Mailbox.CloseOverWrite`).
- A full array of clip pieces drops visible bands (`Clip.PiecesExactIff`), under four windows or more but never under
  three (`Clip.ThreeAlwaysFit`, `Clip.FourWindowsOverflow`), and an empty window keeps its one empty piece
  (`Clip.EmptyWindowStays`).
- The 15th file of a boot disk is silently left out, and the image's last byte is zeroed even inside a file
  (`BootDisk.ExtractGivesTheFileIff`).
- A byte declined by a textport handler on a closed keyboard port waits for nothing after the open
  (`Pckm.OpenStrandsNothingIff`).

Where code and documentation disagree the model follows the code: an inode's header is 32 bytes, not the 48 its
comment says, and `fs_cgisize` counts inode blocks, not inodes. Many lemmas carry `{:induction false}` and begin
with `hide`, so that each proof uses only what it names.

## Model

| member | source | states |
|---|---|---|
| `EfsEndToEnd.WhatIsReadBack` | analysis_tools/tar2efs.py:614-868 | on any image that `build` has written after any run of adds that each fit the tree they meet, with no hypothesis about room: walking it from inode 2, a path leads somewhere if and only if it was added, implied, or the root, and every directory above it is intact; a file gives back its exact bytes (a link its target) if it is intact, its bytes with the superblock over the last block if it ends in the last data block, and nothing if it was cut short or needs a 13th extent; a directory lists exactly its children if and only if it is intact |
| `EfsEndToEnd.WholeTreeReadsIff` | analysis_tools/tar2efs.py:614-868 | the whole tree reads back if and only if no node needs a 13th extent and the demand is less than the data blocks there are, or uses them all and the last block holds what the superblock begins with |
| `EfsEndToEnd.BuildRoundTrip` | analysis_tools/tar2efs.py:614-868 | so with room for all (no allocation cut short, none taking the last block, no 13th extent) the image holds exactly the added files, byte for byte, and exactly the added and implied directories |
| `EfsEndToEnd.BuiltIsWritten` | analysis_tools/tar2efs.py:614-868 | what `build` has written of a plain tree is a written image in the sense of the reader, whether or not all of it found room |
| `EfsEndToEnd.SmallTreesHaveRoom` | analysis_tools/tar2efs.py:455-519 | that room is always there when names are at most 120 and link targets at most 512 bytes, the groups are not shrunk, and no node is over 799 blocks |
| `EfsMetadata.WhatInodesSay` | analysis_tools/tar2efs.py:685-717 | on any image that `build` has written after any run of fitting adds, the inode a path leads to holds the mode, owner, group, size and all three times that the file was last added with, one link and generation 1; a directory's holds the mode it was added with (0755 if it was only implied, and always a directory's type bits), and owner, group and time of the add that first made it |
| `EfsMetadata.LinksAreCounted` | analysis_tools/tar2efs.py:674-683 | and its link count is 2 and one more for each directory directly in it, for every directory but the root |
| `EfsRead.SuperSays` | analysis_tools/tar2efs.py:818-864 | the fields of both superblocks on the image, literally: its size and groups, magic and names, the bitmap size, as free count the number of clear bits in the bitmap on the disk, as free inodes the slots less the nodes, the place of the replica, and the last inode |
| `EfsExtents.ExtentCount` | analysis_tools/tar2efs.py:553-612 | the exact number of extents of any allocation, in closed form from the place in the group where it starts, the size of the groups and the number of blocks it gets: pieces of 248 in the rest of that group, in each whole group, and in the beginning of one more |
| `EfsExtents.SmallNodesAreDirect` | analysis_tools/tar2efs.py:195-199 | in groups of at least 100 data blocks a node of at most 799 blocks never needs more than the 12 extents an inode holds, wherever the allocator stands and whether or not it is cut short |
| `EfsReadBack.WholeImageReadsBack` | analysis_tools/tar2efs.py:657-868 | in any written image a path resolves exactly when it is in the tree and all directories above it are intact, to that node, and what is read there is what is left of that file or that directory |
| `EfsReadBack.EverythingReads` | analysis_tools/tar2efs.py:744-811 | every inode of a written image gives back what is left of its node: intact files byte for byte, intact directories as `.`, `..` and the sorted children, other directories not at all |
| `EfsReadBack.AllReadIff` | analysis_tools/tar2efs.py:744-811 | the whole tree reads back if and only if every node survives |
| `EfsReadBack.ListingExact` | analysis_tools/tar2efs.py:870-917 | a directory read back lists itself, its parent and each child exactly once, with its name and inode number |
| `EfsReadBack.ResolveFindsTree` | analysis_tools/tar2efs.py:744-811 | looking names up one after the other on the image follows the tree down to the first directory that is not intact, for names that are not empty, `.`, `..` or non-ASCII |
| `EfsRead.NodeRecovered` | analysis_tools/tar2efs.py:195-199 | what a reader gets of any node of any written image: its data if it has at most 12 extents and ends before the last data block; with the superblock for its last block if it ends there; nothing if it was cut short or needs more extents |
| `EfsRead.NodeReadsIff` | analysis_tools/tar2efs.py:195-199 | a node reads back whole if and only if it is empty, or has at most 12 extents and was given all its blocks and does not end in the last data block with other bytes than the superblock's |
| `EfsRead.AllSurviveIff` | analysis_tools/tar2efs.py:553-612 | all nodes do if and only if none needs a 13th extent and the demand leaves a data block over, or none and the last one ends as the superblock begins |
| `EfsRead.BigFilesAreLost` | analysis_tools/tar2efs.py:195-199 | a file over 1,523,712 bytes (12 extents of 248 blocks) cannot be read from any written image, whatever the layout and whatever else is on it |
| `EfsShrunk.TenFilesAreWritten` | analysis_tools/tar2efs.py:498-503 | ten files of 104,500 bytes on an image of 1 MB, less than the image holds: everything can be encoded, so `build` succeeds |
| `EfsShrunk.TenFilesLoseOne` | analysis_tools/tar2efs.py:553-612 | but the layout is shrunk to 2012 data blocks for a demand of at least 2050, and on every image so written one of the files cannot be read |
| `EfsShrunk.CrampedGroups` | analysis_tools/tar2efs.py:498-503 | 7201 files and directories on an image of 1 MB leave groups of 8 blocks, and the first block handed out is an inode block |
| `EfsShrunk.EmptyGroups` | analysis_tools/tar2efs.py:498-503 | 70,000 leave groups of no blocks and three million groups of negative size; `build` then raises |
| `EfsRead.NodeInodeReads` | analysis_tools/tar2efs.py:798-811 | inode k is found in slot k of the table the second pass writes, with the first 12 extents |
| `EfsRead.SuperReads` | analysis_tools/tar2efs.py:823-864 | the superblock is found in block 1 and again in the last block, every one of its fields, with a checksum that is that of the block it stands in |
| `EfsCapacity.EverythingFits` | analysis_tools/tar2efs.py:455-519 | capacity: unless the groups are shrunk, directories, links and files together need strictly fewer data blocks than there are, so no allocation is cut short and the replica's block is never handed out |
| `EfsCapacity.EntriesCountNodes` | analysis_tools/tar2efs.py:870-890 | the directories together list every node but the root exactly once |
| `EfsGeometry.CalculateGeometry` | analysis_tools/tar2efs.py:448-519 | the loops and assignments of the geometry calculation compute `GeometryFor` |
| `EfsGeometry.GeometryIsConsistent` | analysis_tools/tar2efs.py:448-519 | for every file set and any image up to 8192 MB: total blocks are first_cg + num_cgs * cg_size, at most the image; the bitmap covers them; every block number fits 24 bits; there is an inode slot for every node and 100 more |
| `EfsGeometry.DataAreaBound` | analysis_tools/tar2efs.py:455-495 | when nothing is shrunk every group has 50 data blocks more than its share of the file data |
| `EfsGeometry.GeometryIsTight` | analysis_tools/tar2efs.py:448-519 | and nothing more than needed: one group fewer would have too few inode slots, one data block fewer a group would be under 100 or leave no slack of 50, at most one bitmap block is over, and a shrunk group is as large as the image allows |
| `EfsGeometry.ImageIsAsAsked` | analysis_tools/tar2efs.py:352-357 | the image is as large as asked for, up to 8192 MB |
| `EfsGeometry.BitmapCoversLayout` | analysis_tools/tar2efs.py:466-516 | the bitmap blocks reserved before the groups suffice for the final size, in spite of the circular definition |
| `EfsAllocRuns.AnyRunOfCalls` | analysis_tools/tar2efs.py:553-612 | over any sequence of calls, call j takes exactly the next data blocks: as many as asked for or all that are left, each block in one extent only |
| `EfsAllocRuns.CallsAreDisjoint` | analysis_tools/tar2efs.py:553-612 | no block is handed out twice, and none outside the groups' data areas |
| `EfsAlloc.AllocIsBump` | analysis_tools/tar2efs.py:553-612 | the extents of one call tile the file in order with consecutive data blocks, each 1 to 248 blocks long inside one group; it falls short only when no data block is left |
| `EfsAlloc.DataBlockNumbering` | analysis_tools/tar2efs.py:576-586 | skipping the inode areas numbers the data blocks without gaps or repeats |
| `EfsAlloc.DataIndexInverse` | analysis_tools/tar2efs.py:576-586 | every data block has a number, and the numbering is inverted exactly |
| `EfsAlloc.MapsFind` | analysis_tools/tar2efs.py:587-612 | looking a logical block up in the extents gives the data block of that number, and nothing outside the file |
| `EfsAlloc.AllocAvoidsInodesIff` | analysis_tools/tar2efs.py:553-612 | for groups of at least one block, a non-empty allocation that finds room stays out of the inode areas if and only if a group is longer than its 8 inode blocks |
| `EfsBuilder.EFSBuilder.AllocateBlocks` | analysis_tools/tar2efs.py:553-612 | the method returns those extents, advances `next_data_block` past them and marks exactly them in the bitmap |
| `EfsBuilder.EFSBuilder.constructor` | analysis_tools/tar2efs.py:352-366 | the builder starts with the root directory alone |
| `EfsBuilder.EFSBuilder.EnsureParentDirs` | analysis_tools/tar2efs.py:423-431 | creates the missing ancestors, outermost first |
| `EfsBuilder.EFSBuilder.AddDirectory` | analysis_tools/tar2efs.py:397-421 | updates the dictionaries as the tree function says |
| `EfsBuilder.EFSBuilder.AddFile` | analysis_tools/tar2efs.py:368-395 | updates the dictionaries as the tree function says |
| `EfsTree.AddFileOkIff` | analysis_tools/tar2efs.py:368-395 | adding a file keeps the tree sound if and only if the path is new, not the root, and below no file (a file added twice is listed twice) |
| `EfsTree.AddDirectoryOkIff` | analysis_tools/tar2efs.py:397-421 | adding a directory keeps the tree sound if and only if the path is no file and below no file |
| `EfsTree.ApplyAllOkIff` | analysis_tools/tar2efs.py:368-431 | a whole run of adds leaves a sound tree if and only if each add fitted the tree it met; otherwise no later add can repair it |
| `EfsTree.ApplyAllContents` | analysis_tools/tar2efs.py:368-431 | the directories of the tree are the root and the added and implied ones, its files the last added for each path |
| `EfsTree.EnsureDirsAgain` | analysis_tools/tar2efs.py:423-431 | creating ancestors that are there already changes nothing, so the nested creation in `add_directory` is idle |
| `EfsBuilder.EFSBuilder.AllocateInodes` | analysis_tools/tar2efs.py:521-551 | numbers directories then files in path order from 2, gives every node its parent's number, and changes nothing else |
| `EfsOrder.SortPathsSorts` | analysis_tools/tar2efs.py:744-744 | sorting by the written path is a sorted permutation |
| `EfsOrder.LexDecides` | analysis_tools/tar2efs.py:744-744 | in that order the first character in which two written paths differ decides |
| `EfsOrder.ParentFirst` | analysis_tools/tar2efs.py:521-551 | a directory sorts before everything below it, so its number is known when a child needs it |
| `EfsPlan.OrderLists` | analysis_tools/tar2efs.py:521-551 | the order of numbering lists every directory and then every file, once each |
| `EfsInode.ExtentRoundTripIff` | analysis_tools/tar2efs.py:134-156 | packing and unpacking an extent gives it back if and only if block and offset fit 24 bits and magic and length 8 |
| `EfsInode.PackInode` | analysis_tools/tar2efs.py:176-204 | the 128 bytes of an inode |
| `EfsInode.InodeRoundTrip` | analysis_tools/tar2efs.py:176-204 | parsing a packed inode gives back every field and its first 12 extents |
| `EfsInode.InodeOnDisk` | analysis_tools/tar2efs.py:176-204 | the offset of every field in the 128 bytes, the 12 extent slots, and zeros behind the last extent |
| `EfsInode.ExtentOnDisk` | analysis_tools/tar2efs.py:134-145 | the bytes of an extent: magic 1, block 3, length 1, offset 3 |
| `EfsDir.BuildDirblk` | analysis_tools/tar2efs.py:79-114 | filling a block downwards in place gives the block `Dirblk` describes |
| `EfsDir.SlotsLeaveRoom` | analysis_tools/tar2efs.py:96-114 | the slot table never runs into the entries, and every compacted offset fits a byte |
| `EfsDir.DirblkRoundTrip` | analysis_tools/tar2efs.py:59-114 | reading every slot of a block gives its entries back in order |
| `EfsDir.DirblkOnDisk` | analysis_tools/tar2efs.py:59-114 | the bytes of a block: magic, half the offset of the entry that starts first, count, half the offset of each entry; entries go down from byte 511, each with its inode number, name length and name, a question mark for each character that is not ASCII |
| `EfsDir.FitIff` | analysis_tools/tar2efs.py:892-910 | entries fit a block if and only if the last of them starts behind the slot table |
| `EfsDirPack.PackEntries` | analysis_tools/tar2efs.py:890-917 | the block-filling loop computes `Pack`, including when it stalls on an entry no block can hold and when a name is too long to pack |
| `EfsDirPack.PackSucceedsIff` | analysis_tools/tar2efs.py:890-917 | packing gives data if and only if every entry can be packed, that is, has at most 255 name bytes and a 32-bit inode number |
| `EfsDirPack.DirRoundTrip` | analysis_tools/tar2efs.py:870-917 | reading all slots of all blocks of packed data gives all entries back in order |
| `EfsDirPack.GreedyIsOptimal` | analysis_tools/tar2efs.py:890-910 | no order-preserving split of the entries into blocks that fit uses fewer blocks than the loop |
| `EfsDirPack.GreedySplits` | analysis_tools/tar2efs.py:890-910 | the loop's own blocks are such a split |
| `EfsDirPack.BlocksForShortNames` | analysis_tools/tar2efs.py:470-480 | with names of at most 120 bytes, four entries always share a block |
| `EfsBuilder.EFSBuilder.BuildDirectoryData` | analysis_tools/tar2efs.py:870-917 | `.`, `..` and the sorted children, packed |
| `EfsBuilder.EFSBuilder.InitBitmap` | analysis_tools/tar2efs.py:632-648 | marks the reserved and the inode blocks and no others; with groups of 8 blocks or fewer that is every block, and with groups of negative size marking raises |
| `EfsImage.MarkAllOk` | analysis_tools/tar2efs.py:603-606 | marking the extents of an allocation keeps the bitmap true for exactly the reserved, inode and allocated blocks |
| `EfsImage.FreeCount` | analysis_tools/tar2efs.py:818-819 | the free count in the superblock is the number of data blocks not handed out |
| `EfsBuilder.EFSBuilder.WriteInodeTable` | analysis_tools/tar2efs.py:719-740 | writes one pass over all groups' inode blocks and touches nothing else; the second pass (798-811) is the same loop with another base |
| `EfsBuilder.EFSBuilder.SubdirCounts` | analysis_tools/tar2efs.py:674-683 | counts each directory's direct sub-directories (the root, its own parent, counts itself) |
| `EfsBuilder.EFSBuilder.WriteExtents` | analysis_tools/tar2efs.py:750-757 | writing the padded chunks of a node puts its blocks on its data blocks and changes no other block |
| `EfsBuilder.EFSBuilder.WriteDirs` | analysis_tools/tar2efs.py:744-762 | places every directory's data, in path order |
| `EfsBuilder.EFSBuilder.WriteFiles` | analysis_tools/tar2efs.py:764-796 | places every link target and file, in path order |
| `EfsBuilder.EFSBuilder.FinishImage` | analysis_tools/tar2efs.py:813-868 | bitmap, superblock with checksum, replica and the image's last byte |
| `EfsImage.ExtentStep` | analysis_tools/tar2efs.py:750-757 | writing one more extent keeps what was written before it |
| `EfsImage.FinishedImage` | analysis_tools/tar2efs.py:657-868 | bitmap, superblock and replica written last leave every inode as it was, and every node but for what lies on the last data block, and together make the image the reader expects |
| `EfsBuilder.EFSBuilder.WriteImage` | analysis_tools/tar2efs.py:657-868 | succeeds if and only if everything can be encoded, and then the file is an image with every node, inode, bitmap bit and both superblocks in place |
| `EfsBuilder.EFSBuilder.Build` | analysis_tools/tar2efs.py:614-655 | the whole run, from geometry to image; it succeeds if and only if the groups have room and everything can be encoded |
| `EfsSuper.BuildBitmap` | analysis_tools/tar2efs.py:919-934 | bit i of the padded bitmap bytes is entry i of the bitmap, high bit first |
| `EfsSuper.HighBitFirst` | analysis_tools/tar2efs.py:919-934 | a byte of the bitmap is its eight bits read as a binary number, the first one highest |
| `EfsSuper.SuperRoundTrip` | analysis_tools/tar2efs.py:232-273 | parsing a packed superblock gives back each of its 20 fields, names and padding at their fixed widths |
| `EfsSuper.SuperOnDisk` | analysis_tools/tar2efs.py:232-273 | the offset of every field in the block, the checksum at 88, and zeros behind it |
| `EfsSuper.ChecksumReads` | analysis_tools/tar2efs.py:936-955 | the checksum stored in a superblock is the one computed from the very block it is stored in |
| `EfsSuper.CalculateChecksum` | analysis_tools/tar2efs.py:936-955 | the xor-and-rotate loop computes `Checksum` |
| `EfsSuper.ChecksumBits` | analysis_tools/tar2efs.py:936-955 | in closed form: bit m of the checksum is the parity of bit m + i - 44 (modulo 32) over the 44 words i, so the seed, the direction and the amount of the rotation are what the code says |
| `EfsSuper.StepInjective` | analysis_tools/tar2efs.py:945-955 | each step is a bijection of the state for a fixed word, and of the word for a fixed state |
| `EfsSuper.ChecksumDetectsOneWord` | analysis_tools/tar2efs.py:936-955 | two superblocks that differ in exactly one covered word have different checksums |
| `Mailbox.RunStaysInFlight` | pyirix_qemu/gwagent.c:72-120 | whatever the agent does and the system answers, a command posted to an idle mailbox stays in flight until it is done, carried out once |
| `Mailbox.ClearedMeansDone` | pyirix_qemu/gwagent.c:72-120 | the host sees `cmd` cleared only when the command is completely done and the status is its own |
| `Mailbox.SixStepsSuffice` | pyirix_qemu/gwagent.c:72-120 | six steps of the agent complete any command, known or unknown |
| `Mailbox.AgentOwnsOnlyWhilePosted` | pyirix_qemu/gwagent.c:72-120 | the agent changes the parameter fields, its file and the guest's files only while a command is posted |
| `Mailbox.HastyPostsAreLost` | pyirix_qemu/gwagent.c:72-120 | over every interleaving of posts and agent steps, each post made before the agent was quiet costs exactly one command, and nothing else does |
| `Mailbox.NothingLostIff` | pyirix_qemu/gwagent.c:72-120 | from an idle start every posted command is carried out, in order, if and only if the host never posted too early |
| `Mailbox.CloseOverWrite` | pyirix_qemu/host_channel.py:359-363 | a CLOSE posted over a WRITE that the agent has not seen, as after a timeout: the WRITE is lost, and six steps later the CLOSE alone was carried out |
| `HostGateway.Gateway.Exec` | pyirix_qemu/host_channel.py:316-325 | the method leaves the guest and returns the status that `Issue` says, in every environment |
| `HostExchange.IssueIsSafe` | pyirix_qemu/host_channel.py:316-325 | in every environment, from an idle mailbox: a returned status is that of this command, carried out exactly once; a timeout leaves it in flight |
| `HostExchange.IssuePosts` | pyirix_qemu/host_channel.py:316-325 | and the command is posted once |
| `HostExchange.TimesOutIff` | pyirix_qemu/host_channel.py:316-325 | it times out if and only if none of its polls finds the agent's address space current and `cmd` cleared, a poll's findings being stated by the slices of the environment that have gone by |
| `HostExchange.AnsweredInTime` | pyirix_qemu/host_channel.py:316-325 | so it never times out in an environment that lets the agent make six steps before some poll that finds it current, whatever the system answers |
| `HostGateway.Guest.WriteData` | pyirix_qemu/host_channel.py:348-364 | the host writes the data field only while nothing is posted (likewise the path and length fields) |
| `HostChannel.PathArrives` | pyirix_qemu/host_channel.py:344-346 | the path the agent opens after `_setpath`, whatever the field held before |
| `HostChannel.TargetIsThePathIff` | pyirix_qemu/host_channel.py:344-346 | it is the very path if and only if that has at most 255 bytes and no NUL |
| `HostGateway.Gateway.PushFile` | pyirix_qemu/host_channel.py:348-364 | the method leaves the guest, returns the result and gets the replies that `Push` says, in every environment |
| `HostFiles.PushIsSafe` | pyirix_qemu/host_channel.py:348-364 | in every environment: True if and only if every command posted reported success, and then the guest file equals the content; no other file ever changes, not even after timeouts; without a timeout a failed push leaves all files alone or a beginning of the content; what is posted is an OPEN and, if that succeeds, WRITEs and a CLOSE |
| `HostFiles.PushSucceeds` | pyirix_qemu/host_channel.py:348-364 | in an environment that serves, every push reports success, so the guest file holds the content |
| `HostGateway.Gateway.PullFile` | pyirix_qemu/host_channel.py:365-379 | the method leaves the guest, returns the bytes and gets the replies that `Pull` says, in every environment |
| `HostFiles.PullIsSafe` | pyirix_qemu/host_channel.py:365-379 | in every environment: no file changes; None if and only if the OPEN did not succeed; otherwise the first bytes of the file, exactly as many as the successful READs handed over, and when no READ failed the whole file or at least the limit; what is posted is an OPEN, READs of which only the last can fail, and a CLOSE |
| `HostFiles.PullSucceeds` | pyirix_qemu/host_channel.py:365-379 | in an environment that serves, pulling a file that is there gives all of it when it is within the limit, and always a beginning |
| `HostFiles.PushThenPull` | pyirix_qemu/host_channel.py:348-379 | in an environment that serves, what is pulled after a push is the content, for every content, every path and every limit not below its length |
| `HostChannel.WriteOutcome` | pyirix_qemu/gwagent.c:98-100 | a WRITE reports success if and only if the system wrote all of it, and then appends the whole chunk; otherwise a beginning of it |
| `HostChannel.ReadOutcome` | pyirix_qemu/gwagent.c:105-108 | a READ reports success if and only if the system read, and then hands over the next bytes, none only at the end of the file |
| `HostChannel.OpenReadOutcome` | pyirix_qemu/gwagent.c:101-104 | an OPEN for reading reports success if and only if the file is there and the system opens it, and changes no file |
| `HostChannel.RunOutcome` | pyirix_qemu/gwagent.c:79-94 | RUN hands over the beginning of what the command prints, at most 2047 bytes, with a NUL behind it |
| `HostChannel.RunConfined` | pyirix_qemu/gwagent.c:72-120 | whatever the agent goes on to do, files other than the open one stay as they were, as long as no shell command is posted |
| `DglFramed.ChunkingDoesNotMatter` | sgi_glremote/dgl_framed.py:218-246 | however a stream is cut into chunks, the framed connection ends in the same state with the same callbacks and replies as fed whole; if one way raises, so does the other |
| `DglFramed.SessionArrives` | sgi_glremote/dgl_framed.py:218-290 | a client's probe and messages, cut anywhere, are called back as exactly the commands sent, in order, with nothing left in the buffer |
| `DglSession.ClientIsHeard` | sgi_glremote/dgl_framed.py:83-290 | whatever commands a client puts on the wire (winopen with any name, arrays, texdef2d with both its arrays, fixed lengths; in frames with or without a reply-sync), cut into chunks anywhere, are called back as exactly those commands, in order |
| `DglFramed.CommandsAreCalledBack` | sgi_glremote/dgl_framed.py:256-290 | every whole command of a message is called back once and in order, and the reply, if one is due, is for the last |
| `DglWire.SplitUndoesConcat` | sgi_glremote/dgl_framed.py:162-180 | splitting undoes concatenation for commands that say where they end, and a command cut off at the end is not called back |
| `DglWire.SplitUndoesOnWire` | sgi_glremote/dgl_framed.py:148-180 | so it does for commands written from the wire layout (a byte count and as many words as it needs; two arrays of which the second has its length behind the first), with any beginning of one more behind them |
| `DglWire.OnWireDelimits` | sgi_glremote/dgl_framed.py:148-180 | each of those says where it ends, and none is taken for whole before its last word is there |
| `DglWire.SplitLosesOnlyTheTail` | sgi_glremote/dgl_framed.py:162-180 | for any words whatever, the commands called back are their beginning and the rest is one incomplete command |
| `DglWire.LengthIgnoresTail` | sgi_glremote/dgl_framed.py:148-180 | what follows a command does not change its length; texdef2d's second length word always lies inside the command |
| `DglFramed.ReplyIsAFrameIff` | sgi_glremote/dgl_framed.py:256-290 | a message is answered by exactly one well-formed frame, or not at all, and which is decided by a stated condition |
| `DglFramed.RepliesComeApart` | sgi_glremote/dgl_framed.py:127-130 | the concatenated replies are one frame for each answered message and nothing else, and read by the framing rule they come apart into just those |
| `DglFramed.RepliesFromTheStart` | sgi_glremote/dgl_framed.py:218-246 | from the start of a connection, whatever the client sends: what goes back is the answer to its probe followed by just those frames |
| `DglFramed.FramesComeApart` | sgi_glremote/dgl_framed.py:127-130 | frames put one after the other are taken apart into just those payloads |
| `DglWire.FrameOnWire` | sgi_glremote/dgl_framed.py:127-130 | the bytes of a frame: 0x10, three bytes of length, and the words modulo 2^32 |
| `DglSession.CutOffWaits` | sgi_glremote/dgl_framed.py:235-246 | a frame of which only a beginning is there waits for the rest |
| `DglSession.ForeignHeaderStops` | sgi_glremote/dgl_framed.py:237-240 | behind a header without the marker nothing is handled, and the bytes stay |
| `DglSession.RaisesIff` | sgi_glremote/dgl_framed.py:256-257 | `feed` raises if and only if some message has a payload of at least one word that is not whole words |
| `DglSession.ProbeAnswer` | sgi_glremote/dgl_framed.py:218-234 | any four bytes are answered with ff ff ed cc |
| `DglSession.LoginAnswers` | sgi_glremote/dgl_framed.py:118-124 | the words that answer each login message and each version query |
| `DglSession.FrameAnswer` | sgi_glremote/dgl_framed.py:256-290 | a frame with a reply-sync is answered for its last command, and no other is answered |
| `DglSession.QueryAnswers` | sgi_glremote/dgl_framed.py:199-216 | a matrix comes with its length in bytes in front, and is the identity unless the renderer has one; another query gets what the renderer says or one zero, and is noted as not handled unless zero is its usual answer |
| `DglSession.FixedAnswers` | sgi_glremote/dgl_framed.py:182-198 | the answers that do not depend on the renderer |
| `DglSession.WindowAnswer` | sgi_glremote/dgl_framed.py:189-193 | a winopen that ends a frame with a reply-sync is answered with the next id, whatever its name and whatever stands before it |
| `DglFramed.WindowIdsInTurn` | sgi_glremote/dgl_framed.py:189-193 | over a whole run the k-th window opened gets the k-th id, in the reply to its own message |
| `DglFramed.WindowIdsFromTheStart` | sgi_glremote/dgl_framed.py:189-193 | `wids` is 1, 2, 3, ... up to the next id less one, whatever bytes the client sends, even those on which `feed` raises |
| `DglConnection.DglFramedConnection.ReplyFor` | sgi_glremote/dgl_framed.py:182-216 | the reply and the changed fields for every value-returning opcode |
| `DglConnection.DglFramedConnection.HandlePayload` | sgi_glremote/dgl_framed.py:256-290 | the fields and the reply after one message |
| `DglConnection.DglFramedConnection.Feed` | sgi_glremote/dgl_framed.py:218-246 | the fields after a chunk, the bytes to send back, and whether it raised |
| `DglDecoder.ChunkingDoesNotMatter` | sgi_glremote/dgl.py:103-139 | the unframed decoder decodes the same commands, keeps the same rest and loses sync alike, however the stream is cut |
| `DglDecoder.CommandsArrive` | sgi_glremote/dgl.py:103-139 | commands of known lengths, encoded and cut anywhere, are decoded one for one |
| `DglDecoder.ClientIsDecoded` | sgi_glremote/dgl.py:67-139 | whatever a client writes of strings (a byte count and as many words as it needs), polygons (a vertex count and three or two words for each, by name) and commands of fixed length, cut anywhere, is decoded as exactly that |
| `DglDecoder.PartWaits` | sgi_glremote/dgl.py:130-137 | a command of which only a beginning is there waits for the rest |
| `DglDecoder.LosesSyncIff` | sgi_glremote/dgl.py:117-130 | sync is lost exactly at an opcode that is not in the table, or has neither a length nor one of the eleven names there |
| `DglDecoder.DecodeUndoesEncode` | sgi_glremote/dgl.py:116-139 | decoding undoes encoding |
| `DglDecoder.Decoder.TryOne` | sgi_glremote/dgl.py:116-139 | takes the first command exactly when it is there in full, and tells a lost stream from an unfinished one |
| `DglDecoder.Decoder.Feed` | sgi_glremote/dgl.py:103-110 | the loop decodes what `Decode` says |
| `Clip.RectSubtract` | ip54_tftp_staging/dgld_proxy.c:98-119 | the bands go behind the rectangles already there, as many as there is room for |
| `Clip.ComputePieces` | ip54_tftp_staging/dgld_proxy.c:133-188 | the pieces left after all windows above, in an array of 16 |
| `Clip.BandsExact` | ip54_tftp_staging/dgld_proxy.c:98-119 | the bands are exactly the points of the rectangle the occluder does not cover |
| `Clip.BandsDisjoint` | ip54_tftp_staging/dgld_proxy.c:98-119 | bands never overlap |
| `Clip.BandsNonempty` | ip54_tftp_staging/dgld_proxy.c:98-119 | and none is empty unless the rectangle was |
| `Clip.PiecesAreVisible` | ip54_tftp_staging/dgld_proxy.c:164-188 | with or without the cap the pieces are pairwise disjoint and inside the window less everything above |
| `Clip.WhatPiecesShow` | ip54_tftp_staging/dgld_proxy.c:164-188 | the pieces show exactly the visible region less the points whose band found no room |
| `Clip.PiecesExactIff` | ip54_tftp_staging/dgld_proxy.c:164-188 | they are the whole region if and only if every band without room is covered by the windows that come after |
| `Clip.PiecesAddUp` | ip54_tftp_staging/dgld_proxy.c:164-188 | when nothing lacks room the areas add up to the number of visible points |
| `Clip.NoPieceIff` | ip54_tftp_staging/dgld_proxy.c:164-188 | when nothing lacks room the count is 0 if and only if the window is not empty and fully covered |
| `Clip.PieceCount` | ip54_tftp_staging/dgld_proxy.c:164-188 | without the cap, n windows above cut the visible region into at most (n + 1) * (n + 1) pieces, wherever they lie |
| `Clip.ThreeAlwaysFit` | ip54_tftp_staging/dgld_proxy.c:164-188 | so up to three windows above never overflow the array of 16 |
| `Clip.FourWindowsOverflow` | ip54_tftp_staging/dgld_proxy.c:98-119 | four can: a visible point is then shown by no piece |
| `VolumeHeaderBuild.BuildVh` | analysis_tools/create_boot_disk.py:126-161 | packing in place gives the header, or raises exactly when a name is not ASCII or a number not 32-bit |
| `VolumeHeaderBuild.ComputeChecksum` | analysis_tools/create_boot_disk.py:104-123 | the loop computes the checksum |
| `VolumeHeaderBuild.ReadHeader` | analysis_tools/create_boot_disk.py:53-101 | the loops read what `ReadVh` says |
| `VolumeHeader.ChecksumIsTheOnlyOne` | analysis_tools/create_boot_disk.py:104-123 | a checksum makes the header's words sum to 0 modulo 2^32 if and only if it is the computed one |
| `VolumeHeader.HeaderSumsToZero` | analysis_tools/create_boot_disk.py:126-161 | the 128 words of every header built sum to 0 |
| `VolumeHeader.HeaderComesBack` | analysis_tools/create_boot_disk.py:53-161 | reading a built header gives back boot file, directory and partitions, names as their fields keep them |
| `VolumeHeader.HeaderBytes` | analysis_tools/create_boot_disk.py:126-161 | the bytes that are the same in every header: magic, root and swap partition, the sector size as the only device parameter, and the last four |
| `VolumeHeader.EntriesStandAt` | analysis_tools/create_boot_disk.py:73-97 | the words of each directory slot and each partition on the disk |
| `VolumeHeader.EntriesIntactIff` | analysis_tools/create_boot_disk.py:53-161 | entries come back unchanged if and only if the names fit their fields and hold no NUL |
| `BootDisk.FilesLieApart` | analysis_tools/create_boot_disk.py:276-286 | files occupy disjoint sector ranges behind the header, inside the volume-header partition |
| `BootDisk.CreatedHeader` | analysis_tools/create_boot_disk.py:255-311 | every disk created, whatever the files, has a header that names the boot file given, lists the label and the first 14 files, each placed behind the header and the sectors of those before it, and has two partitions: 8 for the volume header, which holds all files and 16 sectors more and is at least 4096 long, and 10 for the whole disk |
| `BootDisk.CreatedIff` | analysis_tools/create_boot_disk.py:255-311 | a disk is created if and only if it has a sector at all and everything its header says is ASCII and fits 32 bits |
| `BootDisk.ExtractIs` | analysis_tools/create_boot_disk.py:205-242 | what extracting gives of any disk with a header: the bytes from the sector on, as many as the entry says and the disk has; all of them when it says a negative number |
| `BootDisk.ExtractPlaced` | analysis_tools/create_boot_disk.py:205-311 | what extracting the i-th file gives, for every disk size and number of files: only 14 fit the directory, and the image's last byte is overwritten with 0 |
| `BootDisk.ExtractGivesTheFileIff` | analysis_tools/create_boot_disk.py:205-311 | a file comes back whole if and only if it is among the first 14 and does not lose a non-zero byte to that overwrite |
| `BootDisk.CreateThenExtract` | analysis_tools/create_boot_disk.py:205-311 | on a disk that holds its volume-header partition every file comes back whole |
| `BootDiskTool.Create` | analysis_tools/create_boot_disk.py:255-311 | the command writes the image `Created` describes, or raises |
| `BootDiskTool.ExtractFile` | analysis_tools/create_boot_disk.py:205-242 | the command finds the first entry of that name and reads its bytes |
| `CopyVh.CopyKeepsFiles` | analysis_tools/create_boot_disk.py:338-385 | on a source with distinct names, every entry with a name other than the label, a sector behind the header and at least one byte is extracted from the copy as from the source, if fewer than 14 such come before it and the disk holds the header partition that the copy says it has; from the 15th on they are not found |
| `CopyVh.CopiedIs` | analysis_tools/create_boot_disk.py:338-385 | with distinct names the copy is laid out like a new disk with the files read |
| `CopyVh.CopiedHeader` | analysis_tools/create_boot_disk.py:338-385 | every copy, of whatever source, has a header that describes the files chosen as that of a new disk does, with the source's boot file |
| `BootDiskTool.CopyHeader` | analysis_tools/create_boot_disk.py:338-385 | the command writes the image `Copied` describes |
| `Pckm.RunIsSafe` | ip54_tftp_staging/pckm.c:355-588 | over every interleaving of interrupts, timers, service runs, opens and closes: sent, chained and current bytes are the accepted ones in order, nothing empty is sent, and the current buffer is never left full |
| `Pckm.RunIsLive` | ip54_tftp_staging/pckm.c:355-588 | and nothing is stranded: bytes waiting on an open port have an armed timer, a due service run or a congested upstream to wait for |
| `Pckm.FromPowerOn` | ip54_tftp_staging/pckm.c:355-588 | both hold of every possible run from power-on |
| `PckmHistory.RunDelivers` | ip54_tftp_staging/pckm.c:521-588 | over every possible run from power-on, by the list of events alone: on an open port the bytes sent, chained and current are exactly those that were for the stream since it was last closed (not a BAT code, on the mouse not the failure code; with a textport handler set those it declined, without one those that came in on an open port), in order; on a closed port they are all still buffered |
| `PckmHistory.StreamGetsEverything` | ip54_tftp_staging/pckm.c:405-472 | and with upstream ready at most six steps send exactly those |
| `PckmHistory.LockKeyIsPrompt` | ip54_tftp_staging/pckm.c:573-577 | a lock key for the stream is followed by a service run at once, or by an armed timer while upstream is congested |
| `Pckm.EverythingGetsUpstream` | ip54_tftp_staging/pckm.c:405-472 | from any such state, with upstream ready, at most six steps send every accepted byte |
| `Pckm.StoreKeeps` | ip54_tftp_staging/pckm.c:563-568 | however memory runs short, a byte taken is stored; the driver waits rather than drop it |
| `Pckm.LockKeysHurry` | ip54_tftp_staging/pckm.c:573-577 | a lock key is followed by a service run at once, or by an armed timer while upstream is congested |
| `Pckm.OpenStrandsNothingIff` | ip54_tftp_staging/pckm.c:203-255 | opening strands nothing if and only if nothing was buffered on the closed port or a timer is still armed |
| `Pckm.DeclinedByteIsStranded` | ip54_tftp_staging/pckm.c:545-562 | a byte a textport handler declines before the open can be left behind |
| `PckmPort.KmPort.GetBuffer` | ip54_tftp_staging/pckm.c:355-392 | the two allocation attempts, the retry at high priority, and the chaining of the old buffer |
| `PckmPort.KmPort.Receive` | ip54_tftp_staging/pckm.c:521-588 | the port after one byte |
| `PckmPort.KmPort.RsrvTimerLock` | ip54_tftp_staging/pckm.c:405-424 | the port after the heartbeat |
| `PckmPort.KmPort.Rsrv` | ip54_tftp_staging/pckm.c:426-464 | the port after the first half of the service procedure, up to putnext |
| `PckmPort.KmPort.RsrvEnd` | ip54_tftp_staging/pckm.c:464-472 | and after the second half |
| `PckmPort.KmPort.CloseBuffers` | ip54_tftp_staging/pckm.c:263-282 | the buffer part of the close |

## Left out

- EfsBuilder.EFSBuilder.AddFile: a path is the list of its components; the string handling of `lstrip`, `strip`, `split`, `basename` and `dirname` on slashes is not modelled.
- EfsBuilder.EFSBuilder.Build: does not model what is written when groups have 1 to 8 blocks, where no block of data is safe (`EfsAlloc.AllocAvoidsInodesIff`); models one `build` of a builder, of a sound tree; the printed messages are left out.
- EfsBuilder.EFSBuilder.WriteImage: for the same groups as `Build`.
- EfsBuilder.EFSBuilder.AllocateInodes: for trees in which no path is both a file and a directory, as every run of fitting adds leaves them.
- EfsEndToEnd.WhatIsReadBack: names are non-empty ASCII other than `.` and `..`, and a recorded size equals the data's length; the contents of other names are replaced by the encoder and cannot be looked up again.
- EfsBuilder.EFSBuilder.SubdirCounts: the root counts itself as a sub-directory, as the code does, so no claim is made about its link count.
- EfsSuper.CalculateChecksum: covers the superblock's first 88 bytes as the code does; changes of several words can cancel.
- EFS times are parameters; modes, ids and sizes are integers and an out-of-range field makes packing raise. Bit operations on them are written as arithmetic.
- `verify_efs`, `cmd_list` and `cmd_info` read inode areas and directories in a layout the builder does not write, and are not used as specifications; `EFSDirEntry.pack`, tar parsing and splitting are left out.
- Mailbox.AgentStep: the heartbeat increment and the read of `cmd` are one step; debugger reads and writes succeed, and only the magic word tells whether the agent's address space is current.
- HostGateway.Gateway.PushFile: starts from an idle mailbox; after a timeout only the other files' safety is claimed, because a later command may then meet the unfinished one.
- HostExchange.Elapsed: what the guest does between two accesses of the host, and which polls find it current, is a list of slices given beforehand; it does not depend on what the host does next.
- HostFiles.PushSucceeds: an environment that serves finds the agent current at every poll, lets it make six steps before every access, and has a system that carries out what it is asked; what slower environments come to is `HostFiles.PushIsSafe`.
- Mailbox.Popen: what a shell command prints and does to the guest's files is the answer of the system; the host's `ping`, `run` and `attach` are left out.
- DglWire.OnWire: the first array of texdef2d is whole words, as its length in the second's place requires.
- DglFramed.SessionArrives: the opcode lengths, the graphics-description table and the renderer's query hook are parameters; a hook's answer is taken to fit a frame's 24-bit length.
- DglDecoder.ChunkingDoesNotMatter: fixed lengths are at least 1; with a length of 0 the decoder would not end.
- DglConnection.DglFramedConnection.Feed: what `on_payload` receives is recorded in order; what a renderer does with it is not modelled.
- Clip.ComputePieces: the window's rectangle and those of the viewable windows above it are inputs; X11 calls, the ancestor search and the width of C's `int` are left out.
- BootDiskTool.Create: arguments arrive parsed and files as byte strings; a raise after the file was opened leaves a partial image that is not described.
- CopyVh.CopyKeepsFiles: for distinct names; of entries sharing a name the code writes only the last, which the method's contract follows but of the theorems only `CopyVh.CopiedHeader` covers.
- Pckm.RunIsLive: an enable of the service procedure is immediate once the heartbeat has cleared its flag, a stream is not closed while its service procedure runs, and bytes a textport handler declines on a closed port are excluded (see `Pckm.DeclinedByteIsStranded`).
- Pckm.Rx: the device codes and buffer sizes come from sys/pckm.h, which is not part of this model, and are parameters; reinitialisation, LED commands, parity handling and the interrupt's own loop are left out.
- OpenGL backends, proxies, session drivers, QEMU and network plumbing, PROM and driver tools are fixed data or have no meaning visible in the source.
