# Pignoufs in Dafny

Pignoufs keeps a whole filesystem inside one container file. The container is cut into 4096-byte blocks:

- block 0 is the superblock (magic `pignoufs` and five counters);
- the next `nb1` blocks are the bitmap (one bit per block, 1 = free);
- the next `nbi` blocks are inodes;
- the last `nba` blocks are data blocks and address blocks.

Each block has a 4000-byte payload, a SHA-1 digest of that payload and a kind tag. An inode has 900 direct pointers and one indirect pointer. The indirect pointer leads to a single-indirect address block (tag 6). Once a file needs more than 1900 blocks, that block is promoted to a double-indirect block (tag 7). A directory is an inode whose direct slots list its children, and each inode records its depth in the tree.

This project models the storage engine and the commands built on it. The model is functional: the container is a value `Fs` holding a sequence of blocks, and every operation maps a container to a result `Res`:

- `Ok(fs', v)` when the operation returns normally;
- `Exit(fs')` when the program stops with `fatal_error`, keeping the blocks it already wrote, because the mapping is shared;
- `Fault` when the C code would read outside the mapping, follow pointer -1 or index past an array.

Each modelled operation reads and writes the container in the order the C source does, and every read sees the writes made before it. So an aliased or corrupt container behaves as it does in C. A payload keeps a structured view (superblock, bits, inode, bytes or words), and a byte codec gives every view the same 4000-byte image. So reading a block "as" another struct, as a C pointer cast does, is defined exactly. SHA-1 is an uninterpreted digest of that image.

The modules follow the source:

- codec.dfy, blocks.dfy, layout.dfy: Codec, Blocks, Layout, for include/structures.h;
- container.dfy, allocator.dfy: Container, Allocator, for superblock counters and bitmap in src/utilitaires.c;
- resolver.dfy, growth.dfy: Resolver, Growth, for get_last_data_block and get_last_data_block_null;
- teardown.dfy: Teardown, for dealloc_data_block, delete_inode;
- entries.dfy, directories.dfy, dirtree.dfy: Entries, Directories, DirTree, for init_inode, create_file, add_inode, delete_separte_inode, create_directory(_main);
- paths.dfy, lookup.dfy: Paths, Lookup, for split_path, is_folder_path, the lookups every command repeats;
- mkfs.dfy, fsck.dfy: Mkfs, Fsck, for src/cmd_mkfs.c, src/cmd_fsck.c;
- appending.dfy: Append, for src/cmd_add.c, src/cmd_addinput.c, src/cmd_input.c;
- reading.dfy, cat.dfy, grep.dfy, selection.dfy: Reading, Cat, Grep, Selection, for src/cmd_cat.c, src/cmd_grep.c;
- chmod.dfy: Chmod, PermissionBits, for src/cmd_chmod.c;
- rm.dfy, rmdir.dfy, moving.dfy: Rm, Rmdir, Mv, for src/cmd_rm.c, src/cmd_rmdir.c, src/cmd_mv.c;
- listing.dfy, tree.dfy: Find, Ls, Tree, for src/cmd_find.c, src/cmd_ls.c, src/cmd_tree.c;
- copying.dfy: Cp, for src/cmd_cp.c.

Some defects are reproduced rather than excluded, because the commands depend on them:

- New inodes made by `cp` come from the data region, through `alloc_data_block`. `Cp.NewEntrySpec` states that the new block was free at or above the data region.
- `create_file` rehashes the inode before it writes the depth. `Entries.CreateFileStaleDigest` states that a new file whose inode slot held a non-zero depth is left with a digest that no longer matches.
- `fsck` clears the lock bits without rehashing. `Fsck.UnlockLeavesStaleDigest` states that an inode that held a lock bit is left with a stale digest.
- Deleting a directory runs `dealloc_data_block` over its child slots as if they were data blocks. `Teardown.DirectoryChildFreed` states this.
- When the container is full, `alloc_data_block` returns -1. `get_last_data_block_null` does not check for it, and the callers only test for -2. The model turns the resulting write to block -1 into `Fault`.

## Model

| member | source | states |
|---|---|---|
| Codec.U32RoundTrip | include/structures.h:27-31 | a `uint32_t` field written as four little-endian bytes reads back as the stored value truncated to 32 bits |
| Codec.I32RoundTrip | include/structures.h:33-34 | an `int32_t` pointer written as four bytes reads back unchanged |
| Codec.U32BytesOfI32 | include/structures.h:33-34 | any four bytes read as an `int32_t` and written back are the same four bytes |
| Codec.WordsRoundTrip | include/structures.h:49-51 | the 1000 addresses of an address block survive being laid out as 4000 bytes and read back |
| Codec.BytesRoundTripThroughWords | include/structures.h:49-51 | any 4000 bytes read as 1000 addresses and written back are unchanged, so casting a data block to an address block loses nothing |
| Codec.PackedBitAddress | src/utilitaires.c:105-111 | bit k of a packed bitmap is bit `k % 8` of byte `k / 8`, least significant bit first |
| Codec.BitsRoundTrip | include/structures.h:17-19 | 32000 bits packed into the 4000-byte bit array and read back are unchanged |
| Codec.BytesRoundTripThroughBits | include/structures.h:17-19 | any byte array read as bits and packed again is unchanged |
| Blocks.SuperRoundTrip | include/structures.h:6-15 | the superblock's magic and five counters survive serialisation into the 4000-byte payload |
| Blocks.InodeRoundTrip | include/structures.h:25-35 | every inode field (flags, size, three times, 256-byte name, 900 direct pointers, the indirect pointer, the depth word, the extension area) survives serialisation |
| Blocks.ViewsAgreeWithImage | src/utilitaires.c:36-65 | reading a block through any of the five struct types is decoding its payload bytes, whatever kind was last written there |
| Blocks.SameImageSameViews | src/utilitaires.c:36-65 | two payloads with the same bytes look the same through every struct type and have the same digest |
| Blocks.DepthWordOffset | include/structures.h:33-35 | under the model's assumed placement of the undeclared depth word, it sits at bytes 3880-3883, right after the indirect pointer, inside the declared extension area |
| Layout.SuperblockIsOneBlock | include/structures.h:6-15 | magic, five counters and padding fill exactly 4000 bytes, and with the trailer the block is 4096 bytes with the digest at byte 4000 |
| Layout.SuperOffsets | include/structures.h:6-14 | the magic is at byte 0 and the counters `nb_b` … `nb_f` follow at bytes 8 to 24 |
| Layout.BitmapIsOneBlock | include/structures.h:17-23 | a bitmap block is 4000 bytes of bits plus the trailer, 4096 bytes, with the tag at byte 4020 |
| Layout.InodeIsOneBlock | include/structures.h:25-39 | the declared inode fields up to `extensions` total 4000 bytes; with the trailer, 4096 |
| Layout.ModelInodeIsOneBlock | include/structures.h:25-35 | the model's inode, which assumes the undeclared depth word is carved out of the extension area, has the same size and the same fields before it |
| Layout.ModelInodeOffsets | include/structures.h:27-33 | the name starts at byte 20 and the direct pointers at byte 276 |
| Layout.ModelInodeTailOffsets | include/structures.h:34-35 | the indirect pointer is at byte 3876; under the assumed placement the depth is at 3880 and the rest of the extension area at 3884 |
| Layout.DataAndAddressAreOneBlock | include/structures.h:41-55 | 4000 data bytes, or 1000 `int32_t` addresses, plus the trailer make 4096 bytes with the digest at byte 4000 |
| Layout.TrailerSize | include/structures.h:20-22 | the shared trailer is 96 bytes: digest at offset 0, tag at offset 20 |
| Layout.Framed | include/structures.h:19-22 | any 4000-byte payload followed by the trailer is a 4096-byte block with the digest at 4000 and the tag at 4020 |
| Container.WrapI32 | include/structures.h:9-13 | a counter stored into an `int32_t` is congruent to the value modulo 2^32 and equal to it when it fits |
| Container.CDivModNonNegative | src/utilitaires.c:107-108 | C's truncating `/` and `%` agree with Euclidean division on non-negative block numbers |
| Container.SuperCountersOnly | src/utilitaires.c:77-103 | `decremente_lbl`, `incremente_lbl`, `decrement_nb_f` and `increment_nb_f` change their own counter by one with wrap-around, leave the other counter and the geometry alone, and touch only block 0 |
| Container.CounterWritesKeepBits | src/utilitaires.c:77-103 | counter updates leave every block's free bit unchanged |
| Container.BitIsByteBit | src/utilitaires.c:105-111 | the bit of block b is bit `(b % 32000) % 8` of byte `(b % 32000) / 8` of bitmap block `b / 32000 + 1` |
| Container.AddressableInWellFormed | src/utilitaires.c:105-111 | in a well-formed container every block's bit lies in one of the `nb1` bitmap blocks |
| Container.WriteAboveHeader | src/utilitaires.c:68-75 | writing a block above the bitmap keeps the geometry read by `get_conteneur_data` and every free bit |
| Container.FreeCountOne | src/utilitaires.c:77-89 | changing one block's bit changes the number of free blocks by exactly that bit's change, which is what moving `nb_l` by one accounts for |
| Allocator.CheckBitmapBit | src/utilitaires.c:105-111 | `check_bitmap_bit` answers true exactly when the block's bit is 0 (allocated), and faults only when the bit is out of the mapping |
| Allocator.BitmapAlloc | src/utilitaires.c:178-186 | `bitmap_alloc` clears exactly the block's bit, tags the bitmap block 2 and rehashes it; every other bit and block is unchanged |
| Allocator.BitmapDealloc | src/utilitaires.c:309-317 | `bitmap_dealloc` sets exactly the block's bit and rehashes; the tag and every other bit are unchanged |
| Allocator.WriteBitEffect | src/utilitaires.c:178-186 | writing one bit changes that bit only and leaves the bitmap block sealed |
| Allocator.AllocThenCheck | src/utilitaires.c:105-111 | `bitmap_alloc` then `check_bitmap_bit` says allocated; `bitmap_dealloc` then `check_bitmap_bit` says free |
| Allocator.BitAddressInjective | src/utilitaires.c:105-111 | two blocks never share a bit |
| Allocator.FirstFreeIsFirst | src/utilitaires.c:293-306 | the scan returns the lowest free block of the data region, or -1 exactly when none is free |
| Allocator.FirstFreeSucceeds | src/utilitaires.c:293-298 | the scan cannot fault when every bit it reads is in the bitmap |
| Allocator.AllocDataBlockSpec | src/utilitaires.c:289-307 | `alloc_data_block` is first-fit: it returns the lowest free data block, clears only its bit and decrements `nb_l`; with none free it returns -1 and changes nothing |
| Allocator.TakeEffect | src/utilitaires.c:300-302 | taking block a clears its bit and no other |
| Allocator.TakeKeepsGeometry | src/utilitaires.c:300-302 | taking a block decrements `nb_l` with wrap-around and changes nothing at or above the inode region |
| Allocator.AllocKeepsCounted | src/utilitaires.c:289-307 | allocation keeps `nb_l` equal to the number of free data blocks and `nb_f` equal to the number of live inodes |
| Resolver.ModeOf | src/utilitaires.c:565-589 | an inode is in direct mode exactly when its indirect pointer is -1, and in single-indirect mode exactly when that block is tagged 6 |
| Resolver.LastIndex | src/utilitaires.c:567-568 | the index of the last byte is `(size - 1) / 4000`, and for an empty file the unsigned subtraction wraps to `(2^32 - 1) / 4000` |
| Resolver.LastBlockIsResolve | src/utilitaires.c:565-589 | `get_last_data_block` equals the reference direct/single/double addressing applied to the last byte's index: both fault or both return the same block |
| Resolver.AppendedLastIndex | src/utilitaires.c:565-589 | after appending bytes that fit in block `size / 4000`, that block holds the file's last byte |
| Resolver.Unlinked | src/utilitaires.c:608 | a freshly cleared address block holds -1 in all 1000 entries |
| Resolver.GetLastDataBlockNull | src/utilitaires.c:592-600 | growth never changes the number of blocks of the container |
| Growth.GrowThenResolve | src/utilitaires.c:592-671 | at the limit of 1,000,900 blocks `get_last_data_block_null` returns -2 and changes nothing; otherwise, when it succeeds, logical block `size / 4000` resolves through the direct/single/double addressing to exactly the block it returned, every other block of the file resolves as before, only the inode's pointers change, no used block is disturbed, and the block handed out was free, or, past block 900, already recorded at that index |
| Growth.GrowThenReadBack | src/utilitaires.c:565-671 | growing a file by one block and recording up to the room left in it: `get_last_data_block` then finds the block `get_last_data_block_null` handed out |
| Growth.AllocGrows | src/utilitaires.c:289-307 | the block `alloc_data_block` returns was free and is now used; -1 leaves the container unchanged; nothing at or above the inode region moves |
| Growth.DirectSlotSpec | src/utilitaires.c:614-617 | in direct mode the new block is stored in slot `size / 4000` and resolves there |
| Growth.AttachSpec | src/utilitaires.c:603-612 | at block 900 a direct-mode inode gets a fresh single-indirect block (tag 6) with all 1000 entries -1, its direct blocks still resolve as before, and only its indirect pointer changes |
| Growth.LinkedSpec | src/utilitaires.c:621-646 | from an inode with an indirect pointer, the step leaves the direct slots alone and returns logical block j + 900 as the addressing reads it afterwards; every other block of the file resolves as before, and the block returned was free or already recorded at j + 900 |
| Growth.PromoteSpec | src/utilitaires.c:626-638 | promotion makes a fresh block tagged 7 whose entries are exactly -1 except entry 0, which is the old single-indirect block; the inode is relinked to it, the old block is byte for byte untouched, and every entry of the new table is a used block |
| Growth.PromotedSpec | src/utilitaires.c:626-638 | after promotion logical block j + 900 resolves through the double-indirect table to the block returned, which was free or already recorded there, and every other block, in particular the first 1000 indirect blocks now reached through entry 0, resolves as before |
| Growth.DoublySpec | src/utilitaires.c:650-671 | in double-indirect mode the outer table and the inner block are allocated only when absent, and the returned block is entry `j % 1000` of outer entry `j / 1000` |
| Growth.OuterSlotSpec | src/utilitaires.c:653-662 | an empty outer entry gets a fresh table with all entries -1, a filled one changes nothing; the double-indirect table keeps its tag and all entries used, and every two-level lookup that succeeded before returns the same block |
| Growth.InnerSpec | src/utilitaires.c:664-671 | filling an inner entry changes only that table and the bitmap |
| Growth.SplitIndex | src/utilitaires.c:651-652 | C's `/ 1000` and `% 1000` are both in range if and only if the index is in [0, 10^6), and for non-negative indices they are the mathematical quotient and remainder |
| Growth.SetEntrySpec | src/utilitaires.c:643-644 | writing one address entry and rehashing changes that entry only and keeps the table's tag |
| Growth.ResolveFrame | src/utilitaires.c:565-589 | resolution depends only on the inode's pointers and the tables they name |
| Growth.ResolveIgnoresSize | src/utilitaires.c:565-589 | changing only a file's size does not change where its blocks resolve |
| Growth.FullAllocatesNothing | src/utilitaires.c:305-306 | with no free data block `alloc_data_block` returns -1 and changes nothing |
| Growth.DirectSlotOverwritten | src/utilitaires.c:614-615 | in direct mode slot `size / 4000` is written without looking at it: a used block already there is replaced and stays marked used, with nothing pointing to it from that slot |
| Growth.FullDirectReturnsNoBlock | src/utilitaires.c:614-617 | with no free data block, direct-mode growth does not fail: it records -1 in the slot and returns -1 |
| Growth.FullAttachFaults | src/utilitaires.c:605-608 | with no free data block, growth that needs a new address table dereferences block -1 |
| Teardown.ReleaseSpec | src/utilitaires.c:345-350 | releasing one used data block tags it 4, seals it, sets its bit free and raises `nb_l` together with the count of free data blocks; nothing else changes |
| Teardown.ReleaseCore | src/utilitaires.c:345-348 | a release changes only the block and its bitmap block; afterwards the block is free, tagged 4 and sealed |
| Teardown.ClearSlotSpec | src/utilitaires.c:349-350 | clearing a direct slot sets it to -1, bumps `nb_l` with wrap-around and touches only the inode and block 0 |
| Teardown.ClearEntrySpec | src/utilitaires.c:374-375 | clearing an address entry sets it to -1, bumps `nb_l` and touches only that table and block 0 |
| Teardown.FreeDirectSpec | src/utilitaires.c:333-352 | the direct loop releases exactly the direct blocks before the first negative slot, and clears their slots |
| Teardown.FreeEntriesSpec | src/utilitaires.c:358-377 | the entry loop releases exactly the entries of a table before the first negative one |
| Teardown.DropTableSpec | src/utilitaires.c:383-412 | one outer turn releases the leaves of a second-level table, then the table itself, and clears its entry; the rest of the list is unchanged |
| Teardown.FreeTablesSpec | src/utilitaires.c:381-413 | the outer loop releases every leaf and every second-level table, leaves first, up to the first negative entry |
| Teardown.FreeIndirectSpec | src/utilitaires.c:353-419 | the indirect part releases exactly the blocks below the indirect block, then the indirect block |
| Teardown.DeallocSpec | src/utilitaires.c:319-427 | `dealloc_data_block` on a file whose blocks are used and distinct releases exactly those blocks (each tagged 4, its bit set, `nb_l` raised once per block), clears the direct run, sets the indirect pointer to -1, the size to 0 and the modification time to `now`, and rehashes the inode |
| Teardown.InodeFinish | src/utilitaires.c:432-441 | after the teardown, `delete_inode` zeroes flags, size, times, name and extension area, frees the inode's own bit, decrements `nb_f` and rehashes; no other block or bit changes |
| Teardown.DeleteInodeSpec | src/utilitaires.c:429-442 | `delete_inode` reaches the deleted state (every file block released, the inode wiped and free), the inode is no longer live, and `nb_l`/`nb_f` stay equal to the free and live counts when the inode was live in the inode region |
| Teardown.DeleteKeepsFree | src/utilitaires.c:350-418 | after `delete_inode`, `nb_l` equals the number of free data blocks again |
| Teardown.DeleteKeepsLive | src/utilitaires.c:439-440 | after `delete_inode`, `nb_f` equals the number of live inodes again |
| Teardown.RunShape | src/utilitaires.c:333-337 | the run of a pointer array is exactly its non-negative entries up to the first negative one |
| Teardown.ChildSlotReleased | src/utilitaires.c:333-352 | on a directory, the direct loop releases the child inode named in slot 0 as if it were a data block |
| Teardown.DirectoryChildFreed | src/utilitaires.c:429-431 | deleting a directory whose slot 0 names a child inode tags that inode block 4 and sets its bit free, and the counters no longer agree with the bitmap and the inode table |
| Entries.InitFlags | src/utilitaires.c:117-122 | a new inode exists, is readable and writable, holds no lock, and is a directory exactly when asked |
| Entries.InitInodeFresh | src/utilitaires.c:114-137 | `init_inode` leaves a fresh inode: the initial flags, size 0, all three times `now`, the name truncated to 255 characters, every direct slot and the indirect pointer -1, a zeroed extension area |
| Entries.InitInode | src/utilitaires.c:114-137 | `init_inode` does not reset the depth word |
| Entries.FirstFreeInodeSpec | src/utilitaires.c:452-460 | the inode scan is first-fit: it returns the lowest inode whose exists bit is clear, or -1 exactly when every inode is in use, and never faults on a well-formed container |
| Entries.CreateEntrySpec | src/utilitaires.c:478-506 | `create_directory_main` stops with `fatal_error` exactly when every inode is in use, leaving the container as it was; otherwise it creates the first free inode with the given depth, seals it, marks it used, and keeps `nb_l`/`nb_f` equal to the free and live counts |
| Entries.CreateEntryOk | src/utilitaires.c:497-505 | a creation that finds a free inode returns that inode and leaves it created and sealed |
| Entries.CreatedCounted | src/utilitaires.c:502-504 | a creation leaves `nb_l` and the data bits alone, and `nb_f` and the live count both grow by one |
| Entries.CreatedLive | src/utilitaires.c:502-504 | the number of live inodes grows by exactly one, and stays within `nbi` |
| Entries.CountStep | src/utilitaires.c:98-103 | `increment_nb_f` adds one to `nb_f` and changes nothing else |
| Entries.CreateFileVersusEntry | src/utilitaires.c:445-475 | `create_file` takes the same inode and leaves the same container as a depth-0 file creation that writes the depth before hashing, except for the new inode's stored digest |
| Entries.FileVersusEntryAt | src/utilitaires.c:466-474 | at one inode block the two write orders differ only in the digest, which `create_file` computed over the inode with its old depth |
| Entries.CreateFileStaleDigest | src/utilitaires.c:470-471 | when the reused inode slot held a non-zero depth, the file `create_file` creates carries a digest that does not match its contents |
| Directories.SlotOfFirst | src/utilitaires.c:277-284 | the slot search returns the first slot holding the value, and -1 exactly when none does |
| Directories.AddSlotSpec | src/utilitaires.c:258-270 | there is room exactly when some slot holds -1; adding replaces one -1 by the child and leaves every occupied slot alone |
| Directories.RemoveSlotSpec | src/utilitaires.c:277-284 | removing empties the first slot holding the child, changes nothing when the child is not listed, and leaves every other slot alone |
| Directories.AddThenRemove | src/utilitaires.c:256-287 | adding a child that is not listed and then removing it gives the slots back |
| Directories.RemoveThenAdd | src/utilitaires.c:256-287 | removing a listed child and adding it back gives the slots back when no empty slot precedes the child's |
| Directories.AddInodeSpec | src/utilitaires.c:256-273 | `add_inode` stops with `fatal_error` exactly when all 900 slots are taken, and then writes nothing; otherwise only the directory's slots and time change, it stays sealed and the counters stay honest |
| Directories.DeleteSeparteInodeSpec | src/utilitaires.c:275-287 | `delete_separte_inode` changes only the directory's slots and time, keeps it sealed and the counters honest |
| Directories.LinkThenUnlink | src/utilitaires.c:256-287 | linking a child that is not listed and unlinking it restores the directory; only its modification time moved |
| Directories.RewriteInodeSpec | src/utilitaires.c:271-272 | rewriting and rehashing one inode touches no other block and no bit, and keeps the counters honest when the flags stay |
| Directories.FindInodeRacineSpec | src/utilitaires.c:188-200 | `find_inode_racine` returns the first live depth-0 inode of the requested kind and name, or -1 exactly when there is none, and never faults on a well-formed container |
| Directories.FindFileFolderFromInodeSpec | src/utilitaires.c:202-217 | `find_file_folder_from_inode` returns the child in the first slot listing a live entry of the requested kind and name, or -1 exactly when no slot does; it faults only when a listed slot points outside the container |
| Directories.FindInodeFolderSound | src/utilitaires.c:219-254 | a block found by `find_inode_folder` is a live directory reached along a chain of directories spelling the path's components, each listed in the previous one |
| Directories.WalkStep | src/utilitaires.c:240-249 | each further token is looked up among the current directory's children and the walk continues from the child found |
| DirTree.CreateDirectorySpec | src/utilitaires.c:509-562 | `create_directory` faults exactly on a path longer than its 256-byte buffer, returns -1 only for a path without components, and otherwise ends at a directory of the inode region named by the last component, keeping the layout, tidy directories and honest counters (also when it stops with `fatal_error`) |
| DirTree.MakeRootSpec | src/utilitaires.c:523-529 | the first component reuses the depth-0 directory of that name or creates one at depth 0; only a full inode region stops it |
| DirTree.DescendSpec | src/utilitaires.c:530-559 | the walk below a directory never faults on a tidy container and ends at a directory named by the last component |
| DirTree.DescendOne | src/utilitaires.c:530-559 | one component either stops the walk with `fatal_error` or continues it from a directory named by that component |
| DirTree.CreateAndLink | src/utilitaires.c:548-555 | a missing component is created at depth n and linked into its parent |
| DirTree.CreateStep | src/utilitaires.c:478-506 | `create_directory_main` either stops, leaving the container alone, or makes a directory of the inode region with the given name |
| DirTree.LinkStep | src/utilitaires.c:553 | linking the new directory keeps the layout, tidy directories and honest counters |
| DirTree.ScanChildDirMiss | src/utilitaires.c:532-547 | the child scan of `create_directory` returns -1 exactly when no slot names a directory of that name; unlike the other lookups it ignores the exists bit |
| DirTree.ScanChildDirHit | src/utilitaires.c:532-547 | a block the child scan returns is held by the first matching slot |
| DirTree.TidyAfterCreate | src/utilitaires.c:497-505 | a new directory lists nothing, so directories still list only inode blocks |
| Paths.Trunc | src/utilitaires.c:223-224 | `strncpy` into an n-byte buffer keeps the first n bytes |
| Paths.NameRoundTrip | src/utilitaires.c:127-128 | a name stored by `init_inode` reads back as the name cut to 255 bytes |
| Paths.LastSlash | src/utilitaires.c:17 | `strrchr` finds the last slash, with no slash after it, or -1 when there is none |
| Paths.SplitJoins | src/utilitaires.c:15-34 | `split_path` cuts at the last slash: parent, slash and name give the path back; without a slash the parent is empty and the name is the path |
| Paths.JoinSplits | src/utilitaires.c:15-34 | splitting a parent joined by '/' to a slash-free name gives both back |
| Paths.IsFolderPath | src/utilitaires.c:699-717 | `is_folder_path` is true exactly when the last component is empty, whatever the parent |
| Paths.FolderPathIffTrailingSlash | src/utilitaires.c:699-717 | a path names a folder exactly when it is empty or ends with '/' |
| Paths.Tokens | src/utilitaires.c:225-252 | the components `strtok(.., "/")` yields are non-empty and slash-free |
| Paths.TokensOfJoin | src/utilitaires.c:225-252 | tokenising undoes joining components with '/' |
| Paths.SlashPrefixIgnored | src/utilitaires.c:225-252 | leading and doubled slashes produce no component |
| Lookup.FindFileSpec | src/cmd_cat.c:25-56 | the file lookup every command repeats finds a block that denotes the path (a depth-0 file of that name at the root, or a file of that name listed in the folder the parent resolves to), or -1 exactly when no block does; it cannot fault at the root of a well-formed container nor below a folder whose slots are in range |
| Lookup.TidyFindFile | src/cmd_cat.c:25-56 | on a container whose directories list only inode blocks the lookup never faults, and what it finds is an inode block |
| Lookup.TidyWalk | src/utilitaires.c:219-254 | on such a container the folder walk never faults and ends at a directory of the inode region, or at -1 |
| Lookup.FindFileSameShape | src/utilitaires.c:188-254 | the lookups read only the exists and directory bits, the depth, the name and the slots: containers that agree on those resolve every path alike |
| Lookup.RewriteLocal | src/utilitaires.c:271-272 | rewriting one inode and rehashing it leaves it sealed, keeps its tag and changes no other block |
| Mkfs.CeilDiv | src/cmd_mkfs.c:8 | `ceil(a / 32000.0)` is the exact ceiling of the quotient |
| Mkfs.Nb1FixedPoint | src/cmd_mkfs.c:7-21 | the loop stops, at the least bitmap size x with `x == ceil((1 + x + nbi + nba) / 32000)`, and `nbb == 1 + nb1 + nbi + nba` fits in an `int32_t` |
| Mkfs.FormatLayout | src/cmd_mkfs.c:28-98 | the fresh container has `nbb` blocks and the requested geometry; the superblock holds "pignoufs", `nb_l = nba`, `nb_f = 0` and tag 1; blocks 1..nb1 are tagged 2; inode blocks are zeroed and tagged 3; data blocks are zeroed and tagged 4; every block is sealed |
| Mkfs.FormatBitmap | src/cmd_mkfs.c:64-78 | the bit of block b is 1 (free) exactly when `1 + nb1 <= b < nbb` |
| Mkfs.FormatCounted | src/cmd_mkfs.c:58-73 | right after the format `nb_l` equals the number of free data blocks and `nb_f` the number of live inodes (zero) |
| Mkfs.FormatNoLive | src/cmd_mkfs.c:81-88 | no inode of the fresh container exists |
| Mkfs.FormatTidy | src/cmd_mkfs.c:81-88 | no inode of the fresh container is a directory, so none lists anything |
| Mkfs.CmdMkfs | src/cmd_mkfs.c:5-111 | `cmd_mkfs` produces a well-formed container with honest counters and the least sufficient bitmap; the magic is "pignoufs", every block is sealed, and exactly the inode and data regions are free |
| Fsck.CmdFsck | src/cmd_fsck.c:28-33 | a wrong magic answers 1 before any block is examined, and changes nothing |
| Fsck.FsckClean | src/cmd_fsck.c:36-173 | on a well-formed container with the right magic, the pass runs to the end and answers 0 exactly when every block from 1 on is clean (the tag of its region, and for a live inode its own block and every block it reaches allocated); it changes nothing but lock bits of inode blocks |
| Fsck.FsckFromFrame | src/cmd_fsck.c:36-173 | a pass that ends answers 0 or 1 and changes nothing but the lock bits of inode blocks |
| Fsck.CheckBlockSpec | src/cmd_fsck.c:38-139 | one block answers 0 exactly when its tag is right for its region (2 for bitmap, 3 for inode, 4 to 7 for data) and, for a live inode, the inode is sound |
| Fsck.CheckInodeSpec | src/cmd_fsck.c:58-128 | a live inode passes exactly when its own bit is allocated, its direct run is allocated and its indirect part is sound; its locks are cleared whenever its own bit is allocated |
| Fsck.CheckRunPass | src/cmd_fsck.c:72-83 | a pointer run passes exactly when every block before the first negative pointer is allocated |
| Fsck.CheckRunFault | src/cmd_fsck.c:72-83 | a run check faults exactly when a block whose bit is outside the bitmap comes before any free block |
| Fsck.CheckIndirectSpec | src/cmd_fsck.c:85-127 | a tag-6 table passes when its run is allocated; any other tag is read as a double table, which passes when each listed table is in range and its run is allocated; the tables themselves are not checked |
| Fsck.CheckDoubleSpec | src/cmd_fsck.c:107-126 | the double loop passes exactly when every listed table is in range and lists only allocated blocks |
| Fsck.UnlockedRead | src/cmd_fsck.c:69-70 | clearing the locks changes only flag bits 3 and 4, never the pointers |
| Fsck.UnlocksKeepTagsAndDigests | src/cmd_fsck.c:69-70 | lock resets keep every tag and every stored digest |
| Fsck.MkfsPassesFsck | src/cmd_fsck.c:36-173 | a freshly formatted container passes the check |
| Fsck.UnlockLeavesStaleDigest | src/cmd_fsck.c:68-70 | a sealed live inode that held a lock bit is left with a digest that no longer matches it |
| Fsck.ClearLocksSealedSpec | src/cmd_fsck.c:68-70 | the reset with a rehash leaves the inode unlocked, every other field and block alone, and the block sealed |
| Append.Spliced | src/cmd_addinput.c:105 | the chunk copied at an offset replaces exactly those bytes of the data area and keeps the bytes before and after |
| Append.Padded | src/cmd_addinput.c:133-134 | a fresh block holds the chunk followed by zeros |
| Append.NullBound | src/utilitaires.c:592-671 | a block handed out by get_last_data_block_null lies below the file's maximum, so the running total cannot wrap |
| Append.AttachBound | src/utilitaires.c:603-612 | past the maximum the single-indirect attach fails |
| Append.LastBound | src/utilitaires.c:565-589 | get_last_data_block answers only for a size whose last byte is in a block below the maximum |
| Append.ResolveSteady | src/utilitaires.c:565-589 | a write to a block apart from the file's pointers and address blocks keeps every logical block's resolution |
| Append.FillOk | src/cmd_addinput.c:89-111 | a chunk that fits the room left completes the last block and grows the total without wrapping |
| Append.FilledSpec | src/cmd_addinput.c:104-108 | the chunk lands at byte size % 4000 of the last block, the earlier bytes stay, the block is resealed with its tag, the size grows by the chunk and nothing else changes |
| Append.FillReadBack | src/cmd_addinput.c:89-111 | after the partial-block write get_last_data_block still finds the same block |
| Append.NewBlockStops | src/cmd_addinput.c:116-120 | at the block limit the fresh-block branch changes nothing and stops the loop |
| Append.NewBlockOk | src/cmd_addinput.c:113-142 | when a block is handed out the branch writes it and grows the total by the chunk |
| Append.PlacedSpec | src/cmd_addinput.c:132-138 | the fresh block holds the chunk then zeros, is sealed and tagged 5, the size grows by the chunk and nothing else changes |
| Append.NewBlockReadBack | src/cmd_addinput.c:113-142 | after the fresh-block write get_last_data_block finds exactly the block that holds the chunk |
| Append.NewBlockDirect | src/utilitaires.c:614-617 | for a direct-mode file, -1 is handed out exactly when no data block is free, otherwise a data block apart from the file |
| Append.FillTotal | src/cmd_addinput.c:107-108 | a successful partial-block step records total plus chunk length as the size |
| Append.NewBlockTotal | src/cmd_addinput.c:137-138 | a storing fresh-block step records total plus chunk length as the size |
| Append.PourFill | src/cmd_addinput.c:87-111 | one partial-block iteration of the loop, as an equation on the rest of the loop |
| Append.FreshStep | src/cmd_addinput.c:113-142 | one fresh-block iteration: a stop keeps the total, a store adds the chunk |
| Append.PourSpec | src/cmd_addinput.c:87-143 | the stdin loop consumes a prefix of the chunks (all unless stopped at a block boundary) and the total grows by exactly those bytes |
| Append.CopyStep | src/cmd_add.c:135-163 | one iteration of cmd_add's loop: stop with the total unchanged, or go on past at most 4000 bytes |
| Append.CopySpec | src/cmd_add.c:135-163 | cmd_add's loop stores a prefix of the remaining bytes, all unless stopped at a block boundary, and the total grows by that prefix |
| Append.CopyAligned | src/cmd_add.c:94-133 | the bounded first read leaves the loop at a block boundary unless nothing is left |
| Append.TargetExisting | src/cmd_input.c:20-62 | an existing file is the target; it stays unchanged except that cmd_input empties a file inside a directory; a lookup fault is a fault |
| Append.TargetTruncates | src/cmd_input.c:55-59 | cmd_input on an existing nested file frees its data: size 0, stamped, sealed |
| Append.WriteSpec | src/cmd_input.c:72-130 | loop plus closing writes: the size is the starting size plus the bytes consumed, the time is now, the inode is sealed |
| Append.AddInputAppends | src/cmd_addinput.c:20-152 | cmd_addinput appends: the target's size grows by exactly the bytes read (unless it reached its last block) |
| Append.InputWrites | src/cmd_input.c:4-136 | cmd_input writes the bytes read on top of what the target kept: nothing for a nested file, everything at the root |
| Append.FinishSpec | src/cmd_add.c:135-168 | cmd_add's loop from a block boundary and its closing writes |
| Append.LoadFill | src/cmd_add.c:94-133 | the bounded first read tops up the last block: the bytes copied fill it or were all there were |
| Append.LoadPartial | src/cmd_add.c:89-168 | the copy when the last block is partial, as LoadSpec |
| Append.LoadSpec | src/cmd_add.c:89-168 | cmd_add on a known target appends a prefix of the external bytes (all unless the file reached its last block) and stamps it when there were bytes |
| Append.AddAppends | src/cmd_add.c:5-177 | an unopenable external file gives 1 with nothing changed; otherwise the target grows by a prefix of the external file |
| Append.OverrunFaults | src/cmd_addinput.c:105 | as written, a chunk longer than the room left in a partial block copies past the data area |
| Append.OneByteThenFullChunk | src/cmd_input.c:90 | as written, a 4000-byte read into a one-byte file overruns the block |
| Append.TopUpFits | src/cmd_add.c:107-128 | the bounded top-up always fits where the last block is found |
| Append.TopUpTotal | src/cmd_add.c:107-128 | the bounded top-up adds what it copied, which is the whole chunk or completes the block |
| Append.FixedStep | src/cmd_addinput.c:87-143 | one chunk of the corrected loop: stored in full, or stopped at a block boundary part way |
| Append.PourFixedSpec | src/cmd_addinput.c:87-143 | the corrected loop counts every byte read into the size unless the file reached its last block (sizes only; chunk contents are stated per step by Append.FillReadBack and Append.NewBlockReadBack) |
| Append.WriteFixedSpec | src/cmd_input.c:72-130 | corrected loop plus closing writes: the size grows by every byte read up to the last block, the time is now and the inode is sealed (sizes only) |
| Append.AddInputFixedAppends | src/cmd_addinput.c:20-152 | corrected cmd_addinput grows the size by every byte read up to the file's last block (sizes only) |
| Append.InputFixedWrites | src/cmd_input.c:4-136 | corrected cmd_input sets the size to the bytes kept plus every byte read up to the file's last block (sizes only) |
| Reading.Stream | src/cmd_cat.c:69-97 | the data areas of a block list, 4000 bytes per block |
| Reading.FeedStream | src/cmd_cat.c:69-97 | emitting in-range blocks appends the first remaining bytes of their stream and counts them off |
| Reading.FeedAppend | src/cmd_cat.c:66-177 | emitting two block lists in turn is emitting their concatenation |
| Reading.DirectIsFeed | src/cmd_cat.c:69-97 | the direct loop emits the direct blocks in order, skipping holes, until the size is reached |
| Reading.TableIsFeed | src/cmd_cat.c:100-138 | the single-indirect loop emits the table's blocks in order |
| Reading.TablesIsFeed | src/cmd_cat.c:139-177 | the double-indirect loop emits the blocks of each second-level table in order |
| Reading.FileIsFeed | src/cmd_cat.c:65-177 | a whole read is chunked emission of the file's blocks in file order |
| Reading.ReadFileContent | src/cmd_cat.c:65-177 | a read emits exactly the first file_size bytes of the file's blocks in file order |
| Reading.TableExtends | src/cmd_cat.c:100-138 | the table loop only appends to the output and only lowers the remaining count |
| Reading.TablesExtends | src/cmd_cat.c:139-177 | the double-indirect loop only appends to the output |
| Reading.DirectIsPrefix | src/cmd_cat.c:69-100 | the direct loop's output starts the whole read, and is all of it when the size is reached or there is no indirect block |
| Reading.DirectOrderAgree | src/cmd_cp.c:150-164 | with no negative pointer but -1, the cat reader (skip negatives) and the export reader (stop at -1) visit the same direct blocks |
| Reading.TableHoles | src/cmd_cat.c:100-138 | an all-holes table contributes no block |
| Reading.TablesHoles | src/cmd_cat.c:139-177 | an all-holes outer table contributes no block and opens nothing |
| Reading.TableOrderAgree | src/cmd_cp.c:173-188 | on a packed table both readers visit the same blocks |
| Reading.TablesOrderAgree | src/cmd_cp.c:192-213 | on packed tables both readers visit the same blocks and open the same tables |
| Reading.CatAgreesWithExport | src/cmd_cp.c:137-216 | on packed pointers the export copy reads the same bytes as cat prints |
| Cat.CatOutcome | src/cmd_cat.c:5-180 | cat never writes; it answers 1 with no output exactly when no live file is denoted by the path (not at depth 0 at the root, nor listed in the parent folder) or the file denoted is not readable or is read-locked; it faults exactly on a buffer overrun or a read outside the container, and answers 0 otherwise |
| Cat.CatPrintsFile | src/cmd_cat.c:65-177 | on 0 the path denotes a readable file and the output is its first file_size bytes in file order |
| Cat.ChmodThenLookup | src/cmd_chmod.c:23-99 | after a successful chmod cat's lookup finds the block chmod changed |
| Cat.RevokeReadStopsCat | src/cmd_cat.c:59-64 | after chmod -r cat refuses the file with 1 and no output |
| Cat.GrantReadOpensCat | src/cmd_cat.c:59-64 | after chmod +r on a file not read-locked, cat answers 0 whenever it does not fault |
| PermissionBits.Set | src/cmd_chmod.c:73-84 | or-ing a bit sets it and keeps the rest |
| PermissionBits.Clear | src/cmd_chmod.c:77-88 | and-ing with the complement clears the bit and keeps the rest |
| PermissionBits.ReadLockKept | src/cmd_cat.c:59 | changing only the read bit keeps the read-lock bit |
| Chmod.ParseMode | src/cmd_chmod.c:73-95 | the four understood arguments name the read or the write bit |
| Chmod.ApplyKeepsOthers | src/cmd_chmod.c:73-88 | a permission change keeps every other flag bit |
| Chmod.ApplyTargets | src/cmd_chmod.c:73-88 | after a grant the bit is set, after a revoke it is clear |
| Chmod.ApplyIdempotent | src/cmd_chmod.c:73-88 | repeating a change changes nothing more |
| Chmod.ChmodOutcome | src/cmd_chmod.c:5-107 | chmod faults only on a buffer overrun or a lookup outside the container; it answers 1 with nothing changed exactly when no live file is denoted by the path or the argument is not one of `+r`, `-r`, `+w`, `-w`, and 0 otherwise |
| Chmod.ChmodChanges | src/cmd_chmod.c:73-99 | on 0 the path denotes a file and only that inode changed: the bit, the time, the digest |
| Chmod.ChmodKeepsShape | src/cmd_chmod.c:73-99 | chmod changes nothing any lookup depends on |
| Chmod.ChmodTwice | src/cmd_chmod.c:73-99 | a second identical chmod finds the same file and leaves the same flags |
| Grep.SearchFinds | src/cmd_grep.c:71 | the substring scan succeeds exactly when the pattern occurs at some offset |
| Grep.GrepFromTotal | src/cmd_grep.c:19-75 | the scan succeeds exactly when every visited inode and every searched direct block lies in the container, and never writes |
| Grep.GrepStep | src/cmd_grep.c:19-75 | one inode of the loop: its name is printed when it is a hit, before what the rest prints |
| Grep.GrepIsHits | src/cmd_grep.c:19-75 | the scan prints exactly the names of the hits in table order |
| Grep.GrepSpec | src/cmd_grep.c:5-79 | grep faults only when a searched file's blocks leave the container; otherwise it changes nothing and prints a name exactly when it names a live, readable, unlocked file whose direct content holds the pattern |
| Selection.SelectSound | src/cmd_find.c:21-81 | every listed name comes from a kept entry of the range |
| Selection.SelectComplete | src/cmd_find.c:21-81 | every kept entry's name is listed |
| Selection.SelectMembers | src/cmd_find.c:21-81 | a name is listed exactly when it names a kept entry |
| Selection.ScanSelects | src/cmd_find.c:21-81 | the scan completes exactly when every entry is readable, and then lists the selection |
| Selection.SelectNone | src/cmd_find.c:21-81 | nothing kept, nothing listed |
| Selection.SelectSource | src/cmd_find.c:21-81 | the entry a listed name comes from |
| Find.MatchesIffShown | src/cmd_find.c:24-81 | the filters as documented (live, readable, unlocked, type, name, age) are exactly what the loop lets through |
| Find.FindSpec | src/cmd_find.c:5-89 | find faults only on an inode outside the container or the overflowing date filter; otherwise it changes nothing and prints exactly the names of the matching entries |
| Find.FindTotal | src/cmd_find.c:21-81 | without a date filter find never faults on a well-formed container |
| Find.FindOverflowFaults | src/cmd_find.c:73 | a date filter above 24855 days overflows the int product as soon as an inode reaches it |
| Ls.Perm | src/cmd_ls.c:6-10 | the permission string has four characters |
| Ls.PermSpec | src/cmd_ls.c:6-10 | each character is a letter exactly when flag bits 1 to 4 are set, '-' otherwise |
| Ls.LsRootSpec | src/cmd_ls.c:32-51 | without a path ls lists exactly the live depth-0 entries, answers 0 and changes nothing; it faults only when the table runs past the container |
| Ls.FolderListingTotal | src/cmd_ls.c:113-136 | a folder listing faults exactly when a slot points outside the container, and prints nothing in the quiet style |
| Ls.FolderLineSound | src/cmd_ls.c:113-136 | every printed line is the line of a live child of a slot |
| Ls.FolderLineComplete | src/cmd_ls.c:113-136 | every live child's line is printed |
| Ls.FolderListingMembers | src/cmd_ls.c:113-136 | a folder lists exactly its live children |
| Ls.LsPathOutcome | src/cmd_ls.c:53-151 | a named target answers 1 with nothing printed exactly when it is missing or the gate refuses it, otherwise 0 for the folder the path names or the file it denotes; nothing changes |
| Ls.LsQuiet | src/cmd_ls.c:39-46 | an argument other than "-l" prints no entry |
| Tree.MarkFewer | src/cmd_tree.c:8-11 | marking an unvisited inode lowers the count of unvisited ones by one |
| Tree.GrowsFewer | src/cmd_tree.c:8-11 | keeping every mark never raises the unvisited count |
| Tree.PrintTree | src/cmd_tree.c:5-34 | print_tree only marks inodes, so the recursion is bounded by the unvisited count |
| Tree.PrintChildren | src/cmd_tree.c:25-33 | the slot loop only marks inodes |
| Tree.Marked | src/cmd_tree.c:8-11 | a printed block is marked visited |
| Tree.PrintOne | src/cmd_tree.c:11-18 | printing a block for the first time keeps the bookkeeping consistent |
| Tree.ExtendsTrans | src/cmd_tree.c:5-34 | extending a walk is transitive |
| Tree.TreeKeeps | src/cmd_tree.c:5-34 | print_tree keeps the bookkeeping consistent, only adds to the walk and leaves its block printed |
| Tree.ChildrenKeep | src/cmd_tree.c:25-33 | the slot loop keeps the bookkeeping consistent and only adds to the walk |
| Tree.TreeDepths | src/cmd_tree.c:13-33 | lines added for a block at depth d are at depth d or deeper, and only its own line is at d |
| Tree.ChildrenDepths | src/cmd_tree.c:25-33 | lines added by the slot loop at depth d are at depth d or deeper |
| Tree.ClosedGrows | src/cmd_tree.c:5-34 | a directory whose children were printed stays so as the walk grows |
| Tree.TreeCloses | src/cmd_tree.c:5-34 | every directory print_tree prints has all its listed children printed when it returns |
| Tree.ChildrenClose | src/cmd_tree.c:25-33 | every non-empty slot from i on is printed by the loop |
| Tree.TreeSafe | src/cmd_tree.c:5-34 | print_tree cannot fault when directories list only inodes |
| Tree.ChildrenSafe | src/cmd_tree.c:25-33 | the slot loop cannot fault when directories list only inodes |
| Tree.RootsSafe | src/cmd_tree.c:56-65 | the root loop cannot fault on such a container |
| Tree.TreeTotal | src/cmd_tree.c:37-76 | tree cannot fault on a well-formed container whose directories list only inodes |
| Tree.AnyRootExists | src/cmd_tree.c:55-67 | the found flag is set exactly when some earlier table entry is a root directory |
| Tree.RootPrinted | src/cmd_tree.c:60-64 | printing a root's tree keeps the walk's invariant |
| Tree.RootsWalk | src/cmd_tree.c:56-65 | the root loop keeps the walk's invariant |
| Tree.RootMet | src/cmd_tree.c:60-64 | printing root i records it as met and printed |
| Tree.RootsFound | src/cmd_tree.c:56-65 | after the root loop every root is printed and the flag says whether one was met |
| Tree.TreeSpec | src/cmd_tree.c:37-76 | tree changes nothing; it prints every live depth-0 directory and, below every printed directory, every block its slots list, no block twice, each line with its block's name and mark; it answers 1 exactly when the table holds no root |
| Rm.Locate | src/cmd_rm.c:29-58 | the shared lookup never writes, and what it finds lies in the container |
| Rm.CmdRmChecked | src/cmd_rm.c:4-72 | rm with the gate before the unlink answers 0 or 1, and 1 leaves the container as it was |
| Rm.LocateFile | src/cmd_rm.c:29-58 | for files the lookup faults, misses and finds together with the lookup of cat and chmod |
| Rm.RmOutcome | src/cmd_rm.c:4-72 | rm answers 0 or 1; a folder path, a missing file or a refused root file give 1 with nothing changed; 0 means a file that passed the gate |
| Rm.RmUnlinksRefused | src/cmd_rm.c:57-66 | as written, a refused nested file is still unlinked from its folder while its inode lives on, and rm answers 1 |
| Rm.RmCheckedAgrees | src/cmd_rm.c:57-66 | the corrected rm differs from the written one only on a refused nested file |
| Rm.FileBlocksFrame | src/utilitaires.c:319-427 | the blocks a teardown frees depend only on the inode and its tables |
| Rm.ReleasableFrame | src/utilitaires.c:319-427 | whether a block list can be released depends only on the layout and those blocks' bits |
| Rm.UnlinkKeepsFile | src/utilitaires.c:275-287 | unlinking a file from its folder leaves the file, its blocks and every bit as they were |
| Rm.RmDeletes | src/cmd_rm.c:4-72 | rm of a file passing the gate answers 0, frees its inode and every block, leaves other bits alone, empties its folder slot and keeps the counters honest; no path denotes it afterwards |
| Rmdir.ParentShrinks | src/utilitaires.c:15-34 | the parent part of a split is shorter than the path |
| Rmdir.Settle | src/cmd_rmdir.c:50-107 | the goto loop stops with an empty parent or a named last component |
| Rmdir.SettleTrailingSlash | src/cmd_rmdir.c:99-107 | a trailing slash does not change the directory aimed at |
| Rmdir.DeleteChildren | src/cmd_rmdir.c:5-28 | the recursive sweep keeps the container's size |
| Rmdir.DropDirectory | src/cmd_rmdir.c:61-69 | the removal answers 1 exactly when the gate refuses, then with nothing changed |
| Rmdir.LocateDirectory | src/cmd_rmdir.c:51-86 | what the directory lookup finds is a live directory |
| Rmdir.RmdirOutcome | src/cmd_rmdir.c:30-111 | rmdir answers 1 with nothing changed exactly when the directory is missing or refused, and 0 only for a live directory that passed the gate |
| Rmdir.UnlistSpec | src/cmd_rmdir.c:25 | clearing a slot changes only that slot of the directory and keeps the counters honest |
| Rmdir.RehashSpec | src/cmd_rmdir.c:27 | rehashing the directory changes no view of any block and seals it |
| Rmdir.MidwaySkip | src/cmd_rmdir.c:12-13 | an empty slot keeps the sweep's invariant |
| Rmdir.MidwayKeep | src/cmd_rmdir.c:22-23 | a refused child keeps its slot and its state |
| Rmdir.ChildReady | src/cmd_rmdir.c:11-24 | an untouched child of a flat directory still owns its blocks and is live |
| Rmdir.DeleteChild | src/cmd_rmdir.c:24 | delete_inode on a ready child frees it and its blocks and changes nothing else |
| Rmdir.FrameUnlist | src/cmd_rmdir.c:24-25 | clearing the slot after the deletion keeps the deletion's frame |
| Rmdir.BitsUnlist | src/cmd_rmdir.c:25 | clearing a slot changes no bit |
| Rmdir.DeleteStep | src/cmd_rmdir.c:24-25 | deleting a child and clearing its slot tears the file down and changes only that slot of the directory |
| Rmdir.AheadAfterDelete | src/cmd_rmdir.c:9-26 | children of later slots are still untouched after a deletion |
| Rmdir.BehindAfterDelete | src/cmd_rmdir.c:9-26 | children of earlier slots keep their fate and the current one is deleted |
| Rmdir.FlatFinish | src/cmd_rmdir.c:27 | the end of the sweep: the directory rehashed, everything else as the loop left it |
| Rmdir.SlotAhead | src/cmd_rmdir.c:9-26 | a slot not yet reached still holds its first child, unchanged |
| Rmdir.SkipEq | src/cmd_rmdir.c:12-13 | an empty slot is skipped |
| Rmdir.KeepEq | src/cmd_rmdir.c:22-23 | a refused file is kept |
| Rmdir.DropEq | src/cmd_rmdir.c:24-25 | a file passing the gate is deleted and its slot cleared |
| Rmdir.FlatSweep | src/cmd_rmdir.c:5-28 | the sweep of a directory holding only files cannot fault and deletes exactly the children passing the gate |
| Rmdir.SweptEmpty | src/cmd_rmdir.c:9-26 | after sweeping files that all pass the gate no slot is listed |
| Rmdir.MidwayStart | src/cmd_rmdir.c:9 | before the first slot nothing has happened |
| Rmdir.FreedKept | src/cmd_rmdir.c:68-69 | deleting the emptied directory keeps the swept files freed |
| Rmdir.DropFlat | src/cmd_rmdir.c:61-69 | removing a flat directory whose files all pass the gate answers 0 and frees the directory, its files and all their blocks, keeping the counters honest |
| Rmdir.RmdirFound | src/cmd_rmdir.c:51-97 | once found, rmdir is the removal, followed for a nested directory by the unlink from its parent |
| Rmdir.RmdirFlat | src/cmd_rmdir.c:30-111 | rmdir of a path naming such a directory answers 0 and frees the directory, every file it listed and their blocks |
| Mv.Resplit | src/cmd_mv.c:35-37 | a directory path is split once more to name the directory itself; a file path stays as split |
| Mv.Vacancy | src/cmd_mv.c:97-153 | the destination lookup never writes and a parent it finds lies in the container |
| Mv.Prepare | src/cmd_mv.c:15-153 | the lookups never write, and an order to go ahead names a source in the container and a free destination |
| Mv.VacancySpec | src/cmd_mv.c:97-153 | on a tidy container the destination check never faults: at the root the name is taken exactly when a root entry of that kind has it, below a parent exactly when a slot of the parent lists a child of that kind with it |
| Mv.TidyLocate | src/cmd_mv.c:35-95 | on a tidy container the source lookup never faults and finds a live entry of the asked kind, listed by its parent when nested |
| Mv.SetDepthSpec | src/cmd_mv.c:178-182 | writing the depth word changes only that word of the entry and keeps the counters |
| Mv.RenameSpec | src/cmd_mv.c:167-173 | renaming changes only the entry: its name when one is given, and its time |
| Mv.HeadRoot | src/cmd_mv.c:167-178 | the first writes of a move to the root leave the entry with its final fields but the time |
| Mv.HeadUnder | src/cmd_mv.c:180-183 | a move below a directory is fatal exactly when it is full, having written only the entry; otherwise the directory lists the entry in its first empty slot |
| Mv.HeadUnderEq | src/cmd_mv.c:182-183 | the depth written is read from the new parent after the renaming, which did not touch it |
| Mv.MovedOf | src/cmd_mv.c:167-186 | the entry after all writes is the moved entry |
| Mv.KeptTrans | src/cmd_mv.c:165-208 | keeping the layout and the counters composes |
| Mv.LinkSpec | src/utilitaires.c:256-273 | add_inode is fatal exactly when the directory is full, writing nothing; otherwise only the directory changes |
| Mv.TailSpec | src/cmd_mv.c:185-190 | the last writes stamp and seal the entry and unlink it from its old parent when it had one |
| Mv.OnlyTrans | src/cmd_mv.c:165-208 | "only these three blocks changed" composes |
| Mv.ShiftFull | src/cmd_mv.c:180-183 | a move into a full directory is fatal, having written only the entry |
| Mv.ShiftSpec | src/cmd_mv.c:165-208 | a move with room answers 0; only the entry and its two parents change; the entry, sealed, has its new name, depth and time; the new parent lists it and the old one no longer does |
| Mv.PrepareTidy | src/cmd_mv.c:15-153 | on a tidy container the lookups fault only on a parent overrunning its buffer, and find a live source of the named kind with directory parents |
| Mv.MvOutcome | src/cmd_mv.c:5-218 | corrected mv answers 1 with nothing changed exactly when a lookup refused or a directory was to become a file, and faults exactly in the lookups |
| Mv.MvAsWritten | src/cmd_mv.c:68-76 | as written mv faults as soon as the source lookup finds a root-level file, whatever the destination, and otherwise agrees with the corrected one |
| Mv.RootFileSourceSpec | src/cmd_mv.c:68-76 | the source lookup finds a root-level file exactly when the path is a file path with no parent and a depth-0 file of that name exists |
| Mv.RootPlace | src/cmd_mv.c:68-75 | the file lookup of a split path lands at the root exactly when the parent is empty and a depth-0 entry of that name exists |
| Mv.MvRootFileFaults | src/cmd_mv.c:76 | as written, mv of an existing root-level file faults whether the destination name is taken, its parent is missing or it is free |
| Mv.MvRename | src/cmd_mv.c:155-164 | a rename answers 0 and writes only the entry, which takes the new name and is found under it at its place |
| Mv.MvMove | src/cmd_mv.c:165-208 | a move with room answers 0, changes only the entry and its two parents, links it under the new parent and unlinks it from the old |
| Mv.MvFull | src/cmd_mv.c:180-183 | a move into a full directory is fatal with only the entry written |
| Mv.SplitBare | src/utilitaires.c:15-34 | a bare name splits into an empty parent and itself |
| Mv.MvRootFile | src/cmd_mv.c:76 | mv a b of a root file faults as written; corrected, it answers 0 and the file is found at the root under b |
| Cp.Dup | src/cmd_cp.c:6-17 | one duplicated block is a block of the container |
| Cp.Find | src/cmd_cp.c:383-422 | the internal lookup never writes and finds -1 or a block of the container |
| Cp.DupSpec | src/cmd_cp.c:6-17 | a duplicated block was free and is now used, sealed, with the source block's bytes, and no used block changes |
| Cp.DupTableSpec | src/cmd_cp.c:18-42 | the single-indirect loop leaves every entry of the new table standing for the same entry of the source table |
| Cp.BlankSpec | src/cmd_cp.c:56-60 | a fresh empty table was free, holds -1 everywhere and is tagged; nothing else changes |
| Cp.BranchSpec | src/cmd_cp.c:53-74 | a second-level table copy was free, is tagged 6, and each entry stands for the source table's |
| Cp.DupTablesSpec | src/cmd_cp.c:43-78 | the double-indirect loop leaves every entry of the new table standing for the same entry of the source |
| Cp.DupDirectSpec | src/cmd_cp.c:6-17 | the direct loop leaves every slot of the copy standing for the same slot of the source |
| Cp.RootSpec | src/cmd_cp.c:18-49 | the copy's indirect table was free, is cleared, tagged by kind and named in the copy; nothing else of the copy changes |
| Cp.DupIndirectSpec | src/cmd_cp.c:18-78 | the source's indirect table, if any, is copied into a fresh table of the matching kind |
| Cp.CopyInterneSpec | src/cmd_cp.c:4-79 | copy_interne into a vacant inode makes it a copy of the source in blocks that were free; only its pointers change and no used block is touched, the source included |
| Cp.MirrorReads | src/cmd_cp.c:4-79 | a copy of the same size reads, through either reader, exactly like its source |
| Cp.MirrorStays | src/cmd_cp.c:4-79 | later writes outside the source keep a copy a copy |
| Cp.NewEntrySpec | src/cmd_cp.c:84-87 | the copy's inode is a block that was free in the data region, now used, sealed, one level below the folder and initialised with the source's name; no used block changes |
| Cp.LinkSpec | src/cmd_cp.c:89-90 | linking into a full folder is fatal and writes nothing; otherwise the folder lists the copy in its first empty slot and the copy is sealed |
| Cp.ReadyFrame | src/cmd_cp.c:84-87 | the fresh inode before the copy is vacant and of the kind and size a copy gets; no used block changed |
| Cp.ReadyInode | src/cmd_cp.c:84-87 | the fresh inode before the copy, field by field |
| Cp.LinkedMirror | src/cmd_cp.c:88-90 | the copy and its link keep the fresh inode a copy of the source |
| Cp.LinkedFrame | src/cmd_cp.c:88-90 | the copy and its link touch only the fresh inode and the folder |
| Cp.CopyUnderSpec | src/cmd_cp.c:82-90 | copy_interne_main makes a sealed copy in a free block, listed in the folder's first empty slot, its blocks standing for the source's; only the folder changes among used blocks; a full folder is fatal |
| Cp.CopyUnderInode | src/cmd_cp.c:84-87 | as written the copy is a directory of size 0; corrected it is a file of the source's size; either way it has the source's name |
| Cp.FileSame | src/cmd_cp.c:4-79 | writes outside a file leave what it reads unchanged |
| Cp.CopyReadsLikeSource | src/cmd_cp.c:82-90 | corrected, the copy reads exactly as the source read before, and the source is untouched |
| Cp.CopyIsEmptyFolder | src/cmd_cp.c:87 | as written the copy is a directory that reads as nothing, whatever the source holds |
| Cp.ReinitSpec | src/cmd_cp.c:112-117 | the writes before a file child's copy change only the child and the fresh inode and leave both vacant |
| Cp.EmptyReadsNothing | src/cmd_cat.c:65-177 | an inode of size 0 reads as nothing |
| Cp.ChildWipesSource | src/cmd_cp.c:114 | as written, copying a file child of a copied folder empties the source file: no block, size 0, reads nothing |
| Cp.ChildKeepsSource | src/cmd_cp.c:110-121 | corrected, the source file is left as it was and reads the same |
| Cp.ExportSpec | src/cmd_cp.c:137-216 | an export writes the first file_size bytes of the file's blocks in export order, or nothing when the host file cannot be opened; the container is not written |
| Cp.ExportLikeCat | src/cmd_cp.c:137-216 | on packed pointers the exported bytes are what cat prints |
| Cp.CopyInKeepsOld | src/cmd_cp.c:251-283 | as written, an empty host file leaves the internal file as it was but its time: nothing is truncated |
| Cp.DeallocEmpties | src/utilitaires.c:319-427 | dealloc_data_block leaves the inode with size 0 |
| Cp.CopyInFixedSpec | src/cmd_cp.c:251-283 | corrected, the internal file's size is exactly the prefix of the host bytes that went in (all unless it reached its last block) and it is stamped |
| Cp.FoundIsFile | src/cmd_cp.c:425-431 | the file lookup never answers a directory, so the folder export branch is never taken |
| Cp.ToHost | src/cmd_cp.c:383-431 | the internal-to-host copy never writes the container, answers 1 exactly when the entry is missing, and writes only a file, under the given name |
| Cp.FromHost | src/cmd_cp.c:434-496 | the host-to-internal copy answers 1 exactly when the entry is missing, and then or for an unreadable host file changes nothing |
| Cp.Internal | src/cmd_cp.c:497-592 | the internal copy answers 1 with nothing changed exactly when an entry is missing, 0 only when both exist, and writes only for a folder destination |
| Cp.Cmd | src/cmd_cp.c:336-592 | a missing host file gives 1 with nothing changed; host to host copies nothing; a host file written is named f1 as written and f2 corrected |
| Cp.ExportToSource | src/cmd_cp.c:431 | as written, cp from an internal file to the host writes the file's bytes to a host file named like the source path |
| Cp.ExportToTarget | src/cmd_cp.c:383-431 | corrected, the same bytes go to the destination path |

## Left out

- Opening, mapping, syncing and closing the container (`open_fs`, `close_fs`, `mmap`, `msync`, src/utilitaires.c:141-176): the container is a value passed in and returned.
- The `fcntl` byte-range locks (`lock_block`, `unlock_block`, src/utilitaires.c:677-696) and every lock and unlock call in the commands: they only serialise concurrent processes, so they are erased. A failed lock call and the `b * 4096` lock offset, which overflows for blocks at or past 524288, go with them.
- The fsck worker pool and its circular queue (src/cmd_fsck.c:9-13, 144-169, src/sha1.c): they only run digest checks in threads, and `check_sha1` reports a mismatch without changing the answer. The structural pass is modelled in full.
- SHA-1 itself: a digest is an uninterpreted value of the 4000-byte image, and two images have equal digests only when they are equal. Hashes are compared, never computed.
- src/cmd_lock.c, src/cmd_df.c, src/cmd_mkdir.c, src/main.c, include/commands.h: a signal-driven sleep loop, two prints of the superblock counters, a thin wrapper over `create_directory` (which is modelled), and the command-line dispatch.
- src/commands.c and include/utilitaires.h: stale copies of the utilities that the build does not use; src/utilitaires.c is modelled instead.
- src/corrupt.c and src/mmap_sha1.c: standalone tools outside the filesystem.
- The clock: `time(NULL)` is a parameter `now`. The date text `ls -l` prints through `localtime` and `strftime` is left out; a line carries the raw modification time instead.
- `TO_LE32` and `FROM_LE32`: a little-endian host is assumed, so they are the identity.
- Host files: what `read` returns is a sequence of chunks, a host file `cp` reads is a `Host` value, and a host file it writes is a `Written` value. A `read` that fails, an `open` of the host file that fails inside export (the `writable` flag), a short `write`, and a failing `malloc` or `calloc` in grep and tree are not modelled beyond that.
- `copy_dossier_vers_interne` and `copy_dossier_vers_externe` (src/cmd_cp.c:219-249, 287-334): they walk host directories with `opendir`, `readdir` and `mkdir`.
- Cp.Cmd: requires that a host source copied into the container is not a host directory, because the host directory walk is not modelled.
- Cp.CopyDossier: the recursion over sub-folders carries a fuel bound; only the child step has a contract (Cp.ChildWipesSource, Cp.ChildKeepsSource), and no contract covers a whole folder tree.
- Cp.CopyDossierMain: as for Cp.CopyDossier, no contract covers the copy of a whole folder tree.
- Cp.CopyInterneSpec: assumes the source file's blocks are distinct used blocks of the data region, and that the destination is outside them (`Shaped`, `Outside`); on a corrupt container the C copy may alias, and that case is not specified.
- Cp.CopyInFixedSpec: states the size and time of the corrected copy-in, not its bytes.
- Cat.GrantReadOpensCat: states only that cat answers 0 when it runs to completion after `+r`, not the bytes it prints.
- Rmdir.RmdirFlat: covers directories whose children are all files; it does not state the parent's slots after the unlink.
- Rmdir.DeleteChildren: no contract states the result of the recursion into nested sub-directories.
- Append.WriteSpec: states the size reached and the chunk count, not the whole file content; each chunk's bytes are stated per step by Append.FilledSpec and Append.PlacedSpec.
- Append.AddInputAppends: states sizes only, as for Append.WriteSpec.
- Append.InputWrites: states sizes only, as for Append.WriteSpec.
- Append.LoadSpec: states sizes only, as for Append.WriteSpec.
- Append.AddAppends: states sizes only, as for Append.WriteSpec.
- Append.PourFixedSpec: states the running total the corrected loop reaches, not the bytes it leaves in the file; the bytes of each chunk are stated per step by Append.FillReadBack and Append.NewBlockReadBack, and no contract composes them over the whole loop.
- Append.WriteFixedSpec: states sizes, time and seal only, as for Append.PourFixedSpec.
- Append.AddInputFixedAppends: states sizes only, as for Append.PourFixedSpec.
- Append.InputFixedWrites: states sizes only, as for Append.PourFixedSpec.
- Mkfs.CmdMkfs: requires non-negative counts whose sum fits the addressing. `main` reads them with `strtol` and checks only that the whole argument was a number (src/main.c:56-66), so a negative `nbi` or `nba` reaches the `ceil` loop and `ftruncate` with a negative size; those runs are not modelled.
- Grep.GrepSpec: grep searches the bytes its direct loop copied. When that loop stops early, at a hole or after 900 blocks of a longer file, the rest of the `malloc` buffer is uninitialised (src/cmd_grep.c:32-71); the model treats those bytes as absent, so a match that depends on them is not modelled.
- The digest report: on a mismatch `check_sha1` writes two lines with the expected and the computed digest on standard output (include/sha1.h:40-56), and every block accessor calls it (src/utilitaires.c:36-65). The model does not produce that output; it does not change any answer.
- The self-aliased split: mv and rmdir split a nested parent in place, passing one buffer as both the path and the parent (src/cmd_mv.c:37, src/cmd_mv.c:99, src/cmd_rmdir.c:104), so `strncpy` copies a buffer onto itself (src/utilitaires.c:21), which the C standard leaves undefined. The model treats it as an ordinary copy: the parent keeps the bytes before the last slash.
- The debug lines `parent_path = …` and `dir_name = …` that rmdir prints while it splits a nested path (src/cmd_rmdir.c:102-106) are not modelled; the splitting is.
- The depth word `profondeur`: the code reads and writes it, but `struct inode` in include/structures.h:25-39 does not declare it. The model assumes it is the first four bytes of the 120-byte extension area, just after the indirect pointer (Layout.ModelInodePayload).
- A full container: `alloc_data_block` returns -1, and the commands then write through block -1. The model answers `Fault` there rather than describing the memory such a write would hit.

## Findings

| source | as written | input that shows it | evidently intended | confidence | as-written member | corrected member |
|---|---|---|---|---|---|---|
| src/utilitaires.c:470-471 | `create_file` rehashes the inode, then writes the depth | a new file in an inode slot whose depth word is non-zero, left there by `delete_inode` | write the depth, then rehash | not executed | Entries.CreateFileStaleDigest | Entries.CreateEntrySpec |
| src/cmd_fsck.c:69-70 | the lock bits are cleared and the inode is not rehashed | a live inode whose flags have bit 3 set | rehash after clearing | not executed | Fsck.UnlockLeavesStaleDigest | Fsck.ClearLocksSealedSpec |
| src/cmd_rm.c:57 | a nested file is unlinked from its parent before the permission check | `rm d/f` where f lacks the write bit: the answer is 1, yet f is gone from d | check the permissions first | not executed | Rm.RmUnlinksRefused | Rm.CmdRmChecked |
| src/cmd_addinput.c:105 | the chunk is copied at `offset` without a cap on its length | a chunk longer than the room left in the partial last block, e.g. a one-byte file, then a 4000-byte chunk | copy only what fits, and put the rest in a fresh block | not executed | Append.OverrunFaults | Append.PourFixedSpec |
| src/cmd_input.c:90 | the same uncapped copy as in `cmd_addinput` | a one-byte root file, then a 4000-byte chunk | copy only what fits | not executed | Append.OneByteThenFullChunk | Append.InputFixedWrites |
| src/cmd_mv.c:76 | a root-level file is read through `get_inode(map, val1_1)` with `val1_1` still -1 | `mv a b` for a root file a and any destination b (taken, with a missing parent, or free) | use the inode the root lookup found | not executed | Mv.MvRootFileFaults | Mv.MvOutcome |
| src/cmd_cp.c:86-87 | an internal copy is created by `init_inode(…, true)` as a directory, and the size is never copied | `cp a d/` for a non-empty file a and a folder d | create a file and copy the size | not executed | Cp.CopyIsEmptyFolder | Cp.CopyReadsLikeSource |
| src/cmd_cp.c:114 | `copy_dossier` calls `init_inode` on the source child rather than on the copy | copying a folder that holds a non-empty file | initialise the new inode | not executed | Cp.ChildWipesSource | Cp.ChildKeepsSource |
| src/cmd_cp.c:251-283 | copying a host file in does not empty the internal file first | an empty host file copied over a non-empty internal file | truncate, then write | not executed | Cp.CopyInKeepsOld | Cp.CopyInFixedSpec |
| src/cmd_cp.c:431 | an internal file exported to the host is written to a host file named `filename1` | `cp //a b`: the host file written is a | write to `filename2` | not executed | Cp.ExportToSource | Cp.ExportToTarget |
