# Monarch installer: verified model

The Monarch ISO installs by writing one prebuilt Btrfs tree to disk and
rearranging it in place: the tree becomes the subvolume `@`, is carved into an
arbitrary layout of (possibly nested) subvolumes, and the parts that belong on
FAT boot filesystems are moved out. Around that it creates partitions it must be
able to give back, registers a firmware boot entry it must be able to withdraw,
masks package hooks it must restore, and rewrites a kernel command line inside a
prebuilt boot image. The project models these parts and proves what they promise.

| file | subject |
|---|---|
| `Wrappers.dfy`, `Text.dfy`, `Utf8.dfy` | missing answers; blanks, words and digits; UTF-8 |
| `Paths.dfy` | paths as lists of segments, prefixes |
| `SubvolumeNames.dfy` | subvolume names as text and as segments |
| `SubvolumeLayout.dfy` | the layout guard: its local tests accept exactly the coherent layouts |
| `Volume.dfy` | the mutable volume and carving one subvolume |
| `Relayout.dfy` | the carving loop: the view of the installed system is kept |
| `FatTree.dfy` | copying and pruning a tree around kept mountpoints, symlink cycles included |
| `RootImage.dfy` | staging out and removing the FAT trees: every file on one side |
| `Installation.dfy` | the whole rearrangement: every file on exactly one filesystem |
| `RelayoutExamples.dfy` | images for which it does not do what it is for |
| `PartedTable.dfy` | reading partition numbers from parted's text |
| `TableDiff.dfy` | which partition number a creation may claim: `sort` and `comm` on text |
| `DiskPartitioning.dfy` | ownership of created partitions, rollback by two processes |
| `FreeSpacePlan.dfy` | where the ESP and root go in the largest free region |
| `LimineBoot.dfy` | the boot-menu parser, the selected OS group, the comparison of two menus |
| `LimineLines.dfy` | which lines are headers and which choose the default, said of the text |
| `LimineForest.dfy` | printing a menu tree and parsing it back |
| `CommandLine.dfy` | words of a command line and the systemd spelling of LUKS mappings |
| `LuksMappings.dfy` | what a cryptdevice word says and which words are added for it |
| `PrebuiltUki.dfy` | overwriting the `.cmdline` room of a PE image |
| `EfiEntries.dfy` | boot-entry registration and rollback |
| `PacmanHooks.dfy` | masking and unmasking hooks, interrupted anywhere |
| `InstallProgress.dfy` | the dashboard's progress estimate |
| `MediaGate.dfy` | waiting for the medium's verification, and the phase runner behind it |

Code that changes state is a class or method whose contract gives the new state
by a function of the old one; the theorems are lemmas about that function. Calls
into other programs are inputs of the model (an answer, an exit code, a table)
or idealised steps on the modelled state.

## What was found

- Every file ends up on the filesystem of its deepest mountpoint, and nothing else
  is written anywhere, if and only if no FAT mountpoint is entered through a
  symlink with a file within reach (`Installation.SettledIff`). The symlink check
  of `create_subvolume` does not cover FAT mountpoints: with `boot` linking to
  `usr/boot` and a FAT mount at `boot/efi`, the file `usr/boot/efi/x` is staged for
  the FAT mount and taken off Btrfs (`RelayoutExamples.FileBehindLinkedMountpoint`).
- The view of the installed system is kept if and only if no regular file of the
  image sits at a mountpoint (`Relayout.RelayoutKeepsView`,
  `RelayoutExamples.FileAtMountpoint`). The loop leaves such a file out of the view,
  and the `mkdir` before mounting, at line 307 of root_image.py, then stops the
  installation.
- The carving loop runs through if and only if every nested subvolume's directory
  is in the image and every other mountpoint is reached without symlinks. For a
  nested subvolume without such a directory `create_subvolume` asks `cp` to copy
  the fresh subvolume onto itself and the installation stops
  (`Relayout.RelayoutSucceedsIff`,
  `RelayoutExamples.NestedWithoutDirectory`).
- `with_sd_encrypt` looks for `rd.luks.name=UUID=` and `rd.luks.options=UUID=`
  anywhere in the line, so the same text inside some other word stops the
  parameter from being added
  (`CommandLine.OwnWordIff`, with the line of `CommandLine.StoppedExample`).
- A command line holding a NUL does not read back (`PrebuiltUki.ReadBackIff`,
  `PrebuiltUki.NulDoesNotReadBack`).
- Unmasking twice equals unmasking once if and only if no hook's backup is itself
  a link to `/dev/null` (`PacmanHooks.UnmaskTwiceIff`, `PacmanHooks.MaskedBackup`).
- A run whose last phase is done but whose final state cannot be written is rolled
  back like a failed one (`MediaGate.Orchestrator.InstallAll`).
- A phase with neither a known name nor a published index can fill the progress
  bar before the installation is complete (`InstallProgress.UnpublishedCanFillIff`,
  `InstallProgress.UnpublishedFills`). The orchestrator (phases.py, lines 27-43) and
  the preview tool `bin/monarch-iso-installer` always publish an index and a total;
  only some other writer of the state file leaves them out, and only for a run of a
  single phase does the dashboard ignore them.
- A boot entry that the firmware kept but that cannot be read back is never
  withdrawn (`EfiEntries.EntriesReturnIff`); a BootOrder the firmware changed on
  such a creation is not put back either (`EfiEntries.OrderReturnsIff`; both at
  `EfiEntries.KeptEntryStays`).

## Model

| member | source | states |
|---|---|---|
| SubvolumeLayout.ValidateSubvolumes | configs/airootfs/usr/share/monarch-iso/orchestrator/root_image.py:33-57 | accepts exactly the valid layouts: well-formed and pairwise different entries, `@` at `/`, and the whole set coherent; complains of a malformed entry, of a repeated name or mountpoint, or of the missing root exactly when that is the first fault, and the nesting complaints name subvolumes that really clash |
| SubvolumeLayout.CollectEntries | configs/airootfs/usr/share/monarch-iso/orchestrator/root_image.py:34-42 | the first loop goes through exactly when all entries are well formed and differ in name and mountpoint; which complaint it makes is decided by the first bad entry |
| SubvolumeLayout.AcceptedStayInside | configs/airootfs/usr/share/monarch-iso/orchestrator/root_image.py:36-39 | no segment of an accepted name or mountpoint is `..`, no name is empty and every mountpoint is absolute |
| SubvolumeLayout.CheckSubvolume | configs/airootfs/usr/share/monarch-iso/orchestrator/root_image.py:46-57 | a subvolume passes exactly when its mountpoint matches its innermost container and no third mount lies between |
| SubvolumeLayout.Innermost | configs/airootfs/usr/share/monarch-iso/orchestrator/root_image.py:46-49 | finds the container with the longest name, if there is a container |
| SubvolumeLayout.InnermostAligns | configs/airootfs/usr/share/monarch-iso/orchestrator/root_image.py:49-51 | checking only innermost containers aligns a subvolume with every container around it |
| SubvolumeLayout.InnermostUncrosses | configs/airootfs/usr/share/monarch-iso/orchestrator/root_image.py:52-57 | checking only innermost containers rules out crossings at every depth of nesting |
| SubvolumeLayout.InnermostTestIsCoherence | configs/airootfs/usr/share/monarch-iso/orchestrator/root_image.py:45-57 | the guard's local test holds for all subvolumes if and only if the layout as a whole is coherent |
| SubvolumeNames.StartsWithIsBelow | configs/airootfs/usr/share/monarch-iso/orchestrator/root_image.py:46 | for names as text, starting with another name and a slash is being strictly below it segment by segment |
| SubvolumeNames.RestOfName | configs/airootfs/usr/share/monarch-iso/orchestrator/root_image.py:50 | the text after a container's name and a slash is the text of the remaining segments |
| SubvolumeNames.LongerText | configs/airootfs/usr/share/monarch-iso/orchestrator/root_image.py:49 | of two containers of a name the longer text has more segments |
| Relayout.ValidIsAdmitted | configs/airootfs/usr/share/monarch-iso/orchestrator/root_image.py:121 | a layout the guard accepts meets everything the carving loop relies on |
| Volume.Filesystem.CrossesLink | configs/airootfs/usr/share/monarch-iso/orchestrator/root_image.py:194-199 | reports a symlink exactly when some prefix of the path is one |
| Volume.Filesystem.MakeParents | configs/airootfs/usr/share/monarch-iso/orchestrator/root_image.py:206 | makes every missing directory above a name and touches nothing else; refuses exactly when a non-directory is in the way |
| Volume.Filesystem.MoveChildren | configs/airootfs/usr/share/monarch-iso/orchestrator/root_image.py:208-214 | copying entries and then deleting the originals is a move: each node below the content is found below the destination and nowhere else |
| Volume.Filesystem.CreateSubvolume | configs/airootfs/usr/share/monarch-iso/orchestrator/root_image.py:192-216 | the state and error after the mutating steps are those of the specification for every tree, occupied destinations and symlinked paths included |
| Volume.TransferAt | configs/airootfs/usr/share/monarch-iso/orchestrator/root_image.py:208-214 | what a move leaves at every path |
| Volume.RenamedAt | configs/airootfs/usr/share/monarch-iso/orchestrator/root_image.py:202-203 | after setting a directory aside each of its paths is found below the new name and every other path is unchanged |
| Volume.CarvedInPlace | configs/airootfs/usr/share/monarch-iso/orchestrator/root_image.py:200-216 | a subvolume made where its content already is changes only the node at the top, and subvolume roots below it to directories: staging and removing the staged tree loses nothing |
| Volume.CarvedAway | configs/airootfs/usr/share/monarch-iso/orchestrator/root_image.py:206-216 | a subvolume made elsewhere takes every entry of the content under its name and changes no other path but missing parents |
| Volume.CopiedNodes | configs/airootfs/usr/share/monarch-iso/orchestrator/root_image.py:208-209 | a subvolume root that is copied arrives as a plain directory and every other node as it was |
| Volume.OccupiedStops | configs/airootfs/usr/share/monarch-iso/orchestrator/root_image.py:201-203 | a directory is not set aside over a file, a subvolume or a directory with something in it; then nothing has changed |
| Relayout.Owner | configs/airootfs/usr/share/monarch-iso/orchestrator/root_image.py:186-188 | the placed mount chosen for a path contains it and no placed mount that contains it is deeper |
| Relayout.LocationsInjective | configs/airootfs/usr/share/monarch-iso/orchestrator/root_image.py:186-189 | in a coherent layout two different paths are never stored at the same place, whichever of the nested subvolumes they are seen through |
| Relayout.ResolveInjective | configs/airootfs/usr/share/monarch-iso/orchestrator/root_image.py:186-189 | the resolver sends different paths to different places |
| Relayout.NestedStaysPut | configs/airootfs/usr/share/monarch-iso/orchestrator/root_image.py:45-57 | a nested subvolume reached in depth order has its content exactly at its destination |
| Relayout.ExistingMeansNested | configs/airootfs/usr/share/monarch-iso/orchestrator/root_image.py:200-205 | a destination exists beforehand only when the subvolume is nested |
| Relayout.NestedStep | configs/airootfs/usr/share/monarch-iso/orchestrator/root_image.py:289-290 | carving a nested subvolume keeps the loop invariant: view, accounting of every stored node, coherence |
| Relayout.SeparateStep | configs/airootfs/usr/share/monarch-iso/orchestrator/root_image.py:289-290 | carving a subvolume stored on its own keeps the loop invariant |
| Relayout.StepExactly | configs/airootfs/usr/share/monarch-iso/orchestrator/root_image.py:192-216 | a step succeeds exactly when the nested directory is in the image, or for others when no symlink leads to the mountpoint; then it keeps the invariant |
| Relayout.ByDepthInOrder | configs/airootfs/usr/share/monarch-iso/orchestrator/root_image.py:286 | the processing order keeps every entry, shallower mountpoints first and among equally deep ones shorter names first |
| Relayout.CarveAllKeeps | configs/airootfs/usr/share/monarch-iso/orchestrator/root_image.py:286-290 | from any intermediate state the remaining iterations succeed exactly when each pending subvolume fits, and then end in the invariant with the whole layout placed |
| Relayout.DeployedKeeps | configs/airootfs/usr/share/monarch-iso/orchestrator/root_image.py:284-285 | renaming the image root to `@` establishes the invariant |
| Relayout.RelayoutSucceedsIff | configs/airootfs/usr/share/monarch-iso/orchestrator/root_image.py:284-290 | the whole loop runs through if and only if every nested subvolume's directory exists in the image and no other mountpoint is reached through a symlink |
| Relayout.RelayoutKeepsView | configs/airootfs/usr/share/monarch-iso/orchestrator/root_image.py:284-290 | after the loop each path of the image shows the image's own node, if and only if no regular file of the image sits at a mountpoint |
| Relayout.RelayoutAddsOnlyMountpoints | configs/airootfs/usr/share/monarch-iso/orchestrator/root_image.py:284-290 | at paths not in the image only directories on the way to a mountpoint appear |
| Relayout.RelayoutStoresOnce | configs/airootfs/usr/share/monarch-iso/orchestrator/root_image.py:284-290 | every stored file or link is the image's node at one path and found there, no two paths share storage, every name is a subvolume |
| Relayout.RelayoutKeepsLinks | configs/airootfs/usr/share/monarch-iso/orchestrator/root_image.py:284-290 | the loop neither adds nor hides a symlink on the way to any path |
| Relayout.RelayoutInPlace | configs/airootfs/usr/share/monarch-iso/orchestrator/root_image.py:284-290 | the mutating loop over the volume ends in the tree, the placed list and the error that the specification run gives |
| FatTree.CopiesTheReachable | configs/airootfs/usr/share/monarch-iso/orchestrator/root_image.py:219-232 | with any symlink cycles a file is copied to a path if and only if a walk reaches it that avoids kept paths, enters a directory itself or through a symlink that leads to it, and never re-enters one |
| FatTree.MakesTheReachable | configs/airootfs/usr/share/monarch-iso/orchestrator/root_image.py:219-232 | with any symlink cycles a directory is made, empty or not, if and only if such a walk enters it |
| FatTree.LinkedFileIsCopied | configs/airootfs/usr/share/monarch-iso/orchestrator/root_image.py:231-232 | a symlink to a file is copied as the file it leads to |
| FatTree.LinkedDirectoryIsCopied | configs/airootfs/usr/share/monarch-iso/orchestrator/root_image.py:220-230 | a symlink to a directory is copied as a directory with what a copy of that directory has, unless it is already on the way |
| FatTree.Staging.CopyFatTree | configs/airootfs/usr/share/monarch-iso/orchestrator/root_image.py:219-232 | terminates on every directory graph, overlays the staging area with exactly the specified files and makes exactly the specified directories |
| FatTree.Staging.CopyEntry | configs/airootfs/usr/share/monarch-iso/orchestrator/root_image.py:224-232 | one entry changes only the staged files and directories through it |
| FatTree.CopiedInTree | configs/airootfs/usr/share/monarch-iso/orchestrator/root_image.py:219-232 | without symlinks the copy holds the file at a path if and only if the tree does and the path is not at or below a kept one |
| FatTree.MadeInTree | configs/airootfs/usr/share/monarch-iso/orchestrator/root_image.py:219-232 | without symlinks a directory is made if and only if the tree has it and it is not at or below a kept path |
| FatTree.UnkeptIsCopied | configs/airootfs/usr/share/monarch-iso/orchestrator/root_image.py:219-232 | with symlinks or without, every file of the tree that is not kept is copied |
| FatTree.RealIsItself | configs/airootfs/usr/share/monarch-iso/orchestrator/root_image.py:220 | a path with no symlink on it resolves to itself |
| FatTree.RealThroughLink | configs/airootfs/usr/share/monarch-iso/orchestrator/root_image.py:220 | the first symlink on a path replaces all that led to it |
| FatTree.RemoveFatTree | configs/airootfs/usr/share/monarch-iso/orchestrator/root_image.py:235-247 | the recursive removal leaves the pruned tree and nothing outside it changes |
| FatTree.RemoveEntry | configs/airootfs/usr/share/monarch-iso/orchestrator/root_image.py:236-247 | handling one entry leaves exactly what is to stay below it |
| FatTree.CopyAndRemovalAreDual | configs/airootfs/usr/share/monarch-iso/orchestrator/root_image.py:219-247 | a file is copied if and only if it is later removed, and what remains is exactly the nodes at or below a kept path and the directories leading to one |
| RootImage.Trees | configs/airootfs/usr/share/monarch-iso/orchestrator/root_image.py:291-298 | the trees taken are exactly the FAT mountpoints whose content is a directory once symlinks above it are followed, and no symlink itself |
| RootImage.LinkIsNoTree | configs/airootfs/usr/share/monarch-iso/orchestrator/root_image.py:294-295 | a FAT mountpoint whose own content is a symlink is left out |
| RootImage.StageTrees | configs/airootfs/usr/share/monarch-iso/orchestrator/root_image.py:299-300 | copying the trees one after another stages at each path the file of the last tree that has one there |
| RootImage.RemoveTrees | configs/airootfs/usr/share/monarch-iso/orchestrator/root_image.py:301-302 | removing the trees one after another leaves the volume pruned by each, up to the first whose directory an earlier removal took away |
| RootImage.SplitOffFat | configs/airootfs/usr/share/monarch-iso/orchestrator/root_image.py:291-302 | all copies are made from the volume as it was before any removal |
| RootImage.PlainTree | configs/airootfs/usr/share/monarch-iso/orchestrator/root_image.py:293-294 | without a symlink on the way to a FAT mountpoint the tree is exactly where the resolver says |
| RootImage.LandsIffOwner | configs/airootfs/usr/share/monarch-iso/orchestrator/root_image.py:291-300 | a FAT tree reached without symlinks stages a file at a path exactly when its mountpoint is the deepest one above the path and the image has the file |
| RootImage.MakesOwnDirectories | configs/airootfs/usr/share/monarch-iso/orchestrator/root_image.py:291-300 | such a tree makes exactly the image's directories that its mountpoint owns |
| RootImage.TakenIffOwner | configs/airootfs/usr/share/monarch-iso/orchestrator/root_image.py:296-302 | its removal takes a file away exactly when that mountpoint owns the path |
| RootImage.RemovalsSucceed | configs/airootfs/usr/share/monarch-iso/orchestrator/root_image.py:301-302 | when every FAT mountpoint is reached without symlinks, each tree is still there when its turn to be removed comes |
| RootImage.FileOnOneFilesystem | configs/airootfs/usr/share/monarch-iso/orchestrator/root_image.py:278-302 | unless a file strays, every regular file is staged by the one tree of its only FAT owner and gone from Btrfs, or still at its place on Btrfs and not staged, with its content |
| RootImage.NothingElseStaged | configs/airootfs/usr/share/monarch-iso/orchestrator/root_image.py:299-300 | unless a file strays, whatever is staged is the image's file at that path, owned by a FAT mount |
| RootImage.NothingElseLeft | configs/airootfs/usr/share/monarch-iso/orchestrator/root_image.py:301-302 | every file left on Btrfs is the image's at exactly that path and owned by no FAT mount, strays or not |
| RootImage.NotOwnedStaysIff | configs/airootfs/usr/share/monarch-iso/orchestrator/root_image.py:291-302 | a link, directory or file that no FAT mount owns is still found after the removals if and only if no tree reached through a symlink takes it |
| RootImage.FilesOnOwnersIff | configs/airootfs/usr/share/monarch-iso/orchestrator/root_image.py:278-302 | every file is on its owner's side and nothing else is staged if and only if no FAT mountpoint is entered through a symlink with a file within reach of the copy |
| Installation.Deepest | configs/airootfs/usr/share/monarch-iso/orchestrator/root_image.py:305-309 | the filesystem a path of the mounted target is on is that of the deepest mountpoint above it |
| Installation.Target.CopyBack | configs/airootfs/usr/share/monarch-iso/orchestrator/root_image.py:310-312 | copying the staged trees back writes each staged file once, to the filesystem mounted deepest above it |
| Installation.SettledIff | configs/airootfs/usr/share/monarch-iso/orchestrator/root_image.py:278-312 | at the end every file of the image is on exactly the filesystem of its deepest mountpoint, with its content, and nothing else was written, if and only if no file strays |
| Installation.ArrangeRoot | configs/airootfs/usr/share/monarch-iso/orchestrator/root_image.py:278-312 | carving, splitting and copying back reach that state if and only if no file strays; success implies that every subvolume fits, and follows from that when no FAT mountpoint is behind a symlink |
| RelayoutExamples.FileAtMountpoint | configs/airootfs/usr/share/monarch-iso/orchestrator/root_image.py:284-290 | an image with a file at a mountpoint, which the loop leaves out of the view |
| RelayoutExamples.NestedWithoutDirectory | configs/airootfs/usr/share/monarch-iso/orchestrator/root_image.py:200-209 | a nested subvolume without its directory, at which the loop stops |
| RelayoutExamples.FileBehindLinkedMountpoint | configs/airootfs/usr/share/monarch-iso/orchestrator/root_image.py:292-302 | a FAT mountpoint behind a symlink: a file no FAT mount owns is staged for it and taken off Btrfs |
| TableDiff.DecimalInjective | configs/airootfs/usr/share/monarch-iso/disk-partitioning.sh:142-146 | different partition numbers never print alike |
| TableDiff.ValueOfDecimal | configs/airootfs/usr/share/monarch-iso/disk-partitioning.sh:154 | reading back a printed number gives the number |
| TableDiff.SortAscending | configs/airootfs/usr/share/monarch-iso/disk-partitioning.sh:142-143 | sorting distinct lines yields them in strictly ascending byte order |
| TableDiff.CommIsDifference | configs/airootfs/usr/share/monarch-iso/disk-partitioning.sh:144-145 | on sorted listings the merge computes the two set differences |
| TableDiff.CommAscending | configs/airootfs/usr/share/monarch-iso/disk-partitioning.sh:144-145 | the merge keeps ascending order |
| TableDiff.ClaimIsNumber | configs/airootfs/usr/share/monarch-iso/disk-partitioning.sh:146-154 | whatever is claimed is the text of a number |
| TableDiff.ClaimIsExact | configs/airootfs/usr/share/monarch-iso/disk-partitioning.sh:132-154 | n is claimed if and only if the second listing is the first plus n and n is new, for numbers of any length and an empty first listing |
| PartedTable.PartitionNumbers | configs/airootfs/usr/share/monarch-iso/disk-partitioning.sh:34-44 | gives the numbers of all rows, each once, exactly when the text is headed, its type is known and every later line is blank or a row with a number of its own |
| PartedTable.NumbersAreReading | configs/airootfs/usr/share/monarch-iso/disk-partitioning.sh:41-43 | what is read that way are positive numbers, none twice, in their usual decimal form |
| PartedTable.PrintedIsListed | configs/airootfs/usr/share/monarch-iso/disk-partitioning.sh:41-43 | every table printed one row a number is read, with exactly its numbers |
| PartedTable.RowIff | configs/airootfs/usr/share/monarch-iso/disk-partitioning.sh:42 | a row's number is what stands before the first colon, a positive decimal without a leading zero, and no other line is a row |
| PartedTable.TypeIsSixth | configs/airootfs/usr/share/monarch-iso/disk-partitioning.sh:38 | the table type is the sixth field of the second line, or the whole of a line without a colon |
| DiskPartitioning.Disk.CreatePartition | configs/airootfs/usr/share/monarch-iso/disk-partitioning.sh:124-165 | the textual algorithm refines the set-level one: same table, claims, reported number and result in every case of failing reads, sizes and exits |
| DiskPartitioning.Disk.RollbackCreatedParts | configs/airootfs/usr/share/monarch-iso/disk-partitioning.sh:171-179 | every claimed slot is removed once, highest first, unless refused, and the claims are forgotten |
| DiskPartitioning.Disk.RunPartitionExecute | configs/airootfs/root/configurator:682-750 | the sequence of creations and steps ends in the state of the specification, rolled back at whichever step failed |
| DiskPartitioning.Disk.CleanupProtectedState | configs/airootfs/usr/share/monarch-iso/orchestrator/phases_impl.py:1991-2025 | the handed-over numbers are removed, each once, only when the metadata is valid, and are then forgotten |
| DiskPartitioning.ClaimedSlot | configs/airootfs/usr/share/monarch-iso/disk-partitioning.sh:132-154 | comparing the listings as text finds exactly the slot by which the two tables differ |
| DiskPartitioning.CreateProgress | configs/airootfs/usr/share/monarch-iso/disk-partitioning.sh:124-165 | a creation never changes earlier entries, claims only a slot that was free, and on success the reported number is the one slot added |
| DiskPartitioning.ClaimedIff | configs/airootfs/usr/share/monarch-iso/disk-partitioning.sh:132-154 | a number is claimed if and only if both readings and the creation went well and it is all that is new, whatever a later test finds |
| DiskPartitioning.CreatedIff | configs/airootfs/usr/share/monarch-iso/disk-partitioning.sh:128-165 | a creation succeeds if and only if its slot was claimed and the reported size is within 1 MiB of the wanted one; only then is a number reported and the slot named |
| DiskPartitioning.BothCreated | configs/airootfs/root/configurator:682-688 | after two successful creations the claims are the two reported numbers, and with the initial entries they are the whole table |
| DiskPartitioning.ExecuteHandsOver | configs/airootfs/root/configurator:682-750 | what is handed over is exactly what was claimed; otherwise everything has been rolled back |
| DiskPartitioning.HandedOverIff | configs/airootfs/root/configurator:682-750 | partitions are handed over if and only if both were created and every later step went well |
| DiskPartitioning.HandedOverAre | configs/airootfs/root/configurator:682-688 | the first handed over is the ESP and the second the root, each within 1 MiB of its planned size and under its own name when the naming went through |
| DiskPartitioning.DescendingOnce | configs/airootfs/usr/share/monarch-iso/disk-partitioning.sh:174 | the removal order has the same numbers, each once, strictly falling |
| DiskPartitioning.RollBackSettles | configs/airootfs/root/configurator:439-450 | a rollback removes exactly the claimed slots not refused and leaves the initial entries alone |
| DiskPartitioning.CleanupSettles | configs/airootfs/usr/share/monarch-iso/orchestrator/phases_impl.py:2010-2025 | the later cleanup removes exactly the handed-over slots not refused and leaves the initial entries alone |
| DiskPartitioning.RunsOnlyTouchTheirOwn | configs/airootfs/root/configurator:682-750 | over every run, with any slot choice and any failure, initial entries are unchanged, only slots absent at the start are claimed, and only claimed slots removed, each at most once |
| DiskPartitioning.TableReturnsIff | configs/airootfs/usr/share/monarch-iso/orchestrator/phases_impl.py:1991-2025 | on a disk under `/dev/`, a run that does not end installed returns the initial table if and only if every slot made was claimed and no removal of a claimed slot was refused |
| DiskPartitioning.UnclaimedIffLost | configs/airootfs/usr/share/monarch-iso/disk-partitioning.sh:134-154 | a creation leaves an unclaimed slot if and only if parted made one and then failed or could not be read |
| DiskPartitioning.TableReturnsIffSeen | configs/airootfs/usr/share/monarch-iso/orchestrator/phases_impl.py:1991-2025 | so the initial table comes back if and only if parted made nothing the run could not see and every removal was honoured |
| DiskPartitioning.CleanupIff | configs/airootfs/usr/share/monarch-iso/orchestrator/phases_impl.py:2010-2069 | the later cleanup touches the disk if and only if the metadata names a device under `/dev/` and positive slots, and then issues each of them once |
| DiskPartitioning.InstalledKeepsBoth | configs/airootfs/root/configurator:682-750 | an installed run adds two different slots beside everything that was there and removes nothing |
| DiskPartitioning.RollbackTwice | configs/airootfs/usr/share/monarch-iso/disk-partitioning.sh:173-178 | a second rollback removes nothing |
| FreeSpacePlan.LargestFree | configs/airootfs/root/configurator:538-550 | picks the first of the largest free regions, or nothing when none has any space |
| FreeSpacePlan.RunPartitionDecide | configs/airootfs/root/configurator:535-581 | the plan is made in a largest free region, or in the whole of a blank disk |
| FreeSpacePlan.PlanFits | configs/airootfs/root/configurator:561-581 | an accepted plan is MiB-aligned, its partitions with their last whole sectors stay inside the region and apart, the ESP spans 2 GiB, the total is at least 32 GiB, under 2 MiB are wasted |
| FreeSpacePlan.PlanMissesPartitions | configs/airootfs/root/configurator:561-581 | no byte of the two partitions belongs to the other or to one that was there |
| FreeSpacePlan.PlanPassesSizeCheck | configs/airootfs/usr/share/monarch-iso/disk-partitioning.sh:156-160 | the sizes parted reports for the inclusive ranges pass the tolerance check |
| FreeSpacePlan.EnoughSpaceIsAccepted | configs/airootfs/root/configurator:571-581 | a region of 32 GiB and 2 MiB is never refused |
| FreeSpacePlan.BlankPlanFits | configs/airootfs/root/configurator:525-581 | on a blank disk the plan starts at 1 MiB and leaves between 1 and 2 MiB at the far end |
| FreeSpacePlan.BlankAcceptedIff | configs/airootfs/root/configurator:525-581 | a blank disk is accepted if and only if it has 32 GiB and 2 MiB or more |
| LimineBoot.ParseMenu | test/lib/limine_boot.py:13-36 | the loop with its stack computes the state of the specification for every text, or refuses with it |
| LimineBoot.RunKeepsParsed | test/lib/limine_boot.py:17-36 | every accepted line keeps the parser invariant: stack, ancestors and visible list describe the entries read so far |
| LimineBoot.AncestorsAreChain | test/lib/limine_boot.py:23-29 | placed entries have as ancestors the chain of nearest preceding shallower entries |
| LimineBoot.MenuIsWellNested | test/lib/limine_boot.py:17-32 | in every accepted menu ancestors are that chain, and the visible list has, in order, exactly the entries all of whose ancestors are open |
| LimineBoot.RefusedIffSkipsLevel | test/lib/limine_boot.py:20-22 | a text is refused if and only if some header is more than one level deeper than the one before it |
| LimineBoot.GroupIsContiguous | test/lib/limine_boot.py:80-84 | the selected OS group is one unbroken run of indexes starting at a top-level entry |
| LimineBoot.GroupIsUntilNextTop | test/lib/limine_boot.py:78-84 | the group is the last top-level entry at or before the selected one and all that follows up to the next top-level entry |
| LimineBoot.DefaultIsNthVisible | test/lib/limine_boot.py:38-46 | for a default of value v the selected entry is the shown one with exactly v - 1 shown entries before it, the first for 0; there is none if and only if the default is no number or past the last shown |
| LimineBoot.ForeignEntries | test/lib/limine_boot.py:81-85 | the loop lists the entries outside the group in order |
| LimineBoot.TakeSnapshot | test/lib/limine_boot.py:11-89 | the snapshot is that of the specification, or none |
| LimineBoot.SnapshotParts | test/lib/limine_boot.py:78-89 | a snapshot names a shown entry, lists all titles, flags and ancestors, and holds the entries outside its group and the files its own lines refer to |
| LimineBoot.ForeignEqualIff | test/lib/limine_boot.py:81-85 | for menus with the same titles the listings outside a group are equal if and only if every entry outside it is equal line by line |
| LimineBoot.CompareAcceptsIff | test/lib/limine_boot.py:78-99 | two menus are accepted if and only if the same entry is selected, titles, flags and ancestors agree everywhere, the boot files are the same paths, and every entry outside the selected group is identical to the last line |
| LimineBoot.AcceptedGroupsAgree | test/lib/limine_boot.py:78-99 | when accepted, the group left free to change is the same index range in both menus |
| LimineLines.HeaderIff | test/lib/limine_boot.py:18 | a line is a header if and only if it is blanks, slashes and something that does not start with a slash |
| LimineLines.HeaderMeans | test/lib/limine_boot.py:18-25 | its depth is the number of slashes; a plus after them opens it unless nothing or a slash follows the plus |
| LimineLines.StripBlanks | test/lib/limine_boot.py:25 | stripping a title takes off the blanks at both ends and nothing else |
| LimineLines.DefaultIff | test/lib/limine_boot.py:35-36 | a line chooses w if and only if it is the key and the one word w with any blanks around and between |
| LimineLines.DefaultOfMenu | test/lib/limine_boot.py:16-36 | the default of a menu is what the last such line before its first header says, and 1 when there is none |
| LimineForest.HeaderRoundTrip | test/lib/limine_boot.py:18-25 | a printed header parses to its depth, flag and title if and only if the title is stripped, starts with no slash and does not itself look opened |
| LimineForest.PrintedLevelParses | test/lib/limine_boot.py:17-34 | parsing a printed level below any open path adds exactly its entries, with the right ancestors |
| LimineForest.FlattenRebuilds | test/lib/limine_boot.py:20-29 | the depths of consecutive entries determine the tree: reading it back from the flat list gives the same forest |
| LimineForest.PrintedMenuParsesBack | test/lib/limine_boot.py:17-36 | every printable menu tree, printed and parsed, gives the tree back |
| CommandLine.SplitJoin | configs/airootfs/usr/share/monarch-iso/orchestrator/prebuilt_uki.py:73 | words joined by single blanks split into the same words |
| CommandLine.ContainsInWord | configs/airootfs/usr/share/monarch-iso/orchestrator/prebuilt_uki.py:69-71 | a text without blanks is in the line if and only if it is in one of its words |
| CommandLine.WithSdEncrypt | configs/airootfs/usr/share/monarch-iso/orchestrator/prebuilt_uki.py:58-73 | the loop computes the specified line, or refuses |
| CommandLine.OriginalWordsStay | configs/airootfs/usr/share/monarch-iso/orchestrator/prebuilt_uki.py:61-73 | the original words are a prefix of the result's words and the added parameters are the rest, one word each |
| CommandLine.EveryMappingIsMatched | configs/airootfs/usr/share/monarch-iso/orchestrator/prebuilt_uki.py:61-72 | after a success the text of every mapping's name parameter is in the line, repeated identifiers included, and of its options parameter when it has options; as a word of its own only as CommandLine.OwnWordIff says |
| CommandLine.SdEncryptedTwice | configs/airootfs/usr/share/monarch-iso/orchestrator/prebuilt_uki.py:58-73 | applying it twice equals applying it once |
| CommandLine.OwnWordIff | configs/airootfs/usr/share/monarch-iso/orchestrator/prebuilt_uki.py:69-72 | a mapping ends up with a name word of its own, and with an options word when it has options, if and only if the line had one or a mapping whose parameter starts like it had no such text in the line |
| CommandLine.StoppedExample | configs/airootfs/usr/share/monarch-iso/orchestrator/prebuilt_uki.py:69-70 | a concrete line with a mapping that comes back unchanged although no word of it sets the name: the text is inside another word |
| LuksMappings.MappingMeans | configs/airootfs/usr/share/monarch-iso/orchestrator/prebuilt_uki.py:62-68 | which device, name and options a cryptdevice word gives, with and without options, and that one without a name is refused |
| LuksMappings.UuidMeans | configs/airootfs/usr/share/monarch-iso/orchestrator/prebuilt_uki.py:41-55 | which identifier each way to name a device gives, and that no other way is accepted |
| LuksMappings.OtherOptionsStay | configs/airootfs/usr/share/monarch-iso/orchestrator/prebuilt_uki.py:72 | options without allow-discards are added as they are |
| LuksMappings.DiscardTakesItsPlace | configs/airootfs/usr/share/monarch-iso/orchestrator/prebuilt_uki.py:72 | discard takes the place of the first allow-discards, and what follows is treated alike |
| LuksMappings.ExtrasFailIff | configs/airootfs/usr/share/monarch-iso/orchestrator/prebuilt_uki.py:61-68 | the call fails if and only if some cryptdevice word cannot be read |
| LuksMappings.AddedIff | configs/airootfs/usr/share/monarch-iso/orchestrator/prebuilt_uki.py:69-73 | the words behind the original ones are exactly the name and options parameters of mappings whose key is not in the text |
| PrebuiltUki.UkiFile.EmbedCmdline | configs/airootfs/usr/share/monarch-iso/orchestrator/prebuilt_uki.py:76-104 | succeeds exactly when the right room exists, and leaves exactly the specified bytes |
| PrebuiltUki.SectionIsFirst | configs/airootfs/usr/share/monarch-iso/orchestrator/prebuilt_uki.py:87-92 | the section used is the first in the table with exactly the name `.cmdline`, with its header inside the bytes read |
| PrebuiltUki.TargetIff | configs/airootfs/usr/share/monarch-iso/orchestrator/prebuilt_uki.py:78-100 | the room written to is the one that the first header named `.cmdline` behind the optional header of the PE image gives, with the smaller of the two sizes, if and only if it is at most 2048 bytes, lies in the file, is larger than the data and holds the marker |
| PrebuiltUki.OnlyTheRoomChanges | configs/airootfs/usr/share/monarch-iso/orchestrator/prebuilt_uki.py:93-104 | length and every byte outside the room are as before, the room ends in a NUL, and without a room nothing changes |
| PrebuiltUki.RoomContents | configs/airootfs/usr/share/monarch-iso/orchestrator/prebuilt_uki.py:101-102 | the room holds the data and then blanks up to its last byte |
| PrebuiltUki.ReadBackIff | configs/airootfs/usr/share/monarch-iso/orchestrator/prebuilt_uki.py:77-103 | reading the field up to its first NUL gives exactly the words of the requested line if and only if the line holds no NUL |
| PrebuiltUki.NulDoesNotReadBack | configs/airootfs/usr/share/monarch-iso/orchestrator/prebuilt_uki.py:77-103 | an image and a command line with a NUL for which the field read back is not the line |
| Utf8.DecodeEncode | configs/airootfs/usr/share/monarch-iso/orchestrator/prebuilt_uki.py:77 | decoding the encoded command line gives it back |
| Utf8.NulEncoded | configs/airootfs/usr/share/monarch-iso/orchestrator/prebuilt_uki.py:77 | the encoded line has a NUL byte if and only if the line has a NUL |
| Utf8.AsciiEncoded | configs/airootfs/usr/share/monarch-iso/orchestrator/prebuilt_uki.py:77 | ASCII text is encoded as itself |
| Utf8.LongerForms | configs/airootfs/usr/share/monarch-iso/orchestrator/prebuilt_uki.py:77 | the two, three and four byte forms of three known characters |
| EfiEntries.Context.Register | configs/airootfs/usr/share/monarch-iso/orchestrator/phases_impl.py:381-440 | firmware and remembered rollback after the call are those of the specification for every firmware behaviour |
| EfiEntries.Context.RollBack | configs/airootfs/usr/share/monarch-iso/orchestrator/phases_impl.py:2028-2057 | undoes with what was remembered, forgets it, and deletes at most the remembered number |
| EfiEntries.FirstNewFound | configs/airootfs/usr/share/monarch-iso/orchestrator/phases_impl.py:412-421 | the entry claimed is listed, was not there before and is ours; when none is claimed there is none such |
| EfiEntries.OnlyOurEntryGoes | configs/airootfs/usr/share/monarch-iso/orchestrator/phases_impl.py:381-440 | for every firmware behaviour at most one number is deleted, never one present before, and every earlier entry keeps its text |
| EfiEntries.KeptInOrder | configs/airootfs/usr/share/monarch-iso/orchestrator/phases_impl.py:429-434 | the numbers kept are exactly the existing ones of the previous order but the new one, and the whole order when nothing was stale |
| EfiEntries.KeptPlaces | configs/airootfs/usr/share/monarch-iso/orchestrator/phases_impl.py:429-434 | the kept numbers are all the wanted ones of the previous order in their old order: their places are strictly increasing and none is missed |
| EfiEntries.RegisteredOrder | configs/airootfs/usr/share/monarch-iso/orchestrator/phases_impl.py:421-436 | while registered the order is our new entry followed by the kept previous ones |
| EfiEntries.EntriesReturnIff | configs/airootfs/usr/share/monarch-iso/orchestrator/phases_impl.py:2028-2044 | the entries return if and only if nothing was created, or the entry could be read back and recognised and the firmware honoured its deletion |
| EfiEntries.OrderReturnsIff | configs/airootfs/usr/share/monarch-iso/orchestrator/phases_impl.py:2045-2057 | on firmware that honours the order it is given BootOrder returns if and only if an entry was claimed, even when its deletion is refused, or the creation had left the order alone; an order that was empty needs the deletion |
| EfiEntries.OddNumberIgnored | configs/airootfs/usr/share/monarch-iso/orchestrator/phases_impl.py:2033-2038 | a remembered entry that is no number of four hexadecimal digits leaves the firmware untouched |
| EfiEntries.OddOrderIgnored | configs/airootfs/usr/share/monarch-iso/orchestrator/phases_impl.py:2045-2052 | a remembered order that is empty or holds an odd number is not set again |
| EfiEntries.KeptEntryStays | configs/airootfs/usr/share/monarch-iso/orchestrator/phases_impl.py:407-411 | firmware that keeps an entry and cannot be read again: entry and changed order are still there after the rollback |
| PacmanHooks.Hooks.Mask | configs/airootfs/usr/share/monarch-iso/orchestrator/phases_impl.py:666-674 | the loop of unlink, rename and link gives the masked directory of the specification |
| PacmanHooks.Hooks.Unmask | configs/airootfs/usr/share/monarch-iso/orchestrator/phases_impl.py:683-690 | the loop gives the unmasked directory of the specification |
| PacmanHooks.MaskOneInSteps | configs/airootfs/usr/share/monarch-iso/orchestrator/phases_impl.py:666-674 | a whole masking of a hook is at most three single changes, after which nothing more happens |
| PacmanHooks.UnmaskOneInSteps | configs/airootfs/usr/share/monarch-iso/orchestrator/phases_impl.py:683-690 | a whole unmasking of a hook is at most two single changes |
| PacmanHooks.MaskingMasks | configs/airootfs/usr/share/monarch-iso/orchestrator/phases_impl.py:666-674 | after a masking every named hook is a mask, and what was there and was none is in its backup |
| PacmanHooks.UnmaskingRestores | configs/airootfs/usr/share/monarch-iso/orchestrator/phases_impl.py:683-690 | after an unmasking no named hook has a backup: it is back in place, or without one the mask is gone and anything else untouched |
| PacmanHooks.InterruptedWorkIsUndone | configs/airootfs/usr/share/monarch-iso/orchestrator/phases_impl.py:647-692 | from a clean directory any maskings and unmaskings, cut off and repeated anywhere, then one complete unmasking, restore the directory exactly |
| PacmanHooks.RoundTripIff | configs/airootfs/usr/share/monarch-iso/orchestrator/phases_impl.py:647-692 | masking then unmasking restores a directory if and only if no hook was masked and none had a backup |
| PacmanHooks.MaskTwice | configs/airootfs/usr/share/monarch-iso/orchestrator/phases_impl.py:647-674 | masking is idempotent on every directory |
| PacmanHooks.UnmaskTwiceIff | configs/airootfs/usr/share/monarch-iso/orchestrator/phases_impl.py:1983-1988 | unmasking is idempotent exactly on the directories where no backup is itself a mask |
| PacmanHooks.MaskedBackup | configs/airootfs/usr/share/monarch-iso/orchestrator/phases_impl.py:683-690 | a directory on which a second unmasking changes something |
| InstallProgress.Dashboard.InstallProgress | configs/airootfs/usr/local/bin/monarch-install-dashboard:294-402 | a frame's assignments give the counters of the specification, and the shown progress is the position |
| InstallProgress.PackageCounters | configs/airootfs/usr/local/bin/monarch-install-dashboard:376-393 | over the frames of the package phase the baseline is the first count, the number seen the largest above it, the last growth the first frame to reach it, and the bonus is between 0 and 100 and covers the present wait |
| InstallProgress.PackageCountersGrow | configs/airootfs/usr/local/bin/monarch-install-dashboard:384-392 | within the phase neither the number seen nor the bonus falls |
| InstallProgress.BonusIsLongestWait | configs/airootfs/usr/local/bin/monarch-install-dashboard:389-392 | the bonus is the longest wait for a new package within the phase so far, of which at most 100 seconds count |
| InstallProgress.PackagePosition | configs/airootfs/usr/local/bin/monarch-install-dashboard:374-400 | a frame of the phase puts the bar at 65 and the whole share of 594 by packages, plus the bonus, or by time if that is more, never back and short of 700 |
| InstallProgress.BandsTile | configs/airootfs/usr/local/bin/monarch-install-dashboard:336-349 | the bands of the named phases follow one another from 10 to 1000, and only that of the package phase counts packages |
| InstallProgress.FloorMonotone | configs/airootfs/usr/local/bin/monarch-install-dashboard:374 | the time floor never decreases with time |
| InstallProgress.FloorApproaches | configs/airootfs/usr/local/bin/monarch-install-dashboard:374 | the time floor stays at or below hi-2 and is there if and only if t has reached (span-2)*tau |
| InstallProgress.FramesNeverBack | configs/airootfs/usr/local/bin/monarch-install-dashboard:397-400 | over every sequence of frames, clocks and package counts the position never decreases |
| InstallProgress.FullOnlyWhenComplete | configs/airootfs/usr/local/bin/monarch-install-dashboard:314-402 | with published phases the bar is full if and only if some frame reported completion |
| InstallProgress.IndexedBandsTile | configs/airootfs/usr/local/bin/monarch-install-dashboard:354-356 | the bands of phases known by index only follow one another from 10 to 1000 |
| InstallProgress.UnpublishedCanFillIff | configs/airootfs/usr/local/bin/monarch-install-dashboard:357-361 | a phase without name or index can fill the bar on its own if and only if it began within 28 of the end |
| InstallProgress.UnpublishedFills | configs/airootfs/usr/local/bin/monarch-install-dashboard:357-361 | frames without a completion after which the bar is full |
| MediaGate.WaitForMirror | configs/airootfs/usr/local/bin/monarch-wait-mirror-verify:13-109 | halts within the limit counted from entry, with the verdict of the specification, for every sequence of answers and every clock that advances at each sleep |
| MediaGate.PollVerifiedIff | configs/airootfs/usr/local/bin/monarch-wait-mirror-verify:45-107 | from any poll the wait succeeds if and only if a later answer in time is a success after only answers that keep it going |
| MediaGate.DecidesIff | configs/airootfs/usr/local/bin/monarch-wait-mirror-verify:46-101 | an answer keeps the wait going if and only if the unit is loaded and activating or deactivating, or loaded and inactive with fewer than ten such answers so far, or there was no answer fewer than five times in a row |
| MediaGate.WaitedFor | configs/airootfs/usr/local/bin/monarch-wait-mirror-verify:13-109 | the wait ends with what the first other answer says, with a time-out if the time is up before, or at once on a medium that is not prepared |
| MediaGate.VerifiedIff | configs/airootfs/usr/local/bin/monarch-wait-mirror-verify:13-109 | the script succeeds if and only if the medium is prepared with a limit of 600 or more and the unit is seen loaded, active, exited, success, 0 within 30 seconds of that limit, after only answers that keep the wait going |
| MediaGate.Orchestrator.Run | configs/airootfs/usr/share/monarch-iso/orchestrator/phases.py:39-78 | the loop and what follows it record and stop as the specification does, whatever breaks off the run and where |
| MediaGate.Orchestrator.InstallAll | configs/airootfs/usr/share/monarch-iso/orchestrator/main.py:97-119 | exit code 0 if and only if all phases were done and the final files written; storage is rolled back if and only if not; target work is undone if and only if the medium was noted as verified |
| MediaGate.HistoryShape | configs/airootfs/usr/share/monarch-iso/orchestrator/phases.py:39-78 | the history is the phases in order, all "ok" but possibly a last "failed"; a phase is entered if and only if every earlier one was done and its state could be written; the run completes if and only if all phases were done and the final files written |
| MediaGate.FirstFailureDecides | configs/airootfs/usr/share/monarch-iso/orchestrator/phases.py:39-65 | the first phase that is not done decides how the run ends: halted, interrupted from the keyboard, or by another exception |
| MediaGate.NothingWithoutVerification | configs/airootfs/usr/share/monarch-iso/orchestrator/main.py:20-26 | no later phase is entered, nothing recorded as done and no target work flagged for undoing unless systemd reported the medium verified in time; once a later phase was entered it is flagged |

## Left out

- SubvolumeLayout.ValidateSubvolumes: takes names and mountpoints as lists of non-empty segments without `.`; SubvolumeNames shows that for such names the tests on text are the tests on segments. Repeated slashes and `.` segments in the raw strings, which `Path` normalises for mountpoints only, are not modelled.
- Relayout.RelayoutKeepsView: needs a layout the guard accepts and that no segment of the image or of a subvolume name ends in the staging suffix `.monarch-image`; modes, times and ownership are not modelled.
- Volume.Filesystem.CreateSubvolume: `cp`, `btrfs` and `rmtree` always complete; a failure half way through one of them is not modelled. A nested Btrfs subvolume inside copied content becomes a plain directory.
- RootImage.FileOnOneFilesystem: needs the conditions `Splittable` names (mountpoints are directories or absent and each is used once, no symlink in the image lies inside a FAT tree); the exact condition for everything else is in RootImage.FilesOnOwnersIff.
- RootImage.RemoveTrees: a symlink that leads nowhere any more after an earlier removal is an input (`cut`), so for mountpoints behind symlinks it is left open when the removals stop.
- Installation.SettledIff: is about regular files; the directories a tree makes are in RootImage.MakesOwnDirectories, and links and directories that stay on Btrfs in RootImage.NotOwnedStaysIff.
- FatTree.Staging.CopyFatTree: symlinks are resolved by a given map of targets inside the volume; a link that leads out of it (an absolute target is looked up in the live system) counts as leading nowhere.
- The rest of `install` in root_image.py: image decompression and writing, size and UUID checks, `assert_empty`, `target_layout`, and the mount calls themselves with the directories made for them.
- DiskPartitioning.RunsOnlyTouchTheirOwn: assumes parted is the only writer of the table while a run is under way, filling one free slot or none per creation; that assumption is not made for TableDiff.ClaimIsExact.
- DiskPartitioning.TableReturnsIff: the table is a map from slot numbers to size and name; backup headers, partition types and flags, and the choice of whether to write a new label (`partition_table_type`) are left out, as are LUKS and filesystem creation, which appear only as steps that succeed or fail.
- DiskPartitioning.Disk.CreatePartition: whether a reading of the table succeeds is an input of the run; PartedTable says of which texts it does.
- DiskPartitioning.Disk.CleanupProtectedState: unmounting and closing the mapper before the removals are left out; the numbers arrive as the configurator wrote them.
- FreeSpacePlan.RunPartitionDecide: the table's text is taken as parsed rows; the confirmation screens are left out.
- LimineBoot.TakeSnapshot: the checks of the selected entry's fields, paths and file digests are one given function from its body lines to the verified files.
- LimineBoot.DefaultIsNthVisible: the decimal digits of other scripts, which Python also accepts as a number, are not modelled.
- CommandLine.WithSdEncrypt: `blkid` is a function from a device to the printed identifier, assumed free of blanks where words are counted.
- PrebuiltUki.UkiFile.EmbedCmdline: a command line with unpaired surrogates, which cannot be encoded, is not modelled.
- `fingerprint` and `deploy` of prebuilt_uki.py.
- EfiEntries.Context.Register: whether an entry is this ESP's Limine entry is a given test on its text; the upper-casing of numbers and the text format of `efibootmgr` are left out, and so is a first reading that fails, after which nothing is created.
- PacmanHooks.InterruptedWorkIsUndone: an error swallowed while unmasking counts as an interruption there; a hook that is a directory is an ordinary node.
- InstallProgress.Dashboard.InstallProgress: reading the state file, counting package directories and the monotonic clock are inputs; the tips and the drawing of the bar are left out.
- MediaGate.WaitForMirror: the checks of the checksum list and image path are flags found before polling; the messages and the periodic report are left out.
- MediaGate.NothingWithoutVerification: every phase but the first is an arbitrary outcome; the timing fields and the contents of the state file are left out, and so is an interrupt within the cleanups.
- archinstall's own steps, the configuration screens, ISO building and release scripts, secrets and factory-snapshot scrubbing: no property over all inputs of their own.
