# VMForge, verified

A Dafny model of the parts of VMForge whose correctness is hard to see from the
code: the offline snapshot tree over qcow2 layers, whole-VM bundles, the live
lifecycle of the HVF backend, and four small cores with real arithmetic or
loops. `dafny verify dfyconfig.toml` checks everything.

**The snapshot tree** (`Forest`, `Layout`, `Names`, `Layers`, `Store`, `Guards`,
`Clones`, `DiskStore`, `Splitting`, `Tree`, `TreeOrder`, `TreeText`,
`TreePrinter`). A home directory is a map from paths to layers: allocated
sectors, virtual size, backing link, read-only bit. `Layers.View` is what a
layer shows through its backing chain. Every operation of the disk store, with
each qemu-img call allowed to fail, is a transition on files (`Store.Step`); the
class `DiskStore` performs it the way the source does, file by file, and is
proved equal to it. `Guards.Answers` says when each succeeds and which error it
gives otherwise, from the files alone. The main theorem, `Store.RunRefines`,
says that any run of operations, guest writes and tool failures is a run of a
flat store that maps names to contents and knows nothing of overlays. It assumes
that disks are cloned from base images; `Clones.RunExactly` drops that rule and
says exactly which operations then disturb a clone.

**Bundles** (`Bundle`, `RoundTrip`, `RestoreLaws`, `Generations`,
`BundleManager`). `RoundTrip.BackupRestore` says that a backup, restored under
any name in any compatible home, gives back the same disks, snapshots, parents,
current marker and contents. `Bundles.RestoreSafety` and
`RestoreLaws.RestoredMeans` say what restore never does, and what a normal
return means, for every bundle, however it was made.

**The live side** (`Lifecycle`, `Hvf`, `HvfLaws`, `Capture`, `LiveSnapshot`,
`SnapshotDag`). Runs of backend calls with engine failures anywhere; the capture
protocol with a guest that runs between any two commands while its vCPUs do; the
two joined; the snapshot DAG.

**Small cores** (`Tar`, `Civil`, `GuestAgent`, `Conversation`, `Redact`,
`RedactLaws`). The ustar writer against a reader that follows "ustar Interchange
Format" in the POSIX pax utility; days to dates against a calendar counted day
by day; the line protocol under every way of cutting the stream, and whose reply
a client gets; the single-line redaction rules.

Tool runs, engine calls, clock readings, received pieces and guest steps are
parameters, so every theorem holds for all of their outcomes. `seq`, `map` and
unbounded integers are used throughout; where the source's width matters it is
said below.

Places where the code does not do what one would expect. Each has a theorem that
says exactly when it happens, told from what is known before the call, and a
concrete case:

- A deletion whose rebase stops half way leaves the child writable
  (`Store.FrozenUnlessStopped`, `Store.StoppedRebaseThaws`); deleting again repairs
  it (`Store.RetryAfterStop`).
- A disk cloned from another disk's snapshot or active overlay is disturbed by
  deletions, guest writes, resizes and reverts on that disk, and by nothing else
  (`Clones.StepExactly`, `Clones.ClonesAreDisturbed`, `Store.CloneOfSnapshotBreaks`).
- A live capture that fails after the vCPUs were halted leaves them halted
  although the lifecycle state says `Running` (`Captures.StatusKeptExactly`,
  `LiveSnapshots.TruthKeptExactly`, `Captures.FailedOverlayHaltsGuest`).
- A failed stop, and a failed restore of a paused VM, leave `Running` or `Paused`
  without a process (`Hvf.StepExact`, `Hvf.ExactRun`, `Hvf.HandlesAreLost`).
- Re-inserting a snapshot id under its own descendant makes a cycle
  (`SnapshotDag.InsertExactly`, `SnapshotDag.ReinsertedRootLoops`).
- A client of the guest agent that starts counting ids again can be given the
  reply to a request an earlier client gave up on
  (`Conversations.OwnReplyExactly`, `Conversations.SecondClientIsFooled`).
- A scheme word that is itself taken for a short credential hides the next word
  from the redactor (`Redact.ExposedExactly`, `Redact.SwallowedWord`).
- A tar entry whose name holds a NUL byte reads back cut short
  (`Ustar.RoundTripsExactly`, `Ustar.NulCutsName`).
- The name pattern ends in `$`, which also matches before a final newline, so
  storage/README.md's rule 2 is not quite what `_validate_name` enforces
  (`Layout.AcceptedNames`, `Layout.NewlineIsLetThrough`).
- A forced restore that fails after the refusals removes the VM that was there
  before (`Bundles.RestoreSafety`, `Bundles.FailedForcedRestoreLosesVm`).

## Model

| member | source | states |
|---|---|---|
| Layout.LocateInjective | storage/vmforge_storage/store.py:73-87 | two layers, images or temporary files that differ as structured paths never share a file name, so the model's map from paths to layers loses nothing |
| Layout.SnapshotNameForInverts | storage/vmforge_storage/store.py:209-214 | reading a snapshot name off a file name gives the name exactly for the snapshots of that VM and disk, and nothing for every other path of the layout, dots in names included |
| Layout.StemOfLayerFile | storage/vmforge_storage/store.py:212-213 | adding `.qcow2` and taking suffix and stem undo each other for every name, also one with dots |
| Layout.AcceptedNames | storage/vmforge_storage/store.py:32-50 | the names let through include all that follow the documented pattern, and one let through follows it if and only if it does not end in a newline |
| Layout.NewlineIsLetThrough | storage/vmforge_storage/store.py:32-50 | a name let through against the documented pattern |
| Layout.NoTraversal | storage/README.md:36-37 | a valid name is one path component and no dot name, so names cannot lead out of the home |
| Layout.SomeNames | storage/vmforge_storage/store.py:32-50 | names let through and names refused |
| Names.LeExactly | storage/vmforge_storage/store.py:257 | names are ordered by the first character that differs, a beginning coming first |
| Layers.ViewUnfolds | storage/vmforge_storage/qemu_img.py:56-84 | along a complete chain a layer shows its own sectors over what its backing shows |
| Layers.ViewSize | storage/vmforge_storage/qemu_img.py:56-84 | a layer shows its own virtual size whatever it is backed by |
| Layers.SafeRebaseKeepsView | storage/vmforge_storage/qemu_img.py:139-154 | a safe rebase onto any backing, or none, leaves the layer showing what it showed |
| Layers.PullKeepsView | storage/vmforge_storage/qemu_img.py:139-154 | copying any set of sectors up from below changes nothing a reader sees: why a rebase may stop anywhere |
| Layers.Relocation | storage/vmforge_storage/store.py:225-229 | layers moved together with their backings and re-pointed show what they showed |
| Layers.LocalRewrite | storage/vmforge_storage/store.py:321-326 | if each layer would show the same on top of the old backings, nothing changes in the whole tree |
| Layers.ModeDoesNotShow | storage/vmforge_storage/store.py:321-324 | making a file writable changes no content |
| Store.RunRefines | storage/vmforge_storage/store.py:96-326 | every run of disk and snapshot operations, guest writes and tool failures is a run of the flat store of names and contents, sizes included, and keeps the backing graph an acyclic forest without dangling links in which nothing sits on an active overlay |
| Store.StepRefines | storage/vmforge_storage/store.py:96-326 | the same for one operation, whatever its verdict |
| Store.FreezeRefines | storage/vmforge_storage/store.py:225-235 | snapshot_create: the new name and the active disk both hold the old active content, the snapshot inherits the old parent, and all else is unchanged |
| Store.RevertRefines | storage/vmforge_storage/store.py:292-296 | snapshot_revert: the active disk holds exactly what the snapshot holds and all else is unchanged |
| Store.DeleteRefines | storage/vmforge_storage/store.py:303-326 | snapshot_delete: exactly one name goes, its child is adopted by the grandparent, and no content changes |
| Store.SquashKeepsViews | storage/vmforge_storage/store.py:311-326 | squashing into the only child keeps every remaining layer, the child's descendants included, also when the child ends up on nothing because the deleted root sat on a base image |
| Store.LeafDeleteRefines | storage/vmforge_storage/store.py:325-326 | deleting a leaf changes no remaining layer |
| Store.DeleteDiskRefines | storage/vmforge_storage/store.py:189-199 | deleting a disk removes its active overlay and all its snapshots and changes no other layer |
| Store.CloneRefines | storage/vmforge_storage/store.py:179-187 | a linked clone shows the base, cut or zero-extended to the size asked for |
| Store.ResizeRefines | storage/vmforge_storage/store.py:114-115 | a resized disk shows its old content cut or extended with zeros, whatever lies under it |
| Store.WriteRefines | storage/README.md:41-43 | a guest write, with any copy-on-write filling, changes the written sectors of the active disk and nothing else |
| Store.ImportRefines | storage/vmforge_storage/store.py:117-154 | an imported image or disk shows the source content and disturbs nothing |
| Store.AbortedKeepsAll | storage/vmforge_storage/store.py:216-326 | whichever qemu-img call fails, every layer shows and is based on what it was before, whatever disks were cloned from |
| Store.FrozenUnlessStopped | storage/vmforge_storage/store.py:321-324 | snapshot files stay read-only after an operation if and only if it is not a deletion whose rebase stops |
| Store.RunStaysFrozen | storage/vmforge_storage/store.py:216-326 | over a whole run without such a stop all snapshot files stay read-only |
| Store.RetryAfterStop | storage/vmforge_storage/store.py:321-326 | deleting again after a stopped rebase goes through, freezes the child again and gives the result of an undisturbed deletion |
| Store.StoppedRebaseThaws | storage/vmforge_storage/store.py:321-326 | a concrete disk on which a stopped rebase leaves a snapshot writable and the second deletion freezes it |
| Store.DeleteSafeExactly | storage/vmforge_storage/store.py:303-326 | without any rule on clone bases: a deletion leaves every remaining layer readable and unchanged if and only if no other disk sits on the deleted snapshot |
| Store.ForeignUserBreaks | storage/vmforge_storage/store.py:325-326 | a layer of another disk that sits on the deleted snapshot can no longer be opened |
| Store.CloneOfSnapshotBreaks | storage/vmforge_storage/store.py:156-187 | a concrete home in which this happens |
| Store.RunWellNamed | storage/vmforge_storage/store.py:77-87 | no run makes a layer whose VM, disk or snapshot name is invalid |
| Clones.StepExactly | storage/vmforge_storage/store.py:96-326 | with clones of any file: every operation leaves all chains complete and does to the files what the flat store does, if and only if it does not remove a file another layer sits on, change the active disk where a layer on it looks through, or revert a disk onto a snapshot that sits on it |
| Clones.RunExactly | storage/vmforge_storage/store.py:96-326 | a whole run follows the flat store all along if and only if no operation of it disturbs a clone |
| Clones.KeptExactly | storage/vmforge_storage/store.py:156-187 | when a layer is rewritten, all others show what they showed if and only if none directly on it sees a changed sector |
| Clones.FreezesRefine | storage/vmforge_storage/store.py:225-235 | snapshot_create is harmless even to clones of the active disk |
| Clones.RevertExactly | storage/vmforge_storage/store.py:292-296 | snapshot_revert refines exactly when it closes no cycle and no clone of the disk sees the change |
| Clones.DeleteDiskExactly | storage/vmforge_storage/store.py:189-199 | delete_disk refines exactly when no other disk sits on its layers |
| Clones.SnapshotDeleteExactly | storage/vmforge_storage/store.py:298-326 | snapshot_delete refines exactly when nothing but its own child sits on the snapshot |
| Clones.WriteExactly | storage/README.md:41-43 | a guest write refines exactly when no clone of the disk sees the change |
| Clones.ResizeExactly | storage/vmforge_storage/store.py:114-115 | so does a resize |
| Clones.MakesRefine | storage/vmforge_storage/store.py:96-187 | creating, importing and cloning are always harmless, whatever the base |
| Clones.RuleSuffices | storage/vmforge_storage/store.py:156-187 | where clones are made of base images only, no operation disturbs anything |
| Clones.ClonesAreDisturbed | storage/vmforge_storage/store.py:189-199 | a concrete clone that a guest write and a disk deletion disturb |
| Guards.StoreAnswers | storage/vmforge_storage/store.py:89-326 | for every operation, as if-and-only-ifs on the files: when it succeeds and which error it gives, a disk with snapshots not deleted without force among them |
| Guards.OneAnswer | storage/vmforge_storage/store.py:89-326 | on any files there is exactly one answer to give |
| Guards.RefusalsKeepFiles | storage/vmforge_storage/store.py:89-326 | a refusal changes nothing |
| Guards.DiskDeletion | storage/vmforge_storage/store.py:189-199 | without force a disk with snapshots is left alone; otherwise its active overlay and all its snapshots go, and nothing else |
| Guards.SnapshotDeletion | storage/vmforge_storage/store.py:298-326 | one file goes; a child now sits on the parent, or on nothing if that was a base image, and is read-only again; every other file is as it was |
| DiskStores.RowChildren | storage/vmforge_storage/store.py:273-275 | the children of a row are exactly the snapshots whose parent it is, each once, in file-name order, as many as the links say |
| DiskStores.ListingIs | storage/vmforge_storage/store.py:247-276 | a listing has every snapshot once, in file-name order, with its parent and children by the backing links, the size it shows, and the mark at the one under the active disk |
| DiskStores.DiskStore.constructor | storage/vmforge_storage/store.py:65-70 | the store stands on the given files |
| DiskStores.DiskStore.CreateDisk | storage/vmforge_storage/store.py:96-112 | does to the files what the transition refined by the flat store does, and answers as Guards.Answers says |
| DiskStores.DiskStore.CloneDisk | storage/vmforge_storage/store.py:156-187 | likewise; the clone sits on the given file if it exists and on the shared image of that name otherwise, and not_found means neither exists |
| DiskStores.DiskStore.DeleteDisk | storage/vmforge_storage/store.py:189-199 | likewise; fails with invalid_state if and only if the disk exists, has a snapshot and force is off |
| DiskStores.DiskStore.SnapshotCreate | storage/vmforge_storage/store.py:216-245 | the rename, chmod, create and roll-back steps amount to the transition, for each way they can end, and the row returned is right |
| DiskStores.DiskStore.SnapshotList | storage/vmforge_storage/store.py:247-276 | the two loops produce the listing read off the links, in file-name order, with the source's refusals |
| DiskStores.DiskStore.ReadRows | storage/vmforge_storage/store.py:256-272 | one row per snapshot file with its parent, size and current mark |
| DiskStores.DiskStore.FillChildren | storage/vmforge_storage/store.py:273-275 | the children lists are the inverse of the parent relation |
| DiskStores.DiskStore.GetSnapshot | storage/vmforge_storage/store.py:278-285 | finds a snapshot if and only if it exists; its parent, current mark and children agree with the links |
| DiskStores.DiskStore.SnapshotRevert | storage/vmforge_storage/store.py:287-296 | the temporary overlay and its replacement amount to the transition; the active file is untouched when the create fails |
| DiskStores.DiskStore.RebaseChild | storage/vmforge_storage/store.py:321-324 | thaw, rebase and freeze give the squashed child; a stop leaves it thawed with some sectors pulled up |
| DiskStores.DiskStore.SnapshotDelete | storage/vmforge_storage/store.py:298-326 | the look-ups, refusals, squash and unlink amount to the transition |
| DiskStores.TreeOfIsForest | storage/vmforge_storage/store.py:247-276 | where all backing chains are complete the names of a disk form a forest, so the printer and the ancestor walk end |
| SnapshotTrees.EverySnapshotOnce | storage/vmforge_storage/store.py:328-349 | every snapshot has exactly one line |
| SnapshotTrees.TreeIsDrawn | storage/vmforge_storage/store.py:334-346 | every line is indented by its depth, starred if and only if current, and stands under its parent: the nearest less indented line above |
| TreeOrders.SiblingsInOrder | storage/vmforge_storage/store.py:331-346 | snapshots with the same parent, and roots, appear in name order: with the row above, sorted pre-order |
| TreeOrders.LinesDetermineTree | storage/vmforge_storage/store.py:328-349 | two trees with the same lines are the same tree with the same current snapshot |
| TreeTexts.TextShows | storage/vmforge_storage/store.py:328-349 | the text is "(no snapshots)" for none, and otherwise one piece for each snapshot in sorted pre-order, joined by newlines: bars and blanks by the ancestors, the last connector before the youngest child and a fork before any other, the name, and a star if and only if it is current |
| TreeTexts.LinesCounted | storage/vmforge_storage/store.py:349 | cut at newlines, the text has as many lines as there are snapshots if and only if no name holds a newline |
| TreeTexts.NoneIsSaidOfNone | storage/vmforge_storage/store.py:347-348 | "(no snapshots)" is returned if and only if there are none, names being as documented |
| TreeTexts.TextDeterminesTree | storage/vmforge_storage/store.py:328-349 | for names as documented, the text determines the tree and its current snapshot |
| TreePrinters.TreePrinter.Walk | storage/vmforge_storage/store.py:337-342 | the recursive walk appends exactly the lines below a node |
| TreePrinters.TreePrinter.PrintRoots | storage/vmforge_storage/store.py:344-346 | the outer loop produces the whole tree |
| TreePrinters.TreePrinter.SnapshotTree | storage/vmforge_storage/store.py:328-349 | the text returned shows the tree read off the files, in the sense of TextShows, with the source's refusals |
| Bundles.RestoreSafety | storage/vmforge_storage/bundle.py:273-298 | for every bundle: a normal return only if every manifest file had the recorded size and digest; no existing file outside the VM is touched, and an image added is the file of an image record that matched its size and digest; a refusal changes nothing; a later failure leaves no file of the target VM, so a failing call keeps a VM that was there if and only if it was refused |
| Bundles.FailedForcedRestoreLosesVm | storage/vmforge_storage/bundle.py:284-295 | a concrete forced restore that fails and leaves nothing |
| RestoreLaws.RestoredMeans | storage/vmforge_storage/bundle.py:258-444 | for every bundle, a normal return means: the name was valid and free or the call forced; every file of the manifest was safe, present and matched its size and digest; no shared image already there had another digest; no disk failed its check; all shared images are there; and the VM has exactly the disks and snapshots of the manifest, with the content of their files, linked as recorded, snapshots read-only |
| RestoreLaws.DifferentImageIsKept | storage/vmforge_storage/bundle.py:362-373 | a shared image with another digest makes the restore fail and stays as it was |
| RestoreLaws.RefusedNames | storage/vmforge_storage/bundle.py:273-281 | an invalid name, or an existing VM without force, is refused and nothing changes |
| RestoreLaws.PlacedAndCompared | storage/vmforge_storage/bundle.py:362-376 | once all images are placed, those that were there had the recorded digest |
| RestoreLaws.ManifestTells | storage/vmforge_storage/bundle.py:99-222 | the manifest of a backup has a section for each disk with exactly the snapshots that go in, each linked as it is, and the current snapshot |
| RestoreLaws.FileNameIs | storage/vmforge_storage/bundle.py:247 | a base image is bundled under the last component of its path |
| Bundles.GatherFailsExactly | storage/vmforge_storage/bundle.py:246-255 | collecting images fails if and only if two distinct base images share a file name |
| Bundles.BackupFailsExactly | storage/vmforge_storage/bundle.py:246-255 | after the refusals, a backup fails if and only if the chosen layers sit on two such images |
| Bundles.GatherCollects | storage/vmforge_storage/bundle.py:246-255 | every chosen layer's base image is collected under its own name, and nothing else is |
| RoundTrip.BackupRestore | storage/vmforge_storage/bundle.py:83-430 | backup then restore, whole or with one snapshot's chain, under any name, in any well-formed home that lacks the images or has the same ones, succeeds and gives the same disks, snapshot names, parents, current marker and contents, every snapshot file read-only; with a snapshot named, exactly it and its ancestors, and a disk that shows what the snapshot showed |
| Generations.Migrates | storage/vmforge_storage/bundle.py:83-298 | every exportable VM none of whose base images clash has a backup, and it restores as the same VM in an empty home |
| Generations.ChainMigrates | storage/vmforge_storage/bundle.py:83-298 | a concrete disk with two snapshots that does, exported whole or up to the first |
| Generations.SecondGeneration | storage/vmforge_storage/bundle.py:83-430 | a restored VM can always be backed up again, and what is restored from that backup is still the first VM, so round trips can be repeated |
| Generations.EveryGeneration | storage/vmforge_storage/bundle.py:83-430 | after any number of backups and restores from home to home the VM is still the first one and can be exported again |
| Generations.CopyExportable | storage/vmforge_storage/bundle.py:246-255 | in a restored VM the names are valid and base images are standalone and never clash |
| RoundTrip.BackupVerifies | storage/vmforge_storage/bundle.py:332-360 | every record of a fresh backup passes the size and digest checks |
| RoundTrip.BundleHolds | storage/vmforge_storage/bundle.py:112-127 | the archive holds each chosen layer and each image byte for byte, and no image that no layer sits on |
| RoundTrip.CopyWellFormed | storage/vmforge_storage/bundle.py:389-427 | the restored home is again an acyclic forest of allowed links |
| RoundTrip.CopyViews | storage/vmforge_storage/bundle.py:403-419 | every layer that travelled shows what it showed at home |
| RoundTrip.IncludedClosed | storage/vmforge_storage/bundle.py:192-204 | what is exported contains the parent of everything exported |
| BundleManagers.IncludedUnfolds | storage/vmforge_storage/bundle.py:192-199 | a snapshot's chain is the snapshot and its parent's chain, and the walk gets shorter |
| BundleManagers.ClosedRef | storage/vmforge_storage/bundle.py:237-245 | where every chain is complete no exported layer sits on a snapshot left out, so that error cannot occur in a backup |
| BundleManagers.BundleManager.constructor | storage/vmforge_storage/bundle.py:79-80 | the manager works on the given store |
| BundleManagers.BundleManager.WantedChain | storage/vmforge_storage/bundle.py:192-199 | the ancestor walk ends and collects exactly the chosen snapshot and its ancestors |
| BundleManagers.BundleManager.BackingRef | storage/vmforge_storage/bundle.py:224-255 | gives the logical parent and the images collected so far, and the two refusals exactly when they apply |
| BundleManagers.BundleManager.CurrentRow | storage/vmforge_storage/bundle.py:184 | the first row marked current is the snapshot under the active overlay |
| BundleManagers.BundleManager.CollectDisk | storage/vmforge_storage/bundle.py:173-222 | one disk's manifest section, sources and images, or the refusal |
| BundleManagers.BundleManager.CollectLayers | storage/vmforge_storage/bundle.py:206-222 | the loop over the included snapshots and the active overlay collects exactly them |
| BundleManagers.BundleManager.CollectDisks | storage/vmforge_storage/bundle.py:116-122 | the loop over the disks collects every section and all sources and images, or reports the first refusal |
| BundleManagers.BundleManager.Backup | storage/vmforge_storage/bundle.py:83-168 | the refusals in order; otherwise the bundle the round trip is about, or a name clash |
| BundleManagers.BundleManager.ExtractVerified | storage/vmforge_storage/bundle.py:332-360 | stages exactly the manifest's files if and only if each is safe, present and matches its record |
| BundleManagers.BundleManager.PlaceImages | storage/vmforge_storage/bundle.py:362-376 | images are kept, refused or moved in, in order, stopping at the first refusal; when none is refused all are there and those that were had the recorded digest |
| BundleManagers.BundleManager.PlaceSnapshots | storage/vmforge_storage/bundle.py:403-413 | the two loops move, re-point and freeze the snapshots of a disk |
| BundleManagers.BundleManager.PlaceActive | storage/vmforge_storage/bundle.py:414-430 | the bundled overlay re-pointed, or a fresh one on the current snapshot, with the errors of each |
| BundleManagers.BundleManager.AssembleVm | storage/vmforge_storage/bundle.py:389-430 | all disks in name order, stopping at the first error |
| BundleManagers.BundleManager.RestoreBundle | storage/vmforge_storage/bundle.py:258-298 | restore of any bundle, with its refusals and its clean-up; a normal return gives the name restored under and vouches for every file and every shared image |
| Hvf.RunGood | crates/vmforge-backend-hvf/src/lib.rs:200-346 | over every run with engine failures anywhere: no VM is left in `Snapshotting`, a QEMU handle means `Running` or `Paused`, active layers and recorded bases keep the configured count, and no active layer is a base of a recorded snapshot |
| Hvf.DeleteOwnsNothing | crates/vmforge-backend-hvf/src/lib.rs:338-346 | after any run, a delete that succeeds drops an entry without a process |
| Hvf.FrozenForever | crates/vmforge-backend-hvf/src/lib.rs:257-336 | while the VM exists, no later boot or restore starts QEMU on a layer retired by a snapshot, even once the snapshot's record has been replaced |
| Hvf.FrozenIsRetired | crates/vmforge-backend-hvf/src/lib.rs:289-296 | the bases of every recorded snapshot are such layers |
| Hvf.FreshName | crates/vmforge-backend-hvf/src/lib.rs:268-273 | a new sequence number gives layer names never used before by the entry |
| Hvf.StepExact | crates/vmforge-backend-hvf/src/lib.rs:200-346 | if every VM owns a process exactly while `Running` or `Paused`, a call keeps it so if and only if it is not a stop whose quit fails or a restore of a paused VM that stops on its way |
| Hvf.ExactRun | crates/vmforge-backend-hvf/src/lib.rs:200-346 | over a whole run it stays so all along if and only if no call is one of those; failed boots, pauses, resumes and snapshots do no harm |
| Hvf.HandlesAreLost | crates/vmforge-backend-hvf/src/lib.rs:244-336 | a concrete run of each kind, from an empty backend |
| HvfLaws.BootExactly | crates/vmforge-backend-hvf/src/lib.rs:200-212 | a boot succeeds if and only if the VM is `Defined` or `Stopped` and QEMU starts, and then it runs with a process; otherwise nothing changes |
| HvfLaws.PauseExactly | crates/vmforge-backend-hvf/src/lib.rs:214-227 | the same for pause, of a `Running` VM |
| HvfLaws.ResumeExactly | crates/vmforge-backend-hvf/src/lib.rs:229-242 | the same for resume, of a `Paused` VM |
| HvfLaws.StopExactly | crates/vmforge-backend-hvf/src/lib.rs:244-255 | the same for stop, with what a failed quit leaves |
| HvfLaws.SnapshotExactly | crates/vmforge-backend-hvf/src/lib.rs:257-298 | the same for a snapshot, with what it records |
| HvfLaws.RestoreExactly | crates/vmforge-backend-hvf/src/lib.rs:300-336 | the same for a restore, of a VM that is not `Running` |
| HvfLaws.DeleteExactly | crates/vmforge-backend-hvf/src/lib.rs:338-346 | the same for delete |
| HvfLaws.CreateExactly | crates/vmforge-backend-hvf/src/lib.rs:171-198 | the same for create |
| HvfLaws.PauseThenResume | crates/vmforge-backend-hvf/src/lib.rs:214-242 | pausing a running VM and resuming it gives everything back |
| HvfLaws.BootThenStop | crates/vmforge-backend-hvf/src/lib.rs:200-255 | booting a stopped VM and stopping it gives everything back |
| HvfLaws.CreateThenDelete | crates/vmforge-backend-hvf/src/lib.rs:171-346 | so do creating and deleting |
| HvfLaws.AlwaysRemovable | crates/vmforge-backend-hvf/src/lib.rs:171-346 | after any run with any failures a VM can be booted and deleted, or stopped and then deleted: none gets stuck |
| HvfLaws.RecordKept | crates/vmforge-backend-hvf/src/lib.rs:288-296 | over every run a snapshot's record stays as made, until its VM goes or another capture comes to the same id |
| HvfLaws.RestoreLoadsOwnState | crates/vmforge-backend-hvf/src/lib.rs:308-331 | a restore, any calls later, loads the very state file written for its snapshot |
| HvfLaws.RunStatesApart | crates/vmforge-backend-hvf/src/lib.rs:268-295 | over every run no two snapshots of a VM share a state file |
| Lifecycle.MovesExactly | crates/vmforge-core/src/state.rs:38-59 | from which states each operation may start, and where it leads |
| Lifecycle.SnapshotReturns | crates/vmforge-core/src/state.rs:38-59 | a snapshot begun ends in the state it began in, and nothing else is possible meanwhile |
| LayerNames.OverlayInjective | crates/vmforge-backend-hvf/src/lib.rs:269-273 | a generated layer name determines its kind, sequence number and disk, snapshot and branch names never colliding |
| HvfBackends.HvfBackend.constructor | crates/vmforge-backend-hvf/src/lib.rs:74-80 | a new backend has no VMs |
| HvfBackends.HvfBackend.Create | crates/vmforge-backend-hvf/src/lib.rs:171-198 | performs the create step of the run model, refusals in order |
| HvfBackends.HvfBackend.Transit | crates/vmforge-backend-hvf/src/lib.rs:112-118 | moves the state to where the operation leads if and only if it may start there |
| HvfBackends.HvfBackend.Boot | crates/vmforge-backend-hvf/src/lib.rs:200-212 | performs the boot step; nothing changes unless QEMU starts |
| HvfBackends.HvfBackend.Pause | crates/vmforge-backend-hvf/src/lib.rs:214-227 | performs the pause step |
| HvfBackends.HvfBackend.Resume | crates/vmforge-backend-hvf/src/lib.rs:229-242 | performs the resume step |
| HvfBackends.HvfBackend.Stop | crates/vmforge-backend-hvf/src/lib.rs:244-255 | performs the stop step; the handle is gone even if the quit fails |
| HvfBackends.HvfBackend.Snapshot | crates/vmforge-backend-hvf/src/lib.rs:257-298 | performs the snapshot step; a failed capture uses up a number and restores the state |
| HvfBackends.HvfBackend.CreateOverlays | crates/vmforge-backend-hvf/src/lib.rs:319-325 | one fresh overlay per frozen layer, or a stop at the one that fails |
| HvfBackends.HvfBackend.Restore | crates/vmforge-backend-hvf/src/lib.rs:300-336 | performs the restore step for each place it can stop |
| HvfBackends.HvfBackend.Relaunch | crates/vmforge-backend-hvf/src/lib.rs:326-335 | the end of a restore: new layers in any case, running with a process if QEMU comes up |
| HvfBackends.HvfBackend.Delete | crates/vmforge-backend-hvf/src/lib.rs:338-346 | performs the delete step |
| Captures.CaptureIsOneInstant | crates/vmforge-engine-qemu/src/vm.rs:95-142 | a successful capture of any number of disks holds all layers and the RAM at one guest instant within the call, and leaves the vCPUs running or halted as they were |
| Captures.StatusKeptExactly | crates/vmforge-engine-qemu/src/vm.rs:101-134 | the vCPU status is kept if and only if not this: the guest runs, is found running and halted, and one of the commands up to the one that lets it go fails or no poll within the deadline finds the migration completed |
| Captures.SwitchExactly | crates/vmforge-engine-qemu/src/vm.rs:106-119 | all disks are switched if and only if all their commands succeed |
| Captures.WaitExactly | crates/vmforge-engine-qemu/src/vm.rs:172-187 | the wait succeeds if and only if a poll before the deadline finds the migration completed and every poll before it succeeded and found it active |
| Captures.SucceedsExactly | crates/vmforge-engine-qemu/src/vm.rs:95-142 | a capture succeeds if and only if every command does, the migration completes within its polls and the state file can be read |
| Captures.FailedOverlayHaltsGuest | crates/vmforge-engine-qemu/src/vm.rs:107-119 | a concrete failed capture after which the guest stays halted |
| Captures.QemuVm.WaitMigration | crates/vmforge-engine-qemu/src/vm.rs:172-187 | the polling loop ends at completion, failure or the deadline, and saves RAM only at completion |
| Captures.QemuVm.Snapshot | crates/vmforge-engine-qemu/src/vm.rs:95-142 | the command sequence and its loop over disks perform the modelled capture |
| LiveSnapshots.TruthKeptExactly | crates/vmforge-backend-hvf/src/lib.rs:257-284 | backend and engine together: the lifecycle state comes back, and still tells whether the guest runs if and only if the capture did not leave it halted; otherwise the call failed and `Running` is claimed of a halted guest |
| LiveSnapshots.RecordedIsOneInstant | crates/vmforge-backend-hvf/src/lib.rs:274-297 | a recorded snapshot names the layers that were active, captured with the RAM at one instant, and the VM goes on to layers never used before; a failed one records nothing |
| SnapshotDag.InsertExactly | crates/vmforge-core/src/snapshot.rs:35-43 | an accepted insertion keeps the graph a forest if and only if the id is not among the parent and its ancestors; a new id never is |
| SnapshotDag.FreshRunIsForest | crates/vmforge-core/src/snapshot.rs:35-43 | any sequence of insertions with new ids leaves a forest |
| Forest.InsertMakesCycle | crates/vmforge-core/src/snapshot.rs:41 | overwriting a node with one whose parent descends from it makes a cycle |
| Forest.InsertKeepsForest | crates/vmforge-core/src/snapshot.rs:35-43 | filing a node under a parent that does not descend from it keeps the forest |
| SnapshotDag.ReinsertedRootLoops | crates/vmforge-core/src/snapshot.rs:35-43 | three insertions that do so |
| SnapshotDag.SnapshotStore.constructor | crates/vmforge-core/src/snapshot.rs:30-32 | a new store is empty |
| SnapshotDag.SnapshotStore.Insert | crates/vmforge-core/src/snapshot.rs:35-43 | stores the node under its id, or refuses a missing parent and changes nothing |
| SnapshotDag.FoundIsLastAccepted | crates/vmforge-core/src/snapshot.rs:35-47 | after any insertions, what is found under an id is the last accepted node with it, and nothing is found if and only if there was none |
| SnapshotDag.SnapshotStore.Children | crates/vmforge-core/src/snapshot.rs:50-55 | the exact inverse of `parent`, each node once |
| SnapshotDag.SnapshotStore.LineageOf | crates/vmforge-core/src/snapshot.rs:58-70 | on a forest the loop ends, reports a missing node only for an unknown id, and gives the node followed by its ancestors |
| Forest.LineageDistinct | crates/vmforge-core/src/snapshot.rs:58-70 | a lineage stays among the stored nodes and repeats none |
| Forest.LineageEndsAtRoot | crates/vmforge-core/src/snapshot.rs:58-70 | it ends at a root within as many steps as there are nodes |
| Forest.Unfold | crates/vmforge-core/src/snapshot.rs:58-70 | it is the node followed by its parent's lineage |
| Ustar.RoundTripsExactly | crates/vmforge-cli/src/tarball.rs:24-57 | a reader recovers exactly the entries, in order, if and only if no name holds a NUL byte |
| Ustar.NulCutsName | crates/vmforge-cli/src/tarball.rs:31-32 | a concrete entry whose name is cut |
| Ustar.ReadsArchive | crates/vmforge-cli/src/tarball.rs:24-57 | in any case it recovers every entry with its contents and time, names cut at the first NUL |
| Ustar.HeaderReadsBack | crates/vmforge-cli/src/tarball.rs:31-44 | a header has the right magic, version, type and checksum and an unused prefix field, and reads back to the name, size and time |
| Ustar.HeaderModes | crates/vmforge-cli/src/tarball.rs:33-35 | mode 0644, no owner ids, unused fields zero |
| Ustar.SumAdds | crates/vmforge-cli/src/tarball.rs:42 | the checksum adds up every byte |
| Ustar.ChecksumFits | crates/vmforge-cli/src/tarball.rs:42-44 | the header sum always fits six octal digits |
| Ustar.WholeBlocks | crates/vmforge-cli/src/tarball.rs:48-57 | the archive is a whole number of 512-byte blocks |
| Ustar.PaddingFills | crates/vmforge-cli/src/tarball.rs:48-49 | contents are padded to fill their last block and no more |
| Ustar.FieldReadsBack | crates/vmforge-cli/src/tarball.rs:60-74 | an octal field reads back to the number written |
| Ustar.WriteOctal | crates/vmforge-cli/src/tarball.rs:65-69 | writes the digits and a NUL in place and touches nothing else |
| Ustar.Checksum | crates/vmforge-cli/src/tarball.rs:42 | the sum of all header bytes |
| Ustar.FillHeader | crates/vmforge-cli/src/tarball.rs:31-44 | the header array, filled in place, is the header that reads back |
| Ustar.TarWriter.constructor | crates/vmforge-cli/src/tarball.rs:18-20 | a new archive has no entries |
| Ustar.TarWriter.Append | crates/vmforge-cli/src/tarball.rs:24-50 | appends exactly the entries that can be stored, refuses exactly the names that are too long or absolute, panics on numbers too large for their fields, and writes nothing in the last two cases |
| Ustar.TarWriter.Finish | crates/vmforge-cli/src/tarball.rs:54-57 | the output is the archive of all entries appended |
| Civil.NextDayNextDate | crates/vmforge-cli/src/diagnose.rs:563-574 | for every day number, negative ones included, the next number is the next date of the proleptic Gregorian calendar |
| Civil.EpochIsDayZero | crates/vmforge-cli/src/diagnose.rs:563-574 | day 0 is 1970-01-01 |
| Civil.DatesAreValid | crates/vmforge-cli/src/diagnose.rs:563-574 | every day number gives a date that exists |
| Civil.YearHolds | crates/vmforge-cli/src/diagnose.rs:567 | the closed formula for the year of the era finds the March year the day lies in |
| Civil.FitsExactly | crates/vmforge-cli/src/diagnose.rs:563-574 | in 64-bit integers nothing overflows, neither result nor intermediate value, if and only if the day number is not among the last 719468 |
| Civil.CountsBack | crates/vmforge-cli/src/diagnose.rs:563-574 | adding up year and month lengths recovers the day number |
| Civil.TimestampReadsBack | crates/vmforge-cli/src/diagnose.rs:546-561 | up to the end of 9999 the text is a date-time of section 5.6 of RFC 3339, digits, marks and field ranges included, and names the very second |
| Framing.LinesSplit | guest-tools/agent/vmforge-ga.py:266-268 | cutting a stream at a line end cuts its list of lines |
| GuestAgent.Serve | guest-tools/agent/vmforge-ga.py:228-276 | for every way of cutting the stream the agent handles its non-blank complete lines in order and all of them if every write succeeds; each gets one reply, with its id back: the value if the command returned it, its own error code, or invalid_request or internal_error, each if and only if the command ended so, and invalid_request without id if the line was no object |
| GuestAgent.OneFits | guest-tools/agent/vmforge-ga.py:228-245 | that determines the reply |
| Framing.StripExactly | guest-tools/agent/vmforge-ga.py:268 | blanks go at both ends of a line and nothing else does |
| GuestAgent.ListenSplit | guest-tools/host/vmforgectl.py:87-102 | what a client makes of a stream is decided by its first deciding part |
| GuestAgent.GuestAgentClient.constructor | guest-tools/host/vmforgectl.py:59-62 | ids start at 0 |
| GuestAgent.GuestAgentClient.Execute | guest-tools/host/vmforgectl.py:64-104 | the result depends on the bytes received, not on how they were cut: the first reply with the call's own id |
| Conversations.CallHears | guest-tools/host/vmforgectl.py:64-104 | whatever was left on the channel, even half a line, and however much arrives, a call returns the agent's reply to one particular earlier or own request, or none |
| Conversations.CallSound | guest-tools/host/vmforgectl.py:64-104 | a call leaves on the channel exactly the bytes it did not receive, and no request of an unknown call |
| Conversations.OwnReplyExactly | guest-tools/host/vmforgectl.py:62-95 | for a continuing or a new client: whatever the agent and the client manage, the reply taken is the call's own, if and only if no unanswered or unread request carries its id or the rest of a torn line makes the call fail |
| Conversations.OwnReplyComes | guest-tools/host/vmforgectl.py:64-104 | once the agent has caught up and the client reads on, such a call gets its reply |
| Conversations.RunOneClient | guest-tools/host/vmforgectl.py:62-68 | over every run of one client the counter has grown with each call, so pending requests carry distinct earlier ids |
| Conversations.OwnReplyOrNone | guest-tools/host/vmforgectl.py:64-104 | after any history of one client's calls, timed out or not, what a call returns is how its own command ended, or nothing |
| Conversations.SecondClientIsFooled | guest-tools/host/vmforgectl.py:62-95 | a second client after one that gave up can be given the first one's reply; the first client itself cannot |
| Conversations.Ask | guest-tools/host/vmforgectl.py:64-104 | the same of the receive loop itself, over any cutting of the bytes |
| Conversations.AnswerAll | guest-tools/agent/vmforge-ga.py:228-276 | the agent's own loop answers every request in the order asked, over any cutting, with its id and with how its command ended |
| Conversations.ReplyAnswers | guest-tools/agent/vmforge-ga.py:228-245 | the reply the channel carries for a request tells how its command ended |
| Redact.AuthClean | crates/vmforge-cli/src/redact.rs:101-132 | no scheme word the scan stops at in an output is followed by a value of eight bytes or more other than the mask; for all other scheme words see ExposedExactly |
| Redact.CleanIsFixed | crates/vmforge-cli/src/redact.rs:101-132 | the lines left unchanged are exactly those clean ones |
| Redact.ExposedExactly | crates/vmforge-cli/src/redact.rs:101-132 | some scheme word of the output is followed by a credential if and only if the scan of the line passes over a short value that ends in a scheme word before one |
| Redact.SwallowedWord | crates/vmforge-cli/src/redact.rs:101-132 | a concrete line left as it is |
| Redact.AuthIdempotent | crates/vmforge-cli/src/redact.rs:101-132 | redacting credentials twice is redacting them once |
| Redact.FixedWord | crates/vmforge-cli/src/redact.rs:142-153 | a treated word is not a token any more and is left alone by a second pass |
| Redact.NoTokenLeft | crates/vmforge-cli/src/redact.rs:136-156 | no word of any output passes the long-token test, and a second pass changes nothing |
| Redact.KeyRuleSettles | crates/vmforge-cli/src/redact.rs:79-98 | the key rule determines its result and applying it twice is applying it once |
| Redact.RedactKeyValue | crates/vmforge-cli/src/redact.rs:79-98 | only the first separator counts, and a sensitive key before it loses everything after it |
| Redact.RedactAuthSchemes | crates/vmforge-cli/src/redact.rs:101-132 | the loop ends, each match consuming a scheme word, and computes the pass above |
| Redact.RedactLongTokens | crates/vmforge-cli/src/redact.rs:136-156 | the loop over words computes the pass above |
| Redact.RedactLine | crates/vmforge-cli/src/redact.rs:72-76 | whatever the earlier rules do, no word of the line still passes the long-token test |
| RedactLaws.SchemesInAnyCase | crates/vmforge-cli/src/redact.rs:105-110 | the first scheme word is found in upper or lower case if there is one, and no earlier one is passed over |
| RedactLaws.WordsTreated | crates/vmforge-cli/src/redact.rs:136-156 | word by word: a token, forty or more characters of the alphabet with a digit and a letter, is replaced by the mask between what stands around it, and every other word is left alone |
| RedactLaws.SensitiveExactly | crates/vmforge-cli/src/redact.rs:79-98 | the word before the separator is sensitive if and only if a listed key stands in it, in upper or lower case, quoted or not |
| RedactLaws.DocumentedKeys | crates/vmforge-cli/src/redact.rs:9-11 | an assignment to any documented key loses its value |

## Left out

- Config files inside bundles, the manifest's version and date fields, and the JSON, tar and gzip formats of bundles: a bundle is its manifest value and a map from archive paths to file contents.
- SHA-256: digests are an arbitrary function of a file's bytes; a home "has the same image" when the bytes agree.
- Base images that are raw or have a backing file of their own: the round trip asks for standalone qcow2 images, since backup bundles one level and restore re-points as qcow2.
- A VM directory counts as present when it holds a layer; empty directories, directory creation, and failures of rename, chmod and unlink are not modelled.
- What a failed `qemu-img create` or `convert` leaves at the target of create_disk, clone_disk and the imports.
- Store.ImportRefines: import_image, import_disk and resize_disk are transitions of runs, not methods of the class, and whether the source image exists or a shrink is allowed is part of `works`.
- DiskStores.DiskStore.CloneDisk: the base is not a half-made `.reverting` file, which the model does not count among the layers.
- Store.RunRefines: asks that disks be cloned from base images, as Store.StepRefines and Store.CloneRefines do; Clones.RunExactly is the statement without that.
- BundleManagers.BundleManager.Backup: asks for complete backing chains, without which qemu-img cannot open the layers, and for valid names on disk.
- TreePrinters.TreePrinter.SnapshotTree: qemu-img is taken to answer; its failure only passes through.
- Allocated size on disk, preallocation, cluster size, compression, `qemu-img check` and `commit`.
- Concurrent use of one home; the operations here are offline and one at a time.
- Hvf.RunGood: the sequence counter does not wrap at 2^64, and configured disk paths are not of the generated form.
- Hvf.FrozenForever: deleting a VM and creating another of the same name starts the numbers again; the theorem ends with the VM.
- Disk contents after a partly failed live capture, or a second one in the same QEMU process: they depend on QEMU's node graph; the claims are about the paths the backend tracks.
- `restore_incoming`, `quit` and `spawn` as loops over a process: how they end is part of the call.
- Conversations.Ask: one call at a time on a FIFO channel; of JSON it asks that lines read back and that the end of a reply line is no JSON.
- The agent's commands, reopening of the port, and JSON: decoding and handling are arbitrary functions.
- Redact.RedactLine: repeated redaction of a whole line is not claimed to settle, since removing a credential can change which separator comes first; PEM blocks and multi-line text are not modelled.
- The KVM backend (stubs), QEMU argument formatting, networking, the command-line front ends, the rest of `diagnose`, and `bench/`, `qa/`, `packaging/`: they would only add easy members.
