# passhrs, modelled

passhrs is an SSH client.  Its network layer is library code; what it adds is a set of small engines: atomic file
writes and a sync engine over SFTP, an expander for `Include` in ssh_config, a control master that lends its
connection to resume clients, an interactive session with an escape scanner and a race for the exit code, a rewriter
from `$NAME` to `%NAME%` for cmd.exe, a parser for forward specifications, and a SOCKS5 server.  This project models
those engines and proves what they promise, for every input, every run and every interleaving.  The outside world is
explicit state: a file system is a map from paths to nodes, a channel the sequence of messages it delivers, a socket
the bytes on their way.  Every call to a server may fail, and a call that reports a failure may have taken effect.

`dafny verify dfyconfig.toml` checks the whole project.

## The modules

- `Basics`, `Text`, `Tree`: shared types, string operations of the standard library, paths and file trees.
- `AtomicProtocol`: the write protocol of src/sftp.rs as a state machine over its single round trips, with any number
  of concurrent writers, failures, lost replies and crashes.  Files are inodes.
- `Session`: one SFTP session as a class that holds both file systems and their history; the calls the
  client makes are its methods, and every state on the way is recorded in `trace` and `localTrace`.
- `Listing`, `RsyncPlan`, `RunMeaning`, `Rsync`: the two listings, the decisions of a sync run as functions of the two
  trees, what a run means in terms of its arguments alone, and the run itself as methods on a session.
- `Copy`, `PushResult`, `CopyFits`, `CopyStates`, `TreeCopy`: what it means that a tree has been copied, what a push
  leaves when directories cannot be made, when a copy fits its place, what any moment of a copy may look like, and
  `push_path` and `pull_path` as recursive methods.
- `Includes`, `IncludeLines`, `IncludeTheorems`: the guarded expander as methods, proved against a plain recursive
  flattening that knows nothing of cycles and depth, what the lines of a text and the patterns mean, and what follows
  about the include graph and the output.
- `Frames`, `Channel`, `Resume`, `ExitRace`: the framing, the two readers of a channel, the master's side of a resumed
  connection, and the race for the exit code.
- `EscapeScanner`, `DollarRewrite`, `ForwardSpec`, `ForwardErrors`, `Socks5`: one source function group each, the parser
  in two parts.

## Where the code differs from what is said about it

The model follows the code.  For each difference there is a lemma with the exact condition, or with an input.  Where
the code is never called with such an input, that is said.

- README.md:98-99 promises "old or new" at every moment of a write.  The remote write unlinks the destination before it
  renames (src/sftp.rs:123-124): the destination can be absent, and after a refused rename the old content is gone.
  `AtomicProtocol.AlwaysPresentIffLocal`, `AtomicProtocol.RefusedRenameLosesOldContent`.
- Cleanup removes the temp name even when the exclusive open is what failed (src/sftp.rs:130-137).  So a file that is
  no temp of the call can be removed: one that was there is safe in every run if and only if no writer has drawn its
  name, `AtomicProtocol.ForeignFileSafeIff`, `AtomicProtocol.FailedOpenDeletesForeignFile`.  And the exclusive open does
  not keep writers with one temp name apart: a reader can see a torn file if and only if three of them have drawn one
  name, or four one under which there is a file, `AtomicProtocol.NeverTornIff`.  Two that do are harmless, and so are
  any number of which no two are under way at one time, `AtomicProtocol.NeverTorn`.  An error does not mean that the old
  content stands: the rename's reply may have been lost, `AtomicProtocol.LostReplyDelivers`.
- A dry run writes.  It creates the remote root when that is missing (src/sftp.rs:466), and the delta branch
  (src/sftp.rs:519) comes before the dry-run check (src/sftp.rs:536).  A dry run that returns Ok has left everything as
  it was if and only if the root was there and no file took the delta branch: `Rsync.RsyncUpload`,
  `RsyncPlan.DryRunIsDryIff`.  Inputs for the two: `Rsync.DryRunOnMissingRoot`, `RsyncPlan.DryRunCanOverwrite`.
- A second sync run is idle unless the server reports no sizes: then a missing size is read as 0 (src/sftp.rs:394) and
  every file with bytes is sent again.  `RsyncPlan.SecondRunIsIdle`.
- `create_dir` is best effort in a push (src/sftp.rs:264-307): a push that returns Ok and met no failed call has copied
  everything if and only if no directory was to go where a file was and the topmost one was there or could be made; the
  bytes of the files have arrived even when a call failed, such as the update of a mode (src/sftp.rs:293-303):
  `TreeCopy.PushPath`, `PushResult.CopiedIffFits`.  An input for which it has not: `TreeCopy.PushOntoFile`.  When it
  returns Ok is another matter: with no failed call and no temp name taken, if and only if every file can go to its
  place, whatever is there already.
- Only the remote root is created (src/sftp.rs:466): with both roots there, no failed call and no temp name taken, a
  sync run returns Ok if and only if every upload finds its parent directory, and no directory in its own place:
  `Rsync.RsyncUpload`.  An input for which it does not: `Rsync.NestedTargetFails`.
- `seen` is never popped (src/config.rs:279): a file reached twice without a cycle is refused as a cycle.
  `IncludeTheorems.TwiceReachedFails`.
- A second pass of the expander is the identity if and only if no line that came out ends in a carriage return; none
  does when no text read has one before another line end or at its end.  `IncludeTheorems.SecondPass`,
  `IncludeTheorems.SecondPassOfCleanFiles`.
- `%%` in a pattern is said to be passed through verbatim (src/config.rs:311) and becomes `%` (src/config.rs:345-348):
  `IncludeTheorems.TokenInContext`.  A bare `Host` line without a value does not end the part where Include is allowed
  (src/config.rs:212-226): `IncludeTheorems.BareBlockKeyword`.
- `pump_session_to_uds` stops at Eof (src/control.rs:387), so a later exit status is lost to a resume client but not to
  a direct session; a direct session stops showing data at the exit status.  `Channel.SameOutputIff`,
  `Channel.SameCodeIff`.  A resumed command whose first word is check, exit or stop is never run
  (src/control.rs:320-337): `Resume.ResumedVerbFails`.
- A status that the reader received and sent can still be returned as 0 (src/ssh.rs:1124).  It is returned if and only
  if its callback ran before the lookup or the selection took the oneshot that carried it: `ExitRace.StatusReturnedIff`;
  a run that loses it: `ExitRace.ReadStatusCanBeLost`.
- The scanner's `carry` never carries anything, although its comment says that it catches escapes across reads
  (src/ssh.rs:1015-1017): one that is cut by the end of a read is missed.  `EscapeScanner.SplitIff`.  The bytes of `~?`
  are forwarded (src/ssh.rs:1108) and those before `~.` in the same read are dropped (src/ssh.rs:1060).
- The rewriter pushes bytes as characters (src/main.rs:79): text beyond ASCII comes out longer.
  `DollarRewrite.FaithfulIffAscii`.  Percent signs in the command can pair up with one another or with those put in; the
  meaning is preserved if and only if no percent sign is followed, other than immediately, by another one or by a known
  reference: `DollarRewrite.PreservedIff`, and an input in `DollarRewrite.PercentInCommandDiffers`.
- A SOCKS5 reply for a name of 256 bytes or more cannot be read (src/proxy.rs:31): `Socks5.ReplyReadIff`.  No such name
  gets there: the two callers pass "127.0.0.1" and "0.0.0.0" (src/proxy.rs:147, src/proxy.rs:185).

## Model

| member | source | states |
|---|---|---|
| AtomicProtocol.StepKeeps | src/sftp.rs:67-139 | Every single round trip of every writer, failed or not, lost reply or not, and every crash, keeps, whatever temp names were drawn: a handle is an inode of its writer's own with just the bytes that arrived, absence of the destination is explained, the initial file does not come back after an Ok, and files that are neither destination nor under a temp name are as they were. |
| AtomicProtocol.RunKeeps | src/sftp.rs:67-139 | So does every interleaving of any number of writers. |
| AtomicProtocol.StepKeepsGuarded | src/sftp.rs:67-139 | Where no name is risky, or none is shared by writers under way, a step also keeps: what is under a holder's temp name is its own, and the destination is the initial file or one writer's complete one. |
| AtomicProtocol.RiskWasThere | src/sftp.rs:67-139 | No step makes a name risky that was not: a holder, one that may remove its temp, and one that may then open the name. |
| AtomicProtocol.RiskyIsCrowded | src/sftp.rs:28-47 | At the start a name is risky exactly when three writers have drawn it, or four when there is a file under it. |
| AtomicProtocol.DistinctNames | src/sftp.rs:28-47 | Names that differ among all writers differ among those under way at any time, whatever the interleaving. |
| AtomicProtocol.NeverTorn | src/sftp.rs:67-139 | In every reachable state the destination is absent, has its initial bytes, or has exactly one writer's complete bytes, when no name is crowded at the start or no two writers under way at one time share one.  Stale files under temp names are allowed. |
| AtomicProtocol.NeverTornIff | src/sftp.rs:67-139 | For writers whose bytes have a beginning that is neither the initial file nor anyone's complete one: that holds of all runs if and only if no three have drawn one temp name, and no four one under which there is a file. |
| AtomicProtocol.LocalNeverAbsent | src/sftp.rs:149-187 | The local write, which does not unlink, never lets an existing destination disappear, whatever names were drawn. |
| AtomicProtocol.AlwaysPresentIffLocal | src/sftp.rs:123-126 | The promise "old or new at every moment" holds of a protocol if and only if it is the one without the unlink, as soon as one writer finds its temp name free. |
| AtomicProtocol.AllOkDelivers | src/sftp.rs:67-139 | When all writers have returned Ok the destination exists and is not the initial file; it holds the complete bytes of one of them under the condition of `NeverTorn`. |
| AtomicProtocol.OkIsNeverUndone | src/sftp.rs:67-139 | Once some writer has returned Ok, a destination that exists is never again the initial file, whatever names were drawn. |
| AtomicProtocol.NoLitter | src/sftp.rs:130-137 | When all writers have ended and each cleanup worked, the directory has just the initial names besides the destination, all with their initial bytes, whatever names were drawn, if none was there at the start. |
| AtomicProtocol.CleanRunDelivers | src/sftp.rs:67-139 | From every state in which its temp name is free, a writer that meets no failure delivers its bytes. |
| AtomicProtocol.LostReplyDelivers | src/sftp.rs:124-137 | From every such state there is also a run in which it delivers them and reports an error, for the reply to the rename was lost. |
| AtomicProtocol.CrashLeavesTemp | src/sftp.rs:67-79 | And one in which it crashes and leaves its temp behind, with any beginning of its bytes. |
| AtomicProtocol.LostOpenLeavesTemp | src/sftp.rs:130-137 | And one in which the open took place, its reply was lost and the cleanup failed: the temp stays. |
| AtomicProtocol.RefusedRenameLosesOldContent | src/sftp.rs:123-127 | From every state with a destination there is a run in which the rename is refused, the writer reports an error, and the destination is gone. |
| AtomicProtocol.FailedOpenDeletesForeignFile | src/sftp.rs:130-137 | A file that already had the temp's name is removed by a writer that could not open it. |
| AtomicProtocol.ForeignFileSafeIff | src/sftp.rs:130-137 | A file that is there before the writers begin, and is not their destination, is the same in every run if and only if no writer has drawn its name. |
| AtomicProtocol.SharedTempTears | src/sftp.rs:28-47 | From every state in which three writers can open one free temp name there is a run after which the destination holds any chosen prefix of the third one's bytes. |
| Session.Session.RoundTrip | src/sftp.rs:67-139 | One call: its effect happens or does not, Ok only with the effect, an error only when it was impossible or a fault is counted. |
| Session.Session.WriteAll | src/sftp.rs:77-79 | The bytes reach the open temp in pieces of any size, nothing else changes in any state on the way, and Ok means that all are there. |
| Session.Session.Rename | src/sftp.rs:124-126 | The server may replace an existing target or refuse; Ok means that the source file is now at the target, whatever was there. |
| Session.Session.AtomicWriteRemote | src/sftp.rs:67-139 | Ok: the bytes are at the path and nothing else differs, temp included.  In every state on the way, and after an error, all but path and temp are untouched and the path is as before, absent or complete; before the cleanup after an error, what was at the path is still there or all of the new bytes are on the server, at the path or in the temp.  An error has a failed call, a taken temp name, a missing parent or a directory in the way as its reason; when no call failed the path is then as before, and there is no temp unless a directory has its name. |
| Session.Session.AtomicWriteLocal | src/sftp.rs:149-187 | As the remote write, what it says of errors included, but in every local state on the way the destination is as before or complete, never absent when it was there. |
| Session.Session.SetRemoteMode | src/sftp.rs:212-237 | In every state on the way only that file's mode may differ; Ok means that it is the merged mode. |
| Session.MergedModeBits | src/sftp.rs:221-222 | The low twelve bits are the source's; the four of the file type are the server's, or those of a regular file when it reports none; no other bit is set. |
| Session.TempSibling | src/sftp.rs:68-68 | The temp lies in the destination's directory, is not the destination, and can be created when the destination can. |
| Session.RandomTmpSuffix | src/sftp.rs:28-47 | Six letters or digits, whatever the hash, ten bits of it for each. |
| Session.SuffixIff | src/sftp.rs:28-47 | Every text of six letters or digits is drawn for some hash of 64 bits, and no other. |
| Listing.ReadOneDir | src/sftp.rs:406-437 | One directory's entries, split into exactly its files and, each once, its subdirectories. |
| Listing.ListLocalFiles | src/sftp.rs:403-440 | The explicit-stack walk ends, and returns exactly the files below the root, each with its own size, time and mode; it fails only for a missing root or a failed call. |
| Listing.ListRemoteFiles | src/sftp.rs:373-401 | The recursive walk returns the same map of the same tree, as the server reports it. |
| Listing.WalkStep | src/sftp.rs:406-437 | Reading one pending directory keeps the walk's invariant: no directory is found twice, and the files found are those of the directories read. |
| Listing.WalkDone | src/sftp.rs:403-440 | When nothing is pending, the files found are all the files below the root. |
| Listing.EntriesAll | src/sftp.rs:382-400 | The listings of all entries together are the listing of the directory, with no key lost or overwritten. |
| RsyncPlan.ParseOptions | src/sftp.rs:448-464 | The option loop computes the options in force: a flag is set exactly when it occurs anywhere, in any order, and the exclude patterns are exactly those given. |
| RsyncPlan.OptionsOf | src/sftp.rs:448-464 | The same, stated of the options: delete, dry-run (either spelling), checksum, excludes. |
| RsyncPlan.DeltaSizeIs | src/sftp.rs:502-510 | The size a delta is judged by: the bytes it spells out, and 13 for each copy. |
| RsyncPlan.PatchRestores | src/sftp.rs:518-518 | Copies of the old bytes, side by side up to the end, patch to the old bytes. |
| RunMeaning.ExcludedIff | src/sftp.rs:474-482 | A file is excluded if and only if some option is `exclude=` followed by a text that occurs in its path. |
| RunMeaning.SyncedIsRunMeans | src/sftp.rs:473-576 | The plan carried out is, relative path by relative path, what `Rsync.RsyncUpload` says of the options and the two trees, without any name of the plan. |
| RsyncPlan.TargetInverse | src/sftp.rs:473-484 | The mapping from local to remote paths is undone by the one from remote to local. |
| RsyncPlan.SourceInverse | src/sftp.rs:562-567 | And the other way round. |
| RsyncPlan.UploadOf | src/sftp.rs:473-484 | A local file is sent exactly when its own target is an upload: no two local files meet at one target. |
| RsyncPlan.SyncedMeans | src/sftp.rs:486-549 | After an Ok run without dry-run every file that is not excluded has its bytes at its target; without checksum the exception is a file listed with equal size and mtime, and that one is as it was. |
| RsyncPlan.RemovedExactly | src/sftp.rs:560-576 | A file that was there is absent after an Ok run if and only if deletion was asked for, the run was not dry, it was listed without a local counterpart (an excluded file counts as one), and its removal was not refused. |
| RsyncPlan.OrderDoesNotMatter | src/sftp.rs:473-561 | Any two Ok runs from one tree, with the two maps walked in any order, end with the same paths and contents. |
| RsyncPlan.SecondDecision | src/sftp.rs:486-549 | An immediate second run sends a file exactly when the server reports no sizes, the run is not dry, the file takes part and has bytes. |
| RsyncPlan.SecondRunIsIdle | src/sftp.rs:473-558 | The second run sends nothing if and only if the server reports sizes, the run is dry, or every file taking part is empty. |
| RsyncPlan.SecondRunRemovesNothing | src/sftp.rs:560-576 | The second run has nothing to remove. |
| RsyncPlan.DryRunIsDryIff | src/sftp.rs:466-543 | A dry run leaves the remote tree as it was before the call if and only if its root was there and no file takes the delta branch. |
| RsyncPlan.DryRunDelta | src/sftp.rs:486-543 | The loops of a dry run leave the tree they listed as it was if and only if no file takes the delta branch. |
| RsyncPlan.DryRunMakesRoot | src/sftp.rs:466-466 | A dry run whose root was missing has no file to take the delta branch; it makes the root, and nothing else differs. |
| RsyncPlan.DryRunCanOverwrite | src/sftp.rs:514-536 | There are trees, and a sound delta library, for which a dry run overwrites. |
| Rsync.DryRunOnMissingRoot | src/sftp.rs:466-466 | With an empty local directory, an empty remote tree and the option dry-run, a run with no failed call returns Ok and the remote tree has a new directory. |
| Rsync.UploadOne | src/sftp.rs:473-558 | One turn of the upload loop: nothing is sent unless the plan says so; Ok means that this file is dealt with and all others are as they were; an error has a named reason. |
| Rsync.KeepMode | src/sftp.rs:547-556 | The mode update leaves all but the mode as it was, and when no call fails the permission bits are the source's. |
| Rsync.UploadSameSize | src/sftp.rs:487-533 | The arms for a remote file of the same size: skip, equal bytes, or delta; what it leaves open is a full upload or a preview. |
| Rsync.WindowIsUploading | src/sftp.rs:67-139 | Each state of one write is a state of an upload in progress: every other path but the one temp, whose suffix is six letters or digits, holds its old node or its local counterpart's bytes, and while the destination is absent the temp has all bytes, if more is to come. |
| Rsync.FailedWriteStops | src/sftp.rs:130-137 | A write that failed without a failed call has left every path as it was, but for a file that had its temp's name. |
| Rsync.UploadAll | src/sftp.rs:473-558 | The whole loop, in any order: the plan is carried out in full or there is an error with a reason, and every state on the way is safe. |
| Rsync.DeleteExtra | src/sftp.rs:560-576 | The deletion loop, in any order: exactly the doomed files go, but for those whose removal failed, and in every state on the way all uploads are complete. |
| Rsync.RsyncUpload | src/sftp.rs:442-578 | The whole run.  At every moment, also of a run that ends with an error, each path has its old node or its local counterpart's bytes, but for the one write in progress and its temp: its destination is absent only while the temp has all bytes, or when the run has ended there; when it ended with an error and no failed call nothing is absent but a file that had a temp's name; nothing is removed before all uploads are complete.  Ok means that the plan holds, every parent was there and no directory in an upload's place; with no failed call, both roots there and no temp name taken it is Ok if and only if that was so; a dry run that returns Ok has changed nothing if and only if the root was there and no delta pays; an error has a failed call, a root that is no directory or a blocked target as its reason; with nothing to do, no state differs.  In terms of the arguments alone, an Ok run has done this at every relative path: a local file in whose path the text of some exclude option occurs leaves its target as it was; so does one that the server lists with the same size and time, unless checksum is among the options; any other has its bytes there, or in a dry run the target may be as it was, and when no call failed and the bytes are new there also its permission bits; a remote file with no local one in its place is gone if delete is among the options and the run is not dry, unless its removal failed; nothing else differs. |
| Rsync.NestedTargetFails | src/sftp.rs:466-466 | With one file in a local subdirectory and an empty remote root, every run returns an error. |
| Rsync.BlockedDoesNotFit | src/sftp.rs:67-139 | With free temp names, an upload that cannot succeed lacks its parent or has a directory in its place. |
| Rsync.SecondRunHasNothingToDo | src/sftp.rs:442-578 | After an Ok run, its removals all done, on a server that reports sizes, the next run is one with nothing to do. |
| Copy.CopyStep | src/sftp.rs:264-287 | Copying one more entry of a directory extends what has been copied by just that entry's subtree. |
| Copy.CopyDone | src/sftp.rs:264-287 | When all entries are copied the whole tree is, and nothing else has changed. |
| Copy.FreshCopyIsSame | src/sftp.rs:264-371 | A full copy to a place where nothing was has the same names, contents and permission bits. |
| Copy.CopiedFilesArrive | src/sftp.rs:309-371 | A copy that returned Ok has the bytes of every file, with the modes or without. |
| Copy.RoundTripIsIdentity | src/sftp.rs:264-371 | A copy out to a fresh place and back to a fresh place gives the same tree, and nothing outside the two places changes. |
| PushResult.TriedStep | src/sftp.rs:264-287 | Pushing one more entry extends the result by just that entry's subtree: files arrive, directories that can be made are made, what was there stays. |
| PushResult.TriedDone | src/sftp.rs:264-287 | When all entries are pushed the whole tree is, in that sense, and nothing else has changed. |
| PushResult.PushedFilesArrive | src/sftp.rs:264-307 | What a push that returned Ok means for files and for everything else: bytes at every file's target, all else as before. |
| PushResult.DirArrives | src/sftp.rs:266-285 | When the directories fit, each target of a directory is one afterwards. |
| PushResult.CopiedIffFits | src/sftp.rs:264-307 | Everything has been copied if and only if no directory was to go where a file was and the topmost one was there or could be made. |
| CopyFits.EntryFits | src/sftp.rs:264-287 | When a tree's files fit its place, those of each entry still fit when the entries before it have been pushed. |
| CopyFits.OnlyDirsFit | src/sftp.rs:264-287 | A tree of directories fits anywhere, and has no temp that could meet a name: a push of it can only fail by a failed call. |
| CopyFits.PushedFits | src/sftp.rs:264-307 | Conversely, files that have all been pushed without a failed call did fit: none met a directory, and each had a directory to go to or one that the push itself made. |
| CopyFits.EntryTempsClear | src/sftp.rs:264-371 | While its siblings are copied, no temp of an entry comes to meet a name that is taken, when none did in the whole. |
| CopyFits.EntryPullFits | src/sftp.rs:309-371 | What fits as a whole to pull, fits entry by entry once its directory has been made. |
| CopyStates.WriteCopies | src/sftp.rs:67-187 | Each state of one write is a state of a copy in progress: its target has its old node or its source's bytes, in a push it may be absent while the temp has all bytes, and all but its temp is as before. |
| CopyStates.EntryCopies | src/sftp.rs:264-371 | What any state of the copy of an entry is for the entry, it is for the whole tree, once the entries before it have arrived. |
| CopyStates.EntryStops | src/sftp.rs:264-371 | The same of the tree that an entry's copy leaves when it fails without a failed call. |
| TreeCopy.PushPath | src/sftp.rs:264-307 | The recursive push ends on every finite tree and touches only the target, what is below it and temps beside it.  Ok means, whatever calls have failed, that the bytes of all files have arrived, that all else is as before but for directories made, and that no temp is left; without a failed call also that the modes are right, and that everything is copied if and only if the directories fit.  Without a failed call and with no temp name taken it is Ok if and only if every file fits, whatever is there already: no directory is in its place and its directory is there or is one that the push makes.  At every moment, also of a push that fails, each path has its old node, is a directory made for one of the source, or has its source's bytes, but for the one write under way and its temp; its destination is absent only while the temp has all bytes, or when the push has ended there, and with no failed call not even then. |
| TreeCopy.PushFile | src/sftp.rs:286-306 | One file: with no failed call it is not pushed only if it cannot be created there, a directory is in its place, or a temp name beside it is taken; an existing file is overwritten. |
| TreeCopy.PushDir | src/sftp.rs:266-285 | The same of the directory arm, whose own `create_dir` is ignored. |
| TreeCopy.PushOntoFile | src/sftp.rs:266-285 | An empty directory pushed to where a file is, with no failed call, returns Ok and has not been copied. |
| TreeCopy.PullPath | src/sftp.rs:309-371 | The recursive pull, likewise: Ok means, whatever calls have failed, that all names and bytes are there and nothing else differs but missing directories above the target; without a failed call the modes are right as well.  Without a failed call and with no temp name taken it is Ok if and only if the whole fits: no file goes to where a directory is nor a directory to where a file is, and what is missing above can be made.  At every moment, also of a pull that fails, each path has its old node, is a directory made on the way or for one of the source, or has its source's bytes, but for one temp. |
| TreeCopy.CreateDirAll | src/sftp.rs:314-316 | Only missing directories on the way to the path are made; Ok means that it is a directory; with no failed call it is Ok if and only if nothing on the way is a file. |
| TreeCopy.PushThenPull | src/sftp.rs:264-371 | Any tree pushed to a place where nothing was and pulled to another comes back with every file's bytes when both return Ok; when no call failed it comes back the same in names, contents and permission bits, and nothing but the two places has changed; they do return Ok when no call fails and no temp can meet a name that is taken. |
| Includes.ExpandIncludeTokens | src/config.rs:319-366 | The one-pass loop with its one-character lookahead computes the token expansion of the whole pattern. |
| IncludeTheorems.DoubledStandsForItself | src/config.rs:319-366 | A text whose percent signs are doubled comes out as the text, whatever follows: every file name can be written in a pattern. |
| IncludeTheorems.TokenInContext | src/config.rs:323-356 | After any such text `%d`, `%u`, `%h` and `%%` stand for their values and any other percent sign for itself, and the rest is expanded on its own. |
| Text.FirstLine | src/config.rs:199-199 | A text is read line by line: a line ends with a line feed, or with a carriage return and a line feed, and comes out without. |
| Text.LastLine | src/config.rs:199-199 | What no line feed ends is a line as it is. |
| Text.WhiteSpaceIs | src/config.rs:200-213 | The white space that separates words is that of the 25 characters with that property. |
| IncludeLines.LineMeans | src/config.rs:211-246 | For any space, a word, one white-space character and anything behind it, the line is an Include line with the trimmed rest as its pattern if and only if the word is include in any case, an error when that rest is empty, and begins a block if and only if the word is host or match in any case; else it passes through. |
| IncludeLines.BareLineMeans | src/config.rs:211-226 | A line that is just a word is an error if the word is include in any case, and else passes through. |
| IncludeLines.IdleLineMeans | src/config.rs:200-205 | Blank lines and comments pass through. |
| IncludeLines.TrimMeans | src/config.rs:212-212 | Trimming takes away the white space at both ends, and nothing else. |
| IncludeLines.TextExpands | src/config.rs:199-299 | A text that begins with such a line: the files it includes come in its place and the rest of the text behind, an empty pattern is an error, behind Host or Match the rest is read as a block, and any other line passes through as it is. |
| IncludeLines.ExpandFirstLine | src/config.rs:179-302 | So the guarded expander returns what that reading gives, provided no file is read twice. |
| IncludeLines.ExpandOneInclude | src/config.rs:179-302 | For a text of one Include line in any spelling, whose pattern names one file of plain lines, it returns the file's lines, each ended by a line feed. |
| IncludeLines.IncludeBehindBlockFails | src/config.rs:229-241 | An Include line behind a Host or Match line, all in any case, is an error. |
| IncludeLines.AbsolutePattern | src/config.rs:258-259 | A pattern that begins with a slash stands for that path. |
| IncludeLines.RelativePattern | src/config.rs:260-262 | Any other that does not begin with a tilde lies in the directory of the file it is in. |
| IncludeLines.HomePattern | src/config.rs:249-257 | A tilde stands for the home directory, and what follows it and any slashes lies below. |
| IncludeLines.MatchesMeans | src/config.rs:267-273 | A pattern without a star, a question mark and an opening bracket names just the file of that path; any other the files it matches, and none is an error. |
| Includes.PreprocessIncludes | src/config.rs:179-302 | The guarded expander returns the plain flattening's text, and has read and marked just what that reads, exactly when the flattening has a value within the depth left, reads no file twice and none already seen; else it is an error.  It ends on every store of files.  At the top 16 levels are left. |
| Includes.IncludeMatched | src/config.rs:275-292 | The same of the loop over the files one line names. |
| Includes.IncludeOne | src/config.rs:275-292 | The same of one file: refused when seen, marked, read, expanded one level deeper. |
| Includes.ThenFresh | src/config.rs:278-281 | One global `seen` set, handed from part to part, refuses exactly the texts whose whole reading visits some file twice. |
| IncludeTheorems.BoundOnlyRefuses | src/config.rs:186-191 | The depth bound changes no result: the bounded flattening has a value if and only if the unbounded one has that value and is nested no deeper. |
| IncludeTheorems.ReachableGraphIsTree | src/config.rs:179-302 | In a run that succeeds, two chains of includes that lead to one file are the same chain. |
| IncludeTheorems.TwiceReachedFails | src/config.rs:278-281 | A file reached in two ways, in a cycle or not, is an error. |
| IncludeTheorems.CycleFails | src/config.rs:278-281 | A reachable file that leads back to itself is an error. |
| IncludeTheorems.RootCycleFails | src/config.rs:278-281 | So is a chain back to the text's own file, which is not in `seen` at the start. |
| IncludeTheorems.TooDeepFails | src/config.rs:186-191 | So is a chain of more than 16 includes. |
| IncludeTheorems.LinesInert | src/config.rs:193-299 | No line of the output is an Include directive. |
| IncludeTheorems.SecondPass | src/config.rs:193-301 | Expanding the output again always succeeds and reads no file, and gives the same text if and only if no line that came out ends in a carriage return. |
| IncludeTheorems.SecondPassOfCleanFiles | src/config.rs:193-301 | A second pass changes nothing when neither the text nor any file read has a carriage return before another line end or at its end. |
| IncludeTheorems.BareBlockKeyword | src/config.rs:211-226 | A line with nothing but Host or Match on it begins no block: the lines after it are read as if it were not there. |
| Frames.Wire.WriteDataFrame | src/control.rs:440-448 | The five header bytes and the payload are appended, as one frame. |
| Frames.Wire.WriteDone | src/control.rs:455-463 | A done frame with the code's low byte is appended. |
| Frames.Wire.ReadCmdFrame | src/control.rs:469-480 | A stream that ends within the length counts as closed, one that ends within the payload is an error; else the payload is returned and exactly its frame used up. |
| Frames.Wire.TryResume | src/control.rs:543-575 | The client's loop shows what the frames say, in order, or nothing when quiet, and stops right behind the done frame. |
| Frames.LengthSurvives | src/control.rs:440-448 | A length comes back modulo 2^32. |
| Frames.BigEndianMeans | src/control.rs:440-448 | The four bytes are the length in base 256, the most significant first. |
| Frames.FramesRoundTrip | src/control.rs:440-463 | For every list of payloads that fit, followed by a done frame and anything, the client recovers the list in order and the code modulo 256, and leaves exactly the rest unread. |
| Frames.LastFrame | src/control.rs:543-575 | Whatever the last frame is: with tag 0 the code is the first byte of its payload, or 0 when there is none; an unknown tag is an error, and shows all that came before it. |
| Frames.RoundTripIffFits | src/control.rs:440-448 | That holds if and only if every payload is shorter than 2^32 bytes. |
| Frames.CutStreamFails | src/control.rs:543-561 | A stream cut anywhere before its end gives an error and no exit code, and shows only what was sent, in order. |
| Frames.CmdFrameRoundTrip | src/control.rs:469-490 | The command the client sends is the command the master reads. |
| Frames.CutCommand | src/control.rs:469-480 | A command frame cut within its length counts as a closed connection, one cut within its payload is an error. |
| Frames.ControlReplyIsNoExit | src/control.rs:416-438 | The master's untagged answer to a control verb is never taken for an exit code. |
| Channel.PumpSessionToUds | src/control.rs:360-403 | The pump writes one frame for each piece of data and returns the code, as the pump's meaning says. |
| Channel.PumpIs | src/control.rs:360-403 | It forwards all data, and returns the last exit status, before the first Eof or Close. |
| Channel.AsI32Means | src/control.rs:382-382 | The code is the i32 with the same 32 bits as the status. |
| Channel.ReadChannel | src/ssh.rs:924-997 | The reader task, with its drain, computes the reader's meaning. |
| Channel.DrainChannel | src/ssh.rs:966-983 | The drain goes past further Eof and Close and keeps the last status that comes in time. |
| Channel.ReaderIs | src/ssh.rs:924-997 | The direct reader shows the data up to the first exit status before the end; that status is its code, or else the last one the drain sees. |
| Channel.SameOutputIff | src/ssh.rs:930-997 | A direct and a resumed session show the same bytes if and only if no data lies between the first status and the first Eof or Close. |
| Channel.SameCodeIff | src/control.rs:380-391 | Their codes agree modulo 256 if and only if the first and the last status before the end do, or, when there is none, what the direct session drains is 0 modulo 256. |
| Resume.HandleResume | src/control.rs:296-356 | The master stops if and only if the first word of the line is exit or stop.  For check the client is sent the length and text of `ok`, the process number and a line feed; for exit and stop the eight bytes of `bye` and a line feed with their length; for an empty line the done frame 0; for any other line the channel is handed the line without its trailing line feeds and then its trailing carriage returns, and the client the frames of what it delivers.  A closed or undecodable frame is answered with nothing. |
| Resume.DispatchMeans | src/control.rs:309-344 | What is done with a line, told from its first word and from the line without its trailing line feeds and carriage returns. |
| Resume.FirstWordMeans | src/control.rs:320-320 | A word is the first of a line if and only if the line is white space, the word, and nothing or something that begins with white space. |
| Resume.CommandMeans | src/control.rs:309-312 | The command is the one text without carriage returns at its end that the line is, but for carriage returns and then line feeds behind it. |
| Resume.ServeLine | src/control.rs:320-356 | The arms write what that says, one after the other. |
| Resume.ResumedCommand | src/control.rs:296-356 | A command that is run reaches the client whole, through the frames. |
| Resume.ResumedVerbFails | src/control.rs:320-340 | A command whose first word is a control verb gives the client an error and no output. |
| Resume.DirectAndResumedAgree | src/control.rs:360-403 | With at most one status, before the first Eof or Close, and no data between the two, a resumed session shows the same bytes as a direct one and its code is the same modulo 256. |
| ExitRace.StepKeeps | src/ssh.rs:924-997 | Every step of the connection task, the reader and the session keeps the invariant: every code that is about is 0 or a status sent, and the shared map holds the last one recorded until it is looked up. |
| ExitRace.ReturnedIsHonest | src/ssh.rs:1124-1154 | In every interleaving the code returned is 0 or a status the server sent, cast to i32. |
| ExitRace.CallbackDecides | src/ssh.rs:1137-1150 | A callback that ran before the lookup decides the code, whatever the order of Eof, Close and status and whichever branch was selected. |
| ExitRace.LastServedDecides | src/ssh.rs:1137-1150 | When every status sent has been recorded by then, the last one is returned. |
| ExitRace.NoCallbackNoOverride | src/ssh.rs:1151-1151 | Without a callback before the lookup the code is what the selection gave. |
| ExitRace.ReturnedIs | src/ssh.rs:1124-1154 | The code of every run in closed form: the last status recorded before the lookup; without one, what the reader sent when the selection took that, else 0. |
| ExitRace.StatusReturnedIff | src/ssh.rs:1124-1154 | The one status of a session, unless it is 0, is returned if and only if its callback ran before the lookup or the selection took the oneshot that carried it; in every other run 0 is. |
| ExitRace.ReadStatusCanBeLost | src/ssh.rs:1124-1124 | For every status there is a run in which the reader receives and sends it and 0 is returned. |
| ExitRace.DyingReaderLoses | src/ssh.rs:1124-1124 | And one in which the reader ends before it has sent it, and 0 is returned. |
| ExitRace.LateStatus | src/ssh.rs:425-437 | A status that comes after the channel was closed is returned when its callback beats the lookup and lost when it does not. |
| ExitRace.NothingAfterDrop | src/ssh.rs:425-437 | Once the channel is gone nothing more is queued: what the reader has taken and what it can still take stay the same together. |
| ExitRace.SentCodeIsReaders | src/ssh.rs:924-997 | Whatever the interleaving, the code the reader task sends is the one the sequential reader computes from the messages it took. |
| ExitRace.ReadersCodeIsSent | src/ssh.rs:924-997 | Conversely, for all messages and however long the drain waits, there is a run in which it sends what the sequential reader computes. |
| EscapeScanner.ScanRead | src/ssh.rs:1042-1101 | The inner loop finds what the scan's meaning finds: the requests for help, the disconnect and its position, and the new line state; without a disconnect it comes to the end of the read. |
| EscapeScanner.ScanMeans | src/ssh.rs:1028-1101 | Position by position: the scan disconnects at exactly the first escape at the start of a line that a dot follows, has then seen exactly the earlier ones that a question mark follows, once and in order, and else leaves the line state of the end of the read.  A line starts after a line feed, after a request for help, or where the state says. |
| EscapeScanner.EscapeBytes | src/ssh.rs:1041-1084 | The bytes that act are the line feed, the dot and the question mark. |
| EscapeScanner.EscapePump | src/ssh.rs:1030-1117 | The blocks forwarded are the reads themselves, one by one, up to the one that ends the pump, for every escape setting: the carry stays empty, and on a disconnect exactly the reads before the current one were forwarded.  Which of the four ends it is, is stated for each. |
| EscapeScanner.SplitIff | src/ssh.rs:1042-1101 | One read or two make no difference, in disconnect, help and line state, if and only if the cut does not separate an escape from its action. |
| EscapeScanner.UnseveredSplit | src/ssh.rs:1042-1101 | They are the same when it does not, from every line state. |
| EscapeScanner.SeveredSplit | src/ssh.rs:1046-1046 | They differ whenever it does. |
| EscapeScanner.WellCutIsOneRead | src/ssh.rs:1030-1117 | Any number of reads that sever no escape scan as the whole input does. |
| EscapeScanner.ChunkingDoesNotMatter | src/ssh.rs:1030-1117 | Any two such ways of cutting one input agree. |
| EscapeScanner.StateIsManyReads | src/ssh.rs:1018-1028 | The state the pump carries from read to read is that of the series of scans. |
| DollarRewrite.RewriteDollarRefs | src/main.rs:55-83 | The index loop computes the rewriting of the command's bytes; with no names declared the command is returned. |
| DollarRewrite.NameCharacters | src/main.rs:85-91 | A name begins with one of 52 letters or an underscore, and goes on with those and the ten digits. |
| DollarRewrite.Utf8CharMeans | src/main.rs:60-60 | The bytes of the command are those of its characters: a character's code in groups of six bits, in no more bytes than needed. |
| DollarRewrite.RewritePreservesMeaning | src/main.rs:55-83 | For every command without a percent sign and all names and values, what cmd.exe makes of the rewritten command is what a POSIX shell makes of the original, longest names first. |
| DollarRewrite.PreservedIff | src/main.rs:55-83 | For all values of the names and of any others, the two readings agree if and only if no percent sign of the command is followed, other than immediately, by another percent sign or a known reference. |
| DollarRewrite.PercentInCommandDiffers | src/main.rs:71-76 | One command with a percent sign for which they do not. |
| DollarRewrite.RewriteIdempotent | src/main.rs:55-83 | Rewriting the result changes nothing. |
| DollarRewrite.FaithfulIffAscii | src/main.rs:79-80 | Once a name is declared the result is the rewriting of the characters if and only if the command is ASCII; otherwise it is longer. |
| DollarRewrite.AsciiRewrite | src/main.rs:55-83 | For ASCII commands what is proved of the rewriting holds of the method, and calling it twice is calling it once. |
| ForwardSpec.RenderRoundTrip | src/cli.rs:517-595 | A forward that some text stands for is read back from its rendering, with the same four fields, for both values of the gateway option. |
| ForwardSpec.ParseIff | src/cli.rs:517-595 | A text is accepted as a forward if and only if, trimmed, it is written by the grammar: a bracketed bind address, none, or a plain first field that is no port; the bind port; a bracketed host, or one that ends at the last colon; the target port.  Any number of colons may follow a closing bracket.  Every other text is refused. |
| ForwardErrors.RefusedIff | src/cli.rs:517-595 | A text is refused with one of the five errors if and only if, trimmed, it has just that fault: a bracket that is not closed, in front or in the host, a missing field, or a text that is no port where the bind port or the target port is to be. |
| ForwardSpec.ParsedIsExpressible | src/cli.rs:517-595 | Every accepted text gives ports below 65536, a bind address without a closing bracket unless it can be a plain first field, and a host that contains one only when it does not begin with an opening one. |
| ForwardSpec.ParsedIffReparses | src/cli.rs:517-595 | A forward is what some text parses to, if and only if its rendering parses to it, if and only if its four fields satisfy that condition. |
| ForwardSpec.AcceptedReparses | src/cli.rs:517-595 | Every accepted text has a rendering that parses to the same result, for both values of the option. |
| ForwardSpec.UnbracketedForms | src/cli.rs:536-555 | A plain bind address is taken as written; with none, the option chooses between 0.0.0.0 and 127.0.0.1. |
| ForwardSpec.NumberRoundTrip | src/cli.rs:573-588 | A printed number is read back when it does not exceed the type's maximum, and refused when it does. |
| ForwardSpec.NumberIff | src/cli.rs:573-588 | A text is read as a number if and only if it is a plus sign or none, any number of zeros and the number as printed, and the number is not too large. |
| ForwardSpec.DecimalUnique | src/cli.rs:573-588 | The printed number is the only text of digits for it without a needless zero. |
| Socks5.Client.Handshake | src/proxy.rs:57-103 | The step-by-step reading computes the result and leaves the bytes unread that the handshake's meaning says, and the method answer is sent once, after a whole hello. |
| Socks5.Client.ReadAddress | src/proxy.rs:71-102 | The three address arms and the refusal of any other type. |
| Socks5.RequestIsServed | src/proxy.rs:57-103 | For every well-formed hello and request of each address type, followed by any payload, the result is the address text and the port, and exactly the payload is left unread. |
| Socks5.ServedWasSent | src/proxy.rs:57-103 | Whatever is accepted is some well-formed client's bytes, and the result is that request's. |
| Socks5.CutRequestFails | src/proxy.rs:57-103 | A request cut at any byte is refused. |
| Socks5.MoreToRead | src/proxy.rs:57-103 | Bytes that come later do not change an answer. |
| Socks5.TryParseIpv4 | src/proxy.rs:37-47 | The loop returns the four octets of four dotted number texts, and nothing exactly when there are none. |
| Socks5.DottedIff | src/proxy.rs:37-47 | A text is accepted as these octets if and only if it is four number texts for them joined by dots. |
| Socks5.DottedRoundTrip | src/proxy.rs:71-80 | The text the handshake makes of IPv4 octets is read back as the same octets. |
| Socks5.DottedMeans | src/proxy.rs:71-80 | It is four numbers joined by dots, none with a sign or a needless zero. |
| Socks5.Response | src/proxy.rs:13-35 | The reply's bytes for the kind of address that the bind text is taken for, the length of a name cut to a byte. |
| Socks5.ReplyReadIff | src/proxy.rs:13-35 | A client that reads the reply by section 6 of RFC 1928 recovers status, address and port if and only if the address is not a name of 256 bytes or more. |
| Socks5.AddressComesBack | src/proxy.rs:13-35 | The text of an IPv4 request, used as the bind address of the reply, reaches the client as the octets it sent. |

## Left out

- Sockets, TLS and SSH handshakes, host keys and authentication, russh and tokio, byte pumps and accept loops: library
  code or plumbing over it; only the message sequences they deliver are modelled.
- Command-line definitions, help, logging, configuration printing, X11 flags, locale filters, `apply_resolved`: single
  facts about single branches.
- `rsync_download`: dead code, and a mirror of the upload.
- `parse_destination`, `parse_stdio_forward`, `parse_dynamic_spec`, `parse_proxy_jump`: smaller parsers of the same kind
  as the forward specification.
- The internals of copia (`Patch` of a delta is taken to give the new bytes) and of russh-config's parser.
- Clocks, fsync durability, symlinks, ACLs, Windows paths, terminal modes and forking.
- Doubled slashes inside a path and the components `.` and `..` are not resolved: paths are strings that name nodes, up
  to trailing slashes.
- Session.Session.AtomicWriteLocal: a path that ends in a slash has its temp name built as the remote write builds it.
- Session.RandomTmpSuffix: the hash of time and thread is any number; how many calls draw one
  temp name is a hypothesis of `AtomicProtocol`, not a result.
- Rsync.RsyncUpload: nothing but the run itself changes the two trees while it runs, and the local tree does not change;
  concurrent writers are the subject of `AtomicProtocol`.  What time the server gives a file it receives is open.
- RsyncPlan.OrderDoesNotMatter: compares runs in which the same removals, if any, were refused by the server.
- Includes.PreprocessIncludes: error texts are not distinguished; the in-out `seen` set is passed in and returned;
  globbing, canonical paths and a path's directory are functions of the world, fixed during a run, so
  `expand_glob` and the fallback for a path without a parent are not modelled.
- IncludeTheorems.RootCycleFails: a cycle through the root file is found when it is read a second time, one level late,
  as in the code.
- Resume.HandleResume: decoding from UTF-8 is a parameter, and so is what the channel delivers for a command; that the
  session can be opened is taken for granted.
- Channel.ReadChannel: the drain's five seconds are a number of messages that come in time.
- Resume.DirectAndResumedAgree: compares the reader's code; that the session returns it, or the callback's, is
  `ExitRace`.
- ExitRace.ReturnedIsHonest: one channel; the map's other channels and lock poisoning are left out.
- EscapeScanner.EscapePump: what is printed for help and on a disconnect is counted, not spelled out.
- DollarRewrite.PreservedIff: cmd.exe's names are compared as written, not without case, and quoting is that
  of neither shell.
- ForwardSpec.ParsedIffReparses: error texts are reduced to five kinds.
- Socks5.RequestIsServed: the text of an IPv6 address and lossy UTF-8 decoding are parameters, as are the IPv6 parser
  and UTF-8 encoding in a reply.
