# libtemp_file in Dafny

A model of libtemp_file, a small C++ library of scope-bound temporary files. A handle
owns the path of a temporary file and deletes the file when the owner goes away,
unless the handle has been disconnected first. The model covers five pieces of the
library:

- `unique_temp_file` (module `Unique`) is a move-only sole owner. The template in
  include/daw/temp_file.h and the class in src/temp_file.cpp run the same code, so
  one model serves both.
- `shared_temp_file` of include/daw/temp_file.h (module `Shared`): copies share one
  `make_shared<unique_temp_file>` block, and the last copy deletes the file.
- The `shared_temp_file` of include/temp_file.h and src/temp_file.cpp (module
  `Legacy`). It differs from the template in how it absorbs a unique handle, in its
  null-tolerant `operator bool` and in its raw comparisons.
- `delete_on_exit` of include/delete_on_exit.h, src/delete_on_exit.cpp and the
  root-level delete_on_exit.cpp (module `DeleteOnExit`). Its copies share a bare
  `scoped_delete_on_exit` path, which can be written through `operator*`.
- The process-wide registry of the root-level temp_file.cpp (module `Registry`):
  `create_tmpfile`, `delete_tmpfile`, `scoped_tmpfile`, and the sweep that
  `~tmp_file_holder_t` runs at exit.

The supporting modules are:

- `Paths`: paths are character sequences, and the empty path means "owns nothing".
  The module has `/` joining, the generated `<stem>.tmp` names, and the
  lexicographic order.
- `Fs`: an abstract filesystem. It records what is at each path (regular file or
  directory), the paths whose removal the OS refuses, and the open descriptors.
  The empty path names nothing: it never exists and is never a directory, as
  `exists("")` and `is_directory("")` report. `open` with `O_CREAT | O_EXCL` follows the POSIX definition: it fails when the path
  exists.
- `SharedCells`: `std::shared_ptr` as a store of reference-counted blocks. Each
  variable is a slot holding a block id or null. `Valid` says that every block's
  owner count is the number of slots pointing at it.
- `Outcomes`: `Option`, `Result`, and the error kinds behind each exception message.

Operations are pure functions on a `World`, which holds the filesystem and the
store. Every destructor is a function from the old filesystem to the new one. The
random name `unique_path()` draws and the temp directory are parameters (`stem`,
`tempDir`). An exception is an `Err`/`Fail` value. A destructor that swallows
exceptions just returns the filesystem.

The comparison operators behave in three different ways across the variants:

- the unique handles compare raw paths;
- the template `shared_temp_file` makes `==` false and `<=` true between two empty
  handles;
- the legacy `shared_temp_file` compares raw paths, so two empty handles are equal.

`Legacy.VariantsDifferOnlyOnEmptyEquality` pins down how far apart the two shared
variants are.

## Model

| member | source | states |
|---|---|---|
| Paths.Join | include/daw/temp_file.h:50-54 | `folder / name` starts with `folder` and ends with `name`, and is strictly longer than `folder` when the name is not empty |
| Paths.TmpFileName | include/daw/temp_file.h:48-49 | `unique_path().replace_extension(".tmp")` is a non-empty name ending in `.tmp` |
| Paths.LessIsStrictTotalOrder | include/daw/temp_file.h:190-224 | the path order behind the operators is irreflexive, transitive, total and asymmetric, with the empty path below every other |
| Paths.NotGreaterIsLessOrEqual | include/daw/temp_file.h:214-224 | `!(b < a)` holds exactly when `a < b` or `a == b`, which is what `<=` and `>=` rely on |
| Fs.Remove | include/daw/temp_file.h:127 | `remove` gives false when nothing is there, true after deleting, and an error when the OS refuses; only that path changes |
| Fs.OpenExclusive | include/daw/temp_file.h:156-157 | the exclusive open succeeds exactly when the path is non-empty and absent; success adds a regular file and a new descriptor, and failure returns -1 and changes nothing |
| Fs.Close | include/daw/temp_file.h:172 | closing takes the descriptor out of the open set and changes nothing on disk |
| Fs.OpenExclusiveFresh | include/daw/temp_file.h:150-151 | a successful open hands the caller a descriptor that was not already open |
| Fs.OpenThenCloseRestoresDescriptors | include/daw/temp_file.h:170-173 | opening and then closing leaves the same descriptors open as before |
| SharedCells.Make | include/daw/temp_file.h:235-236 | `make_shared` appends a variable holding a new block with the given payload; the other variables are unchanged |
| SharedCells.Share | include/temp_file.h:105 | the copy constructor makes a new variable pointing at the same block, which sees the original's object; every other variable keeps its object |
| SharedCells.MoveOut | include/temp_file.h:106 | the move constructor gives the block, with its object, to the new variable and leaves the source null; every other variable keeps its block and object |
| SharedCells.Release | include/daw/temp_file.h:252 | `reset()` nulls the variable; a payload comes back only from the variable's own block |
| SharedCells.CopyAssign | include/temp_file.h:107 | copy assignment points the target at the source's block and leaves every other variable where it was |
| SharedCells.MoveAssign | include/temp_file.h:108 | move assignment gives the target the source's block and nulls the source, leaving every other variable where it was; self-move changes nothing |
| SharedCells.Install | include/daw/temp_file.h:253 | assigning a new block to a null variable makes it hold exactly that payload |
| SharedCells.Update | include/daw/temp_file.h:268-270 | a write through one variable changes the object every variable of that block sees, and the object of no other block |
| SharedCells.MakeValid | include/daw/temp_file.h:235-236 | `make_shared` keeps every owner count right, takes a block id not yet in use, and leaves every other variable's payload alone |
| SharedCells.InstallValid | include/daw/temp_file.h:251-255 | installing a new block in a null variable keeps the counts right and other variables' payloads intact |
| SharedCells.ShareValid | include/temp_file.h:105 | copying keeps every owner count equal to the number of variables pointing at the block |
| SharedCells.MoveOutValid | include/temp_file.h:106 | moving keeps every owner count right |
| SharedCells.ReleaseValid | include/temp_file.h:91-93 | dropping a variable frees the block (returning its payload) exactly when it was the last owner; every other variable keeps its payload |
| SharedCells.CopyAssignValid | include/temp_file.h:107 | copy assignment keeps the counts right and frees the target's old block, returning its object, exactly when the two blocks differ and the target was its last owner |
| SharedCells.CopyAssignKeepsPayloads | include/temp_file.h:107 | after copy assignment the target sees the source's object and every other variable still sees its own |
| SharedCells.MoveAssignValid | include/temp_file.h:108 | move assignment keeps the counts right and frees the target's old block, returning its object, exactly when the variables differ and the target was its last owner |
| SharedCells.MoveAssignKeepsPayloads | include/temp_file.h:108 | after moving between two variables the target sees the source's old object and every variable other than the two still sees its own |
| SharedCells.UpdateValid | include/daw/temp_file.h:268-270 | a write through a block keeps every owner count right |
| Unique.GenerateTempFilePath | include/daw/temp_file.h:46-60 | `folder / <stem>.tmp` is non-empty, differs from `folder`, lies strictly inside it and ends in `.tmp` |
| Unique.New | src/temp_file.cpp:58-59 | the default constructor yields an armed handle on a fresh name strictly inside the temp directory |
| Unique.FromPath | include/daw/temp_file.h:81-84 | a directory argument gets a fresh child name different from it; any other argument is kept; since the empty path is never a directory, the handle is empty exactly for the empty argument |
| Unique.Disconnect | src/temp_file.cpp:64-66 | `disconnect()` returns the held path and leaves the handle empty |
| Unique.Remove | include/daw/temp_file.h:123-129 | `remove()` always leaves the handle empty and deletes the held path unless the OS refuses; it fails exactly when an armed handle's existing file cannot be removed, and an empty handle does nothing |
| Unique.Destroy | src/temp_file.cpp:68-72 | the destructor deletes the held path when armed and removable and changes nothing else, even when removal fails |
| Unique.MoveConstruct | include/daw/temp_file.h:94-95 | the new handle takes the path and the source is left empty |
| Unique.MoveAssign | include/daw/temp_file.h:97-102 | self-move changes nothing; otherwise the target takes the source's path and the source is left empty |
| Unique.DisconnectTwice | include/daw/temp_file.h:118-121 | the first `disconnect()` returns the path and a second returns the empty path |
| Unique.DisconnectSuppressesDeletion | include/temp_file.h:55-56 | after `disconnect()` the destructor leaves the disk exactly as it was |
| Unique.RemoveThenDestroyDeletesOnce | src/temp_file.cpp:82-87 | after `remove()`, a second `remove()` or the destructor changes nothing: the file is deleted at most once |
| Unique.ScopeExitDeletes | include/daw/temp_file.h:86-92 | an armed handle going out of scope deletes its file and no other |
| Unique.MoveLeavesOneOwner | include/temp_file.h:44-47 | a move leaves the source empty so that only the new handle deletes the file, and the deletion is the one the source would have done |
| Unique.MoveAssignLeavesOldFile | include/daw/temp_file.h:97-102 | move assignment drops the target's old path without deleting it: the old file outlives both destructors, and together they delete exactly what the source alone would have |
| Unique.SecureCreateFd | include/daw/temp_file.h:152-168 | no contract of its own, because its two checks after the open are kept as written and cannot fire; `Unique.SecureCreateFdOutcomes` states its outcomes |
| Unique.SecureCreateFile | include/daw/temp_file.h:171-173 | no contract of its own; `Unique.SecureCreateFileClosesDescriptor` states its outcomes |
| Unique.SecureCreateStream | include/daw/temp_file.h:177-182 | no contract of its own; `Unique.SecureCreateStreamOwnsDescriptor` states its outcomes, on the disk and on the descriptors |
| Unique.SecureCreateFdOutcomes | include/daw/temp_file.h:150-168 | an empty handle is an error; the open fails exactly when the path exists; otherwise a new regular file and a new descriptor appear; the two checks after the open never fire |
| Unique.SecondSecureCreateFails | src/temp_file.cpp:105-107 | after one successful `secure_create_fd()`, a second on the same path fails with "Could not create temp file" |
| Unique.SecureCreateFileClosesDescriptor | src/temp_file.cpp:116-118 | `secure_create_file()` fails exactly when `secure_create_fd()` does, with the same error and the disk unchanged; on success the path is a new regular file, nothing else on disk changes, and no descriptor is left open |
| Unique.SecureCreateStreamOwnsDescriptor | include/daw/temp_file.h:175-182 | `secure_create_stream()` fails exactly when `secure_create_fd()` does, with the same error and the disk unchanged; on success the path is a new regular file, nothing else on disk changes, and the stream owns the new descriptor, which dropping the stream closes |
| Unique.CreateUseDestroy | tests/src/temp_file_test.cpp:25-39 | a new handle whose file is created securely and then dropped leaves the disk exactly as it was before |
| Unique.Eq | include/daw/temp_file.h:190-194 | `==` on the held paths; `Unique.ComparisonsAreTotalOrder` states its laws |
| Unique.Ne | include/daw/temp_file.h:196-200 | `!=` on the held paths; `Unique.ComparisonsAreTotalOrder` states its laws |
| Unique.Lt | include/daw/temp_file.h:202-206 | `<` on the held paths; `Unique.ComparisonsAreTotalOrder` states its laws |
| Unique.Gt | include/daw/temp_file.h:208-212 | `>` on the held paths; `Unique.ComparisonsAreTotalOrder` states its laws |
| Unique.Le | include/daw/temp_file.h:214-218 | `<=` on the held paths; `Unique.ComparisonsAreTotalOrder` states its laws |
| Unique.Ge | include/daw/temp_file.h:220-224 | `>=` on the held paths; `Unique.ComparisonsAreTotalOrder` states its laws |
| Unique.ComparisonsAreTotalOrder | src/temp_file.cpp:124-146 | the six operators on unique handles are those of a strict total order on the held paths, and `==` is equality of paths |
| Shared.New | include/daw/temp_file.h:240 | the default constructor adds a variable whose new block holds a default `unique_temp_file` |
| Shared.FromPath | include/daw/temp_file.h:242-246 | the path constructor's block holds `unique_temp_file(p)`, so the directory rule applies |
| Shared.FromUnique | include/daw/temp_file.h:248-249 | absorbing a unique handle leaves it empty and builds the block from its path with the path constructor |
| Shared.AssignUnique | include/daw/temp_file.h:251-255 | assigning a unique handle leaves it empty; what happens to the disk and the blocks is stated by `Shared.AssignUniqueDropsOldFirst` |
| Shared.Copy | include/daw/temp_file.h:230-236 | a copy is a new variable on the same block, seeing the same handle; every other variable keeps its handle and the disk is untouched |
| Shared.CopyAssign | include/daw/temp_file.h:230-236 | copy assignment points the target at the source's block; `Shared.CopyAssignDropsOldBlock` states the rest |
| Shared.Move | include/daw/temp_file.h:230-236 | a move gives the block and its handle to a new variable and leaves the source null; every other variable keeps its block and handle, and no file is touched |
| Shared.MoveAssign | include/daw/temp_file.h:230-236 | self-move-assignment changes nothing; otherwise the target takes the source's block and the source is left null; `Shared.MoveAssignDropsOldBlock` states the rest |
| Shared.Drop | include/daw/temp_file.h:226-229 | dropping a variable nulls it |
| Shared.Disconnect | include/daw/temp_file.h:268-270 | `disconnect()` returns the block's path and leaves every variable of that block seeing an empty handle; the disk, which block each variable holds and the handles of all other blocks are unchanged |
| Shared.SecureCreateFd | include/daw/temp_file.h:292-297 | an empty or null handle is refused before anything happens; otherwise the result and the disk are those of the unique handle's `secure_create_fd()` |
| Shared.SecureCreateFile | include/daw/temp_file.h:300-305 | an empty or null handle is refused before anything happens; otherwise it is the unique handle's `secure_create_file()` |
| Shared.SecureCreateStream | include/daw/temp_file.h:309-311 | it is the unique handle's `secure_create_stream()`, applied without a check of its own: same disk, same result, and no variable changes |
| Shared.SharedSecureCreateStreamOutcomes | include/daw/temp_file.h:309-311 | on a present block, `secure_create_stream()` refuses exactly an empty handle, fails exactly when the path exists and then leaves the disk alone, and otherwise creates the path as a regular file, changing nothing else on disk, with the stream owning the new descriptor |
| Shared.IsEmpty | include/daw/temp_file.h:277-280 | `empty()`: a null block or an empty path; `Shared.EmptyIsNotArmed` relates it to `operator bool` |
| Shared.IsArmed | include/daw/temp_file.h:272-275 | `operator bool`, asked of the block's handle; `Shared.EmptyIsNotArmed` states that it is "the path is not empty" |
| Shared.Eq | include/daw/temp_file.h:319-328 | `==`, false unless both sides are armed; `Shared.ComparisonRelations` and `Shared.EmptyComparesAsymmetrically` state its laws |
| Shared.Ne | include/daw/temp_file.h:330-339 | `!=`, true unless both sides are armed; `Shared.ComparisonRelations` states that it negates `==` |
| Shared.Lt | include/daw/temp_file.h:341-351 | `<` with an empty side below an armed one; `Shared.LtIsStrictWeakOrder` states its laws |
| Shared.Gt | include/daw/temp_file.h:353-363 | `>`; `Shared.ComparisonRelations` states that it is `<` flipped |
| Shared.Le | include/daw/temp_file.h:365-375 | `<=`; `Shared.ComparisonRelations` states that it is not `>` |
| Shared.Ge | include/daw/temp_file.h:377-387 | `>=`; `Shared.ComparisonRelations` states that it is not `<` |
| Shared.DropDeletesOnlyLast | include/daw/temp_file.h:226-229 | dropping a variable deletes the file only when it was the block's last owner; other owners still see the same path |
| Shared.CopyThenDropBoth | tests/src/temp_file_test.cpp:25-39 | with two copies of a block, dropping the first leaves the disk alone and dropping the second deletes the file |
| Shared.DisconnectVisibleToAllCopies | include/temp_file.h:117-118 | `disconnect()` through one copy empties every copy, and dropping any of them afterwards deletes nothing |
| Shared.AbsorbLeavesOneDeleter | include/daw/temp_file.h:248-249 | after absorbing, the source's destructor deletes nothing, the new block has one owner, a non-directory path is kept, and the shared handle is empty exactly when the source was |
| Shared.AbsorbDirectoryGetsFreshName | include/daw/temp_file.h:249 | an absorbed path that is now a directory is replaced by a fresh name inside it |
| Shared.AssignUniqueDropsOldFirst | include/daw/temp_file.h:251-255 | assignment first deletes the old file if the variable was its block's last owner, and otherwise leaves the disk alone; the new block then holds the path constructor's handle for the source's path on the resulting disk, which keeps a non-directory path even when it is the one just deleted and is empty exactly when the source was; the other variables keep their handles |
| Shared.CopyOperationsKeepCounts | include/temp_file.h:105-108 | copy and move construction and assignment keep the store valid; copy-assigning a block to itself deletes nothing |
| Shared.CopyAssignDropsOldBlock | include/temp_file.h:107 | after copy assignment the target sees the source's handle and the others keep theirs; the old file goes exactly when the target was the last owner of a different block |
| Shared.MoveAssignDropsOldBlock | include/temp_file.h:108 | after a move between two variables the target sees the source's handle, the source is null and the others keep theirs; the old file goes exactly when the target was its block's last owner, and self-move deletes nothing |
| Shared.SharedSecureCreateFdOutcomes | include/daw/temp_file.h:292-297 | `secure_create_fd()` refuses exactly the empty or null handles, fails exactly when the path exists, and succeeds exactly on an armed handle whose path is absent; a failure changes nothing, and success creates the path as a regular file with a new descriptor and changes nothing else on disk |
| Shared.EmptyIsNotArmed | include/daw/temp_file.h:272-280 | on a present block, `empty()` is the negation of `operator bool`, which means "the path is not empty" |
| Shared.ComparisonRelations | include/daw/temp_file.h:319-387 | `==` is false when either side is empty, `!=` is its negation, `>` is `<` flipped, `<=` is not `>`, `>=` is not `<`, and an empty side sorts below an armed one |
| Shared.EmptyComparesAsymmetrically | include/daw/temp_file.h:319-375 | two empty handles are unequal yet `<=` and `>=` each other; among armed handles `<=` is `<` or `==` |
| Shared.LtIsStrictWeakOrder | include/daw/temp_file.h:341-351 | `<` is irreflexive, transitive and asymmetric |
| Shared.DirectoryArgumentScenario | tests/src/temp_file_test.cpp:73-86 | a handle built on a directory owns a fresh name inside it; `secure_create_stream()` creates that file, and dropping the handle after the stream is closed leaves the disk and descriptors as they were |
| Legacy.FromUnique | src/temp_file.cpp:154-155 | absorbing puts exactly the moved unique handle into a new block and leaves the source empty |
| Legacy.AssignUnique | src/temp_file.cpp:157-161 | assignment leaves the source empty and the variable holding a block with the source's path |
| Legacy.AbsorbMovesHandle | src/temp_file.cpp:154-155 | absorbing keeps the path as it is, with no directory rule; the source then deletes nothing, and the new block has one owner |
| Legacy.AssignUniqueDropsOldFirst | src/temp_file.cpp:157-161 | assignment deletes the old file if the variable was its block's last owner, and otherwise leaves the disk alone, then holds exactly the moved source; the other variables keep their handles |
| Legacy.IsArmed | src/temp_file.cpp:183-185 | `operator bool` is `!empty()`; `Legacy.BoolIsNotEmpty` states what that means |
| Legacy.SecureCreateFd | src/temp_file.cpp:198-200 | no contract of its own; `Legacy.SecureCreateAgreesWithTemplate` states that it is the template's |
| Legacy.SecureCreateFile | src/temp_file.cpp:202-204 | no contract of its own; `Legacy.SecureCreateAgreesWithTemplate` states that it is the template's |
| Legacy.BoolIsNotEmpty | src/temp_file.cpp:183-196 | `operator bool` is "block present and path not empty", a null block is empty, and on a present block it agrees with the template |
| Legacy.SecureCreateAgreesWithTemplate | src/temp_file.cpp:198-204 | on a present block, `secure_create_fd()` and `secure_create_file()` give what the template's do |
| Legacy.Eq | src/temp_file.cpp:210-212 | raw `==` of the paths; `Legacy.RawComparisonsAreTotal` states its laws |
| Legacy.Ne | src/temp_file.cpp:214-216 | raw `!=`; `Legacy.RawComparisonsAreTotal` states that it negates `==` |
| Legacy.Lt | src/temp_file.cpp:218-220 | raw `<`; `Legacy.RawComparisonsAreTotal` states its laws |
| Legacy.Gt | src/temp_file.cpp:222-224 | raw `>`; `Legacy.RawComparisonsAreTotal` states its laws |
| Legacy.Le | src/temp_file.cpp:226-228 | raw `<=`; `Legacy.RawComparisonsAreTotal` states that it is `<` or `==` |
| Legacy.Ge | src/temp_file.cpp:230-232 | raw `>=`; `Legacy.RawComparisonsAreTotal` states that it is `>` or `==` |
| Legacy.RawComparisonsAreTotal | src/temp_file.cpp:210-232 | the raw comparisons form a total order with the empty path least, and two empty handles are equal |
| Legacy.VariantsDifferOnlyOnEmptyEquality | src/temp_file.cpp:210-216 | the two shared variants agree on `<`, `>`, `<=` and `>=`, and differ on `==` and `!=` exactly when both sides are empty |
| DeleteOnExit.ScopedNew | src/delete_on_exit.cpp:45-54 | the block's default path is a non-empty `.tmp` name strictly inside the temp directory |
| DeleteOnExit.ScopedDisconnect | delete_on_exit.cpp:44-46 | the block's `disconnect()` returns its path and leaves it empty |
| DeleteOnExit.ScopedDestroy | src/delete_on_exit.cpp:63-69 | the block's destructor deletes a non-empty, removable path and otherwise leaves the disk unchanged |
| DeleteOnExit.New | src/delete_on_exit.cpp:82-83 | the default constructor adds a variable whose new block holds a fresh name, and creates nothing |
| DeleteOnExit.FromPath | delete_on_exit.cpp:71-72 | the path constructor's block holds the argument exactly |
| DeleteOnExit.Copy | include/delete_on_exit.h:46 | a copy is a new variable on the same block, seeing the same path; every other variable keeps its path |
| DeleteOnExit.CopyAssign | include/delete_on_exit.h:48 | copy assignment points the target at the source's block; `DeleteOnExit.CopyAssignDropsOldBlock` states the rest |
| DeleteOnExit.Move | include/delete_on_exit.h:47 | a move gives the block and its path to a new variable and leaves the source null; every other variable keeps its block and path |
| DeleteOnExit.MoveAssign | include/delete_on_exit.h:49 | self-move-assignment changes nothing; otherwise the target takes the source's block and the source is left null; `DeleteOnExit.MoveAssignDropsOldBlock` states the rest |
| DeleteOnExit.Drop | src/delete_on_exit.cpp:89 | dropping a variable nulls it |
| DeleteOnExit.SetPath | include/delete_on_exit.h:52-55 | writing through `operator*` sets the path every variable of that block sees; no variable changes block and every other block keeps its path |
| DeleteOnExit.Disconnect | src/delete_on_exit.cpp:107-113 | a null handle gets the empty path and nothing changes; otherwise the block's path is returned and every variable of that block sees the empty path; every other block keeps its path |
| DeleteOnExit.IsEmpty | src/delete_on_exit.cpp:134-136 | `empty()`: a null block or an empty path; `DeleteOnExit.EmptyIsNotArmed` relates it to `operator bool` |
| DeleteOnExit.IsArmed | src/delete_on_exit.cpp:115-117 | `operator bool`: a block with a non-empty path; `DeleteOnExit.EmptyIsNotArmed` states that it negates `empty()` |
| DeleteOnExit.SecureCreateFd | src/delete_on_exit.cpp:138-143 | only an empty handle is an error; otherwise the raw `open` result comes back, which is -1 exactly when the path exists and otherwise a new descriptor on a new regular file |
| DeleteOnExit.SecureCreateFile | src/delete_on_exit.cpp:145-157 | no contract of its own, because its check after the close is kept as written and cannot fire; `DeleteOnExit.SecureCreateFileOutcomes` states its outcomes |
| DeleteOnExit.SecureCreateStream | src/delete_on_exit.cpp:159-168 | no contract of its own; `DeleteOnExit.SecureCreateStreamOutcomes` states its outcomes |
| DeleteOnExit.ScopedDestroyDeletesOnlyItsPath | delete_on_exit.cpp:48-54 | the block's destructor does nothing for an empty or missing path, deletes a removable path, and never touches another path |
| DeleteOnExit.DropDeletesOnlyLast | include/delete_on_exit.h:36-38 | dropping a variable runs the block's destructor only when it was the last owner; other owners keep seeing the path |
| DeleteOnExit.CopyAssignDropsOldBlock | include/delete_on_exit.h:48 | after copy assignment the target sees the source's path and the others keep theirs; the store stays valid, and the old path is deleted exactly when the target was the last owner of a different block |
| DeleteOnExit.MoveAssignDropsOldBlock | include/delete_on_exit.h:49 | after a move between two variables the target sees the source's path, the source is null and the others keep theirs; the store stays valid, and the old path is deleted exactly when the target was its block's last owner |
| DeleteOnExit.LastCopyDeletes | include/delete_on_exit.h:46-49 | with two copies, dropping the first leaves the disk alone and dropping the second deletes the file |
| DeleteOnExit.DisconnectVisibleToAllCopies | include/delete_on_exit.h:57-58 | `disconnect()` through one copy empties every copy, and dropping any of them afterwards deletes nothing |
| DeleteOnExit.SetPathRetargetsDeletion | src/delete_on_exit.cpp:91-105 | after a write through `operator*`, the last copy deletes the new path and leaves the old file alone |
| DeleteOnExit.NoDirectoryRule | src/delete_on_exit.cpp:86-87 | a directory argument is kept as it is, unlike the unique handle's path constructor |
| DeleteOnExit.MovedFromIsEmpty | delete_on_exit.cpp:92-120 | a moved-from variable is empty and not armed, and `disconnect()` gives the empty path; `secure_create_fd()` refuses it, all without change |
| DeleteOnExit.EmptyIsNotArmed | src/delete_on_exit.cpp:115-136 | `empty()` is the negation of `operator bool`, with or without a block |
| DeleteOnExit.SecureCreateFileOutcomes | src/delete_on_exit.cpp:145-157 | `secure_create_file()` fails with the empty-path error exactly for an empty handle and with "Could not create" exactly when the path exists, and succeeds exactly on an armed handle whose path is absent; "Failed to create" never happens; a failure leaves everything as it was; on success the path is a new regular file, nothing else on disk changes, and no descriptor is left open |
| DeleteOnExit.SecureCreateStreamOutcomes | src/delete_on_exit.cpp:159-168 | `secure_create_stream()` fails exactly as `secure_create_file()` does and then changes nothing; otherwise the path is a new regular file, nothing else on disk changes, and the stream owns one new descriptor, which dropping the stream closes |
| DeleteOnExit.CreateThenDrop | tests/delete_on_exit_test.cpp:33-41 | a file created through a new handle is gone once that only handle is dropped, and the disk is as before |
| DeleteOnExit.CreateDisconnectThenDrop | tests/delete_on_exit_test.cpp:43-58 | when the handle is disconnected after creating the file, the path is handed out and dropping the handle leaves the file on disk |
| Registry.Insert | temp_file.cpp:69-72 | after `insert(p)` the registry holds exactly its old paths and `p` |
| Registry.Erase | temp_file.cpp:74-77 | after `erase(p)` the registry holds exactly its old paths other than `p` |
| Registry.CreateTmpfile | temp_file.cpp:86-90 | `create_tmpfile()` returns a non-empty path inside the temp directory, and the registry now holds it |
| Registry.DeleteTmpfile | temp_file.cpp:92-97 | a missing path changes nothing, the path staying registered; an existing path is deleted and then forgotten; a refused removal fails before anything is forgotten |
| Registry.ScopedNew | temp_file.cpp:99-100 | the scope's path is non-empty and newly registered |
| Registry.Reset | temp_file.cpp:102-106 | `reset()` returns the path, empties the scope and forgets the path |
| Registry.ScopedDestroy | temp_file.cpp:108-115 | the scope's destructor deletes and forgets an existing, removable, non-empty path, and otherwise changes nothing |
| Registry.Sweep | temp_file.cpp:55-67 | at exit every registered path is gone unless the OS refuses its removal; paths that are not registered are untouched |
| Registry.InsertEraseLaws | temp_file.cpp:69-77 | `insert` is idempotent, `erase` of an absent path changes nothing, and erasing undoes inserting a new path |
| Registry.DeleteMissingKeepsRegistration | temp_file.cpp:93 | `delete_tmpfile()` of a path with nothing there leaves it registered |
| Registry.ScopedFileIsGoneAfterScope | temp_file_test.cpp:33-46 | a file written at a `scoped_tmpfile`'s path exists inside the scope and is gone after it; the registry and every other path are as before |
| Registry.ResetThenDestroyKeepsFile | temp_file.cpp:102-115 | after `reset()` the destructor deletes nothing, the path is no longer registered, and a second `reset()` returns the empty path |
| Registry.DeletedPathsAreNotSwept | temp_file.cpp:55-97 | a path removed by `delete_tmpfile()` is no longer registered and stays gone after the sweep, which removes every other registered, removable path |

## Left out

- Real OS calls are left out: `open`/`close`, permission bits, `exists`, `is_regular_file`, `is_directory`, `remove`, `temp_directory_path` and `unique_path`. An abstract filesystem stands in for the disk, and the random name and temp directory are parameters.
- An exclusive open fails only because the path exists or is empty. Other causes (a missing parent directory, permissions, descriptor exhaustion) are not modelled.
- `remove` fails only on paths in the `undeletable` set. This stands for the OS refusing, for example on a non-empty directory.
- The registry's `std::mutex`, and the thread safety of `shared_ptr`'s atomic count, are concurrency only. Operations are sequential.
- Boost iostreams byte I/O is not modelled. This covers the `fd_stream` type and the `operator<<`/`operator>>` adapters. A stream is its descriptor.
- Exception message strings and `std::cerr` logging are not modelled. Errors are the `Error` kinds.
- The `WIN32` macros are left out.
- `native()`/`string()` conversions between boost and std paths are left out, and so is `operator->`. A path is a character sequence.
- `boost::filesystem::path` compares element by element. The model compares characters lexicographically. Only the strict total order with the empty path least is used.
- `replace_extension(".tmp")` on a random stem that already contains a dot is not modelled. The stem is taken as dot-free and gets `.tmp` appended.
- Shared.IsArmed: a moved-from (null) handle reaching the template's `operator bool` or `operator*` dereferences null. The model requires a block there.
- Shared.Deref: the same null dereference is excluded by requiring a block.
- Shared.Disconnect: the template's `disconnect()` also dereferences the block without a check, so it requires one.
- Shared.SecureCreateStream: the template's `secure_create_stream()` dereferences the block without a check, so it requires one.
- Legacy.SecureCreateFd: the legacy `secure_create_*` dereference the block without a check, so they also require one.
- Legacy.SecureCreateFile: requires a block, for the same reason.
- DeleteOnExit.Deref: `get()` (src/delete_on_exit.cpp:74-80) dereferences the block without a check, so `operator*` on a moved-from handle is undefined; the model requires a block, and `DeleteOnExit.SetPath` does too.
- Shared.Eq: the template's six comparison operators ask `operator bool` of each side, which dereferences a null block; `Shared.Eq` to `Shared.Ge` take the two paths and so assume both blocks are present.
- Legacy.Eq: the legacy six comparison operators read `*lhs` and `*rhs`, which dereference a null block; `Legacy.Eq` to `Legacy.Ge` take the two paths and so assume both blocks are present.
- SharedCells.CopyAssign: its own contract says where each variable points afterwards but not what it sees, because that needs the count invariant; `SharedCells.CopyAssignKeepsPayloads` states it for valid stores.
- SharedCells.MoveAssign: likewise, `SharedCells.MoveAssignKeepsPayloads` states what each variable sees for valid stores.
- Shared.AssignUnique: its own contract says only that the source is left empty; the deletion of the old file and the new block's handle need the count invariant and are stated by `Shared.AssignUniqueDropsOldFirst`.
- The legacy `shared_temp_file`'s `disconnect()` and `secure_create_stream()` (src/temp_file.cpp:179-181 and 206-208) are the same code as the template's, so `Shared.Disconnect` and `Shared.SecureCreateStream` model them.
- The conversion operators declared at include/temp_file.h:64-65 are left out. They have no definition in src/temp_file.cpp.
- The legacy `unique_temp_file` uses defaulted moves. They are modelled as the template's explicit ones, which leave the source empty; that is what the standard library's string move does in practice. Self-move of the legacy handle is not modelled.
- `scoped_tmpfile`'s header is not part of this model. Its one member, `path`, is taken from its uses in temp_file.cpp.
- The root-level delete_on_exit.cpp has no `secure_create_*`. Everything else in it is the same as in src/delete_on_exit.cpp, so one module models both.
- Unique.SecureCreateFd has no `ensures` of its own, and neither do the `SecureCreateFile`/`SecureCreateStream` functions of `Unique`, `Legacy` and `DeleteOnExit`. Their dead post-open branches are kept as in the source. Their outcomes are stated by the `...Outcomes`, `...ClosesDescriptor` and `...OwnsDescriptor` lemmas and by `Legacy.SecureCreateAgreesWithTemplate`.
