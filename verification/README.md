# Verified models of the Android-derived libraries

Dafny models of the parts of this repository whose correctness rests on more than one function: the
shared-memory allocator, the matrix inverse, the binder client runtime, the service manager, the MTP codec
and the MTP run-time state, and the camera containers. `dafny verify dfyconfig.toml` checks everything.

Each component has a specification on values (datatypes, sequences, maps and functions over them), the
lemmas about it, and, where the original changes objects or buffers in place, a class or array methods that
do the same steps and are proved to compute the specification. Concurrent code is a state machine whose
events are the critical sections, driven by an arbitrary sequence of events. What the operating system, the
driver, the file system or a caller decides is an argument of the operation or part of an event, so every
theorem holds for all of their answers.

| files | component |
|---|---|
| `Matrix`, `MatrixOps` | Gauss-Jordan inverse and transpose of N by N matrices, products of any that fit, over the reals |
| `BestFit`, `Dealer`, `ChunkList`, `MemoryDealer` | best-fit allocation on a doubly linked chunk list, and the dealer's grants over whole runs |
| `BpBinder`, `ProcessState`, `IpcThread` | death notification, the handle table, nested incoming transactions |
| `BinderIo`, `ServiceRegistry` | the service manager's message cursor, its registry, and requests from message to reply |
| `LittleEndian`, `MtpDataPacket`, `MtpString`, `MtpStringBuffer` | MTP packets and strings |
| `MtpPropertyForm`, `MtpPropertyRoundTrip`, `MtpProperty` | MTP property datasets |
| `MtpTransfer`, `MtpObjectDb`, `MtpServer`, `MtpSession` | double-buffered object transfer, the object tree, the server's state between requests, server and tree together |
| `CameraText`, `CameraNumbers`, `CameraParameters` | camera parameters, their flat form, integers and sizes as text |
| `VendorTags`, `VendorTagDescriptor` | vendor tag descriptors and their parcel form |
| `Basics` | optional values and a little arithmetic |

Sizes are those of a 64-bit build (8-byte `size_t` and pointers). Assertions that a release build compiles
out are not modelled. Strings are MTP strings as in section 3.2.3 (Strings) of the MTP specification v1.1;
their UTF-8 forms are the one- to three-octet forms of section 3 of RFC 3629, with surrogates encoded one by
one as the code does.

## Where the code does less than its callers may expect

Each of these is proved: a concrete input, and the exact condition under which the code does what it is for.

- The allocator grants a request whose size wraps when rounded up, and the heap is no tiling then
  (`Dealer.WrappedRequestIsGranted`, `BestFit.AllocKeepsTilingIff`, `BestFit.EveryRunTiles`).
- A token of `clearCallingIdentity` loses the user when the process id is negative
  (`IpcThread.NegativePidLosesUser`, `IpcThread.TokenRoundTrip`).
- A death recipient that clears the caller identity leaves it cleared for the handler whose call delivered the
  notice (`IpcThread.DeathRecipientCanLeak`, `IpcThread.HandlerKeepsOwnIdentity`).
- A null string, an overlong one, or handle 0 stops the reader of a service-manager message
  (`BinderIo.HandleZeroStopsReader`, `BinderIo.MessageReadsBack`); a listed name of more than 109 units is
  answered by its length alone (`BinderIo.ListedNameArrives`).
- A death notification for a handle that has been overridden takes the new service down
  (`ServiceRegistry.StaleDeathDropsLiveService`, `ServiceRegistry.LookupAnswers`).
- A byte that is no lead byte of a known character is counted but not copied, so it is written as a zero unit
  (`MtpString.StrayByteWritesZero`, `MtpString.SurvivesIff`).
- An MTP string of 255 characters is read back as the empty one (`MtpString.TooLongIsLost`,
  `MtpString.SurvivesIff`); empty arrays of a property do not come back
  (`MtpPropertyRoundTrip.EmptyArrayIsRefused`, `MtpPropertyRoundTrip.ArrayRoundTrip`).
- A device whose first packet is longer than the announced object makes the transfer read 4 GB more
  (`MtpTransfer.LongFirstPacketReadsOn`, `MtpTransfer.TransferDeliversAll`), and offsets are true below 2 GB only
  (`MtpTransfer.FullReadsMissOffset`, `MtpTransfer.LongObjectMissesOffset`, `MtpTransfer.OffsetsTrue`).
- The last object handle is the invalid one (`MtpObjectDb.LastHandleLooksInvalid`, `MtpObjectDb.SendAnswerTrueIff`).
- SendObject without a storage keeps the announced object (`MtpServer.NoStorageKeepsPending`,
  `MtpServer.PendingFate`).
- A vendor tag given twice, or an empty tag or section name, makes a descriptor's parcel unreadable
  (`VendorTags.TagTwiceIsUnreadable`, `VendorTags.ParcelRoundTrip`), and the way back from names to tags can
  change over a parcel (`VendorTags.NameChangesItsTag`, `VendorTags.DescriptorSurvivesIff`).

## Model

| member | source | states |
|---|---|---|
| Matrix.PivotNonzero | native/include/ui/TMatHelpers.h:70-77 | the pivot search, which compares with the diagonal entry and not with the best row so far, still picks a row with a nonzero entry whenever there is one |
| Matrix.StepKeepsSolutions | native/include/ui/TMatHelpers.h:79-105 | one pass of swap, scaling and subtraction changes no solution of the pair of matrices, in either direction |
| Matrix.StepUnitColumns | native/include/ui/TMatHelpers.h:70-106 | after pass i the first i + 1 columns are unit columns |
| Matrix.NoPivotMeansKernel | native/include/ui/TMatHelpers.h:92 | a zero pivot gives a nonzero vector that the matrix sends to zero |
| Matrix.InverseIsTwoSided | native/include/ui/TMatHelpers.h:59-108 | whatever elimination returns is an inverse on both sides |
| Matrix.InverseFoundIffInvertible | native/include/ui/TMatHelpers.h:59-108 | for every N and every real matrix elimination succeeds if and only if an inverse exists on either side, and returns it |
| Matrix.MultiplyAssociative | native/include/ui/TMatHelpers.h:110-126 | the product of matrices of any shapes that fit is associative |
| Matrix.InversesAgree | native/include/ui/TMatHelpers.h:59-126 | a left and a right inverse are the same matrix |
| Matrix.TransposeOfProduct | native/include/ui/TMatHelpers.h:128-138 | transposition reverses products and undoes itself |
| MatrixOps.FindPivot | native/include/ui/TMatHelpers.h:71-77 | the loop finds the pivot row of the specification |
| MatrixOps.SwapRows | native/include/ui/TMatHelpers.h:79-90 | both matrices end with the two rows exchanged and all else unchanged |
| MatrixOps.ScaleRow | native/include/ui/TMatHelpers.h:92-96 | the row of both matrices is scaled, the others are unchanged |
| MatrixOps.ClearColumn | native/include/ui/TMatHelpers.h:97-105 | every other row of both matrices has its multiple of row i subtracted |
| MatrixOps.EliminateColumn | native/include/ui/TMatHelpers.h:70-106 | one pass in place computes the step of the specification, or reports the zero pivot |
| MatrixOps.InverseOf | native/include/ui/TMatHelpers.h:59-108 | the in-place triple loop returns the inverse of the specification, exactly when there is one |
| MatrixOps.TimesVector | native/include/ui/mat4.h:341-347 | the accumulation of scaled vectors is the row of the product |
| MatrixOps.MultiplyInto | native/include/ui/TMatHelpers.h:110-126 | for a left matrix of any size and a right one with as many rows as that has columns, the result is the matrix product |
| MatrixOps.TransposeOf | native/include/ui/TMatHelpers.h:128-138 | the result is the transpose |
| BestFit.ScanIsMinimal | native/libs/binder/MemoryDealer.cpp:316-335 | the scan with its early exit finds a fitting chunk of minimal size, or none if none fits |
| BestFit.AllocIsBestFit | native/libs/binder/MemoryDealer.cpp:310-365 | allocation fails exactly when no free chunk holds the rounded size plus its own gap; otherwise it carves from a chunk of minimal size among those, at its start or the next page boundary |
| BestFit.AllocFindsRoom | native/libs/binder/MemoryDealer.cpp:310-365 | a request, plain or page aligned, fails exactly when no free chunk has room for it at any place of that alignment; otherwise it gets the first such place in one of the smallest chunks that have one |
| BestFit.UnitsAreLeast | native/libs/binder/MemoryDealer.cpp:315 | the units of a request are the fewest that hold its size, unless the rounding wraps |
| BestFit.AlignedOffset | native/libs/binder/MemoryDealer.cpp:322-362 | an offset asked to be page aligned is |
| BestFit.AllocKeepsHeap | native/libs/binder/MemoryDealer.cpp:310-365 | chunks still tile the heap with positive sizes and no two free neighbours; exactly one live chunk of the asked units is added |
| BestFit.CoalesceIsJoined | native/libs/binder/MemoryDealer.cpp:367-406 | the merging walk equals joining the chunk with its free neighbours |
| BestFit.DeallocReleases | native/libs/binder/MemoryDealer.cpp:367-406 | a release of any offset fails exactly when no chunk starts there; otherwise it keeps the tiling and removes that chunk and nothing else from the live ones, and at a chunk already free it changes nothing |
| BestFit.AllocKeepsTilingIff | native/libs/binder/MemoryDealer.cpp:310-365 | a request, plain or page aligned, keeps the tiling if and only if its rounding does not wrap or no free chunk reaches its alignment |
| BestFit.EveryRunTiles | native/libs/binder/MemoryDealer.cpp:310-406 | over every run of plain and page-aligned requests and of releases of any offsets the chunks tile the heap without neighbouring free ones after every call, if and only if no request whose rounding wraps finds a chunk |
| BestFit.SaneRunTiles | native/libs/binder/MemoryDealer.cpp:310-406 | so every run keeps the tiling when no size is within 31 bytes of the largest |
| BestFit.NothingLiveMeansOneBlock | native/libs/binder/MemoryDealer.cpp:367-406 | with nothing live the heap is one free chunk |
| BestFit.BlocksApart | native/libs/binder/MemoryDealer.cpp:310-406 | two chunks of a tiling lie in the heap and do not overlap |
| Dealer.RunConsistent | native/libs/binder/MemoryDealer.cpp:175-252 | over every run of allocations and releases, empty ones included, live chunks are exactly the outstanding grants, of the rounded sizes |
| Dealer.GrantsDisjoint | native/libs/binder/MemoryDealer.cpp:239-247 | grants lie in the heap and never share a byte |
| Dealer.AllReleased | native/libs/binder/MemoryDealer.cpp:175-252 | once all non-empty grants of any run are released the heap is one free chunk |
| Dealer.ReleaseAll | native/libs/binder/MemoryDealer.cpp:175-252 | releasing all grants in any order restores the initial heap |
| Dealer.WrappedRequestIsGranted | native/libs/binder/MemoryDealer.cpp:312-315 | the largest size is granted with no units |
| Dealer.DiscardTouchesNoOther | native/libs/binder/MemoryDealer.cpp:179-217 | the pages discarded on release hold no byte of any other grant |
| Dealer.DiscardedPages | native/libs/binder/MemoryDealer.cpp:184-199 | the discarded range is page aligned, inside the grant, and covers every whole page of it |
| ChunkList.LinkedList.InsertAfter | native/libs/binder/MemoryDealer.cpp:62-68 | a well-formed doubly linked list stays one, with the node inserted after the given one and the others unchanged |
| ChunkList.LinkedList.InsertBefore | native/libs/binder/MemoryDealer.cpp:70-76 | the same before the given node |
| ChunkList.LinkedList.InsertHead | native/libs/binder/MemoryDealer.cpp:78-88 | the node becomes the first |
| ChunkList.LinkedList.InsertTail | native/libs/binder/MemoryDealer.cpp:90-99 | the node becomes the last |
| ChunkList.LinkedList.Remove | native/libs/binder/MemoryDealer.cpp:101-107 | the list loses exactly the node |
| MemoryDealer.HeapIsRoundedUp | native/libs/binder/MemoryDealer.cpp:264-279 | the heap is the least number of whole pages that holds the size asked for, unless the rounding wraps |
| MemoryDealer.SimpleBestFitAllocator.FindFree | native/libs/binder/MemoryDealer.cpp:316-335 | the list walk finds the chunk of the specification's scan |
| MemoryDealer.SimpleBestFitAllocator.SplitHead | native/libs/binder/MemoryDealer.cpp:345-349 | a chunk for the alignment gap is put before the chunk, which starts after it |
| MemoryDealer.SimpleBestFitAllocator.SplitTail | native/libs/binder/MemoryDealer.cpp:355-360 | what is left over becomes a free chunk behind |
| MemoryDealer.SimpleBestFitAllocator.CutOut | native/libs/binder/MemoryDealer.cpp:337-362 | the chunk is replaced by gap, live chunk and rest |
| MemoryDealer.SimpleBestFitAllocator.Allocate | native/libs/binder/MemoryDealer.cpp:310-365 | alloc on the linked list computes the specification's offset and chunk sequence |
| MemoryDealer.SimpleBestFitAllocator.Deallocate | native/libs/binder/MemoryDealer.cpp:367-406 | dealloc on the linked list computes the specification's result |
| MemoryDealer.SimpleBestFitAllocator.Release | native/libs/binder/MemoryDealer.cpp:379-400 | freeing and the merging loop compute the specification's coalescing |
| MemoryDealer.MemoryDealer.Allocate | native/libs/binder/MemoryDealer.cpp:239-247 | an allocation through the dealer is one step of the run model |
| MemoryDealer.MemoryDealer.Destroy | native/libs/binder/MemoryDealer.cpp:175-224 | the end of an allocation object is one release step of the run model |
| BpBinder.ObituariesUnderAnyInterleaving | native/libs/binder/BpBinder.cpp:173-273 | under any interleaving the list is absent or non-empty, it exists exactly when requests exceed clears by one, and reported links are distinct and in order |
| BpBinder.TakenOnceAndForAll | native/libs/binder/BpBinder.cpp:242-273 | after the first obituary no event changes what was taken, and linking fails |
| BpBinder.ThosePresentAreTold | native/libs/binder/BpBinder.cpp:242-273 | from the moment the first obituary takes the list, in every interleaving before and after, what is reported followed by what is still to be reported is exactly the links present at that moment, in their order |
| BpBinder.CaresForLedger | native/libs/binder/BpBinder.cpp:173-273 | in every interleaving the links on the list, or taken from it and reported or about to be, are exactly those made and not unlinked, with the recipient, cookie and flags given, in order; and link and unlink answer accordingly |
| BpBinder.LinkedIsTold | native/libs/binder/BpBinder.cpp:173-273 | a recipient linked with success and not unlinked since is kept on the list and then told of the death |
| BpBinder.DestroyBalances | native/libs/binder/BpBinder.cpp:311-336 | the destructor balances the last death request |
| BpBinder.UnlinkRemovesFirstMatch | native/libs/binder/BpBinder.cpp:207-240 | unlinking removes the first matching link and no other |
| BpBinder.BpBinder.LinkToDeath | native/libs/binder/BpBinder.cpp:173-205 | the method computes the specification's link step |
| BpBinder.BpBinder.UnlinkToDeath | native/libs/binder/BpBinder.cpp:207-240 | the loop computes the specification's unlink step and returns the recipient removed |
| BpBinder.BpBinder.SendObituary | native/libs/binder/BpBinder.cpp:242-273 | exactly the links of the list are reported, each once, in order, unless obituaries were sent before |
| ProcessState.TableUnderAnyInterleaving | native/libs/binder/ProcessState.cpp:166-277 | with destruction racing lookups, an entry never refers to a proxy whose expunge is over, and a handle has at most one proxy with references |
| ProcessState.LookupFindsHeld | native/libs/binder/ProcessState.cpp:179-254 | a lookup gives the proxy of that handle that is still held, with one more reference, or else a new one that the table then has; no other count or entry changes; exactly a strong lookup of a dead, unheld context manager gives none |
| ProcessState.ExpungeSparesReplacement | native/libs/binder/ProcessState.cpp:267-277 | expunging an old proxy leaves every held proxy findable |
| ProcessState.HandleTable.LookupHandleLocked | native/libs/binder/ProcessState.cpp:166-177 | the table grows to hold the handle and keeps its entries |
| ProcessState.HandleTable.GetStrongProxyForHandle | native/libs/binder/ProcessState.cpp:179-234 | the critical section computes the specification's strong lookup |
| ProcessState.HandleTable.GetWeakProxyForHandle | native/libs/binder/ProcessState.cpp:236-265 | the critical section computes the specification's weak lookup |
| ProcessState.HandleTable.ExpungeHandle | native/libs/binder/ProcessState.cpp:267-277 | the critical section computes the specification's expunge |
| IpcThread.WaitKeepsIdentity | native/libs/binder/IPCThreadState.cpp:722-811 | a wait for a reply ends with the identity it began with if and only if the last death recipients to change caller, policy or flags during it put back what was there; nested transactions never show |
| IpcThread.ExecuteKeepsIdentity | native/libs/binder/IPCThreadState.cpp:957-1172 | executing any command, to any nesting depth, returns with the caller identity, policy and flags of its entry, if and only if the death recipients that run as the thread itself, each judged where it runs, leave them so; an incoming transaction always does |
| IpcThread.HandlerKeepsOwnIdentity | native/libs/binder/IPCThreadState.cpp:1050-1125 | after each of a handler's acts its identity is what its own acts made of its sender's, if and only if at each of its calls the death recipients that run meanwhile leave the identity of that moment |
| IpcThread.HandlerIsToldSender | native/libs/binder/IPCThreadState.cpp:1050-1125 | wherever a handler asks for its caller it is told its sender's process and user, the thread's policy and the transaction's flags, as changed by its own acts so far, whatever runs during its calls |
| IpcThread.SenderIsAnswered | native/libs/binder/IPCThreadState.cpp:1090-1110 | the sender of a two-way transaction is answered with the handler's error or with success, right after the handler; a target that is gone is not run |
| IpcThread.WaitEndsWith | native/libs/binder/IPCThreadState.cpp:722-811 | a call comes back with the status of the first reply, or with the driver's word if it wants none; dead and failed targets, faults and failing commands end it with their error |
| IpcThread.CallIsWritten | native/libs/binder/IPCThreadState.cpp:554-640 | a call of a sound parcel is written to the driver, as one that wants a reply or not; an unsound one is not |
| IpcThread.WaitOnNothing | native/libs/binder/IPCThreadState.cpp:722-811 | a wait the driver has nothing to end fails with EBADF |
| IpcThread.UnknownCommandFails | native/libs/binder/IPCThreadState.cpp:1160-1172 | an unknown command is an error and does nothing else |
| IpcThread.ServeEndsAt | native/libs/binder/IPCThreadState.cpp:478-522 | the pool loop ends with the first failing result, a timeout counting as one for a spare thread only |
| IpcThread.ServeKeepsIdentity | native/libs/binder/IPCThreadState.cpp:424-522 | the thread-pool loop ends with the identity it began with if and only if the death recipients it runs leave it so |
| IpcThread.RepliesNest | native/libs/binder/IPCThreadState.cpp:712-811 | every two-way transaction is answered once, innermost first, even when the driver fails, so a reply never goes to another sender |
| IpcThread.TokenRoundTrip | native/libs/binder/IPCThreadState.cpp:366-397 | the process id always comes back from a token; the user if and only if the process id is non-negative or the user is all ones |
| IpcThread.ClearedIdentityComesBack | native/libs/binder/IPCThreadState.cpp:366-397 | clearing, any acts with any transactions and death notices during them, and restoring give the process id back always, and the user if and only if the process id is non-negative or the user is all ones; so for a death recipient too |
| IpcThread.DeathRecipientCanLeak | native/libs/binder/IPCThreadState.cpp:1136-1142 | a recipient that clears and does not restore leaves the thread as itself |
| IpcThread.IpcThreadState.WaitForResponse | native/libs/binder/IPCThreadState.cpp:722-811 | the loop computes the specification's wait, result and remaining input included |
| IpcThread.IpcThreadState.ExecuteTransaction | native/libs/binder/IPCThreadState.cpp:1036-1133 | saving, running, replying and restoring compute the specification |
| IpcThread.IpcThreadState.ExecuteCommand | native/libs/binder/IPCThreadState.cpp:957-1172 | the dispatch computes the specification |
| IpcThread.IpcThreadState.ClearCallingIdentity | native/libs/binder/IPCThreadState.cpp:366-371 | the caller becomes the process itself and the token holds the former caller |
| IpcThread.IpcThreadState.RestoreCallingIdentity | native/libs/binder/IPCThreadState.cpp:393-397 | the caller is taken from the token's halves |
| IpcThread.IpcThreadState.JoinThreadPool | native/libs/binder/IPCThreadState.cpp:487-522 | the loop computes the specification's serving of a command stream |
| BinderIo.PutsStayInside | native/cmds/servicemanager/binder.c:437-547 | over any puts, overflowing or not: position plus room is constant, positions stay multiples of 4, writes stay in the buffer and leave what is before the cursor |
| BinderIo.FitsExactly | native/cmds/servicemanager/binder.c:437-547 | a message goes in without overflow if and only if its sizes and its objects fit |
| BinderIo.MessageReadsBack | native/cmds/servicemanager/binder.c:409-639 | a message without overflow is read back whole by its receiver if and only if no item is a null or overlong string or handle 0 |
| BinderIo.ListedNameArrives | native/cmds/servicemanager/binder.c:523-547 | a name in the service list's reply arrives if and only if it has at most 109 units |
| BinderIo.NumberLayout | native/cmds/servicemanager/binder.c:484-489 | a number, or the mark of a missing string, takes four bytes, lowest first, and nothing else in the buffer changes |
| BinderIo.TextLayout | native/cmds/servicemanager/binder.c:523-549 | a text is its length in four bytes, its units and a zero unit, and nothing else changes |
| BinderIo.UnitLayout | native/cmds/servicemanager/binder.c:541-549 | each unit is two bytes, the lower first |
| BinderIo.ReferenceLayout | native/cmds/servicemanager/binder.c:505-521 | a reference is type, flags, handle and zero cookie at bytes 0, 4, 8 and 16 of 24, its position goes into the next table entry unless the handle is 0, and nothing else changes |
| BinderIo.OwnObjectLayout | native/cmds/servicemanager/binder.c:491-503 | an object of the sender is the same with its address for identifier |
| BinderIo.PastEndReadsNothing | native/cmds/servicemanager/binder.c:551-639 | a reader at the end of its message gets zero, no text and handle 0, and is marked as overflowed |
| BinderIo.Cursor.Alloc | native/cmds/servicemanager/binder.c:437-449 | the cursor advances by the aligned size or the overflow flag is set |
| BinderIo.Cursor.AllocObj | native/cmds/servicemanager/binder.c:468-482 | space and table entry are taken; without an entry the space is used up and overflow set |
| BinderIo.Cursor.PutRef | native/cmds/servicemanager/binder.c:505-521 | the buffer after the put is the specification's |
| BinderIo.Cursor.PutObj | native/cmds/servicemanager/binder.c:491-503 | the same for an object of the sender's own |
| BinderIo.Cursor.PutString16 | native/cmds/servicemanager/binder.c:523-547 | the same for the text before the terminator |
| BinderIo.Cursor.GetString16 | native/cmds/servicemanager/binder.c:600-609 | length and units are the specification's |
| BinderIo.Cursor.GetReference | native/cmds/servicemanager/binder.c:611-639 | the search of the offsets table and the handle are the specification's |
| ServiceRegistry.ReferencesBalance | native/cmds/servicemanager/service_manager.c:148-250 | over every run names stay distinct and references taken less those given back are the entries holding the handle, stale death notices included |
| ServiceRegistry.DeathAgreesIffTimely | native/cmds/servicemanager/service_manager.c:161-170 | a death notice leaves the registry the directory of latest live registrations if and only if it is about the handle listed now or that is dead; otherwise a lookup goes wrong |
| ServiceRegistry.StaleDeathDropsLiveService | native/cmds/servicemanager/service_manager.c:220-227 | after an override the old handle's death unregisters the new service |
| ServiceRegistry.LookupAnswers | native/cmds/servicemanager/service_manager.c:148-250 | after every event of a run every lookup by anyone gives the latest live registration the caller may have, if and only if no death notice of the run is for an overridden handle; the directory keeps names, cookies and acceptance by itself |
| ServiceRegistry.AddAnswers | native/cmds/servicemanager/service_manager.c:202-250 | a registration is answered with success exactly when it counts in the directory |
| ServiceRegistry.DeathWillBeTold | native/cmds/servicemanager/service_manager.c:220-250 | after any run the death of every registered handle has been asked to be told, with a cookie that makes its notice unregister that very name |
| ServiceRegistry.AddArrives | native/cmds/servicemanager/service_manager.c:252-322 | a registration sent as a message is read as what was sent and does exactly what it asks for |
| ServiceRegistry.LookupArrives | native/cmds/servicemanager/service_manager.c:252-308 | the handle a client reads from the reply to a lookup is the registry's answer |
| ServiceRegistry.ListArrives | native/cmds/servicemanager/service_manager.c:322-338 | the n-th request for the list is answered with the n-th newest name, and refused after the last one or without permission |
| ServiceRegistry.NthNameIs | native/cmds/servicemanager/service_manager.c:330-335 | that name is the one registered, the newest at the head of the list |
| ServiceRegistry.WrongTokenRefused | native/cmds/servicemanager/service_manager.c:270-284 | a request with another interface token is refused and changes nothing |
| ServiceRegistry.UnknownCodeRefused | native/cmds/servicemanager/service_manager.c:339-342 | so is one with an unknown code |
| ServiceRegistry.PingAnswered | native/cmds/servicemanager/service_manager.c:266-270 | a ping is answered with success and an empty reply |
| ServiceRegistry.ClientFindsLatest | native/cmds/servicemanager/service_manager.c:148-322 | after any run of messages, well-formed or not, and of death notices none of which is for an overridden handle, the handle a client reads from the reply to its lookup is the latest live registration it may have |
| ServiceRegistry.ServiceManager.FindSvc | native/cmds/servicemanager/service_manager.c:148-159 | the list walk finds the newest entry of the name, or null if there is none |
| ServiceRegistry.ServiceManager.DoAddService | native/cmds/servicemanager/service_manager.c:202-250 | adding on the linked list computes the specification |
| ServiceRegistry.ServiceManager.DoFindService | native/cmds/servicemanager/service_manager.c:178-200 | looking up on the linked list computes the specification |
| ServiceRegistry.ServiceManager.SvcinfoDeath | native/cmds/servicemanager/service_manager.c:161-170 | the entry's current handle is released and cleared |
| LittleEndian.IntegerRoundTrip | av/media/mtp/MtpDataPacket.cpp:55-95 | every integer of a width and sign is read back from its bytes |
| LittleEndian.LeIs | av/media/mtp/MtpDataPacket.cpp:230-330 | byte i of a number put is its i-th lowest |
| MtpDataPacket.ParameterRoundTrip | av/media/mtp/MtpPacket.cpp:135-153 | a parameter set is the parameter got, and no other one changes |
| MtpDataPacket.PutIs | av/media/mtp/MtpDataPacket.cpp:230-330 | a put changes the bytes under the cursor and no others, extends the packet to its end, and a get at the same place gives what was put |
| MtpDataPacket.DataPacket.Allocate | av/media/mtp/MtpPacket.cpp:55-65 | growing keeps the bytes |
| MtpDataPacket.DataPacket.CopyFrom | av/media/mtp/MtpPacket.cpp:87-92 | the packet's bytes become those of the other |
| MtpDataPacket.DataPacket.PutInt64 | av/media/mtp/MtpDataPacket.cpp:280-306 | eight bytes are put at the cursor and the size grows if need be |
| MtpDataPacket.DataPacket.GetUInt64 | av/media/mtp/MtpDataPacket.cpp:81-91 | the value of the eight bytes at the cursor, or false when there are fewer |
| MtpString.DecInvertsEnc | av/media/mtp/MtpStringBuffer.cpp:103-181 | decoding inverts the one-, two- and three-byte forms of every unit |
| MtpString.UnitsRoundTrip | av/media/mtp/MtpStringBuffer.cpp:103-181 | any NUL-free text of at most 254 units survives set, write and read |
| MtpString.SurvivesIff | av/media/mtp/MtpStringBuffer.cpp:58-181 | a C string survives if and only if it is at most 254 shortest-form characters of one to three bytes |
| MtpString.CountedRoundTrip | av/media/mtp/MtpStringBuffer.cpp:126-181 | up to 254 units are read back with their terminator, 255 as the empty string |
| MtpString.CountedLayout | av/media/mtp/MtpStringBuffer.cpp:154-181 | in the packet a string is the count of its units and terminator, the units lowest byte first and a zero unit, or a zero count if it is empty |
| MtpString.EncIsUtf8 | av/media/mtp/MtpStringBuffer.cpp:103-124 | the bytes of a unit carry its value as the UTF-8 forms of one to three octets do |
| MtpString.TooLongIsLost | av/media/mtp/MtpStringBuffer.cpp:154-158 | 255 letters are read back as nothing |
| MtpString.ReadFits | av/media/mtp/MtpStringBuffer.cpp:126-152 | whatever the packet holds, the text and its terminator fit the buffer |
| MtpString.SetHolds | av/media/mtp/MtpStringBuffer.cpp:58-124 | setting the UTF-8 form and setting the units leave the same buffer |
| MtpString.SetLeaves | av/media/mtp/MtpStringBuffer.cpp:58-124 | set leaves the bytes, their terminator and what was there before, and counts units and bytes |
| MtpString.LeadForms | av/media/mtp/MtpStringBuffer.cpp:63-100 | which lead bytes set takes for one, two or three bytes and which it skips, and how writeToPacket takes them |
| MtpString.StrayByteWritesZero | av/media/mtp/MtpStringBuffer.cpp:58-181 | a byte that is no lead byte is written as a string of one zero unit |
| MtpStringBuffer.StringBuffer.SetFromChars | av/media/mtp/MtpStringBuffer.cpp:58-101 | the copying loop leaves the specification's buffer and counts |
| MtpStringBuffer.StringBuffer.SetFromUnits | av/media/mtp/MtpStringBuffer.cpp:103-124 | the encoding loop leaves the specification's buffer and counts |
| MtpStringBuffer.StringBuffer.ReadFromPacket | av/media/mtp/MtpStringBuffer.cpp:126-152 | the reading loop leaves the text of the packet's units and consumes them, or reports a short packet |
| MtpStringBuffer.StringBuffer.WriteToPacket | av/media/mtp/MtpStringBuffer.cpp:154-181 | the writing loop appends the specification's bytes |
| MtpPropertyRoundTrip.ValueRoundTrip | av/media/mtp/MtpProperty.cpp:423-531 | a value of any type comes back as itself, NULL as the empty string, if and only if it is a sound one |
| MtpPropertyRoundTrip.ArrayRoundTrip | av/media/mtp/MtpProperty.cpp:533-557 | an array comes back if and only if it is non-empty, below the limit and of sound values |
| MtpPropertyRoundTrip.PropertyRoundTrip | av/media/mtp/MtpProperty.cpp:126-217 | for every well-typed property, device or object, of every form, with any C strings and whatever memory they are written through, reading gives back what was written and consumes exactly that, if and only if it is readable |
| MtpPropertyForm.DatasetLayout | av/media/mtp/MtpProperty.cpp:178-217 | the fields of the dataset stand in the order of the MTP property description, for device and object properties and every form |
| MtpPropertyForm.TypeCodes | av/media/mtp/MtpProperty.cpp:423-531 | each type code means the width and sign it has in the MTP specification, and no other code has values |
| MtpPropertyForm.ScalarLayout | av/media/mtp/MtpProperty.cpp:476-531 | an integer value is its bytes, lowest first |
| MtpPropertyForm.WideLayout | av/media/mtp/MtpProperty.cpp:476-531 | a 128-bit value is its four words, the lowest first |
| MtpPropertyForm.ValuesInOrder | av/media/mtp/MtpProperty.cpp:533-557 | the values of an array stand one after the other, in order |
| MtpProperty.Property.Write | av/media/mtp/MtpProperty.cpp:178-217 | write appends the specification's bytes for the property |
| MtpProperty.Property.Read | av/media/mtp/MtpProperty.cpp:126-176 | read computes the specification's reading of the unread bytes |
| MtpTransfer.TransferDeliversAll | av/media/mtp/MtpDevice.cpp:594-683 | delivered and pending bytes are those received, in order; on success all are delivered, as many as announced if and only if the first packet was no longer |
| MtpTransfer.DeliversWhatComes | av/media/mtp/MtpDevice.cpp:594-683 | a transfer that succeeds has delivered exactly the first packet and then what the reads brought, in order |
| MtpTransfer.OffsetsTrue | av/media/mtp/MtpDevice.cpp:613-656 | a delivery says its true offset if and only if less than 2 GB went before it |
| MtpTransfer.LongObjectMissesOffset | av/media/mtp/MtpDevice.cpp:634-675 | so the last delivery of every completed transfer of 2 GB and a buffer or more is at a wrong offset, however the object arrives |
| MtpTransfer.LoopEnds | av/media/mtp/MtpDevice.cpp:634-675 | the loop ends when every read brings something and nothing fails |
| MtpTransfer.LastBufferNeedsNoRead | av/media/mtp/MtpDevice.cpp:634-675 | once all has been received the transfer succeeds exactly when the caller takes the last buffer |
| MtpTransfer.EmptyReadDoesNotShow | av/media/mtp/MtpDevice.cpp:634-675 | an empty read anywhere before a turn in which the next read can be queued and the caller takes the buffer changes neither what is delivered nor at what offsets nor how the transfer ends |
| MtpTransfer.ObjectReader.TakeTurn | av/media/mtp/MtpDevice.cpp:634-675 | one turn with the two buffers computes the specification, although a queued read may write its buffer at once: the one delivered is never the one queued |
| MtpTransfer.ObjectReader.ReadObject | av/media/mtp/MtpDevice.cpp:594-683 | the callback form computes the specification for an object of the announced size, and fails otherwise |
| MtpTransfer.ObjectReader.ReadObjectToFile | av/media/mtp/MtpDevice.cpp:687-784 | the file form computes the specification |
| MtpObjectDb.RunKeepsTree | av/media/mtp/MtpMain.cpp:257-434 | over every run of scans, sends and deletions that does not use up the handles, every parent is at every moment 0, the root marker or the smaller handle of a live folder, if and only if no failed end of sending has entries below it |
| MtpObjectDb.ScanMirrors | av/media/mtp/MtpMain.cpp:257-324 | scanning a folder makes exactly one entry a node, with its format and size and below the entry of its own folder, at the next handles in order; nothing else changes |
| MtpObjectDb.StorageMirrors | av/media/mtp/MtpMain.cpp:1001-1027 | so does adding a storage, whose own entry is below the root marker and whose content has parent 0 |
| MtpSession.ServerKeepsTree | av/media/mtp/MtpServer.cpp:162-1304 | server and database run together from the start through any requests, edits, device events and failures up to and including the exit, each on a run of its own; no failed end of sending has entries below it, so the tree keeps its parents; and an object whose sending was reported as failed is gone |
| MtpSession.SendingSettlesEntry | av/media/mtp/MtpServer.cpp:983-1058 | in every state reached the end of a sending leaves the entry with the size found if it was complete and removes it otherwise, and touches no other |
| MtpObjectDb.HandlesNotReused | av/media/mtp/MtpMain.cpp:257-261 | a handle that is gone is never given again |
| MtpObjectDb.SendAnswerTrueIff | av/media/mtp/MtpMain.cpp:370-403 | the answer to an announcement reads as a failure just when no entry was made, if and only if it is not an acceptable object getting the last handle |
| MtpObjectDb.AnnouncedIsEntered | av/media/mtp/MtpServer.cpp:891-955 | an announced object gets exactly its entry when it is acceptable and its parent is the root or a folder that is there, and none otherwise |
| MtpObjectDb.DeletionTakesSubtree | av/media/mtp/MtpMain.cpp:795-828 | a deletion takes the entry and everything below it along the parents, and nothing else |
| MtpObjectDb.MyMtpDatabase.AddObjectInfo | av/media/mtp/MtpMain.cpp:257-295 | scanning recursively computes the specification |
| MtpObjectDb.MyMtpDatabase.AddStoragePath | av/media/mtp/MtpMain.cpp:1001-1027 | a storage's entry and content are added as specified |
| MtpObjectDb.MyMtpDatabase.BeginSendObject | av/media/mtp/MtpMain.cpp:370-403 | the entry and the handle, or the failure value |
| MtpObjectDb.MyMtpDatabase.EndSendObject | av/media/mtp/MtpMain.cpp:405-434 | a failed object is removed, a file's size updated, an unknown handle ignored |
| MtpObjectDb.MyMtpDatabase.DeleteFile | av/media/mtp/MtpMain.cpp:795-828 | deletion terminates, removes exactly the entry and its descendants and leaves every other entry unchanged |
| MtpObjectDb.MyMtpDatabase.GetObjectList | av/media/mtp/MtpMain.cpp:436-469 | exactly the entries of the storage, parent and format are listed |
| MtpServer.RunsBalance | av/media/mtp/MtpServer.cpp:162-245 | over every run up to exit each successful BeginEdit gets one commit and then one close, sessions start and end in turn and none is left on, and only the handle last announced and not yet reported is reported |
| MtpServer.EditsAreThoseOpen | av/media/mtp/MtpServer.cpp:282-308 | the edit list holds distinct handles, exactly those opened and not committed |
| MtpServer.EachAnnouncementReportedOnce | av/media/mtp/MtpServer.cpp:983-1058 | a handle is reported at most as often as it was announced |
| MtpServer.AnnouncementsAccounted | av/media/mtp/MtpServer.cpp:323-327 | over every run up to exit each announcement of a handle comes to exactly one end: reported by SendObject, forgotten for another request, or still pending at the end |
| MtpServer.SentTellsTheTruth | av/media/mtp/MtpServer.cpp:983-1058 | with a storage the end of a sending is told once, as a success exactly when there was an announced object, its header was read, its file opened and the transfer complete; the answer says the same |
| MtpServer.InfoAnnounces | av/media/mtp/MtpServer.cpp:954-981 | an object is announced exactly when SendObjectInfo succeeds for a file |
| MtpServer.AnswersTellHistory | av/media/mtp/MtpServer.cpp:494-517 | sessions open and close, and edits begin and end, with success exactly as the log of what happened before allows |
| MtpServer.ServesUntilBroken | av/media/mtp/MtpServer.cpp:162-231 | the loop handles every request, cancelled exchanges apart, until a broken one |
| MtpServer.BrokenAnswerEnds | av/media/mtp/MtpServer.cpp:208-231 | an answer that cannot be written ends the loop after its request, unless none was due |
| MtpServer.RequestServer.GetEditObject | av/media/mtp/MtpServer.cpp:288-295 | an edit of the handle is found if and only if there is one |
| MtpServer.RequestServer.RemoveEditObject | av/media/mtp/MtpServer.cpp:297-308 | the first edit of the handle is closed and removed |
| MtpServer.RequestServer.SendObject | av/media/mtp/MtpServer.cpp:983-1058 | the method computes the specification's outcome |
| MtpServer.RequestServer.BeginEdit | av/media/mtp/MtpServer.cpp:1265-1289 | the method computes the specification's outcome |
| MtpServer.RequestServer.EndEdit | av/media/mtp/MtpServer.cpp:1291-1304 | the method computes the specification's outcome |
| MtpServer.RequestServer.HandleRequest | av/media/mtp/MtpServer.cpp:315-437 | the method computes the specification's step and whether a response is due |
| MtpServer.RequestServer.RunLoop | av/media/mtp/MtpServer.cpp:162-245 | the loop and the exit path produce the log of the run model |
| CameraParameters.FlatFormRoundTrip | av/camera/CameraParameters.cpp:185-235 | a sorted map comes back from its flat form if and only if no key has a '=', no value a ';' and neither a zero character |
| CameraParameters.FlatIsJoined | av/camera/CameraParameters.cpp:185-203 | the flat form is "key=value" of each pair in order with semicolons between |
| CameraParameters.EveryMapSurvives | av/camera/CameraParameters.cpp:185-294 | every map reached by any set, remove and unflatten survives being flattened |
| CameraParameters.SetGetsOneKey | av/camera/CameraParameters.cpp:238-282 | a set is got under its own key, unless refused, and leaves the value of every other key |
| CameraParameters.RemoveDropsOneKey | av/camera/CameraParameters.cpp:291-294 | a removed key has no value and every other key keeps its own |
| CameraParameters.IntSetIsGot | av/camera/CameraParameters.cpp:254-282 | every 32-bit integer set is the integer got |
| CameraParameters.SizeSetIsGot | av/camera/CameraParameters.cpp:347-361 | every size of 32-bit integers set is the size got |
| CameraParameters.MissingIsMinusOne | av/camera/CameraParameters.cpp:276-370 | without a value an integer is -1 and a size -1 by -1, and so is a size that is no pair |
| CameraNumbers.SizeListRoundTrip | av/camera/CameraParameters.cpp:297-345 | a list of sizes printed as "WxH,WxH" parses to itself |
| CameraNumbers.PairReads | av/camera/CameraParameters.cpp:296-320 | a pair of 32-bit integers is read back wherever its text stands |
| CameraParameters.ParameterMap.Flatten | av/camera/CameraParameters.cpp:185-203 | the loop produces the flat form |
| CameraParameters.ParameterMap.Unflatten | av/camera/CameraParameters.cpp:205-235 | the pointer walk leaves the map of the text's items |
| CameraParameters.ParameterMap.Set | av/camera/CameraParameters.cpp:238-252 | a key or value with '=' or ';' changes nothing; otherwise the key has the value |
| CameraParameters.ParameterMap.ParseSizesList | av/camera/CameraParameters.cpp:322-345 | the loop pushes the specification's sizes |
| VendorTags.ParcelRoundTrip | av/camera/VendorTagDescriptor.cpp:95-287 | a vendor's descriptor is read back from its parcel if and only if tags are distinct and names non-empty; then everything but the way back is what it was |
| VendorTags.IndexSurvives | av/camera/VendorTagDescriptor.cpp:152-169 | the way back survives if and only if for every section and name the last tag given is the greatest |
| VendorTags.DescriptorSurvivesIff | av/camera/VendorTagDescriptor.cpp:95-287 | reading a vendor's descriptor back from its parcel gives the same descriptor, reverse maps included, if and only if tags are distinct, names non-empty and for every section and name the last tag given is the greatest |
| VendorTags.EveryTagFoundIff | av/camera/VendorTagDescriptor.cpp:477-494 | every tag is found under its own section and name if and only if no two tags share both |
| VendorTags.LookupIsLast | av/camera/VendorTagDescriptor.cpp:477-494 | a section and a name lead to the last tag given with both, and to none exactly when no tag has both |
| VendorTags.OpsRefusedIff | av/camera/VendorTagDescriptor.cpp:95-148 | operations are refused exactly when the count is negative or some tag is outside the vendor range, without a name or section, or of no known type |
| VendorTags.WrittenLayout | av/camera/VendorTagDescriptor.cpp:437-471 | the parcel is the count, four items a tag and, if there are any, the number of sections and each of them |
| VendorTags.RecordRefusedIff | av/camera/VendorTagDescriptor.cpp:205-247 | a tag is refused exactly when it is not all there, is below the vendor range, is of no known type or has an empty name |
| VendorTags.CountsRefused | av/camera/VendorTagDescriptor.cpp:175-268 | a negative count is refused, and so are fewer sections than the largest index |
| VendorTags.CountTooLarge | av/camera/VendorTagDescriptor.cpp:437-471 | with a tag given twice the number of sections is read as a tag, and refused |
| VendorTagDescriptor.VendorTagDescriptor.CreateDescriptorFromOps | av/camera/VendorTagDescriptor.cpp:95-174 | the two loops build the specification's descriptor, or fail as specified |
| VendorTagDescriptor.VendorTagDescriptor.CreateFromParcel | av/camera/VendorTagDescriptor.cpp:176-287 | the loops read the specification's descriptor, or fail with its error |
| VendorTagDescriptor.VendorTagDescriptor.WriteToParcel | av/camera/VendorTagDescriptor.cpp:437-471 | the loops write the specification's items |
| VendorTagDescriptor.VendorTagDescriptor.LookupTag | av/camera/VendorTagDescriptor.cpp:477-494 | the lookup is the specification's |

## Left out

- Rounding: matrices are over the reals. A zero pivot is reported where the original divides by it.
- `rotate`, `lookAt`, `frustum`, `diag` and `trace`: single formulas.
- MemoryDealer.SimpleBestFitAllocator.constructor: the page size is at least 32 and taken as given; that it is a power of two, which makes the masking of the original a remainder, is assumed.
- The system call that discards pages: the model says which bytes it is given.
- BpBinder: attached objects, descriptors and transactions of a proxy; allocation failure in linking.
- ProcessState.HandleTable.GetStrongProxyForHandle: the answer to the ping of the context manager is an argument; table growth never runs out of memory.
- IpcThread: parcels, freeing of buffers, reference-count commands and scheduling; every command in the driver's stream is whole; the attempt to acquire a strong reference from the driver.
- IpcThread.ServeKeepsIdentity: an abort of the process counts as leaving the loop.
- BinderIo.Cursor.Init: the table of offsets is an array of its own, not the front of the caller's buffer; the flag that marks a shared buffer is not kept.
- BinderIo: the variant for 8-bit strings; the driver's translation of objects into handles.
- ServiceRegistry.AddArrives: `svcmgr_handler` is a function on cursor values, not a method on cursors; the security policy's and the allocator's answers are arguments.
- MtpDataPacket.DataPacket.constructor: the cursor of a new packet stands after the header from the start; in the original only after the first reset, which every user does.
- MtpDataPacket: the array getters and putters other than those of properties, which are the same loops; USB and file transfer of packets.
- MtpProperty.Property.Read: after a failing read only the failure is promised; which fields have been overwritten by then is not.
- MtpProperty: arrays of property values are sequences; a string value carries the former content of the memory its buffer is put on.
- MtpSession.ServerKeepsTree: server and database together are functions, the classes of each are proved apart; up to the last handle; what an edit's file is found to be at its commit is an argument.
- MtpTransfer: the request before and the response after the data; allocation failure.
- MtpObjectDb.MyMtpDatabase.DeleteFile: the original erases from the map it iterates over; the model visits the keys there were when the loop began and skips those already gone, in any order.
- MtpObjectDb: names, paths, dates and watches; removing a storage, renaming, and matching of watch events, which do not keep the tree consistent; beyond 2^32 handles.
- MtpServer: requests that touch neither session, pending object nor edit list are one kind of request; the content of partial writes to an open edit.
- CameraParameters: floating-point values; the other getters and setters, which are calls of those modelled; `add` of the keyed vector replaces an existing value.
- CameraNumbers: locales; `strtol` is modelled for any base, `sprintf` for integers and pairs.
- VendorTags: the parcel is a sequence of words and strings that are read as what they were written as; copying, dumping and the global descriptor; `readFromParcel`, which is `createFromParcel` into an existing object.
- VendorTagDescriptor.VendorTagDescriptor.CreateFromParcel: a section index without a section is an error, where the original goes by the announced number of sections only.
- `CameraMetadata`, `Region` and `Parcel`: their storage is not part of this repository. `BufferedTextOutput`, code tables, interface proxies, logging, dumps, frame statistics, fences and caches: wrappers or easy members.
