# Swiitx GPU memory, submission and attribution models

This project models the parts of the swiitx console emulator where state is edited in place and the
result must still mean something simple: the Maxwell GPU address space, GPFIFO retention, the wgpu
driver's coherence bookkeeping, the native fault registry, the resumable Maxwell execution, the CPU
control word and the headless submission validator. Each component is written in the form the source
has (objects with mutable fields, loops over tables and arrays, atomic steps) and is proved against an
independent reading of it: a byte-wise function, a plain LRU cache, a linear scan, a command-order run,
a set of shared cells.

`dafny verify dfyconfig.toml` checks the whole project.

## How it is organised

| files | component | reference it is proved against |
|---|---|---|
| `MappingTable`, `SpaceModel`, `SpaceOperations`, `RemapModel`, `SpaceRefusals`, `TableEditing`, `AddressSpace`, `AddressSpaceRuns` | Maxwell GPU address space | translation of each GPU byte; histories of stamped tables; the checks each error names |
| `Gpfifo` | retained GPFIFO submissions | the same translation |
| `DeviceWrites`, `TrackerRuns`, `Writebacks`, `WritebackPipeline`, `PageReplay`, `PageRequests`, `SharedPages` | device-write tracker, demanded writebacks and page requests | last writer of each buffer byte; newest content held for each page byte |
| `ImageLayout`, `ImageSteps`, `ImageCopy` | image layout copier | byte-by-byte copy; where the next column, row and layer go |
| `PipelineCache` | pipeline variant cache | plain LRU cache |
| `ResidencyModel`, `Residency` | residency budget | sums over resident resources |
| `FaultIndex`, `FaultRegistry`, `RegistryCreation` | native fault registry | linear scan of published sites |
| `RenderPasses`, `BatchBoundaries`, `MergeExactness`, `ExecutionModel`, `BackendExecution`, `StepByStep`, `PostCompletion` | resumable execution and pass merging | interpreter of operation lists; pairs of neighbouring works; command-order run; every step on its own and every write in its place |
| `CpuControl`, `ControlHistory` | control word protocol | invariant over all interleavings; the steps taken so far |
| `Footprints`, `Validator`, `HeadlessHistories`, `JudgedHistories`, `HeadlessRuns` | headless validator | cells touched; chains of predecessors; last toucher of each cell |
| `Primitives`, `OrderedMaps`, `CanonicalMemory` | shared vocabulary | |

## Modelling decisions

- Machine integers are unbounded numbers; every width that matters is written out: 64-bit addresses,
  generations, identities and offsets, 32-bit page counts and segment numbers, the wrapping page hash.
  Masking by a power of two is written as a remainder, and a chain of checked products and sums as one
  comparison of its non-negative total.
- Ordered maps are maps with explicit in-order traversal and nearest-key lookups.
- Error values keep the kind of the error and drop most of its payload. A reported error is proved to name
  a check that the request really fails; the order of the checks is not part of the contracts.
- Canonical storage is pages of bytes; a backing is a list of page segments. A byte read or staged goes
  through the segments exactly as the source does.
- Values that the types of the source guarantee appear as preconditions: non-empty ranges and extents,
  resolved ranges that were built by resolution, works that are not empty, images that store only to the
  pages of their storage.
- A signal handler loads every slot at most once, so a concurrent lookup is a lookup in a vector that
  takes each slot from some moment of the publications. Loads are not assumed to be in time order.
- The control word is a state machine of sequentially consistent atomic operations; the acquire and
  release annotations of the source are not weakened further.
- What draws, transfers and the host compute is an arbitrary function, so the merging and execution
  results hold for every behaviour of the commands. A draw is taken to see its pass's working contents
  and the images outside its attachments.
- Where a comment or name promises more than the code does, the code is followed. The 256-region budget
  of the tracker bounds recordings only: a subtraction exceeds it exactly when the tracker is full and
  the range cuts a region in two (`TrackerRuns.SubtractWithinBudget`). The pass-merging rule compares the
  new pass with the first pass of the last work, so it may merge into a different last pass; a merge keeps
  the meaning exactly when the last pass is compatible (`MergeExactness.MergeAgreesExactlyWhenSafe`). A
  work of two passes is an input of that rule; the lowering of draws
  (`crates/gpu-maxwell/src/engines/threed/draw.rs`, lines 3831 to 3861) emits one begin, one draw and one
  end per work, and plans of such works always run as their steps on their own do
  (`StepByStep.SoundRunsAsSingly`). The residency counters stay raised exactly when room was made and
  capturing the CPU writes then fails (`Residency.ResidencyTable.AddPresentationImport`). The validator
  detects a hazard with the last toucher of a cell exactly while nothing has overlapped that toucher's
  record and its resource is not destroyed (`HeadlessHistories.DetectedExactlyWhenLeftAlone`). A page is
  delivered to the CPU with its newest content exactly when the newest holder of each byte is among the
  last that the pages materialized so far brought for it; an image on two pages can break that in two
  ways (`PageRequests.NewestExactlyWhenTimely`, `SharedPages`). Post-completion writes are held back past
  later steps, which matters when one of those meets their bytes (`PostCompletion`).

## Model

| member | source | states |
|---|---|---|
| `AddressSpace.GpuAddressSpace.Initialize` | crates/gpu-maxwell/src/address_space.rs:553-623 | Initialization succeeds exactly on valid, not yet initialized geometry, with the stated defaults where the request has zeros, and keeps the invariant of the space; the two regions run from the start to the split and from there to the end; a failure leaves the state unchanged, and its error names a check the request fails. |
| `AddressSpace.GpuAddressSpace.FindFirstFit` | crates/gpu-maxwell/src/address_space.rs:1352-1391 | The search ends; an address it returns is the lowest aligned one in the region whose range meets no reservation and no mapping; when it returns none, or an overflow error, no such address exists; an overflow error means that the next aligned range left the 64-bit addresses, none that it stayed in them and left the region. |
| `AddressSpace.SkipIsSafe` | crates/gpu-maxwell/src/address_space.rs:1366-1378 | Skipping to the largest end of the overlapping ranges never passes over an aligned free range. |
| `AddressSpace.GpuAddressSpace.Reserve` | crates/gpu-maxwell/src/address_space.rs:631-694 | A reservation is granted exactly when the request is valid and its fixed (flags 1 and 3) or first-fit range is free, sparse (flags 2 and 3) only with big pages; the new state adds that reservation only; a failure changes nothing, and its error names a check the request fails. |
| `AddressSpace.GpuAddressSpace.Free` | crates/gpu-maxwell/src/address_space.rs:697-730 | Freeing succeeds exactly on the exact offset, page count and page size of a reservation; the new state drops it and the mappings inside it, and only then advances the generation; a failure changes nothing. |
| `SpaceOperations.FreedRangeIsFree` | crates/gpu-maxwell/src/address_space.rs:697-730 | After a free nothing occupies the freed range: every byte in it is unmapped and every byte outside keeps its translation. |
| `SpaceOperations.ReserveKeepsInv` | crates/gpu-maxwell/src/address_space.rs:631-694 | Reservations stay pairwise disjoint and every mapping stays inside one reservation or outside all when a free range is reserved. |
| `SpaceOperations.FreeKeepsInv` | crates/gpu-maxwell/src/address_space.rs:697-730 | The invariant of the space and its generation history survive freeing. |
| `AddressSpace.GpuAddressSpace.Map` | crates/gpu-maxwell/src/address_space.rs:740-846 | A mapping is installed exactly when the request is accepted; it is the requested backing window at a free range stamped with the next identity and generation; a failure changes nothing, and its error names a check the request fails. |
| `AddressSpace.GpuAddressSpace.CheckMapping` | crates/gpu-maxwell/src/address_space.rs:740-785 | A mapping request passes its checks exactly when the backing, the permissions, the kind, the alignment and the selected page size fit; big pages are selected exactly when none is asked for and alignment, offset and size allow them. |
| `AddressSpace.MapMeaning` | crates/gpu-maxwell/src/address_space.rs:818-845 | After a map each byte of the new range translates to its backing byte with the requested attributes and every other byte keeps its translation. |
| `SpaceOperations.MapKeepsInv` | crates/gpu-maxwell/src/address_space.rs:740-846 | Mappings stay pairwise disjoint, placed and stamped when a new record is inserted. |
| `AddressSpace.GpuAddressSpace.Unmap` | crates/gpu-maxwell/src/address_space.rs:853-876 | Unmapping names the first record with the given unmap offset, removes every piece of its identity and returns those pieces, each once and in address order; an offset no record names changes nothing; a failure changes nothing. |
| `SpaceOperations.UnmapMeaning` | crates/gpu-maxwell/src/address_space.rs:853-876 | Exactly the bytes of the unmapped identity become unmapped; all others keep their translation. |
| `SpaceOperations.UnmapKeepsInv` | crates/gpu-maxwell/src/address_space.rs:853-876 | The invariant of the space and its generation history survive unmapping. |
| `AddressSpace.GpuAddressSpace.RemapSparse` | crates/gpu-maxwell/src/address_space.rs:883-962 | A sparse remap succeeds exactly when every request is accepted and spans are disjoint; the new table means, byte by byte, what the requests in turn say over the old one, and each mapped byte of a span has its request's allocation, backing byte, permissions, kind, cacheability and the identity that counts the requests before it; a failure changes nothing, and its error names a check the request fails. |
| `TableEditing.ReplaceMappingRange` | crates/gpu-maxwell/src/address_space.rs:1664-1707 | The in-place cut of a range leaves a well-formed table in which exactly the affected records were replaced by their left and right pieces. |
| `MappingTable.EditMeaning` | crates/gpu-maxwell/src/address_space.rs:1664-1707 | Cutting a range out of a table, or recolouring it, is the pointwise update of the byte translation, through all splits. |
| `MappingTable.EditedWellFormed` | crates/gpu-maxwell/src/address_space.rs:1664-1707 | A table stays free of overlaps and sound record by record after any set of records has been cut or recoloured. |
| `RemapModel.RemapInSpan` | crates/gpu-maxwell/src/address_space.rs:883-962 | Each byte of a request span translates as that request says, or becomes unmapped, whatever the other requests are. |
| `RemapModel.RemapFields` | crates/gpu-maxwell/src/address_space.rs:916-957 | After a remap each byte of a request's span has, field by field, what that request gives it, and none if the request unmaps. |
| `RemapModel.OverlapSharesByte` | crates/gpu-maxwell/src/address_space.rs:900-915 | Two spans are refused as overlapping exactly when they have a byte in common. |
| `RemapModel.RemapOutside` | crates/gpu-maxwell/src/address_space.rs:883-962 | A byte outside all spans keeps its allocation, backing byte, permissions, kind and cacheability. |
| `RemapModel.RemapOrderIrrelevant` | crates/gpu-maxwell/src/address_space.rs:883-962 | Up to the numbering of identities the outcome of a remap does not depend on the order of its requests. |
| `RemapModel.RemapAcceptsAnyOrder` | crates/gpu-maxwell/src/address_space.rs:883-915 | Whether a remap is accepted does not depend on the order of its requests. |
| `AddressSpace.GpuAddressSpace.ModifyMapping` | crates/gpu-maxwell/src/address_space.rs:965-1084 | Modification succeeds exactly on a valid, aligned range that the named identity's pieces cover; `PartialMapping` is reported exactly when a validated range is not covered; kind and cacheability then change on exactly the requested bytes, and every byte keeps its allocation, backing byte, permissions and other attributes; a failure changes nothing, and its error names a check the request fails. |
| `TableEditing.RecolourRange` | crates/gpu-maxwell/src/address_space.rs:1022-1081 | The three-way split of each affected record is exactly the recolouring edit of the table. |
| `TableEditing.CoversRange` | crates/gpu-maxwell/src/address_space.rs:1006-1020 | The coverage loop over the identity's pieces answers whether every byte of the range belongs to that identity. |
| `AddressSpace.GpuAddressSpace.ResolveMaximal` | crates/gpu-maxwell/src/address_space.rs:1092-1130 | Predecessor lookup finds the rest of the active mapping at an address exactly when that byte is mapped with the required permissions. |
| `AddressSpace.GpuAddressSpace.ResolveRange` | crates/gpu-maxwell/src/address_space.rs:1136-1170 | Resolution succeeds exactly when every byte is mapped with the permissions; its segments tile the range in order over active records; a failure names the first inaccessible byte. |
| `SpaceModel.TilingMatchesTable` | crates/gpu-maxwell/src/address_space.rs:1136-1170 | Any tiling by active records agrees with the pointwise translation at every byte. |
| `AddressSpace.GpuAddressSpace.ReadResolved` | crates/gpu-maxwell/src/address_space.rs:1177-1227 | A read succeeds exactly when space, permission and size agree and every retained record is current; each byte read is the one behind its own address. |
| `SpaceModel.RecordNeverReused` | crates/gpu-maxwell/src/address_space.rs:740-1084 | Over any history an offset and generation never name two different records. |
| `SpaceModel.StalenessIsExact` | crates/gpu-maxwell/src/address_space.rs:1280-1289 | A record that was ever active is reported current exactly when that identical record is still active. |
| `SpaceModel.StaleForever` | crates/gpu-maxwell/src/address_space.rs:1280-1289 | Once stale a record never becomes current again, whatever is unmapped, remapped, modified or mapped later. |
| `SpaceModel.RetainedRangeUnchanged` | crates/gpu-maxwell/src/address_space.rs:1177-1227 | While all records of a retained range are current every byte of it still translates as when it was resolved. |
| `AddressSpaceRuns.ExecuteAll` | crates/gpu-maxwell/src/address_space.rs:553-1084 | Any sequence of calls, successful or not, keeps the invariant and traces a history to which the staleness results apply; each step of it does all its call asks, exactly when the call is accepted, and otherwise nothing. |
| `AddressSpaceRuns.CheckAfter` | crates/gpu-maxwell/src/address_space.rs:1280-1289 | After any sequence of calls on the object the staleness test answers exactly whether the retained record is still in the table. |
| `AddressSpace.NoRoomPastOverflow` | crates/gpu-maxwell/src/address_space.rs:1734-1739 | When rounding an address up overflows 64 bits no aligned address is left in the region. |
| `Gpfifo.ResolveSubmission` | crates/gpu-maxwell/src/gpfifo.rs:631-682 | A submission resolves exactly when it is bound to this space and every non-empty entry is fully mapped for reading; each entry keeps its own tiling. |
| `Gpfifo.ValidateSources` | crates/gpu-maxwell/src/gpfifo.rs:281-308 | Retained sources validate exactly when the space matches and every retained record is still current. |
| `Gpfifo.ReadPushbuffer` | crates/gpu-maxwell/src/gpfifo.rs:314-332 | A retained pushbuffer reads back exactly the bytes behind its own addresses, or is refused as stale. |
| `Gpfifo.WordLocation` | crates/gpu-maxwell/src/gpfifo.rs:335-380 | Every word of every retained pushbuffer has a location and it is that word's own offset in the segment that covers it. |
| `DeviceWrites.SubtractBufferWriteRange` | crates/gpu-wgpu/src/driver.rs:4119-4154 | The swap-remove loop ends; it erases exactly the matching bytes of the range, keeps the other bytes' serials and all image writes, leaves non-empty disjoint regions, and grows the vector exactly when some region is cut in two. |
| `DeviceWrites.RecordBufferDeviceWrite` | crates/gpu-wgpu/src/driver.rs:3904-3967 | Recording is the pointwise update of the byte-to-serial map; it fails exactly when the range overflows or the precomputed count, which is the resulting length, exceeds 256. |
| `DeviceWrites.CarveMeaning` | crates/gpu-wgpu/src/driver.rs:3927-3961 | Replacing one struck region by its two remains changes the serial of exactly the bytes in the range. |
| `DeviceWrites.AtMostOneExtra` | crates/gpu-wgpu/src/driver.rs:4119-4154 | Subtracting one range from disjoint regions splits at most one of them in two. |
| `DeviceWrites.GrowsExactlyWhenSplit` | crates/gpu-wgpu/src/driver.rs:4119-4154 | The regions a subtraction leaves outnumber those before it exactly when a matching region reaches past both ends of the range. |
| `TrackerRuns.RunTracker` | crates/gpu-wgpu/src/driver.rs:3904-4154 | Over any sequence of recordings, completions and upload subtractions without a serial, the regions stay disjoint and denote the byte-wise history of the accepted steps; each step is accepted exactly when the state it meets does not refuse it, and a refusal changes nothing. |
| `TrackerRuns.TakeStep` | crates/gpu-wgpu/src/driver.rs:3904-4154 | A recording is refused, without any change, exactly when it overflows or exceeds the region budget; every other step, completion or upload, extends the history. |
| `TrackerRuns.SubtractWithinBudget` | crates/gpu-wgpu/src/driver.rs:4119-4154 | From a tracker within the 256-region budget a subtraction leaves more than 256 regions exactly when there were 256 and the range cuts one of them in two. |
| `TrackerRuns.CompletionExceedsBudget` | crates/gpu-wgpu/src/driver.rs:4119-4154 | 256 recordings from an empty tracker fill it, and the subtraction of one byte inside its first region then returns 257 regions. |
| `Writebacks.CollectDemandedWritebacks` | crates/gpu-wgpu/src/driver.rs:3984-4049 | The demands collected for a page are exactly the resource's dirty buffer bytes stored on it, each with its page byte, and exactly the dirty image bindings that touch it. |
| `WritebackPipeline.SortDemands` | crates/gpu-wgpu/src/driver.rs:4072-4079 | Sorting permutes the demands into the order of serial, handle and offset. |
| `WritebackPipeline.CoalesceDemands` | crates/gpu-wgpu/src/driver.rs:4051-4070 | The in-place compaction computes the left-to-right merge of neighbouring demands. |
| `WritebackPipeline.CoalesceKeepsTransfers` | crates/gpu-wgpu/src/driver.rs:4051-4070 | Merging keeps the set of handle, serial, buffer byte and page byte transfers. |
| `WritebackPipeline.CoalesceIsMaximal` | crates/gpu-wgpu/src/driver.rs:4051-4070 | No two neighbours left after merging could still be merged. |
| `WritebackPipeline.CoalesceOrdered` | crates/gpu-wgpu/src/driver.rs:4051-4081 | Merging keeps the demands in order. |
| `WritebackPipeline.PrepareDemandedWritebacks` | crates/gpu-wgpu/src/driver.rs:4072-4081 | Sorting and merging keep every transfer and image demand and leave an ordered list without mergeable neighbours. |
| `PageReplay.EncodeBufferWriteback` | crates/gpu-wgpu/src/driver.rs:2303-2346 | A copy is staged exactly when it can be widened to four-byte alignment inside its buffer; the bytes at its staging offset are the demanded ones. |
| `PageReplay.FinishWritebacks` | crates/gpu-wgpu/src/driver.rs:2430-2525 | The staged copies are stored in order, buffers to the demanded page and images to every page of their storage; whatever fails, the mirrors are the replay of a first part of the demands, and all of them exactly on success. |
| `PageReplay.PageMirrors.WriteImage` | crates/gpu-wgpu/src/visibility.rs:38-78 | An image is stored segment by segment into the mirrors of all its pages, or refused without any change exactly when one of them has no mirror. |
| `PageReplay.PageMirrors.WritePageRange` | crates/gpu-wgpu/src/visibility.rs:80-105 | A range is stored into one mirror exactly when the page has a mirror that holds it; otherwise nothing changes. |
| `PageReplay.ReplayedByte` | crates/gpu-wgpu/src/driver.rs:2452-2490 | A replayed mirror holds at each byte of each page what the last demand storing there stores, and its old value where none does. |
| `PageReplay.LatestWriterWins` | crates/gpu-wgpu/src/driver.rs:4072-4081 | In an ordered list no demand that stores to a page byte comes after its final writer. |
| `PageReplay.ReplaySettles` | crates/gpu-wgpu/src/driver.rs:3150-3185 | Replaying the ordered demands of a page leaves at each byte of every page the content of the demanded resource with the highest serial, then handle, that stores there; a byte none stores to keeps its value. |
| `WritebackPipeline.CompleteDemandedWriteback` | crates/gpu-wgpu/src/driver.rs:4083-4117 | Completing a demand clears exactly the bytes it moved that still carry its serial, or exactly its image write. |
| `WritebackPipeline.ClearsExactlyThePage` | crates/gpu-wgpu/src/driver.rs:3984-4154 | The bytes cleared by completing all demands of a page are exactly the dirty bytes stored on that page. |
| `PageReplay.MaterializePage` | crates/gpu-wgpu/src/driver.rs:3150-3190 | From collection to completion over all resources: the ordered, merged demands are exactly what is dirty on the page; on success every byte of every mirror holds the newest content they store there or its old value, and exactly the dirty bytes and image bindings of the page are clean while all other dirty bytes keep their serial; a failure leaves every tracker as it was. |
| `PageRequests.MakeCpuVisible` | crates/gpu-wgpu/src/visibility.rs:247-270 | A page known to be complete up to the point is delivered as its mirror stands and nothing else changes; otherwise it is materialized, it and the pages of the stored images are marked, and it is delivered, exactly when staging, storing and its mirror allow; its mirror is given up. |
| `PageRequests.ServeAll` | crates/gpu-wgpu/src/driver.rs:3150-3243 | Over any sequence of requests each page delivered holds, byte by byte, the newest content of the last batch that the pages materialized by then brought for it; when no dirty image lies on two pages that is the newest content any resource held. |
| `PageRequests.NewestExactlyWhenTimely` | crates/gpu-wgpu/src/driver.rs:3150-3243 | A byte delivered is a newest holder's when a newest holder is in the last batch brought for it; otherwise it is an older holder's or was never brought. |
| `PageRequests.UnsharedIsNewest` | crates/gpu-wgpu/src/driver.rs:3150-3243 | A materialized page has the newest content of every byte for which an image that spans pages, if one holds it, is the only holder. |
| `SharedPages.OlderOverNewer` | crates/gpu-wgpu/src/driver.rs:2495-2510 | An image over two pages and an older buffer on the second: requesting the first page and then the second at a later point delivers the buffer's byte over the newer image's. |
| `SharedPages.DeliveredTooEarly` | crates/gpu-wgpu/src/visibility.rs:179-199 | An image over two pages and a buffer on another byte of the second: requesting both at one point delivers the second without the buffer's byte. |
| `ImageLayout.BlockOffsetSplits` | crates/gpu-wgpu/src/driver.rs:4343-4384 | The nine address terms are a layer, a GOB number and a byte inside the GOB. |
| `ImageSteps.BlockOffsetOnto` | crates/gpu-wgpu/src/driver.rs:4343-4384 | Every offset of a layer made of whole 64-byte by 8-row GOBs is the offset of one row and byte column in it. |
| `ImageSteps.GobByteOf` | crates/gpu-wgpu/src/driver.rs:4371-4378 | The byte inside a GOB is read off the binary digits of the row and the column. |
| `ImageSteps.WidthIsLeast` | crates/gpu-wgpu/src/driver.rs:4286 | The width in GOBs is the least number of 64-byte columns that holds a row. |
| `ImageSteps.BlockLayoutSteps` | crates/gpu-wgpu/src/driver.rs:4283-4384 | In block-linear storage 64 columns further is a block of GOBs away, eight rows further inside a block one GOB, a block of rows further as many blocks as hold a row, and the next layer one stride; the first GOB holds its bytes in GOB order. |
| `ImageSteps.PitchLayoutSteps` | crates/gpu-wgpu/src/driver.rs:4326-4341 | In pitch-linear storage the next column, row and layer are one byte, one pitch and one layer stride away. |
| `ImageSteps.LinearSteps` | crates/gpu-wgpu/src/driver.rs:4263-4269 | In host rows the next column and row are one byte and one host pitch away, and the next layer starts after the last row. |
| `ImageSteps.RowHoldsTexels` | crates/gpu-wgpu/src/driver.rs:4252-4256 | A row holds exactly the bytes of its texels. |
| `ImageLayout.GobInjective` | crates/gpu-wgpu/src/driver.rs:4343-4384 | Within a layer the block-linear offset determines row and byte column. |
| `ImageLayout.CanonicalInjective` | crates/gpu-wgpu/src/driver.rs:4326-4384 | No two image bytes share a canonical address when rows and layers are at least one row and one layer footprint apart, for pitch-linear and block-linear storage. |
| `ImageLayout.SectorIsContiguous` | crates/gpu-wgpu/src/driver.rs:4297-4319 | Up to the next multiple of sixteen columns consecutive bytes have consecutive block-linear addresses. |
| `ImageCopy.CopyImageLayout` | crates/gpu-wgpu/src/driver.rs:4245-4324 | The copy succeeds exactly when the layout is supported and every image byte is in range on both sides; the destination is always the byte-by-byte copy up to where it stopped, although rows are copied in runs, and a failing copy stops exactly at the first run with a byte out of range. |
| `ImageCopy.CopyBlockRow` | crates/gpu-wgpu/src/driver.rs:4288-4321 | The loop of runs of at most sixteen bytes equals the byte-by-byte copy of the row and fails exactly when some byte of the row is out of range. |
| `ImageCopy.CopyPitchRow` | crates/gpu-wgpu/src/driver.rs:4257-4282 | A pitch-linear row is copied whole exactly when all its bytes are in range. |
| `ImageCopy.CopyBytes` | crates/gpu-wgpu/src/driver.rs:4386-4423 | One bounded run is spliced into the destination or, when out of range, refused without any change. |
| `ImageCopy.RunIsBytes` | crates/gpu-wgpu/src/driver.rs:4386-4423 | Copying a contiguous run at once is copying its bytes one by one. |
| `ImageCopy.LinearRoundTrip` | crates/gpu-wgpu/src/driver.rs:4221-4324 | Writing host rows to canonical storage and linearizing them again restores every image byte. |
| `ImageCopy.CanonicalRoundTrip` | crates/gpu-wgpu/src/driver.rs:4221-4324 | Linearizing an image and writing it back leaves canonical storage as it was. |
| `ImageCopy.OutsideUntouched` | crates/gpu-wgpu/src/driver.rs:4236-4324 | Writing an image to canonical storage touches no byte outside the image. |
| `PipelineCache.RenderPipelineCache.Touch` | crates/gpu-wgpu/src/driver.rs:455-474 | A lookup hits exactly when either part holds the fingerprint, returns the stored variant and moves it to the most recent place of the plain LRU cache; a miss leaves the contents as they were with no current entry. |
| `PipelineCache.RenderPipelineCache.Insert` | crates/gpu-wgpu/src/driver.rs:492-523 | Insertion after a miss evicts the least recently used entry of the whole cache exactly when it is full and reports it; the result is the plain LRU insertion. |
| `PipelineCache.RenderPipelineCache.Prepare` | crates/gpu-wgpu/src/driver.rs:2061-2270 | A request returns the stored variant on a hit and the compiled one on a miss; a compilation that fails leaves the entries and their order as they were; the size never exceeds the capacity; the cache stays the plain LRU cache. |
| `PipelineCache.RenderPipelineCache.PrepareAll` | crates/gpu-wgpu/src/driver.rs:432-523 | Any sequence of requests, with or without failing compilations, leaves exactly what a plain LRU cache of that capacity holds. |
| `Residency.SelectVictim` | crates/gpu-wgpu/src/driver.rs:3061-3105 | The eviction candidate is the least recently used resource or import that is resident, unprotected and free of device writes; on a tie the lowest slot goes first and a resource before an import; none is found exactly when there is none. |
| `Residency.ResidencyTable.EvictNext` | crates/gpu-wgpu/src/driver.rs:3106-3124 | One eviction removes exactly the selected victim and its share of the counters. |
| `Residency.ResidencyTable.EnsureResidencyBudget` | crates/gpu-wgpu/src/driver.rs:3044-3126 | The loop ends; it evicts nothing protected or holding device writes, takes exactly the evicted shares off the counters, and makes room exactly when the unevictable resources, with what the counters hold too much, leave room. |
| `Residency.ResidencyTable.EnsureResident` | crates/gpu-wgpu/src/driver.rs:3128-3148 | All dependencies end up resident at once exactly when they are live, those without a host object get one, and they fit, together with resources holding device writes, both budgets; other slots and imports change by eviction only. |
| `Residency.ResidencyTable.CreateResource` | crates/gpu-wgpu/src/driver.rs:3280-3315 | A resource is created resident exactly when room can be made, its slot is vacant and its host object and contents are created; apart from evictions only its slot changes, and the counters grow by its share. |
| `Residency.ResidencyTable.RemoveResourceRecord` | crates/gpu-wgpu/src/driver.rs:2636-2659 | Removing a live handle vacates its slot and takes its share off the counters; a stale handle changes nothing. |
| `Residency.ResidencyTable.RemovePresentationImport` | crates/gpu-wgpu/src/driver.rs:2661-2669 | Removing an import returns it and takes exactly its share off the counters; an unknown key changes nothing. |
| `Residency.ResidencyTable.AddPresentationImport` | crates/gpu-wgpu/src/driver.rs:2757-2856 | A new import is added exactly when its size fits, room can be made, its host objects are set up and the CPU writes are captured; apart from evictions nothing else changes; exact counters stay exact unless room was made and the capture then fails, which leaves them too high by exactly the import's share. |
| `Residency.FailedCaptureLeaks` | crates/gpu-wgpu/src/driver.rs:2842-2855 | On an empty table a failed capture leaves one resource and its bytes counted with nothing resident. |
| `FaultRegistry.NativeFaultRegistry.WithCapacity` | crates/cpu-direct-memory/src/lib.rs:101-123 | A registry is created exactly for a non-zero capacity that does not overflow; its slots, all vacant, are the power of two between four and eight times the capacity. |
| `FaultRegistry.IndexCapacity` | crates/cpu-direct-memory/src/lib.rs:101-113 | The slot count is the least power of two at or above four times the capacity, or an error exactly when that is zero or overflows. |
| `FaultRegistry.NativeFaultRegistry.OverlapsPublished` | crates/cpu-direct-memory/src/lib.rs:134-148 | Looking at the nearest stored ranges on both sides decides exactly whether any published region overlaps. |
| `FaultRegistry.NativeFaultRegistry.VacantIndexSlot` | crates/cpu-direct-memory/src/lib.rs:196-205 | Probing finds a vacant unselected slot whose probe path is taken or selected, and finds none exactly when none exists. |
| `FaultRegistry.NativeFaultRegistry.PlanSlots` | crates/cpu-direct-memory/src/lib.rs:149-164 | Slots for all pages of a region are found exactly when the vacancies suffice. |
| `FaultRegistry.NativeFaultRegistry.Publish` | crates/cpu-direct-memory/src/lib.rs:125-171 | Publication succeeds exactly for a valid, disjoint region within capacity and vacancies; a refusal changes nothing; every state between two slot stores keeps all earlier slots. |
| `FaultRegistry.NativeFaultRegistry.PublishAll` | crates/cpu-direct-memory/src/lib.rs:95-98 | Publishing in order stops at the first refusal, with the regions before it published and the next one not acceptable; the vacancies shrink by exactly the pages of what is published; the record of index states spans the whole run. |
| `RegistryCreation.SortByStart` | crates/cpu-direct-memory/src/lib.rs:93-93 | Sorting by start address keeps the regions and everything publication depends on: validity, disjointness and the number of pages. |
| `RegistryCreation.NewRegistry` | crates/cpu-direct-memory/src/lib.rs:92-99 | A registry is created from a list of regions, whatever their order, exactly when the list does not overflow the capacity, every region is valid, no two share an address and their pages fit the index; it then publishes exactly those regions. |
| `FaultRegistry.FindSite` | crates/cpu-direct-memory/src/lib.rs:173-194 | The probe loop over loaded slots computes the reference probe, with the sites searched by partition point. |
| `FaultRegistry.NativeFaultRegistry.Find` | crates/cpu-direct-memory/src/lib.rs:173-194 | With no publication under way the lookup answers exactly what a scan of all published sites would. |
| `FaultIndex.SearchSites` | crates/cpu-direct-memory/src/lib.rs:186-191 | The partition-point search of a region's sites gives the answer of the linear scan. |
| `FaultIndex.HashSeparatesPages` | crates/cpu-direct-memory/src/lib.rs:208-210 | Two addresses have the same page hash exactly when they are on the same page, although the hash wraps at 64 bits. |
| `FaultIndex.HashSteps` | crates/cpu-direct-memory/src/lib.rs:208-210 | Every address of a page has the page's hash, the first page has hash zero, and the next page is one multiplier further, wrapping at 64 bits. |
| `FaultIndex.ValidateRegion` | crates/cpu-direct-memory/src/lib.rs:212-229 | A region passes exactly when it is not empty and its sites are not empty, inside it, in order and apart. |
| `FaultIndex.LookupDuringPublication` | crates/cpu-direct-memory/src/lib.rs:173-194 | For any mixture of index moments a hit is a published site containing the address, a miss means no earlier region has a site there, and an earlier region containing the address is answered exactly. |
| `FaultRegistry.FindWhilePublishing` | crates/cpu-direct-memory/src/lib.rs:125-194 | A handler whose probes each load a different recorded moment of any publications attributes every earlier region exactly and never returns a wrong site. |
| `FaultIndex.MixtureIsBetween` | crates/cpu-direct-memory/src/lib.rs:167-169 | A slot vector loaded slot by slot at any recorded moments lies between the first and the last state of the index. |
| `BackendExecution.CountSegments` | crates/gpu-maxwell/src/execution.rs:936-956 | Counting ahead gives the number of segments the plan will be cut into, or an error exactly when it does not fit 32 bits. |
| `BackendExecution.MaxwellBackendExecution.New` | crates/gpu-maxwell/src/execution.rs:757-783 | An execution is created exactly for a plan with backend work and a countable number of segments. |
| `BackendExecution.MaxwellBackendExecution.NextSegment` | crates/gpu-maxwell/src/execution.rs:800-891 | A returned segment covers the steps up to the next canonical write after an operation; memory holds exactly the canonical writes before its operations, in step order; post-completion writes are committed only when no operation is left. |
| `BackendExecution.MaxwellBackendExecution.TakeSegment` | crates/gpu-maxwell/src/execution.rs:893-974 | The segment carries the gathered operations, creations and invalidations, the next number, and the final flag exactly when no segment is left; the counter never runs out. |
| `BackendExecution.RunToCompletion` | crates/gpu-maxwell/src/execution.rs:736-975 | Against any host the run yields exactly the counted segments, numbered in order with only the last final, and memory ends as the plan run in command order followed by the post-completion writes. |
| `PostCompletion.HeldBackAsInPlace` | crates/gpu-maxwell/src/execution.rs:847-856 | Holding post-completion writes back to the end is the same as performing them in their place when no later write, copy or host work meets their bytes. |
| `PostCompletion.RunPerformsInPlace` | crates/gpu-maxwell/src/execution.rs:736-975 | Under that condition and with safe merges, the whole batched run leaves what giving the host every step on its own, with every write in its place, leaves. |
| `PostCompletion.HeldBackExactly` | crates/gpu-maxwell/src/execution.rs:847-856 | For plans of writes alone, holding back is the same from every memory exactly when, for every byte a post-completion write reaches, the last write of the plan stores what the last post-completion write stores. |
| `PostCompletion.WriteComesTooLate` | crates/gpu-maxwell/src/execution.rs:847-891 | A plan that writes a byte after completion and then inline ends with the earlier value. |
| `ExecutionModel.CopyMeaning` | crates/gpu-maxwell/src/execution.rs:1117-1165 | A copy leaves, at each of its distinct destinations, the transform of the source bytes and of the bytes that were there, and changes no other byte. |
| `BackendExecution.SegmentAdvances` | crates/gpu-maxwell/src/execution.rs:800-891 | Cutting a segment and running it on the host continues the command-order run of the plan. |
| `StepByStep.RunsAsSingly` | crates/gpu-maxwell/src/execution.rs:800-1058 | When every merge the plan leads to is safe, gathering, merging and holding operations back to the next canonical write leaves memory and images as giving the host every step on its own, for every interpretation of the commands. |
| `StepByStep.SoundRunsAsSingly` | crates/gpu-maxwell/src/execution.rs:800-1058 | A plan whose works close the passes they open and nest none inside a batchable pass always runs as its steps on their own do. |
| `StepByStep.FaithfulBridgeExists` | crates/gpu-maxwell/src/execution.rs:736-975 | Memory can hold the images the way the two results above ask for. |
| `RenderPasses.BatchIsSound` | crates/gpu-maxwell/src/execution.rs:993-1011 | Appending any sequence of works gives balanced passes with every command in its original order. |
| `RenderPasses.BatchMeaning` | crates/gpu-maxwell/src/execution.rs:993-1058 | For every interpretation of the commands the batched list leaves every image as the unmerged list does. |
| `BatchBoundaries.BatchIsStitched` | crates/gpu-maxwell/src/execution.rs:993-1058 | The batched list is the works one after another without the end and the begin between neighbours that join: one pass of one identity on the same images, subresources, kinds, formats and sample counts, stored by the first, loaded and stored by the second. |
| `BatchBoundaries.TwoWorks` | crates/gpu-maxwell/src/execution.rs:993-1058 | Two one-pass works become one pass exactly when they join; otherwise both stay whole. |
| `BatchBoundaries.BatchLength` | crates/gpu-maxwell/src/execution.rs:993-1011 | Batching drops two operations for each pair of neighbours that join and nothing else. |
| `RenderPasses.MergeMeaning` | crates/gpu-maxwell/src/execution.rs:1032-1058 | Dropping an End and the Begin after it changes nothing when both passes cover the same cells, both store all of them and the second loads them. |
| `RenderPasses.StoreThenLoad` | crates/gpu-maxwell/src/execution.rs:1032-1058 | Storing every attachment and loading it again leaves the working contents as they were. |
| `RenderPasses.BatchableShape` | crates/gpu-maxwell/src/execution.rs:1013-1030 | A list is batchable, as a given pass, exactly when it is that pass's begin, any operations, and that pass's end. |
| `MergeExactness.MergeAgreesExactlyWhenSafe` | crates/gpu-maxwell/src/execution.rs:993-1058 | Merging a work of one pass with at least one command into any balanced batch agrees with not merging, for all interpretations and images, exactly when the batch's last pass covers the same cells and stores them all, or the new pass covers none and the last stores none. |
| `MergeExactness.SafeBatchMeaning` | crates/gpu-maxwell/src/execution.rs:993-1058 | Batching any balanced works, of any number of passes, by safe merges leaves every image as the unmerged list does. |
| `MergeExactness.SecondPassBreaksMerging` | crates/gpu-maxwell/src/execution.rs:993-1011 | After a work whose second pass renders to another image the rule still merges, and the result differs from the unmerged list. |
| `MergeExactness.RepeatedPassMerges` | crates/gpu-maxwell/src/execution.rs:993-1011 | After a work whose second pass renders to the same image the merge is harmless. |
| `CpuControl.NoInvalidationLost` | crates/cpu/src/execution.rs:415-470 | In every state of every interleaving each requested invalidation is pending, carried by a take with a sufficient epoch, or acknowledged. |
| `ControlHistory.AcknowledgedExactly` | crates/cpu/src/execution.rs:431-462 | In every state of every run the acknowledged epoch is the largest that an acknowledgement so far carried: an explicit one, or a take that found an invalidation. |
| `ControlHistory.NothingAcknowledgedUnasked` | crates/cpu/src/execution.rs:415-462 | Without explicit acknowledgements an epoch is acknowledged only after an invalidation was requested. |
| `ControlHistory.PendingExactly` | crates/cpu/src/execution.rs:415-439 | A request is pending exactly when some thread set its bit and no take has come after. |
| `ControlHistory.EpochExactly` | crates/cpu/src/execution.rs:424-429 | The epoch is the largest raised so far. |
| `ControlHistory.TakeExactly` | crates/cpu/src/execution.rs:431-439 | What a take in flight carries is what was pending when it swapped and the epoch when it loaded it. |
| `ControlHistory.CounterExactly` | crates/cpu/src/execution.rs:415-422 | The counter is the last value counted to, or zero if a request came later, from 4000 at the start. |
| `ControlHistory.ProgramOrder` | crates/cpu/src/execution.rs:415-470 | Each thread's steps follow the order of its operation in every interleaving. |
| `ControlHistory.InvalidationRequested` | crates/cpu/src/execution.rs:424-429 | A request for an invalidation with nothing in between can be made at any time and leaves its bit pending, its epoch raised and the counter at zero. |
| `ControlHistory.PreemptRequested` | crates/cpu/src/execution.rs:415-422 | A preemption request with nothing in between leaves its bit pending and the counter at zero. |
| `ControlHistory.PendingTaken` | crates/cpu/src/execution.rs:431-456 | A take with nothing in between clears what is pending and acknowledges the epoch exactly if an invalidation was pending. |
| `ControlHistory.NeverBlocked` | crates/cpu/src/execution.rs:458-462 | Any run can go on with the acknowledgement of any epoch. |
| `CpuControl.EpochsOnlyRise` | crates/cpu/src/execution.rs:424-470 | Acknowledged and raised epochs never decrease along a run. |
| `CpuControl.QuietMeansAcknowledged` | crates/cpu/src/execution.rs:415-470 | Once a request has set its bit, any later moment with no bit pending and no take in flight has its epoch acknowledged. |
| `CpuControl.TakeAcknowledges` | crates/cpu-interpreter/src/process.rs:195-196 | A take that finds a pending invalidation acknowledges every epoch requested before its swap, whatever runs between its steps. |
| `CpuControl.InvKept` | crates/cpu/src/execution.rs:415-470 | Every atomic step of every thread keeps every requested invalidation covered. |
| `Footprints.FragmentsExact` | crates/gpu-headless/src/validator.rs:635-660 | The page fragments of a slice cover exactly the canonical bytes behind it. |
| `Footprints.OverlapIsExact` | crates/gpu-headless/src/validator.rs:617-660 | Two backing slices overlap exactly when they share a canonical page byte. |
| `Footprints.OverlapMeansSharing` | crates/gpu-headless/src/validator.rs:514-615 | Two footprints of any kinds overlap exactly when they touch a common buffer byte, image layer, query or canonical byte. |
| `Footprints.OverlapIsSymmetric` | crates/gpu-headless/src/validator.rs:514-615 | Overlap is symmetric. |
| `Validator.ApplyEvent` | crates/gpu-headless/src/validator.rs:434-512 | An access or transition is accepted exactly when every overlapped record is ordered before it and its scope and barrier rules hold, and a transition only over a known state; it then replaces the overlapped records; an error names what refused it. |
| `Validator.EventKeepsSeparate` | crates/gpu-headless/src/validator.rs:460-470 | The tracked accesses stay pairwise non-overlapping. |
| `Validator.EventOwnsItsCells` | crates/gpu-headless/src/validator.rs:460-470 | After an event what it touched is tracked to it alone, and a record sharing nothing with it is kept. |
| `Validator.GatherAncestors` | crates/gpu-headless/src/validator.rs:95-103 | The collected set is the declared predecessors with everything known to precede them. |
| `Validator.AncestorsAreTransitive` | crates/gpu-headless/src/validator.rs:95-136 | Over any accepted history a submission's ancestor set is exactly what its chains of declared predecessors reach. |
| `Validator.AcceptedBrackets` | crates/gpu-headless/src/validator.rs:356-432 | Commands are accepted exactly when passes do not nest, end themselves and contain their draws, and queries begin, end and reset in order. |
| `Validator.ValidateSubmission` | crates/gpu-headless/src/validator.rs:89-138 | A submission validates exactly when its brackets and all its accesses are accepted in turn; the next state is theirs. |
| `HeadlessRuns.HeadlessBackend.Submit` | crates/gpu-headless/src/validator.rs:271-285 | A submission is accepted whole or rejected without changing the run or, unless the device is lost, the tracked records. It is accepted exactly when the device is there, every command is in place after all commands of the run, and each access or transition follows, by chains of declared predecessors, every undisturbed last toucher of its cells, in the scope that one left, behind a transition if it writes; a transition needs such a toucher. |
| `HeadlessRuns.HeadlessBackend.DestroyResource` | crates/gpu-headless/src/validator.rs:257-268 | Destroying a resource drops exactly its records and keeps the order of the run. |
| `HeadlessRuns.HeadlessBackend.CheckDevice` | crates/gpu-headless/src/validator.rs:225-243 | The device is there exactly when it is neither lost nor torn down; noticing a loss forgets every tracked record. |
| `HeadlessRuns.HeadlessBackend.Teardown` | crates/gpu-headless/src/validator.rs:329-344 | A teardown succeeds unless the device is lost, and only the first one forgets the tracked records. |
| `Validator.AcceptedIsOrdered` | crates/gpu-headless/src/validator.rs:434-470 | Every tracked access an accepted submission shares a cell with was made by itself or by one of its transitive predecessors. |
| `HeadlessHistories.TrackedExactlyWhenLeftAlone` | crates/gpu-headless/src/validator.rs:257-268 | Over any history of accesses, transitions and destroyed resources, the record of a cell's last toucher is still tracked exactly when no later step shared any cell with it or destroyed its resource. |
| `HeadlessHistories.OnlyLastToucherTracked` | crates/gpu-headless/src/validator.rs:257-268 | Over any such history no record but that of its last toucher is tracked for a cell. |
| `HeadlessHistories.DetectedExactlyWhenLeftAlone` | crates/gpu-headless/src/validator.rs:434-470 | Every accepted access to a cell comes from its last toucher or a submission that knows it as an ancestor exactly when that toucher's record was left alone. |
| `HeadlessRuns.SubmissionExtends` | crates/gpu-headless/src/validator.rs:89-138 | A submission is accepted exactly when it fits the run so far, and then the whole run stays judged good and still tells the validator's state. |
| `JudgedHistories.AcceptedExactly` | crates/gpu-headless/src/validator.rs:434-512 | After any history an event is accepted exactly when every last toucher it meets was left alone, comes before it, and left the scope it needs, behind a transition for a write, and a transition meets one. |
| `JudgedHistories.AcceptedInTurn` | crates/gpu-headless/src/validator.rs:89-138 | The accesses of a submission are accepted in turn exactly when each is judged good after the run and those before it. |
| `JudgedHistories.OrderRunConcat` | crates/gpu-headless/src/validator.rs:356-432 | Passes and queries left open by one submission carry over into the next. |
| `HeadlessRuns.ForgottenPartIsUnordered` | crates/gpu-headless/src/validator.rs:460-470 | Three accepted submissions in which a partly overlapped record is dropped whole and an unordered write to its remaining part goes through. |
| `HeadlessRuns.DestroyedToucherIsUnordered` | crates/gpu-headless/src/validator.rs:257-268 | Two accepted submissions around a destroyed buffer that write one canonical byte without any order. |

## Left out

- Gpfifo.ResolveSubmission: takes decoded entries; the descriptor bit fields of `decode_gpfifo_submission` are not modelled, because they add only field extraction.
- AddressSpace.GpuAddressSpace.Initialize: the geometry of the two regions is taken from the request and the profile limits; other profile queries are accessors.
- AddressSpace.GpuAddressSpace.ReadResolved: requires a range whose segments tile it and are backed, which is what resolution returns; ranges assembled in another way do not exist in the source.
- DeviceWrites.RecordBufferDeviceWrite: the carving loop, which the source repeats with the same body, is shared with the subtraction.
- PageReplay.MaterializePage: the removal of retired resources that follows completion is not modelled. What an image writeback stores to a byte of a page is a given function; `ImageCopy` models the copy behind it.
- PageRequests.ServeAll: the device writes nothing between the requests, and pages are not prepared anew; the check that a mirror has the requested size is not modelled.
- PageReplay.FinishWritebacks: a readback that cannot be mapped and an image that cannot be stored are one count of how many copies arrive.
- ImageCopy.CopyImageLayout: works on given buffers; resizing the host buffer and its zero padding are not modelled, because a reused buffer keeps old padding.
- PipelineCache.RenderPipelineCache.Prepare: the exhaustion of the 64-bit use counter and the identity fields that only debug builds compare are not modelled.
- Residency.ResidencyTable.AddPresentationImport: requires a new key, as the caller only imports after a failed lookup.
- BackendExecution.MaxwellBackendExecution.NextSegment: staging and committing canonical writes always succeed here, and the predecessor list, which is checked once per segment, is not modelled; an error of the source ends the execution.
- RenderPasses.BatchMeaning: requires works that close the passes they open and nest none inside a batchable pass; `MergeExactness` drops the second condition and gives the exact one.
- PostCompletion.HeldBackAsInPlace: for plans with copies or host work the condition is sufficient; when it fails the result can still agree, depending on the bytes written.
- HeadlessHistories.DetectedExactlyWhenLeftAlone: in the direction that misses a hazard, the access that goes through is to the cell alone, by a buffer or image without canonical storage or through a new one-byte buffer.
- MergeExactness.MergeAgreesExactlyWhenSafe: a new work without a command, or with further passes, is covered in one direction only, by `SafeBatchMeaning`.
- Validator.ApplyEvent: takes resolved footprints; resource lookup errors are not modelled.
- HeadlessRuns.HeadlessBackend.Submit: the completion timeline, which does not touch validation, is not modelled.
- Signal handlers, assembly stubs, register restore and thread identity around the fault registry.
- All wgpu calls, shader and pipeline compilation, presentation shaders and pipeline cache files.
- Command line, logging, configuration and library scanning.
- Channel, profile and scheduler files, which hold accessors and a plain queue.
- Engine decoding, macro execution, DMA transforms and shader lowering; a DMA transform is an arbitrary function of the bytes it reads.
- Mapping dumps and other diagnostics.
