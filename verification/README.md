# Verified models of the kernel's stateful cores

This project models, in Dafny 4.11, the parts of the kernel that keep a structured state in step with a simple abstract
one, and proves the properties those parts exist for. Check it with `dafny verify dfyconfig.toml`.

Every locked function of the kernel is one atomic step. Code that changes state in place is a method of a class with the
same fields (or of an array, where the kernel works on a buffer), and is proved against what it promises; the promises
are then lemmas over all inputs, all reachable states or all runs. Calls into other layers are either the other layer's
method or a parameter.

| file | what it models |
|---|---|
| `FatChains.dfy` | FAT32 cluster chains: allocation, freeing, resizing, the mirrored tables and the free counter |
| `FatDirectory.dfy` | FAT32 directories: inserting, deleting and decoding long names |
| `PageTables.dfy`, `PageTableDestroy.dfy`, `PageTableFork.dfy` | 4-level page tables as partial maps, their teardown, and fork |
| `MmapRanges.dfy` | address-space ranges: `mmap`, `munmap`, `mprotect`, page faults |
| `Pmm.dfy`, `SlabHeap.dfy`, `KernelHeap.dfy`, `ByteMemory.dfy` | the frame bitmap, the slab heap in byte memory, and the heap over the bitmap |
| `Tcp.dfy`, `TcpSocket.dfy` | the TCP connection machine as steps on a value, and the socket that carries them out in place |
| `TcpStreams.dfy`, `TcpDialogue.dfy` | the bytes a connection sends over whole runs, and two connections talking to each other |
| `IpFragments.dfy`, `FragmentBuffers.dfy` | IPv4 fragmentation, reassembly and the header checksum, and the sender on the kernel heap |
| `NvmeCache.dfy` | the NVMe write-through block cache |
| `Events.dfy`, `Scheduler.dfy` | events and their waiters, and the run queue |
| `Wrappers.dfy` | the option type |
| `InitialStack.dfy`, `Timers.dfy` | the first stack of a process, and timers with the two clocks |

Where the code does less than it means to, the model keeps the code, and lemmas give the exact condition and an input:

- `munmap` and `mprotect` skip the page after each piece they cut. A `munmap` is carried out as a whole exactly when
  no two ranges adjoin inside it (`MmapRanges.Pagemap.MUnmap`, `MMap`), an `mprotect` exactly when no two ranges that
  both have to change adjoin inside it (`MProtect`), and a page fault in a piece split off earlier is reported as
  handled without mapping the page (`HandleFault`); those are the pages cut by `mprotect` and those above a hole cut
  into their range (`ListsExactly`). Protecting the middle one of three pages is enough for all of this
  (`UnmapLeavesPage`, `ProtectLeavesPage`, `FaultLeavesAbsent`).
- A `munmap` that takes a piece of a mapping as a whole frees the frames of the whole mapping. Every page still present
  keeps its frame exactly when nothing else of such a mapping is left (`MUnmap`, `BackedExact`, `UnmapFreesOthers`).
- `net_fragment` keeps its reading position in 16 bits, and copies each header out of the previous fragment's buffer
  after freeing it. Every datagram of a length arrives as it was sent exactly when two conditions meet
  (`FragmentBuffers.Fragment`, `ArrivesExactly`, `ReachesMeans`), with Room for the payload bytes that fit one frame,
  Chunk for those rounded down to eights, and 34 bytes of headers in front:
  - it takes one fragment, or the last one starts below 2^16:
    34 + (length - Room + Chunk - 1) / Chunk * Chunk < 65536 (`IpFragments.SurvivesExactly`). At an MTU of 1500 all do
    (`EthernetSurvives`); at 1458 the longest, of 65515 bytes, does not (`WrapExample`);
  - no block is laid over the one freed before: it takes one fragment; or the MTU is 1026 or more and the search for
    frames never starts over onto the run just given back (`Spared`); or the MTU is less, and it takes two fragments
    whose buffers belong in different slabs. At an MTU of 576 a datagram of 1200 bytes is lost (`LostExample`).

  At an MTU of 1500 any two disjoint free runs of two frames are enough (`RunsApartSpare`), and `DefaultMtu` is exact;
  with a single one left, a datagram of 3000 bytes is lost (`TightExample`).
- A TCP socket can be made to listen while another thread is opening its connection: a `listen` that passes all guards is
  a lawful change exactly when the connection is closed (`Tcp.ListenInv`), and a run is lawful exactly when every one of
  them finds it so (`RunMeaning`, `StrayRun`). A socket that never tried to connect has no port and cannot be bound, so it
  never gets to listen (`RunMeaning`).
- TCP accepts any segment that touches its window, whatever its sequence number: the bytes accepted are those of one
  stretch of the peer's stream exactly when every accepted segment begins with the number expected (`Tcp.RunMeaning`,
  `GapRun`). A FIN that comes with data is acknowledged with it, and then the number expected falls back behind
  the data and stays there: it is right exactly when no data was accepted with the FIN (`FinExpected`, `FinRun`,
  `FinNumberStays`). A window that reaches 2^32 refuses everything (`AcceptableMeans`).
- A `write` that has to wait for room starts over with its whole buffer, so what it sent before goes out again as new
  bytes: a call puts exactly its buffer on the wire if and only if every pass but the last found the window full already
  (`TcpStreams.CallExact`, `ResentRun`), and returns only from a pass whose window holds all of it (`PassExact`).
- The window in a header is stored as 65536 times its value, so a write overruns the peer's real window exactly when it
  is longer (`TcpStreams.StoredIs`, `OverrunExact`). When the window is less than what is in flight, everything goes out
  (`Tcp.WriteExact`).
- Two ends open a connection, pass bytes and close it as they should exactly while their numbers and windows stay below
  2^32, and data fits the receiver's buffer (`TcpDialogue.Handshake`, `Transfer`, `Shutdown`, `BothClose`).
- `time_nsleep` passes an unnormalised time, so it sleeps the right time exactly below a second, and too long from
  there on (`Timers.SleepExactly`).
- Long-name entries are padded as the FAT specification has it exactly when they hold eleven characters at least
  (`FatDirectory.PaddedExact`). The directory decoder's buffer holds 246 of the 255 name bytes the driver accepts
  (`DecodeStaysInBuffer`).
- A thread woken from several events returns the last that fired. No delivery is lost exactly when it was the only one
  (`Events.ReturnExact`), as in every wait for one event (`OneEventLosesNothing`); with a second event it can fail
  (`TwoEventsCanLose`, `LosingRun`). The way out with -1 after a signal is never taken, because every call of
  `sched_enqueue_thread` (`kernel/sched/sched.c:375`, `532`, `638`, `kernel/lib/event.c:135`) passes false.
- The FAT's zero entries past the end of the volume count as free clusters. Clusters taken lie on the volume exactly when
  as many free ones lie on it (`FatChains.Volume.AllocateClusters`, `OnVolumeExact`, `OffVolumeExample`).
- The rounding in `slab_alloc` wraps for sizes within a page of 2^64 (`SlabHeap.PageCountHolds`).
- A run of frames found at page 0 is taken for a failure and stays marked, exactly when `Pmm.Leaks` says so
  (`Pmm.Allocator.Alloc`, `LeakExample`), and never while page 0 is reserved (`ReservedKeeps`).

The NVMe cache, on the other hand, is right for disks of any size: a last partial block needs no extra condition.

## Model

| member | source | states |
|---|---|---|
| FatChains.Volume.Resize | kernel/fs/fat32fs.c:263-304 | on success the file owns a chain of `newsize` clusters beginning with the clusters it keeps, every other file keeps its chain, clusters gained that lie on the volume are zeroed, which all do if and only if that many free ones lie on it, and all other contents stay; it fails exactly when clusters (or the zeroing buffer) run out, and then table, counter and hint are unchanged |
| FatChains.Volume.Extend | kernel/fs/fat32fs.c:263-304 | growing hangs a fresh chain, zeroed where it lies on the volume, behind the last cluster and touches no other file |
| FatChains.Volume.Cut | kernel/fs/fat32fs.c:263-304 | shrinking keeps the first `newsize` clusters as a terminated chain and frees exactly the others |
| FatChains.Volume.AllocateClusters | kernel/fs/fat32fs.c:221-261 | takes exactly `count` free clusters, links them, zeroes those on the volume, and keeps the counter exact and the hint low; all lie on the volume if and only if so many free ones do; it refuses exactly when fewer are free in the table or the buffer is missing, so the rollback at the end of the source is never reached |
| FatChains.Volume.LinkClusters | kernel/fs/fat32fs.c:221-261 | the linking loop makes `count` free clusters a terminated chain, zeroes those on the volume, and leaves no free cluster below the last one |
| FatChains.Volume.FreeClusters | kernel/fs/fat32fs.c:209-219 | following a chain frees exactly its clusters, adds its length to the counter, and keeps every free cluster at or above the hint |
| FatChains.Volume.NextFree | kernel/fs/fat32fs.c:199-207 | the first free cluster at or above the start; with a free cluster there the search never leaves the table |
| FatChains.Volume.UpdateFsInfo | kernel/fs/fat32fs.c:168-197 | if what the information sector knew was right, then after mounting the counter equals the number of zero entries and no free cluster lies below the hint, which is kept if it was known and else is a free cluster |
| FatChains.Volume.Skip | kernel/fs/fat32fs.c:134-147 | stops at link `count` of a chain, or at its last cluster, and says which |
| FatChains.Volume.SetNext | kernel/fs/fat32fs.c:126-132 | writes one entry in every copy of the table and keeps the copies equal |
| FatChains.ChainDistinct | kernel/fs/fat32fs.c:120-147 | a terminated chain never visits a cluster twice, so following links ends |
| FatChains.ChainUnique | kernel/fs/fat32fs.c:120-147 | the table determines at most one chain from a cluster |
| FatChains.ChainLength | kernel/fs/fat32fs.c:134-147 | no chain is longer than the table |
| FatChains.ChainConcat | kernel/fs/fat32fs.c:263-304 | a chain hung from the end of another makes one chain of both |
| FatChains.ChainCut | kernel/fs/fat32fs.c:263-304 | cutting a chain leaves its two parts as chains |
| FatChains.Grown | kernel/fs/fat32fs.c:221-304 | hanging freshly linked clusters from one file keeps every file's chain its own |
| FatChains.OnVolumeExact | kernel/fs/fat32fs.c:221-261 | the lowest free clusters lie below a limit if and only if that many free ones do |
| FatChains.OffVolumeExample | kernel/fs/fat32fs.c:168-261 | a table with a zero entry past the volume, of which two clusters are taken |
| FatDirectory.Directory.InsertDent | kernel/fs/fat32fs.c:597-666 | a new name gets its own group of slots at the first vacant place; only unused slots and slots past the end are written, the short entry is unique, an end marker remains; it fails exactly when no such place with a slot behind it lies inside the directory and that cannot grow, and then changes nothing |
| FatDirectory.Directory.EraseDent | kernel/fs/fat32fs.c:445-490 | deleting a file marks exactly its own slots, as unused or as the end, and every other file stays |
| FatDirectory.Directory.Populate | kernel/fs/fat32fs.c:808-916 | the decoder lists, in slot order, exactly the names inserted and not deleted, each with its own short entry, and never aborts on a checksum or an order number |
| FatDirectory.Directory.FindRoom | kernel/fs/fat32fs.c:600-630 | the search gives the first place with enough unused slots in a row, or the unused slots before the end and what is behind it |
| FatDirectory.Directory.constructor | kernel/fs/fat32fs.c:753-761 | a directory that starts with an end mark (after "." and "..", if it has them) holds no files |
| FatDirectory.LfnChecksum | kernel/fs/fat32fs.c:556-562 | the loop rotates an 8-bit sum to the right and adds the next byte, eleven times |
| FatDirectory.RotateBits | kernel/fs/fat32fs.c:556-562 | the expression in the loop is a rotation to the right by one bit |
| FatDirectory.MakeLfn | kernel/fs/fat32fs.c:576-666 | the three fields of a long-name entry hold its piece of the name; each that begins past the end has a terminator of its own, then padding |
| FatDirectory.LongEntryOnDisk | kernel/fs/fat32fs.c:576-666 | the 32 bytes of such an entry: order, mark of the last one, attribute, checksum, and the thirteen characters at the places the FAT specification gives them |
| FatDirectory.PaddedExact | kernel/fs/fat32fs.c:576-595 | an entry is padded as that specification has it if and only if it holds at least eleven characters of the name |
| FatDirectory.LfnCharDecodes | kernel/fs/fat32fs.c:564-595 | character by character, a long-name entry decodes to the piece of the name it was made of |
| FatDirectory.DecodeStaysInBuffer | kernel/fs/fat32fs.c:808-860 | for names the driver accepts, the decoder stays inside its 256-byte buffer exactly when the name has at most 246 bytes |
| FatDirectory.DecimalInjective | kernel/fs/fat32fs.c:597-666 | short names of distinct slots differ, so no two entries share one |
| FatDirectory.DecimalSpells | kernel/fs/fat32fs.c:597-666 | a short name spells its slot number in decimal |
| FatDirectory.PlacedWellFormed | kernel/fs/fat32fs.c:597-666 | writing a group into room between groups keeps the directory well formed |
| FatDirectory.ErasedWellFormed | kernel/fs/fat32fs.c:445-490 | so does erasing one |
| FatDirectory.ListingExact | kernel/fs/fat32fs.c:787-922 | the listing holds each live file once and nothing else |
| PageEntries.OrIsSum | kernel/mm/vmm.c:366-402 | on 64-bit words, or-ing a page-aligned address below 2^52 with flags clear of the address bits is addition, and the masks give both back |
| PageTables.PathInjective | kernel/mm/vmm.c:366-402 | distinct pages of the 48-bit space have distinct four-index paths |
| PageTables.PathOf | kernel/mm/vmm.c:370-373 | the four indices are the digits of the page number to the base 512, below 2^36 |
| PageTables.AllowedExact | kernel/mm/vmm.c:35-52 | what the processor allows a user process to do with a page, asking every level of the tables, is what the last-level entry says, because every table is hung with all rights |
| PageTables.AddressSpaces.MapPage | kernel/mm/vmm.c:366-402 | mapping a frame with flags clear of the address bits gives the page that frame and those flags, and changes the partial map of its page only, in its address space (and for all in the kernel half), though tables are hung on the way; it fails only on a page already mapped or without memory, and then no page of any address space changes |
| PageTables.AddressSpaces.FlagPage | kernel/mm/vmm.c:404-444 | a mapped page gets exactly the flags given, which are clear of the address bits, and keeps its frame; no other page changes; an unmapped page is refused without a change |
| PageTables.AddressSpaces.UnmapPage | kernel/mm/vmm.c:446-486 | removes exactly one page from the map, or none |
| PageTables.AddressSpaces.GetNextLevel | kernel/mm/vmm.c:35-52 | hanging an intermediate table changes no lookup of any address space, and uses one free frame |
| PageTables.AddressSpaces.Walk | kernel/mm/vmm.c:488-509 | the allocating walk ends in the last-level table of its page, with every lookup unchanged |
| PageTables.AddressSpaces.WalkExisting | kernel/mm/vmm.c:404-486 | the walk that must not allocate finds the last-level table that lookups go through, and finds none only for an unmapped page |
| PageTables.AddressSpaces.Virt2Phys | kernel/mm/vmm.c:511-518 | the translation is the partial map: the frame of a present entry, else none |
| PageTables.AddressSpaces.NewPagemap | kernel/mm/vmm.c:127-154 | a new address space is one fresh frame holding the kernel's upper half over an empty lower half; without memory nothing changes |
| PageTables.NewRootLookup | kernel/mm/vmm.c:127-154 | it maps what the kernel maps above and nothing below |
| PageTables.WriteLeafLookup | kernel/mm/vmm.c:366-486 | writing a last-level entry changes the lookups of one path, in the address spaces that share the table |
| PageTables.NewTableLookup | kernel/mm/vmm.c:35-52 | hanging an empty table leaves every lookup as it was |
| PageTables.AddressSpaces.Boot | kernel/mm/vmm.c:57-69 | from free frames alone, the kernel's first address space: sound, with all 256 tables of the upper half in place, and mapping nothing |
| PageTables.BootInv | kernel/mm/vmm.c:57-69 | the tables hung one after the other end in a sound forest of one root |
| PageTables.BootMapsNothing | kernel/mm/vmm.c:57-69 | and no path leads to a mapped page |
| PageTableDestroy.DestroyLevel | kernel/mm/vmm.c:325-340 | frees the tables below a table's entries and then itself, each while it is still allocated, hence once |
| PageTableDestroy.DestroyPagemap | kernel/mm/vmm.c:325-355 | tearing down the lower half frees the root and every table of that address space; shared kernel tables, other address spaces and data frames stay |
| PageTableDestroy.TablesBelow | kernel/mm/vmm.c:325-340 | the walk lists no table twice and only tables below its starting point |
| PageTableDestroy.OwnedListed | kernel/mm/vmm.c:325-340 | every table of the address space is listed |
| PageTableDestroy.DestroyedInv | kernel/mm/vmm.c:325-355 | without those tables the remaining address spaces are still sound |
| PageTableFork.ForkPagemap | kernel/mm/vmm.c:156-249 | the child is refused only when no frame is left; else each page of the parent's ranges has the same presence, flags and contents in the child, private pages in fresh frames that nobody else has and shared pages in the same frame, the shadow table agrees, and everything else below is unmapped; no older address space changes in any case |
| PageTableFork.CopyPage | kernel/mm/vmm.c:156-249 | one private page: absent stays absent, present is copied to a fresh frame and entered in child and shadow alike; it fails only when no frame is left |
| PageTableFork.ShareEntry | kernel/mm/vmm.c:156-249 | one shared page: the child gets the parent's entry and nothing else changes; it fails only when no frame is left |
| PageTableFork.ForkingStep | kernel/mm/vmm.c:156-249 | handling one more page keeps what fork promised for the pages before it |
| Tcp.RunSafe | kernel/ipc/socket/tcp.c:399-1361 | every run of arrivals and calls from a sound connection ends in a sound connection |
| Tcp.RunMeaning | kernel/ipc/socket/tcp.c:399-1361 | in every run of a new socket or of the child of a listening one: the state changes are edges of RFC 793 section 3.2 or aborts if and only if no `listen` is carried out while a connection is being opened; the bytes accepted stand at consecutive sequence numbers if and only if every segment they came in began with the number expected; the peer's FIN came in before CLOSE-WAIT, CLOSING, LAST-ACK and TIME-WAIT; our FIN was sent in every state after it, and in FIN-WAIT-2 and TIME-WAIT it is acknowledged (snduna == sndnxt) while numbers do not wrap; sndis <= snduna <= sndnxt; window plus unread bytes is the buffer size; the bytes read are the first of the bytes accepted, in order; and a socket that listens tried to connect before |
| Tcp.RunMarks | kernel/ipc/socket/tcp.c:399-1361 | over a whole run, a connection goes astray exactly by a `listen` during SYN-SENT, and stays in order exactly while accepted segments begin with the number expected |
| Tcp.StrayRun | kernel/ipc/socket.c:336-446 | such a run: one thread waits in `connect`, which has given the socket a port; another binds it and makes it listen; the states are CLOSED, SYN-SENT, LISTEN |
| Tcp.GapRun | kernel/ipc/socket/tcp.c:951-972 | a run in which the first segment accepted leaves a gap of eleven bytes, and its byte is taken for the next |
| Tcp.ApplyInv | kernel/ipc/socket/tcp.c:399-1361 | each single event keeps all of this |
| Tcp.ArriveInv | kernel/ipc/socket/tcp.c:625-1024 | each arriving segment keeps it, and adds its data whole and only if it fits, or nothing |
| Tcp.OnSegmentInv | kernel/ipc/socket/tcp.c:770-1019 | in the synchronised states a segment keeps the machine sound, and its data is accepted whole, only if it fits and the segment is acceptable, or not at all |
| Tcp.OnAckInv | kernel/ipc/socket/tcp.c:882-949 | an acknowledgment keeps the machine sound, leaves FIN-WAIT-1 behind as soon as it covers our FIN, and leaves stream and receive numbers alone |
| Tcp.OnDataInv | kernel/ipc/socket/tcp.c:951-972 | data keeps window and buffer in balance; an oversized segment is dropped without a change |
| Tcp.OnFinInv | kernel/ipc/socket/tcp.c:974-1019 | the peer's FIN leads, along lawful edges, to a state that implies it, and adds no data |
| Tcp.FinExpected | kernel/ipc/socket/tcp.c:951-1019 | a segment whose FIN is taken leaves the number after its first as the number expected, which is right if and only if no data was accepted with the FIN; accepted data is acknowledged together with the FIN first, and then the lower number is sent |
| Tcp.FinRun | kernel/ipc/socket/tcp.c:951-1019 | a run in which one byte comes with the FIN: 103 is acknowledged, then 102, and 102 stays |
| Tcp.FinNumberStays | kernel/ipc/socket/tcp.c:399-1361 | over runs, after the peer's FIN nothing but another FIN changes the number expected, and everything sent carries it, but for resets |
| Tcp.OnDataOrder | kernel/ipc/socket/tcp.c:951-972 | data accepted by an orderly connection keeps its bytes at consecutive sequence numbers exactly when it begins with the number expected |
| Tcp.SynSentInv | kernel/ipc/socket/tcp.c:705-768 | SYN-SENT leads to ESTABLISHED or CLOSED; the fall-back to SYN-RCVD cannot be taken |
| Tcp.AcceptableMeans | kernel/ipc/socket/tcp.c:770-809 | the window test, which TcpSockets.TcpSocket.CheckWindow carries out: while the window ends below 2^32, a segment that takes up numbers is acceptable if and only if one of them lies in the window and it does not surround the window, an empty one if and only if it stands in the window or at its start; once the window reaches 2^32 every segment is refused, and only then |
| Tcp.CloseInv | kernel/ipc/socket/tcp.c:399-467 | closing keeps the machine sound and ends in a state after our FIN or frees the connection |
| Tcp.ReadInv | kernel/ipc/socket/tcp.c:1107-1190 | reading returns the oldest unread bytes and gives their room back to the window |
| Tcp.WriteInv | kernel/ipc/socket/tcp.c:1294-1361 | writing keeps the invariant and puts no more in flight than the peer's window allows, if it was not exceeded before |
| Tcp.WriteExact | kernel/ipc/socket/tcp.c:1294-1361 | how many bytes a write sends, as a number computed before the call; what is in flight afterwards is within the peer's window if and only if it was before: after the peer has shrunk its window below that, the room wraps and everything goes out |
| Tcp.WriteBytes | kernel/ipc/socket/tcp.c:1314-1345 | a write puts the first bytes of its buffer on the wire, as many as it counts as sent, in order, in plain data segments none longer than the maximum, each numbered by what came before it |
| TcpStreams.SentMeaning | kernel/ipc/socket/tcp.c:399-1361 | in every run the segments sent carry, joined, exactly the bytes written, in order, and each stands behind the initial sequence number by as many bytes as came before |
| TcpStreams.ApplySent | kernel/ipc/socket/tcp.c:399-1361 | each single event keeps this, and nothing but a write sends data |
| TcpStreams.CallExact | kernel/ipc/socket/tcp.c:1307-1350 | what a call that may have to wait puts on the wire is its buffer if and only if every pass but the last found the window full already: a retry starts over with the whole buffer |
| TcpStreams.PassExact | kernel/ipc/socket/tcp.c:1320-1345 | a pass sends the whole buffer, and so ends the call, exactly when that fits the peer's window or the window was overrun before |
| TcpStreams.ResentRun | kernel/ipc/socket/tcp.c:1307-1350 | a run in which a call of 65537 bytes sends 65536 of them twice |
| TcpStreams.StoredIs | kernel/ipc/socket/tcp.c:907-907 | the window field is swapped as 32 bits, so what is stored is 65536 times the window |
| TcpStreams.OverrunExact | kernel/ipc/socket/tcp.c:1320-1345 | with nothing in flight, a write stays within the peer's real window if and only if its buffer does, or the window is closed |
| TcpDialogue.Handshake | kernel/ipc/socket/tcp.c:625-768 | connect, the answer of a listening socket, and its acknowledgment open both ends, each expecting what the other sends next, if and only if neither initial number is so high that the handshake or the first window reaches 2^32 |
| TcpDialogue.Transfer | kernel/ipc/socket/tcp.c:770-1361 | what one side writes the other takes as it was written, if and only if it fits the receiver's buffer, it can then be read, and the acknowledgment links both ends again |
| TcpDialogue.TakesSegment | kernel/ipc/socket/tcp.c:951-972 | a segment of data in order is taken whole and acknowledged when it fits, and else not at all |
| TcpDialogue.Shutdown | kernel/ipc/socket/tcp.c:399-1019 | four segments close both ends, one in TIME-WAIT and one gone, if and only if both windows are open and neither reaches 2^32 |
| TcpDialogue.BothClose | kernel/ipc/socket/tcp.c:399-1019 | when both ends close at once, their FINs and acknowledgments cross and both end up waiting, if and only if both windows are open and do not reach 2^32 even with the number of the other's FIN |
| TcpDialogue.HalfOpen | kernel/ipc/socket/tcp.c:670-769 | whatever a connection sends to an end that forgot it is answered by a reset, and that ends it exactly when its window does not reach 2^32 |
| Tcp.ResetExact | kernel/ipc/socket/tcp.c:770-864 | an acceptable reset ends the connection, any other does nothing, and none is answered |
| Tcp.StrayAnswers | kernel/ipc/socket/tcp.c:770-949 | what an unacceptable segment, a SYN in the window, a segment without acknowledgment, and one that acknowledges too much get as an answer |
| Tcp.OpeningAnswers | kernel/ipc/socket/tcp.c:707-769 | while a connection is opened, only a SYN that acknowledges ours opens it; anything else with an acknowledgment is answered by a reset numbered by it |
| Tcp.OurFinAcked | kernel/ipc/socket/tcp.c:878-949 | once our FIN went out a plain acknowledgment moves the connection on, by the state diagram, just if it is that of the FIN |
| Tcp.DoesNotFit | kernel/ipc/socket/tcp.c:951-1019 | of a segment whose data does not fit the buffer nothing is taken, and not its FIN |
| Tcp.FinAgain | kernel/ipc/socket/tcp.c:944-1019 | in TIME-WAIT a FIN is acknowledged once more |
| Tcp.EndFrees | kernel/ipc/socket/tcp.c:399-1105 | a connection that ends frees its socket, unless it was given up, and nothing else does |
| Tcp.ListenInv | kernel/ipc/socket/tcp.c:1475-1492 | a `listen` that passes the guards of the system call and of `tcp_listen` finds the connection closed or just being opened, and is a lawful change in the first case and no other |
| Tcp.ConnectInv | kernel/ipc/socket/tcp.c:1026-1105 | every `connect` that passes the guards of the system call and of `tcp_connect` finds the connection closed and without bytes, so it is a lawful change |
| TcpSockets.TcpSocket.StreamRead | kernel/ipc/socket/tcp.c:84-99 | hands out the first bytes and moves the rest down inside the same array, so the buffer afterwards holds exactly the unread rest |
| TcpSockets.TcpSocket.ShiftDown | kernel/lib/libc.c:13-22 | the ascending copy of a buffer over its own lower part moves every byte correctly despite the overlap |
| TcpSockets.TcpSocket.StreamWrite | kernel/ipc/socket/tcp.c:101-111 | appends the data, or refuses it whole exactly when it does not fit |
| TcpSockets.TcpSocket.NetPacket | kernel/ipc/socket/tcp.c:625-1024 | the socket's fields after a segment are those of the machine's step |
| TcpSockets.TcpSocket.AckPacket | kernel/ipc/socket/tcp.c:882-949 | the same for the acknowledgment stage |
| TcpSockets.TcpSocket.DataPacket | kernel/ipc/socket/tcp.c:951-972 | the same for the data stage |
| TcpSockets.TcpSocket.FinPacket | kernel/ipc/socket/tcp.c:974-1019 | the same for the FIN stage |
| TcpSockets.TcpSocket.SynSentPacket | kernel/ipc/socket/tcp.c:705-768 | the same for SYN-SENT |
| TcpSockets.TcpSocket.CloseSocket | kernel/ipc/socket/tcp.c:399-467 | `close` carries out the machine's step and reports its refusals |
| TcpSockets.TcpSocket.ConnectSocket | kernel/ipc/socket/tcp.c:1026-1077 | `tcp_connect` up to where it waits: refused when already open or being opened, else the machine's step |
| TcpSockets.TcpSocket.SyscallConnect | kernel/ipc/socket.c:372-407 | the system call carries out the machine's step on a new socket, and refuses any other |
| TcpSockets.TcpSocket.SyscallListen | kernel/ipc/socket.c:410-446 | the system call makes a bound socket listen, and refuses any other |
| TcpSockets.TcpSocket.SyscallBind | kernel/ipc/socket.c:336-369 | the system call binds a new socket that has a port already, which only `connect` gives out; a fresh one is refused |
| TcpSockets.TcpSocket.ReadSocket | kernel/ipc/socket/tcp.c:1107-1190 | `read` carries out the machine's step and copies out exactly the oldest unread bytes |
| TcpSockets.TcpSocket.WriteSocket | kernel/ipc/socket/tcp.c:1294-1361 | `write` up to its end or to where it waits carries out the machine's step, segment by segment, and the bytes on the wire are the first `progress` of its buffer, in order and numbered |
| MmapRanges.Pagemap.MUnmap | kernel/mm/mmap.c:357-447 | exactly the pages in `gone` leave range list and page table, all inside the request, and all other pages keep protection and file page; the whole request goes if and only if no range starts where another ends strictly inside it; the frames given back are those of mappings of which some piece went as a whole, so every page still present keeps its frame if and only if none is left of such a mapping; a page still mapped loses its place among the mapping's locals exactly if it lies above a hole cut into its range |
| MmapRanges.Pagemap.MProtect | kernel/mm/mmap.c:185-269 | exactly the pages in `changed` get the protection, in ranges and present entries alike, and keep their frames; exactly these pages, and those above a hole cut into their range, are no longer listed; such an entry is writable just if the protection allows writing, and executable just if it allows that; the whole request is carried out if and only if no range starts where another ends strictly inside it and both have to change |
| MmapRanges.Pagemap.MMap | kernel/mm/mmap.c:271-355 | the new range is in force with its file pages, other pages keep theirs; at a chosen address ranges stay disjoint if and only if the pages were free, which they are as long as only the kernel chooses, and a free page follows; at a fixed one if and only if no seam made the implied `munmap` leave a page behind |
| MmapRanges.UnmapLeavesPage | kernel/mm/mmap.c:357-447 | three pages are mapped, the middle one is protected on its own, and unmapping the three leaves one mapped and reports success |
| MmapRanges.ProtectLeavesPage | kernel/mm/mmap.c:185-269 | protecting those three pages leaves one of them as it was and reports success |
| MmapRanges.FaultLeavesAbsent | kernel/mm/mmap.c:49-115 | a fault on the page in the middle is reported as handled and leaves it absent |
| MmapRanges.UnmapFreesOthers | kernel/mm/mmap.c:357-447 | three pages are mapped and touched, the middle one is protected on its own and unmapped: the frames of all three are freed while the other two are still present |
| MmapRanges.Pagemap.HandleFault | kernel/mm/mmap.c:49-115 | a fault makes its page present, with the frame given and just the access its protection allows, and enters its frame in the shadow, exactly when its range is one that `mmap` listed; a piece split off later is not, and its fault is reported as handled all the same |
| MmapRanges.PteFlags | kernel/mm/mmap.c:90-97 | the flags for a protection: present and user always, writable with PROT_WRITE, no-execute without PROT_EXEC, and no other bit |
| MmapRanges.FreeStays | kernel/mm/mmap.c:185-447 | unmapping and protecting leave the pages free where the next mapping is to lie |
| MmapRanges.Pagemap.Addr2Range | kernel/mm/mmap.c:25-38 | the index of the range covering a page, or -1 when none does |
| MmapRanges.Pagemap.CutRange | kernel/mm/mmap.c:357-447 | one snip of `munmap` takes a stretch out of a range and changes no other page's attributes |
| MmapRanges.Pagemap.SplitRange | kernel/mm/mmap.c:185-269 | one snip of `mprotect` changes the protection of a stretch and nothing else |
| MmapRanges.FindSplit | kernel/mm/mmap.c:25-38 | in a disjoint list the range found for a page is the only one covering it |
| MmapRanges.UnmapStep | kernel/mm/mmap.c:357-447 | one turn of the loop: the snip is gone, and the page after it is skipped |
| MmapRanges.UnmapDone | kernel/mm/mmap.c:357-447 | at the end the request is unmapped if and only if it held no seam |
| MmapRanges.EmptiedStep | kernel/mm/mmap.c:422-440 | a snip gives back the frames of a mapping exactly when it takes a piece of it as a whole |
| MmapRanges.BackedExact | kernel/mm/mmap.c:422-440 | present pages keep their frames if and only if none is left of a mapping that gave its frames back |
| MmapRanges.ProtectStep | kernel/mm/mmap.c:185-269 | one turn of the `mprotect` loop |
| MmapRanges.ListStep | kernel/mm/mmap.c:185-447 | cutting one piece out of one range keeps the account of which pages are still listed |
| MmapRanges.ProtectDone | kernel/mm/mmap.c:185-269 | at the end the request has the protection if and only if it held no seam between two ranges to change |
| Pmm.Allocator.Alloc | kernel/mm/pmm.c:130-146 | a result is a run that was wholly free, the first from the cursor on, or else the lowest that ends at or below the cursor, and exactly that run is now marked; with page 0 reserved, refusal means no free run of that length lies wholly above or wholly below the cursor, and changes nothing; a refusal that changes the bitmap happens if and only if the run found lies at page 0, and marks it |
| Pmm.LeakExample | kernel/mm/pmm.c:130-146 | one such loss: eight free pages, a fresh cursor, one page asked for |
| Pmm.ReservedKeeps | kernel/mm/pmm.c:130-146 | with page 0 marked nothing is ever lost that way |
| Pmm.Allocator.InnerAlloc | kernel/mm/pmm.c:101-119 | finds the first run from the cursor up to the limit, or proves there is none |
| Pmm.Allocator.Free | kernel/mm/pmm.c:148-158 | clears exactly the run |
| Pmm.AllocFree | kernel/mm/pmm.c:130-158 | allocating a run and freeing it restores the bitmap byte for byte |
| Pmm.SetBit | kernel/lib/bitmap.k.h:13-16 | setting the bit of a page marks that page and no other |
| Pmm.ResetBit | kernel/lib/bitmap.k.h:18-21 | resetting it frees that page and no other |
| SlabHeap.Heap.Alloc | kernel/mm/slab.c:104-123 | a new block is large enough, zeroed and not live before; small ones are objects of the smallest slab that will do, large ones a run behind a page of metadata; no live block changes, and only a large request without pages is refused |
| SlabHeap.Heap.Realloc | kernel/mm/slab.c:125-167 | stays in place exactly when the page count is the same or the object is large enough, else moves to an object of the smallest slab that will do or to a run; the first min(old, new) bytes survive, no other block changes, the old block is freed, and a refusal changes nothing |
| SlabHeap.Heap.Free | kernel/mm/slab.c:169-182 | the alignment test sends an object to the front of the free list of its own slab, and a run, with its metadata page, back to the frame allocator; no other block changes |
| SlabHeap.Heap.CreateSlab | kernel/mm/slab.c:39-59 | a fresh page becomes a slab page: header in place, every object of it on the free list once, in address order |
| SlabHeap.Heap.CutPage | kernel/mm/slab.c:39-59 | the loop links the objects of the page into a chain that ends in NULL and writes nothing outside the page, nor between its header and its first object |
| SlabHeap.Heap.AllocFromSlab | kernel/mm/slab.c:61-74 | takes the head of the free list, zeroed, making a new slab page only when the list is empty |
| SlabHeap.Heap.FreeInSlab | kernel/mm/slab.c:76-89 | pushes an object on the front of its slab's free list through its own first word |
| SlabHeap.Heap.SlabFor | kernel/mm/slab.c:29-37 | the first slab whose objects are large enough, if any |
| SlabHeap.Heap.constructor | kernel/mm/slab.c:91-102 | each of the ten slabs starts with one page and nothing is live |
| SlabHeap.Heap.HasRoom | kernel/mm/slab.c:130-166 | the in-place test, and how many bytes are copied otherwise |
| SlabHeap.LiveApart | kernel/mm/slab.c:29-182 | in every state of the heap, live blocks are pairwise disjoint and at least as large as asked |
| SlabHeap.SlotNotAligned | kernel/mm/slab.c:169-182 | no slab object is page aligned or crosses its page, and none overlaps the header, so the alignment test tells objects from runs |
| SlabHeap.ClearLive | kernel/mm/slab.c:29-182 | no byte of a live block is a header, metadata or a free link |
| SlabHeap.TakenInv | kernel/mm/slab.c:61-74 | popping a free list keeps every slot of every slab page either live or listed once, never both |
| SlabHeap.GivenInv | kernel/mm/slab.c:76-89 | so does pushing on it |
| SlabHeap.PageSlots | kernel/mm/slab.c:39-59 | the linked objects are exactly the aligned positions behind the header that fit into the page |
| SlabHeap.PageCountHolds | kernel/mm/slab.c:110-111 | the rounded-up page count holds the block exactly when the 64-bit rounding does not wrap |
| SlabHeap.Heap.FreeThenAlloc | kernel/mm/slab.c:61-89 | an object freed and asked for again in the same slab comes back as the same object, all zeros |
| KernelHeap.Kernel.Alloc | kernel/mm/slab.c:104-123 | over the real frame allocator: pages granted are never pages the heap holds, are the run that its search takes, and alone are marked and written beside the block; a refusal means there was no free run of that length, and changes neither heap nor bitmap |
| KernelHeap.Kernel.Free | kernel/mm/slab.c:169-182 | a run's frames, and no others, are cleared in the bitmap and its memory is left as it is; an object's page stays marked, and only its first word is written |
| KernelHeap.Kernel.Realloc | kernel/mm/slab.c:125-167 | with NULL a new zeroed block; in place it touches no bit; on a move the new block is an object of the smallest slab that will do or a run behind its metadata, exactly the new run is marked and exactly the old one cleared, the bytes go over and no other block changes; a refusal means there was no free run of that length, and changes nothing |
| NvmeCache.Namespace.Read | kernel/dev/storage/nvme/nvme.c:544-571 | for an in-range request and any cache history the buffer is the disk slice |
| NvmeCache.Namespace.Write | kernel/dev/storage/nvme/nvme.c:573-608 | the disk becomes the old disk overlaid with the buffer; every slot in use still holds its block and no block is cached twice |
| NvmeCache.Namespace.Put | kernel/dev/storage/nvme/nvme.c:578-604 | one chunk: slot changed and written through |
| NvmeCache.Namespace.CacheBlock | kernel/dev/storage/nvme/nvme.c:509-541 | the first free slot takes the block; without one, the round-robin victim, with slot 0 twice after each round |
| NvmeCache.Namespace.FindBlock | kernel/dev/storage/nvme/nvme.c:500-507 | a hit is a slot in use with that block; a miss means there is none |
| NvmeCache.OthersHold | kernel/dev/storage/nvme/nvme.c:573-608 | after it every other slot still equals its block |
| IpFragments.RoundTrip | kernel/dev/net/net.c:137-431 | with headers that name the datagram, the fragments of a datagram, in order and interleaved in any way with fragments of others, deliver nothing until the last and then exactly one datagram, and the table forgets it; its payload is what was sent when the last fragment starts below 2^16 in the frame |
| IpFragments.DeliveredExactly | kernel/dev/net/net.c:137-431 | fed alone to an empty receiver, the fragments give back the joined pieces if and only if every header copied out of a freed buffer still names the datagram, and what was sent if and only if those pieces are the payload besides |
| FragmentBuffers.Fragment | kernel/dev/net/net.c:137-179 | the sender on the kernel heap, wherever the search for frames goes as long as it finds some: the fragments sent are those of the datagram with the headers really found in freed blocks, and an empty receiver gets what was sent if and only if no block is laid over the one freed before and the pieces join to the payload |
| FragmentBuffers.ArrivesExactly | kernel/dev/net/net.c:137-179 | over all payloads of a length: when the length reaches, every one arrives as it was sent; when it does not, some payload never does |
| FragmentBuffers.ReachesMeans | kernel/dev/net/net.c:145-176 | reaching in terms of MTU, length and frames, both conditions: the headers last when one fragment is enough, or the MTU is 1026 or more and the runs taken are spared, or it is less and two fragments are enough and the second block belongs in another slab; and the last fragment starts below 2^16 in the frame |
| FragmentBuffers.AlikeSpared | kernel/mm/pmm.c:101-146 | blocks of one length are spared if and only if there is but one; or there is another run behind the first one taken; or the lowest run ends low enough below it, and there are two blocks in all or another run behind the lowest |
| FragmentBuffers.RunsApartSpare | kernel/mm/pmm.c:101-146 | two free runs far enough apart (for two-frame blocks: any two disjoint ones) spare every datagram |
| FragmentBuffers.RunsServed | kernel/mm/pmm.c:101-146 | every search after the first finds a run, because the one given back is there, if the last block needs no more frames than the others |
| FragmentBuffers.DefaultMtu | kernel/dev/net/net.c:137-179 | at the MTU of 1500 that an Ethernet adapter starts with, exactly when a datagram arrives as it was sent, in terms of the free two-frame runs |
| FragmentBuffers.TightExample | kernel/dev/net/net.c:137-179 | at that MTU, with two free frames left, a datagram of 3000 bytes is lost |
| FragmentBuffers.LostExample | kernel/dev/net/net.c:137-179 | at an MTU of 576 a datagram of 1200 bytes is lost, whatever frames are free |
| FragmentBuffers.SendOne | kernel/dev/net/net.c:150-177 | one round of the loop: its fragment carries the payload piece and the header found in the block freed before, heap and frame stay as they were, and the bitmap is restored behind a moved cursor, or has a new slab page |
| FragmentBuffers.Next | kernel/dev/net/net.c:160-164 | the next block and the header copied into it: the one in the freed block, or zeros when the new block lies over it |
| FragmentBuffers.Build | kernel/dev/net/net.c:160-173 | the bytes put together in the block read as the fragment: header, offset, mark and length in network order, the payload piece behind them, and a checksum that the receiver computes the same |
| FragmentBuffers.RunIntact | kernel/dev/net/net.c:160-173 | a run that does not cover the freed run leaves the header in it as it was |
| FragmentBuffers.RunCovered | kernel/dev/net/net.c:160-173 | one that covers it leaves zeros |
| FragmentBuffers.RunBeside | kernel/mm/slab.c:39-74 | an object leaves it as it was even when a slab page is made of it, because `create_slab` does not zero the page |
| FragmentBuffers.ObjectIntact | kernel/dev/net/net.c:160-173 | a block from elsewhere leaves the header in a freed object as it was |
| FragmentBuffers.StretchAhead | kernel/mm/pmm.c:101-146 | one stretch of free frames at the cursor, as long as all blocks together, spares them all |
| IpFragments.SurvivesExactly | kernel/dev/net/net.c:145-176 | every payload of a length survives if and only if the last fragment starts below 2^16 in the frame: past that the 16-bit reading position wraps and the last fragment carries the front of the frame |
| IpFragments.LastStartIs | kernel/dev/net/net.c:148-175 | the last fragment starts at the largest multiple of a full one that leaves a remainder fitting one fragment |
| IpFragments.LastStartFormula | kernel/dev/net/net.c:148-175 | the same start as a quotient of numbers known before the call |
| IpFragments.EthernetSurvives | kernel/dev/net/net.c:137-179 | at the MTU an Ethernet adapter starts with every payload survives |
| IpFragments.WrapExample | kernel/dev/net/net.c:137-179 | at an MTU of 1458 the longest does not: the last 11 bytes are read from the front of the frame |
| IpFragments.Interleaved | kernel/dev/net/net.c:383-431 | what becomes of one (id, source, destination) does not depend on arrivals of the others |
| IpFragments.SetEntryExact | kernel/dev/net/net.c:388-426 | the vector of partial datagrams acts as a map from keys to entries |
| IpFragments.SentInOrder | kernel/dev/net/net.c:137-179 | if their headers name the datagram, the fragments sent are what a receiver takes as in order: contiguous, none empty, each but the last marked, with offsets that fit the 13-bit field |
| IpFragments.Fragment | kernel/dev/net/net.c:137-179 | the loop sends exactly the fragments that the lemmas speak of |
| IpFragments.Reassembler.Reassemble | kernel/dev/net/net.c:383-431 | table and result after a fragment are those of the step that the lemmas speak of, for any arrival |
| IpFragments.Reassembler.OnInet | kernel/dev/net/net.c:453-479 | with the tests of version and checksum in front; a datagram in one piece is handed on past the reassembly |
| IpFragments.Checksum | kernel/dev/net/net.c:26-42 | with the checksum added in, the 16-bit words sum to zero in one's complement arithmetic |
| Events.NoLostWakeup | kernel/lib/event.c:73-145 | in every reachable state a thread asleep in `event_await` is on the list of each of its events, nothing is pending on them, none was triggered since it went to sleep, and the triggers not dropped are as many as those taken by awaits and those that found listeners |
| Events.Ledger | kernel/lib/event.c:12-145 | in every run, counted from its steps: the triggers of an event that were not dropped are those still pending, those that an await returned with, and those that found listeners |
| Events.AwaitExact | kernel/lib/event.c:73-96 | in every run an await takes the first of its events of which, by that count, a trigger is left over; if there is none it parks exactly when it may block |
| Events.WaitExact | kernel/lib/event.c:22-145 | in every run each thread waits for the events, and has been delivered the events, that follow from the awaits, triggers and returns so far |
| Events.DeliversExact | kernel/lib/event.c:116-145 | a trigger finds listeners exactly when some thread waits for its event and has not had it yet |
| Events.ReturnsLast | kernel/lib/event.c:98-114 | a parked await returns the last of its events that was triggered before it looked, counted from the steps of the run |
| Events.RunInv | kernel/lib/event.c:12-145 | in every run, events with listeners have nothing pending, a waiting thread is on the lists of exactly those of its events that were not delivered to it, none was delivered twice, and a thread woken by a trigger will return an event delivered to it |
| Events.NextInv | kernel/lib/event.c:12-145 | each locked section keeps this |
| Events.TriggerWakes | kernel/lib/event.c:116-145 | a trigger puts every thread asleep on the event back on the run queue, with that event as its result |
| Events.ReturnExact | kernel/lib/event.c:73-145 | in every run a parked await returns an event delivered to it since it went to sleep, never -1, because no caller of `sched_enqueue_thread` passes `by_signal`; nothing delivered is lost if and only if that was the only delivery |
| Events.LooksLast | kernel/lib/event.c:100-104 | what it returns is the last event delivered when it looks |
| Events.OneEventLosesNothing | kernel/lib/event.c:73-145 | in every run an await for one event loses no delivery |
| Events.TwoEventsCanLose | kernel/lib/event.c:116-145 | from any state an await for two events or more loses one when two of them fire before it looks |
| Events.LosingRun | kernel/lib/event.c:73-145 | a run from the start, of one thread and two events, in which the first is lost |
| Events.ResumesLeavesAll | kernel/lib/event.c:43-59 | after `event_await` returns, the thread is in no listener list, and every other listener still is |
| Events.Kernel.Await | kernel/lib/event.c:73-96 | takes one pending trigger of the first event that has any, or returns, or parks, or panics exactly when a list or the thread's table is full |
| Events.Kernel.Look | kernel/lib/event.c:98-104 | fixes what will be returned: the last event that fired |
| Events.Kernel.Resume | kernel/lib/event.c:106-114 | leaves every list and returns what it saw |
| Events.Kernel.Trigger | kernel/lib/event.c:116-145 | wakes all listeners and empties the list, or counts the trigger as pending, or drops it; `Ledger` says what becomes of it |
| Events.Kernel.CheckForPending | kernel/lib/event.c:12-20 | consumes from the first event with something pending, else changes nothing |
| Events.Kernel.AttachListeners | kernel/lib/event.c:22-41 | the thread joins every list under its number, if there is room everywhere |
| Events.Kernel.DetachListeners | kernel/lib/event.c:43-59 | swap-with-last removal takes the thread off each of its events and changes no other list |
| Scheduler.BoundedWaiting | kernel/sched/sched.c:38-72 | a slot that stays ready is taken within MAX_RUNNING_THREADS calls on a processor, whatever else changes in the queue, because each call that passes it brings the cursor nearer |
| Scheduler.Ahead | kernel/sched/sched.c:38-72 | how many slots lie between the cursor and a slot, going round |
| Scheduler.RunQueue.GetNextThread | kernel/sched/sched.c:38-72 | takes and locks the first ready thread after the cursor; none means that no slot is ready |
| Scheduler.RunQueue.Enqueue | kernel/sched/sched.c:239-262 | fills the first empty slot unless the thread is queued; the flag is set exactly when one slot holds the thread; it fails exactly when the queue is full |
| Scheduler.RunQueue.Dequeue | kernel/sched/sched.c:264-278 | empties the one slot of the thread and changes no other; it never fails |
| InitialStack.NewStack.Layout | kernel/sched/sched.c:476-527 | the stack pointer is 16-byte aligned, the words upward from it are those of the ABI, and the strings lie above |
| InitialStack.ProcessReads | kernel/sched/sched.c:476-527 | reading upward gives argc, pointers to NUL-terminated copies of each argument, NULL, pointers to each environment string, NULL, and an auxiliary vector in which searching for a type finds the value told for it, and for any other type nothing |
| InitialStack.PointerAddresses | kernel/sched/sched.c:506-522 | each user pointer addresses its own string |
| InitialStack.NewStack.PushStrings | kernel/sched/sched.c:479-491 | strings are copied downward, each followed by a zero, and nothing above is touched |
| InitialStack.NewStack.PushPointers | kernel/sched/sched.c:508-522 | pointers are stored upward in the order of the strings |
| InitialStack.NewStack.PushAux | kernel/sched/sched.c:498-504 | the auxiliary vector, ended by a null pair |
| Timers.FiresOnce | kernel/time/time.c:76-101 | a timer fires at one tick, which is computed exactly from its time, is triggered once and never again |
| Timers.FiresBounds | kernel/time/time.c:76-101 | for a normalised time T with s whole seconds, that tick k has k <= max(1, ceil(T/10^6)) and k * 10^6 >= T - s |
| Timers.SleepExactly | kernel/time/time.c:103-120 | `time_nsleep` keeps the whole of ns beside the seconds, so it sleeps the ticks that cover ns if and only if ns is below a second |
| Timers.Add | kernel/time/time.k.h:22-31 | on normalised times, addition of nanoseconds, normalised |
| Timers.Sub | kernel/time/time.k.h:33-52 | on normalised times, subtraction that stops at zero and loses one nanosecond by a borrow |
| Timers.Clock.Arm | kernel/time/time.c:41-49 | appends the timer and keeps each timer's index its place |
| Timers.Clock.Disarm | kernel/time/time.c:51-66 | swap-with-last removal keeps each timer's index its place; a timer not armed changes nothing |
| Timers.RemovedOne | kernel/time/time.c:58-60 | exactly that timer goes |
| Timers.Clock.Handle | kernel/time/time.c:76-101 | both clocks advance one tick; with the lock every armed timer is ticked, without it none |

## Left out

- FatChains.Volume.AllocateClusters: failures of the device below a table write or a zeroing write are not modelled; the only failures are too few clusters and a missing buffer.
- FatDirectory.Directory.InsertDent: the directory's clusters are one array of slots that grows by a cluster at a time; failures of single slot writes are not modelled, and names have 1 to 246 non-zero bytes because longer ones overrun the decoder's buffer.
- PageTables.AddressSpaces.MapPage: frames and pages are numbered instead of addressed, and entries are integers; PageEntries.OrIsSum justifies reading the source's or as a sum. The TLB and its shootdown are not part of this model.
- PageTables.AddressSpaces.Boot: the kernel stops when it runs out of frames here, so enough are required; the mappings of the kernel image that follow are calls of `MapPage`.
- PageTableFork.ForkPagemap: the child left behind by a failed fork is not torn down in the model, as the source does through `vmm_destroy_pagemap`; private ranges are anonymous.
- PageTableDestroy.DestroyPagemap: the loop over the ranges of the address space that comes before the teardown is left out.
- MmapRanges.Pagemap.MUnmap: mappings are anonymous and have one listed local, so they are not shared with a forked child; clearing the shadow is one assignment instead of a loop over the pages of the mapping; what later faults make of a freed description of a range is not followed; addresses count pages, and ranges are values, so the sharing of one range object between two lists is shown by the flag `listed` only.
- MmapRanges.Pagemap.MProtect: requests that contain an unmapped page are outside the model: the source follows a null range there.
- MmapRanges.Pagemap.MMap: file-backed resources are left out.
- Pmm.Allocator.Alloc: the count of used pages and the zeroing of memory by `pmm_alloc` are left out here; SlabHeap zeroes where the heap asks for it.
- SlabHeap.Heap.Alloc: sizes within a page of 2^64, where the rounding wraps, are shut out; a slab that finds no page for itself is shut out too, because the source does not test for it.
- Tcp.RunMeaning: sequence numbers are compared as plain unsigned numbers, as in the source, so the clauses about them hold while they do not wrap. Options, checksums, the retransmit queue, and timers other than giving up and the end of TIME-WAIT are left out. Each system call is one step, but for the wait in `connect`; a port is had or not, the choice of ports and the lookup of sockets by address are left out.
- TcpSockets.TcpSocket.WriteSocket: the method ends where the call has to wait for window space; whole calls with their retries are runs of it (`TcpStreams.CallExact`).
- IpFragments.Reassembler.Reassemble: a fragment whose bytes would land past the end of the collected data (arrival out of order) writes memory that is not part of the model; time-outs of partial datagrams are left out. Whether a checksum was right is an input of `OnInet`; FragmentBuffers.Build shows that it is for what is sent.
- IpFragments.RoundTrip: headers copied out of freed buffers are an input here, and must name the datagram still, as IpFragments.DeliveredExactly shows; FragmentBuffers.Fragment says what they are.
- FragmentBuffers.Fragment: nobody else allocates or frees while the fragments go out, and the frame allocator is not out of frames (`Enough`), which the source does not test for. The adapter's copy of the frame is left out.
- NvmeCache.Namespace.Read: commands, queues and physical region lists are left out; `nvme_rwlba` is a transfer between memory and disk that stops at the end of the disk.
- Events.Kernel.Trigger: the run queue always has room, and counters do not overflow. Waking a thread by a signal is not a step, as nothing does it.
- Scheduler.RunQueue.GetNextThread: the search of one processor is one step; interference during the search is left out.
- InitialStack.NewStack.Layout: arguments fit the stack, whose end is 16-byte aligned on both the kernel's and the user's side; saved registers and the other stacks of a thread are left out.
- Timers.FiresOnce: ticks on which the timer lock is taken by someone else do not count for a timer; `Timers.Clock.Handle` shows that they leave it alone.
- ext2: its block mapping does not follow its own intent for reads from an offset and for triple-indirect blocks.
- Byte-level FAT reads and writes: the chain and directory layers are the core.
- Pipes, Unix sockets, hash maps, vectors, tmpfs, devtmpfs: textbook structures.
- PCI, ACPI, APIC, PIT, PS/2, serial, framebuffer, console, e1000 and NVMe controller set-up: device input and output.
- File descriptors, system-call wrappers and path walking: plumbing without one invariant, or with unbounded recursion through links.
- Page-fault entry, context switch and inline assembly: hardware behaviour.
