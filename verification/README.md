# Pseudoroot: a Dafny model of its fake-metadata store

Pseudoroot makes unprivileged programs believe that they own files, create devices and set
attributes. Its hooks record fake metadata per inode in one of three backends: a hash table in
shared memory, a daemon behind a socket, or a map inside the process. This project models those
backends, the protocol to the daemon and the hooks that use them, and proves that each of them
behaves like the simple thing it stands for.

The model is layered as the program is.

- `Base.dfy`, `Division.dfy`, `State.dfy`: metadata records, division by non-literals, and the plain
  in-process map, the reference for all backends.
- `InodeHash.dfy`, `Probing.dfy`, `Capacity.dfy`: bucket arithmetic, linear probing with
  tombstones over a ring of cells, and the counting argument for whole histories.
- `Codec.dfy`, `XattrPage.dfy`, `Layout.dfy`: serializers, attribute pages, and the byte layout of the region.
- `InodeTable.dfy`, `TableLaws.dfy`, `TableRuns.dfy`: the table on slots and pages, its step laws, its histories.
- `ShmMap.dfy`: the class over one flat byte array whose methods probe, store and write pages in place.
- `Readers.dfy`: one serialised writer and a lock-free reader, interleaved word by word.
- `Backends.dfy`: routing over the three backends, including the read-modify-write of one entry.
- `Framing.dfy`, `Wire.dfy`, `Channel.dfy`, `Daemon.dfy`, `Rpc.dfy`: frames, payloads, the client
  channel, the daemon's dispatch and loop, and N clients with one daemon as steps over bytes.
- `Overlay.dfy`, `Hooks.dfy`: the hooks over a filesystem with hard links and recycled inode
  numbers, against an ideal filesystem that keeps the metadata inside the inode.
- `XattrList.dfy`: merging attribute name lists.

## Main results

- A fresh shared table answers every history as the plain map does, skipping exactly the writes
  its search reports full for (`TableRuns.TableSimulatesMap`). The slots it has consumed never
  outnumber the distinct keys ever written (`TableRuns.ConsumedAtMostKeysWritten`), so nothing is
  dropped below that bound, and the bound is sharp (`TableRuns.RemovedKeyCannotReturn`,
  `TableRuns.FillingFills`). The proof
  compares, at every cut of the ring, how many keys cross it in the table and in a table that
  never removes anything.
- A key that stays live in its slot is never missed by a concurrent reader, whatever is recycled
  around it (`Readers.LiveKeyNeverMissed`). A reader's view of the slot it is looking at stays true
  exactly as long as no tombstone is stored into that slot, and then it only gets values stored
  for its own key (`Readers.TrueUntilUndercut`). A tombstone alone does no harm to what it
  gets (`Readers.OnlyRefillsTear`). Once the slot is filled again under it, it may get an entry for
  a key that nobody wrote, in a table of every size that can be created (`Readers.RemovalsTear`).
- The overlay of side table and filesystem reports what an ideal filesystem does that stores the
  metadata in the inode, knows nothing of the hooks, and has made every file its maker's. A call
  breaks this if and only if it is one of the following (`Overlay.Diverges`, `Overlay.StepExact`):
  - an unlink or overwriting rename that drops an entry that shows, and whose real call then fails;
  - a chmod of a file whose reported type is not the one on disk;
  - a chown of a file with set-id bits or capabilities, which a filesystem clears;
  - setting an attribute although it is too long, or there or not there against the flag, where
    that changes something;
  - a mknod over an existing file that did not already report the new node, one of a kind that
    mknod does not make, or one whose recorded mode is not what a filesystem gives: no kind, or
    bits that the umask takes away;
  - a call that makes a file without recording it, or records one for the first time, for
    somebody other than the one who looks.

  Over whole runs the reports stay equal exactly when no call is one of these
  (`Overlay.OverlayIsIdeal`), and the same through the shared table and through a daemon beside a
  local map (`Hooks.SharedOverlayIsIdeal`, `Hooks.MappedOverlayIsIdeal`). The calls that a hook
  accepts and a filesystem refuses are stated exactly as well (`Overlay.AnswersExact`).
- In every reachable state of N clients and one daemon, replies carry the ids of their requests
  although nobody compares them, and the inode map is the plain map run on the dispatched
  requests in dispatch order (`Rpc.RepliesMatchRequests`).

## Where code and documentation disagree

The model follows the code.

- A comment says a search reports a full table only when there is "no empty or reusable slot"
  (pseudoroot-core/src/shm_map.rs:52-54). The code returns `Full` after `slot_count` steps even
  when it passed a tombstone (pseudoroot-core/src/shm_map.rs:411). `Probing.FullExact` states what
  the code does and `TableRuns.RemovedKeyCannotReturn` gives the history that shows the difference.
- The notes say that `chmod` makes the real call with its permission bits zeroed
  (docs/architecture.md:111-112). The code passes the requested mode unchanged and reports success
  whatever that call returns (pseudoroot/interpose/src/ownership.rs:358-377).
- A requested slot count above 2^31 overflows `next_power_of_two`; in an optimised build that
  yields zero and the minimum of 1024 is used. `Layout.SlotCounts` says exactly when this happens.
- A mode or device number of 0 means "not faked" in a slot, and attributes that do not fit a page
  are dropped. All results about the shared table are up to `TableLaws.Normalise`, which says this.

## Assumptions

- Writers of the shared table are serialised and memory is sequentially consistent. One reader
  stands for any number of them, because readers change nothing. The writer's own search is one
  step, because nobody else writes.
- `usize` is a parameter; alignment is that of 64-bit targets.
- Serializers are parameters that must round-trip; `Wire.FixedWireFaithful` and
  `Codec.XattrsRoundTrip` show that the obligation can be met. A serializer is a function here;
  that the order in which a hash map is iterated does not matter to whoever decodes it is
  `Codec.AnyOrderDecodes`.
- RPCs succeed, each client has its own connection, and replies fit a frame.
- The filesystem gives a new file an inode number that no link uses. Whether a real call
  succeeds, and what it answers, are parameters.

## Model

| member | source | states |
|---|---|---|
| `InodeHash.XorMod` | pseudoroot-core/src/shm_map.rs:491-494 | Exclusive-or commutes with reduction modulo a power of two, so only low bits reach the bucket. |
| `InodeHash.OddFactor` | pseudoroot-core/src/shm_map.rs:492 | Multiplying by an odd constant neither creates nor removes divisibility by a power of two. |
| `InodeHash.HashLowBits` | pseudoroot-core/src/shm_map.rs:491-494 | The 64-bit wrapping hash depends only on the residues of device and inode number modulo the slot count. |
| `InodeHash.SameBucket` | pseudoroot-core/src/shm_map.rs:491-494 | On one device two inode numbers share a bucket if and only if they are congruent modulo the slot count. |
| `InodeHash.HashMixes` | pseudoroot-core/src/shm_map.rs:491-494 | The bucket is the remainder of a number whose every bit is that of the device number exclusive-or the 64-bit wrapping product with the given multiplier. |
| `InodeHash.BitIsDigit` | pseudoroot-core/src/shm_map.rs:492 | The bits spoken of are binary digits. |
| `Probing.VisitsEachOnce` | pseudoroot-core/src/shm_map.rs:401-409 | As many probe steps as there are slots visit every slot exactly once. |
| `Probing.FoundExact` | pseudoroot-core/src/shm_map.rs:398-412 | Under the invariant the search finds slot i if and only if the key is live there. |
| `Probing.FullExact` | pseudoroot-core/src/shm_map.rs:398-412 | The search reports full if and only if the key is absent and no slot is EMPTY, tombstones or not. |
| `Probing.VacantExact` | pseudoroot-core/src/shm_map.rs:398-412 | The search offers slot i if and only if the key is absent and i is the first tombstone before the first EMPTY slot on the path, or that EMPTY slot. |
| `Probing.InsertKeepsInv` | pseudoroot-core/src/shm_map.rs:321-342 | Publishing a key at the offered slot keeps keys distinct and every path from a key's bucket to its slot free of EMPTY. |
| `Probing.RemoveKeepsInv` | pseudoroot-core/src/shm_map.rs:381-391 | A tombstone keeps the invariant. |
| `Probing.ClearingNeedsNobodyBehind` | pseudoroot-core/src/shm_map.rs:40-44 | Clearing a live slot to EMPTY instead keeps the invariant if and only if no live key's path passes over it. |
| `Capacity.Conservation` | pseudoroot-core/src/shm_map.rs:398-409 | At every slot, keys entering plus keys at home there equal keys stopping there plus keys going on. |
| `Capacity.InsertStaysWithin` | pseudoroot-core/src/shm_map.rs:321-342 | An insertion keeps every flow across the ring at or below that of the insert-only ring, and lands on a slot taken there. |
| `Capacity.SlotTakenInIdeal` | pseudoroot-core/src/shm_map.rs:321-342 | A slot a key lands on is taken in the insert-only ring whenever no more flow reaches it than there. |
| `Capacity.RemoveStaysWithin` | pseudoroot-core/src/shm_map.rs:381-391 | A removal keeps that comparison. |
| `Capacity.ConsumedAtMostKeys` | pseudoroot-core/src/shm_map.rs:398-412 | Slots that are not EMPTY are at most as many as the keys of the insert-only ring. |
| `Codec.LeRoundTrip` | pseudoroot-core/src/shm_map.rs:438-452 | Little-endian words of any width read back every value that fits them. |
| `Codec.LeDigits` | pseudoroot-core/src/shm_map.rs:438-452 | Byte i of a little-endian word is its i-th digit to base 256. |
| `Codec.EntriesRoundTrip` | pseudoroot-core/src/shm_map.rs:433-460 | Attribute entries written one after the other read back as the map they stand for, a later entry winning, and consume exactly their bytes. |
| `Codec.AnyOrder` | pseudoroot-core/src/shm_map.rs:433-436 | Every list that names each attribute of a map once, in any order, stands for that map. |
| `Codec.AnyOrderDecodes` | pseudoroot-core/src/shm_map.rs:433-460 | A counted list of a map's entries decodes as the map and leaves what follows, in whatever order the hash map was iterated. |
| `Codec.XattrsRoundTrip` | pseudoroot-core/src/shm_map.rs:427-460 | A concrete length-prefixed attribute serializer round-trips and never encodes to nothing, which is what pages require of one. |
| `XattrPage.PageRoundTrip` | pseudoroot-core/src/shm_map.rs:427-460 | Reading a page after writing it gives the map when its encoding fits 4092 bytes and the empty map otherwise, whatever bytes were there before. |
| `Layout.SlotCounts` | pseudoroot-core/src/shm_map.rs:135 | The slot count is a power of two from 1024 to 2^31; it covers the request, by less than a factor of two above 1024, exactly when the request is at most 2^31. |
| `Layout.OffsetsFit` | pseudoroot-core/src/shm_map.rs:135-147 | For every accepted length no unchecked offset overflows, slots are 8-aligned, and header, slots and pages are pairwise disjoint and inside the region. |
| `Layout.RegionWords` | pseudoroot-core/src/shm_map.rs:37-75 | Every word of every slot, every page and the three occupancy values are at the given numbers. |
| `Layout.StoreFieldFrame` | pseudoroot-core/src/shm_map.rs:486-489 | Storing one field of one slot changes that field and nothing else decoded from the region. |
| `Layout.StorePageFrame` | pseudoroot-core/src/shm_map.rs:415-423 | Storing one page changes that page and nothing else decoded from the region. |
| `TableLaws.SearchSound` | pseudoroot-core/src/shm_map.rs:398-412 | The table's search finds only slots that hold the key, and otherwise no slot holds it. |
| `TableLaws.SlotHolds` | pseudoroot-core/src/shm_map.rs:281-293 | What a slot keeps of an inode: all of it, but zero mode and device number as absent and attributes only up to 4092 encoded bytes. |
| `TableLaws.ApplyKeepsValid` | pseudoroot-core/src/shm_map.rs:281-391 | Every operation keeps the table valid. |
| `TableLaws.PutSimulates` | pseudoroot-core/src/shm_map.rs:349-375 | After a write that is not dropped, the key reads as the normalised inode and every other key reads as before, also in a recycled slot. |
| `TableLaws.ChownSimulates` | pseudoroot-core/src/shm_map.rs:302-346 | After a chown that is not dropped, the key reads as its old or a new default entry re-owned, and every other key as before. |
| `TableLaws.RemoveSimulates` | pseudoroot-core/src/shm_map.rs:381-391 | After a removal the key is absent and every other key reads as before. |
| `TableLaws.DroppedExactly` | pseudoroot-core/src/shm_map.rs:343-374 | A request is dropped if and only if it writes an absent key while no slot is EMPTY, and then the table is unchanged. |
| `TableLaws.StepSimulates` | pseudoroot-core/src/shm_map.rs:281-391 | One operation on a table that agrees with a plain map is answered as by the map and leaves them agreeing, the map skipping it exactly when dropped. |
| `TableLaws.FreshTable` | pseudoroot-core/src/shm_map.rs:462-474 | A table of EMPTY slots is valid and agrees with the empty map. |
| `TableRuns.TableSimulatesMap` | pseudoroot-core/src/shm_map.rs:281-391 | Every history from a fresh table is answered as by the plain map, with inodes normalised and exactly the dropped writes skipped. |
| `TableRuns.OneAnswerEach` | pseudoroot-core/src/shm_map.rs:281-391 | A history gives one answer per request, that of the table its predecessors leave. |
| `TableRuns.ConsumedAtMostKeysWritten` | pseudoroot-core/src/shm_map.rs:302-412 | In every history, with any removals, slots that are not EMPTY never outnumber the distinct keys ever written. |
| `TableRuns.KeysWrittenExactly` | pseudoroot-core/src/shm_map.rs:302-375 | The keys counted are exactly those of chowns and writes. |
| `TableRuns.DropNeedsEveryKey` | pseudoroot-core/src/shm_map.rs:398-412 | A write is dropped only after at least as many distinct keys as slots have been written. |
| `TableRuns.RoomForFewerKeysThanSlots` | pseudoroot-core/src/shm_map.rs:302-412 | With fewer distinct keys than slots the whole history is answered as by the plain map, nothing skipped. |
| `TableRuns.EmptySlotsOnlyShrink` | pseudoroot-core/src/shm_map.rs:321-391 | The set of EMPTY slots loses exactly the EMPTY slot a new key lands on, and never regains one. |
| `TableRuns.AbsentForGood` | pseudoroot-core/src/shm_map.rs:411 | Once no slot is EMPTY an absent key stays absent in every continuation. |
| `TableRuns.InsertedAtHome` | pseudoroot-core/src/shm_map.rs:398-412 | Keys with pairwise different buckets, inserted into a fresh table by any mix of chowns and writes, all sit in their buckets and every other slot is EMPTY. |
| `TableRuns.OneDeviceNoCollisions` | pseudoroot-core/src/shm_map.rs:491-494 | Same-device keys with pairwise distinct residues, inserted in any order by any mix of chowns and writes, all sit in their home slots. |
| `TableRuns.RemovedKeyCannotReturn` | pseudoroot-core/src/shm_map.rs:411 | After filling every slot and removing one key, putting that key back by any write is dropped although its own tombstone is free. |
| `TableRuns.FillingFills` | pseudoroot-core/src/shm_map.rs:491-494 | In a table of any size that can be created, writing that many consecutive inode numbers of one device is such a filling history. |
| `ShmMap.ShmInodeMap.Init` | pseudoroot-core/src/shm_map.rs:135-172 | A zeroed region of the right length becomes a valid table of EMPTY slots. |
| `ShmMap.ShmInodeMap.InitHeader` | pseudoroot-core/src/shm_map.rs:462-474 | Whatever the bytes were, the slots end EMPTY behind a header with magic, version, count and ids. |
| `ShmMap.HeaderWords` | pseudoroot-core/src/shm_map.rs:462-474 | The header's five words are magic, version, slot count, uid and gid, in this order. |
| `ShmMap.ShmInodeMap.Create` | pseudoroot-core/src/shm_map.rs:131-174 | Creation fails exactly when the region's length does not fit the address space, and otherwise gives a fresh valid table of the computed slot count with its header. |
| `ShmMap.ShmInodeMap.Load` | pseudoroot-core/src/shm_map.rs:486-489 | A word loaded from the bytes is the field of the slot they spell. |
| `ShmMap.ShmInodeMap.Store` | pseudoroot-core/src/shm_map.rs:486-489 | A word stored into the bytes changes that field of that slot, no page and not the header. |
| `ShmMap.ShmInodeMap.WriteXattrs` | pseudoroot-core/src/shm_map.rs:427-448 | Writing attributes in place changes one page, to what a page write means, and no slot. |
| `ShmMap.ShmInodeMap.ReadXattrs` | pseudoroot-core/src/shm_map.rs:450-460 | Attributes are read from the bytes as from the page they spell. |
| `ShmMap.ShmInodeMap.WalkFrom` | pseudoroot-core/src/shm_map.rs:398-412 | The probe loop computes the recursive search that the exactness lemmas are about. |
| `ShmMap.ShmInodeMap.FindSlot` | pseudoroot-core/src/shm_map.rs:398-412 | The loop started at the key's bucket is the table's search. |
| `ShmMap.ShmInodeMap.GetInode` | pseudoroot-core/src/shm_map.rs:281-295 | A lookup in the bytes answers as the table does. |
| `ShmMap.ShmInodeMap.UpsertChown` | pseudoroot-core/src/shm_map.rs:302-346 | The in-place stores of a chown leave bytes that spell the table after the chown. |
| `ShmMap.ShmInodeMap.UpsertInode` | pseudoroot-core/src/shm_map.rs:349-375 | The in-place stores of a write leave bytes that spell the table after the write. |
| `ShmMap.ShmInodeMap.RemoveInode` | pseudoroot-core/src/shm_map.rs:381-391 | A removal leaves bytes that spell the table after it, and reports whether the key was live. |
| `ShmMap.ShmInodeMap.Serve` | pseudoroot-core/src/shm_map.rs:281-391 | Any request on bytes that agree with a plain map is answered as by the map and leaves them agreeing, up to dropped writes. |
| `Readers.PlanIsApply` | pseudoroot-core/src/shm_map.rs:302-391 | The single stores a writer plans add up to exactly what the operation does to the slots. |
| `Readers.WriterAlone` | pseudoroot-core/src/shm_map.rs:302-391 | Running alone, the writer's single stores, in their order, leave the slots that the operation does. |
| `Readers.ReaderAlone` | pseudoroot-core/src/shm_map.rs:281-295 | Running alone, the reader's single loads end with the uid, gid, mode and rdev that the table's lookup gives, or without an entry when it gives none. |
| `Readers.FoundAlone` | pseudoroot-core/src/shm_map.rs:398-412 | From anywhere on the way to a live key's slot the reader ends with exactly that slot's words, in order. |
| `Readers.MissedAlone` | pseudoroot-core/src/shm_map.rs:398-412 | From anywhere on the way a reader of an absent key ends without an entry. |
| `Readers.StepKeepsGood` | pseudoroot-core/src/shm_map.rs:321-391 | Every single store or load keeps the probe invariant and the writer's remaining stores fitting. |
| `Readers.RunIsGood` | pseudoroot-core/src/shm_map.rs:321-391 | The invariant holds in every state of every interleaving, including half-done insertions. |
| `Readers.LiveKeyNeverMissed` | pseudoroot-core/src/shm_map.rs:398-412 | A reader probing for a key that stays live in its slot never reports it absent, even while other keys are removed and their slots recycled. |
| `Readers.RunLogged` | pseudoroot-core/src/shm_map.rs:321-391 | In every state of every interleaving, removals included, what a live slot or an untouched tombstone shows was stored for one key. |
| `Readers.StepTrueExact` | pseudoroot-core/src/shm_map.rs:398-412 | One step keeps what the reader has matched and taken true of its slot if and only if it is not a tombstone store into that slot. |
| `Readers.TrueUntilUndercut` | pseudoroot-core/src/shm_map.rs:281-295 | From the start of a search the reader's view stays true if and only if no tombstone hits the slot it looks at; an entry got that way is of its own key and was stored for it. |
| `Readers.OnlyRefillsTear` | pseudoroot-core/src/shm_map.rs:281-295 | As long as no insertion stores into the slot a reader has found live and still reads, tombstoned or not, every word it gets was stored for its key. |
| `Readers.InsertOnlyReadersAreHonest` | pseudoroot-core/src/shm_map.rs:281-295 | Without removals a reader that gets an entry is at a slot holding exactly its key and every word it took was stored for that key. |
| `Readers.RemovalsTear` | pseudoroot-core/src/shm_map.rs:398-412 | In a fresh table of every size that can be created, a run with one removal makes a reader get an entry for a key never written, by matching device and inode number of two successive occupants. |
| `State.FakeRootState.SetInode` | pseudoroot-core/src/state.rs:93-97 | The map changes at one key. |
| `State.FakeRootState.GetInode` | pseudoroot-core/src/state.rs:100-103 | A lookup gives the entry or nothing. |
| `State.FakeRootState.RemoveInode` | pseudoroot-core/src/state.rs:106-108 | A removal drops the key and gives its old entry. |
| `State.FakeRootState.UpsertChown` | pseudoroot-core/src/state.rs:115-142 | The existing or a default entry is re-owned, each sentinel id leaving one unchanged. |
| `State.ChownStores` | pseudoroot-core/src/state.rs:111-142 | Each id is stored unless it is 0xFFFFFFFF, on the existing entry or a new one with the defaults and nothing else. |
| `State.RequestsStore` | pseudoroot-core/src/state.rs:93-108 | Every other request changes at most its own key, as asked, and answers what was there. |
| `Backends.CoherentExactly` | pseudoroot/interpose/src/ownership.rs:165-176 | With a daemon, the two-level lookup equals the daemon's entry for every key if and only if the local keys are a subset of the daemon's. |
| `Backends.LooksUp` | pseudoroot/interpose/src/ownership.rs:165-176 | A lookup asks the daemon only when it is configured and connected, and the local map when that gives nothing. |
| `Backends.Writes` | pseudoroot/interpose/src/ownership.rs:178-256 | Which of the two maps each operation changes, with and without a configured and connected daemon. |
| `Backends.RouteStep` | pseudoroot/interpose/src/ownership.rs:165-256 | Every routed operation keeps the maps coherent and acts on the map that answers as on a plain map. |
| `Backends.RoutedTrace` | pseudoroot/interpose/src/ownership.rs:165-256 | A single client, with or without a daemon, is answered over every trace as by one plain map, although chowns update only the daemon. |
| `Backends.ForeignRemoval` | pseudoroot/interpose/src/ownership.rs:165-176 | A removal by another client keeps the maps coherent exactly when this client has no local copy; otherwise its lookup returns that copy, however old. |
| `Backends.SharedTrace` | pseudoroot/interpose/src/ownership.rs:165-225 | A fresh shared table answers every trace of routed requests, read-modify-writes included, as one plain map, while it writes fewer keys than slots. |
| `Backends.Router.GetInode` | pseudoroot/interpose/src/ownership.rs:165-176 | The lookup sees the shared table when there is one, else the daemon's entry, else the local one. |
| `Backends.Router.SetInode` | pseudoroot/interpose/src/ownership.rs:178-190 | A write changes the shared table alone, or both maps. |
| `Backends.Router.UpdateInode` | pseudoroot/interpose/src/ownership.rs:192-200 | The edit is applied to the visible or a default entry and written back. |
| `Backends.Router.RemoveInode` | pseudoroot/interpose/src/ownership.rs:202-214 | A removal changes the shared table alone, or both maps. |
| `Backends.Router.RecordChown` | pseudoroot/interpose/src/ownership.rs:217-256 | A chown changes the shared table alone, the daemon alone, or the local map alone. |
| `Framing.FrameExact` | pseudoroot-core/src/protocol.rs:121-136 | A frame is read back exactly, whatever follows, if and only if the payload is shorter than 2^32 bytes. |
| `Framing.FrameStarts` | pseudoroot-core/src/protocol.rs:121-126 | A frame is four length bytes, the most significant first, and then the payload. |
| `Framing.FramesDecodable` | pseudoroot-core/src/protocol.rs:121-136 | Frames written back to back read back as the same list and consume exactly their bytes, whatever follows. |
| `Framing.PartialFrameWaits` | pseudoroot-core/src/protocol.rs:129-136 | Nothing is read from a proper prefix of a frame. |
| `Framing.ByteStream.WriteFramed` | pseudoroot-core/src/protocol.rs:121-126 | Exactly the frame is appended to the outgoing bytes. |
| `Framing.ByteStream.ReadFramed` | pseudoroot-core/src/protocol.rs:129-136 | The first frame is taken off the incoming bytes, or nothing is returned when they end too soon. |
| `Wire.FixedWireFaithful` | pseudoroot-core/src/protocol.rs:110-118 | The round-trip obligation can be met for every message and payload type of the protocol, by one concrete length-prefixed format. |
| `Channel.IpcChannel.Connect` | pseudoroot-core/src/protocol.rs:154-163 | A connected channel keeps its stream. |
| `Channel.IpcChannel.Send` | pseudoroot-core/src/protocol.rs:171-180 | A message goes out as one frame, or fails without a stream. |
| `Channel.IpcChannel.Recv` | pseudoroot-core/src/protocol.rs:183-195 | The next frame is parsed, and an incomplete or unparsable one is an error. |
| `Channel.IpcChannel.Request` | pseudoroot-core/src/protocol.rs:198-202 | Whatever message comes next is returned as the reply, whichever id it carries. |
| `Daemon.ReplyEchoesId` | pseudoroot-core/src/daemon_server.rs:210-313 | Every reply of every message kind, refusals included, carries the id of the message it answers. |
| `Daemon.IdsAreSet` | pseudoroot-core/src/daemon_server.rs:219-301 | Setting uid and gid, by either message, sets just those, and asking afterwards answers them. |
| `Daemon.MalformedRefused` | pseudoroot-core/src/daemon_server.rs:210-313 | A payload that cannot be parsed, or a message only a daemon sends, changes nothing and is answered by an error. |
| `Daemon.PingAndShutdown` | pseudoroot-core/src/daemon_server.rs:215-313 | A ping is answered by pong, a shutdown sets the flag, and nothing else does. |
| `Daemon.RemoteCallExact` | pseudoroot-core/src/daemon_client.rs:105-164 | A remote call does to the daemon's map what the operation does to a plain map, and the lookup stub returns the plain map's entry. |
| `Daemon.ServesEveryRequest` | pseudoroot-core/src/daemon_server.rs:161-208 | Requests sent back to back on one connection are all served in order: the handler writes exactly the frames of their replies. |
| `Daemon.UnreadableStops` | pseudoroot-core/src/daemon_server.rs:171-187 | A frame that cannot be parsed, or an early end, stops the handler with nothing written or changed. |
| `Daemon.DaemonServer.DispatchMessage` | pseudoroot-core/src/daemon_server.rs:210-313 | The imperative dispatch changes state and shutdown flag and replies as its specification does, for all eleven message kinds. |
| `Daemon.DaemonServer.AnswerOne` | pseudoroot-core/src/daemon_server.rs:171-202 | One turn of the loop reads a frame, dispatches it and writes one reply frame, or stops without writing. |
| `Daemon.DaemonServer.HandleClient` | pseudoroot-core/src/daemon_server.rs:161-208 | The loop writes exactly the bytes, and leaves exactly the state, that serving the incoming bytes means. |
| `Rpc.FoldIsPlainRun` | pseudoroot-core/src/daemon_server.rs:210-313 | Folding dispatched messages changes the inode map as running their inode operations on a plain map. |
| `Rpc.HandledIsRequest` | pseudoroot-core/src/daemon_server.rs:171-189 | A handler only ever finds a whole frame that is exactly the request its client waits on. |
| `Rpc.StepKeepsFits` | pseudoroot-core/src/daemon_server.rs:171-203 | Every step of any client, handler or byte transfer keeps each connection holding one request or one reply and no more. |
| `Rpc.RepliesMatchRequests` | pseudoroot-core/src/daemon_client.rs:77-82 | In every reachable state replies carry the ids sent, what each client saw is what dispatch order determines for it, and the inode map is the plain run in that order. |
| `Overlay.StepExact` | pseudoroot/interpose/src/ownership.rs:301-513 | A call keeps every report equal to that of a filesystem storing the metadata in the inode if and only if it is none of the listed diverging calls. |
| `Overlay.OverlayIsIdeal` | pseudoroot/interpose/src/ownership.rs:409-448 | Throughout every run, with hard links and recycled inode numbers, every path reports to a looker what a filesystem storing the metadata in the inode would, if and only if no call diverges. |
| `Overlay.RecycledNumberStartsClean` | pseudoroot/interpose/src/ownership.rs:409-413 | After every run, whatever went wrong in it, a file created with a recycled inode number reports its own real mode and the looker's ids, nothing recorded. |
| `Overlay.RunClean` | pseudoroot/interpose/src/ownership.rs:409-448 | After every run, whatever went wrong in it, every entry of the side table belongs to an inode that still has a link. |
| `Overlay.OnlyLink` | pseudoroot/interpose/src/ownership.rs:409-413 | The link-count test holds exactly when the path is the only one naming the inode. |
| `Overlay.UnlinkDrop` | pseudoroot/interpose/src/lib.rs:367-370 | After a successful unlink the side table holds exactly the entries whose inode still has a link. |
| `Overlay.RenameDrop` | pseudoroot/interpose/src/ownership.rs:415-433 | After a successful rename the side table holds exactly the entries whose inode still has a link. |
| `Overlay.ChmodKeepsType` | pseudoroot/interpose/src/ownership.rs:301-319 | A chmod keeps the reported file type if and only if that is the type on disk. |
| `Overlay.ChmodReports` | pseudoroot/interpose/src/ownership.rs:301-319 | After a chmod a file reports the twelve permission bits asked for under the type on disk. |
| `Overlay.MknodReports` | pseudoroot/interpose/src/ownership.rs:487-513 | After a mknod its path reports the caller's ids, the mode as given, and the device number for kinds 2 and 6 only. |
| `Overlay.PlaceholderBits` | pseudoroot/interpose/src/ownership.rs:489-496 | The placeholder is a regular file with mode 0644 less the umask, bit by bit. |
| `Overlay.RealMknodReports` | pseudoroot/interpose/src/ownership.rs:516-530 | When the placeholder cannot be opened, the node of the real call shows with the looker's ids and its own mode and number. |
| `Overlay.XattrReports` | pseudoroot/interpose/src/ownership.rs:721-731 | After setting or removing an attribute just that attribute changes, to the value cut to 65536 bytes. |
| `Overlay.NamesLeft` | pseudoroot/interpose/src/lib.rs:367-405 | Which names an unlink, a rename and a new link leave, and what they name. |
| `Overlay.MknodOverwrites` | pseudoroot/interpose/src/ownership.rs:487-513 | A mknod over an existing file succeeds and restamps all of its links where a filesystem refuses; reports stay equal exactly when the file already reported the new device. |
| `Overlay.AnswersExact` | pseudoroot/interpose/src/ownership.rs:487-911 | A call succeeds exactly when it does on an ideal filesystem, unless it is a mknod on an existing path or of no node kind, an attribute set too long or against its flag, or a removal of a missing attribute. |
| `Overlay.LongAttributeDiverges` | pseudoroot/interpose/src/ownership.rs:658-668 | A concrete call with one byte more than fits is cut and set where a filesystem refuses it. |
| `Overlay.UntypedNodeDiverges` | pseudoroot/interpose/src/ownership.rs:502 | A concrete mknod without a kind shows no file type. |
| `Overlay.SetIdDiverges` | pseudoroot/interpose/src/ownership.rs:217-225 | A concrete chown of a set-user-id file keeps the bit. |
| `Hooks.MappedOverlayIsIdeal` | pseudoroot/interpose/src/ownership.rs:165-256 | Throughout every run the hooks on a local map, or on a daemon beside it, report what the ideal filesystem does, if and only if no call diverges. |
| `Hooks.SharedOverlayIsIdeal` | pseudoroot/interpose/src/ownership.rs:165-225 | Throughout every run that writes fewer keys than slots, the hooks on a fresh shared table report what an ideal filesystem does whose inodes hold the attributes a slot can, if and only if no call diverges. |
| `Hooks.Process.Chown` | pseudoroot/interpose/src/ownership.rs:321-330 | An existing path sends one chown for its inode under the caller's ids; a missing one changes nothing and fails. |
| `Hooks.Process.Chmod` | pseudoroot/interpose/src/ownership.rs:358-377 | The composed mode is recorded and the real mode changed if it can be; the real outcome is not reported. |
| `Hooks.Process.SetXattr` | pseudoroot/interpose/src/ownership.rs:733-752 | One attribute of the visible or a default entry is set to the value cut to 64 KiB, whatever the flag says. |
| `Hooks.Process.RemoveXattr` | pseudoroot/interpose/src/ownership.rs:899-911 | One attribute of the visible or a default entry is removed. |
| `Hooks.Process.FinishMknod` | pseudoroot/interpose/src/ownership.rs:487-513 | A regular placeholder is created or reused and its whole entry replaced, with a device number for device kinds only; nothing changes when it cannot be opened. |
| `Hooks.Process.Mknod` | pseudoroot/interpose/src/ownership.rs:516-530 | The placeholder is stamped, or when it cannot be opened the real call is made and its outcome returned. |
| `Hooks.Process.MaybeRemoveInode` | pseudoroot/interpose/src/ownership.rs:409-413 | The entry is dropped exactly when the link count is at most one. |
| `Hooks.Process.Unlink` | pseudoroot/interpose/src/lib.rs:367-370 | The entry is dropped by the link count before the real call, whose outcome is returned. |
| `Hooks.Process.PrepareRenameOverwrite` | pseudoroot/interpose/src/ownership.rs:415-433 | The target's entry is dropped by its link count unless both paths name one inode. |
| `Hooks.Process.Rename` | pseudoroot/interpose/src/lib.rs:389-392 | The target's entry is dropped before the real rename, whose outcome is returned. |
| `Hooks.Process.Stat` | pseudoroot/interpose/src/ownership.rs:550-600 | Stat shows the recorded owner, mode and device number, or the ids this process remembers and the real mode and device number. |
| `Hooks.Process.GetXattr` | pseudoroot/interpose/src/ownership.rs:798-817 | A recorded attribute is returned whole, by length alone, or refused for lack of room; for any other the real call answers. |
| `XattrList.MergeXattrLists` | pseudoroot/interpose/src/ownership.rs:685-704 | The three loops build the blob of the real names followed by the extra names not there yet. |
| `XattrList.MergedNames` | pseudoroot/interpose/src/ownership.rs:685-704 | Split at NUL, the merged list spells the real non-empty names in order, then each new non-empty extra name. |
| `XattrList.UnseenExact` | pseudoroot/interpose/src/ownership.rs:693-698 | The appended names are exactly the non-empty extra names not already present, each once. |
| `XattrList.UnseenInOrder` | pseudoroot/interpose/src/ownership.rs:693-698 | The appended names come in the order of first sight. |

## Left out

- Two writers on the table at once: the code takes no lock there, two of them can claim the same vacant slot, and agreement with a plain map does not hold.
- Weaker memory orders than sequential consistency, and attribute pages or the `(uid, gid)` pair as one atomic value under concurrent reads.
- Mapping, inheriting and validating shared-memory descriptors (`create_anon_shm_fd`, `from_fd`), environment parsing, sockets, threads and the accept loop: the model starts from a zeroed region and in-memory byte streams.
- Codec.XattrsRoundTrip: a length-prefixed format of the model's own; the bytes of the serialization library are not part of this model.
- Wire.FixedWireFaithful: likewise; the library's encoding of messages and payloads stays a parameter.
- Replies that cannot be serialized or framed, I/O failures in the middle of an exchange, and connections shared across `fork`.
- Agreement of the local fallback map between several clients; `Backends.ForeignRemoval` says when it fails.
- Agreement between the process-local ids that `stat` shows for unrecorded files and the backend's ids that new entries get; a process carries both.
- Permission checks: whether a real call is allowed is a parameter, and the ideal filesystem lets everybody edit metadata, as the hooks do.
- Attribute names that a filesystem would not take, groups inherited from set-group-id directories, times, and what writing to a file does to its metadata.
- Symbolic links, directories, `rmdir`, calls on descriptors of unlinked files, `renameat2` flags, and files held open after their last unlink.
- The attribute a real `getxattr` finds is a parameter, and the buffer handling of `listxattr` around the merged list is left out.
- Getters and setters of the current ids, `setfsuid` and `setfsgid`, `statx`, platform wrappers, preload wiring, the command line and the session supervisor: plumbing without further state.
- Hooks.SharedOverlayIsIdeal: the ideal filesystem drops attributes that do not fit a slot's page, because the table does; nothing else of the table's limits is in it.
