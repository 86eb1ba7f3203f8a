# FlashDB: a verified model

FlashDB keeps two kinds of database directly on NOR flash, where a program can only clear bits and only the
erase of a whole sector sets them again. This project models the three parts everything else rests on and
proves what they are for.

**The key-value database** (`Kv*.dfy`). A sector is a header with a store and a dirty status and a log of
records; a record's status byte moves from PRE_WRITE over WRITE and PRE_DELETE to DELETED. `KvDb.KvDatabase`
is the database object: set, delete, get, allocation, garbage collection, the two caches, load and recovery are
methods that program the flash one step at a time. Its field `hist` holds the flash content after every
single program and erase, so a statement about every element of `hist` is a statement about every point at
which the power may fail. The main results:

- Without a power cut the database is a finite map: `SetKv`, `DelByName` and `GetKv` change and read `model`
  exactly as a map would, also when the call collects garbage; a set that is refused for lack of space leaves
  the map alone.
- A run of sets, deletes and reads of any length answers and ends as a fold over a map does (`KvRun.Run`).
- A cut at any step of a set or a delete leaves, for every other key, its value, and for the key itself the
  old or the new one (`Ran` with `Changing`). After reboots the map is the old or the new one
  (`KvPowerCut.CutAndReboot`, `KvRun.RunCutReboot`) on two conditions that can be checked on the content the cut has
  left: its free space is still known (`Calm`; of all steps only the first byte of a record can break this), and it
  strands no key (`SafeAtBoot`; given with room for the set at once, where an EMPTY sector is left). The reboots are
  sure to end after every step but the one between a PRE_DELETE and the dirty mark of its sector, and there exactly the
  stuck contents are left out. The same holds for a load that is itself cut (`KvPowerCut.CutLoadAndReboot`).
- Allocation and walks read the sector table in RAM; it agrees with a fresh traversal of the flash between all
  operations (`CacheBase`), also through deletes, evictions, collections and recovery.
- A collection loses exactly the keys that no record stores any more (`Lost`): none with an EMPTY sector in reserve, and
  without one none if another clean sector has room for all that its first sector keeps (`KvSpace.Spacious`). If there
  is only one such place and nothing else keeps those keys, that condition is exact. It is stated for one sector, for a
  collection, for a load and for the reboots after a cut.
- From a content with an EMPTY sector on, every content of every run is one of which a boot makes one with an EMPTY
  sector again (`KvGuard.Spare`).
- A collection always finds room for what it moves while one EMPTY sector is in reserve, and gives that
  sector back; set, delete and load keep one in reserve.
- Every step is one program of one header field or one record, or one erase, that NOR flash can do, and a status
  field reads as the greatest status written to it.

**The time-series database** (`Ts*.dfy`). A ring of sectors, in each of which the indexes grow up and the data
grows down. An append adds one log at the end of a sequence that is strictly increasing in time and, when the
ring wraps, gives up exactly the logs of the oldest sector. A query forward in time delivers exactly what a
filter of the whole sequence gives. For a query back in time the exact outcome is stated (it can misread the
bytes behind a sector that is full to the last byte), and when it is the right one. A restart rebuilds the RAM
copy that the running database had.

**The byte layer** (`Crc.dfy`, `LittleEndian.dfy`, `Status.dfy`, `FlashScan.dfy`, `KvCodec.dfy`, `KvWalk.dfy`,
`KvFreeSpace.dfy`). Status tables, the CRC, the record format, the search for the magic word and for the erased tail,
the walk over the bytes of a sector, and where the next record lands.

The write granularity is one bit, bytes are little-endian, sizes of headers are those of the C structs
(16 and 24 bytes for the key-value database, 40 and 16 for the time-series database), a name has at most 64
bytes; sector size, sector count and cache sizes are parameters.

## What the proofs turned up

- After a cut that leaves nothing but a status byte behind another record, a traversal does not count that byte. A
  record written behind it whose last byte is `0xFF` is destroyed by the first byte of the next record, once a reboot
  has forgotten the free address: `KvFreeSpace.BareByteCostsRecord` shows the steps for any names and values,
  `KvFreeSpace.NextRecordLands` and `KvFlash.BareByteBefore` that these two conditions are exact. The database is
  therefore proved for contents where every sector counts all it holds, or no record ends in `0xFF` (`CalmBy`).
- One recovery pass stops at the first record that was cut behind its header. It leaves nothing pending if and
  only if every pending record finds room and none comes behind such a record
  (`KvRecovery.OnePassSuffices`); a later boot does the rest.
- The scan for the oldest sector runs before the sector table is reset. On a cold start it reads the zeros of the
  database object, takes them for the first sector again and again, and finds nothing: all walks of a load begin with
  the first sector (`KvDb.KvDatabase.FindOldest`). `KvWitness.ColdStartHangs` has a content on which only that makes the
  load retry for ever.
- A collection that is resumed at boot can lose a key when the cut copy has used up the reserve, since the
  sector is formatted even if a move failed: `KvWitness.CollectUntilCut` takes the steps up to the cut,
  `KvWitness.ResumedGcLoses` loads what it leaves. It can also lose one without any cut record, when the boot collects
  another dirty sector first and that uses up the room: `KvWitness.CutAfterMove`, `KvWitness.OtherSectorFirst`.
- A cut between the PRE_DELETE of a record and the dirty mark of its sector can make the load retry for ever
  (`KvWitness.LoadCanHang`, `KvWitness.LoadHangs`). In general the retries end if and only if the walk does not get
  stuck (`KvDb.KvDatabase.Load`); `KvRecovery.CutBeforeDirtyMarkSticks` says exactly when that cut sticks.
- A name of exactly 64 bytes can be written but no scan finds it, because reading a record puts the terminator
  over the last byte of the name (`KvFlash.NameFoundExact`).
- The name table keeps 16 bits of a checksum and compares a name over its own length only, so a lookup of `co` can
  answer with the record of `co19` (`KvCache.ConfusedNames`); it never answers for another name if and only if no name
  in use is the beginning of another one with the same 16 bits (`KvCache.GoodNamesExact`).
- A status whose index is a multiple of eight cannot be written with one-bit granularity
  (`Status.StatusReadsBack`).
- A query back in time may call back on a log that does not exist, or miss logs, if a sector is full to the
  last byte (`TsQuery.FedExact`, `TsDb.ExactFitMisses`).
- With rollover switched off an append may still give up the oldest logs: exactly when it needs a new sector, all are
  in use, and the current one is not the last of the partition (`TsDb.TsDatabase.Append`,
  `TsDb.RolloverOffDropsLogs`).
- A time-series database that was closed for being full is not found again by a restart (`TsDb.TsDatabase.Restart`).

## Hypotheses

The code does not supply these, and the theorems name them: no name in use is the beginning of another one with the
same 16-bit CRC, and none of them has exactly 64 bytes (`KvCache.GoodNames`); at boot, either every traversal counts
all that its sector holds or no record in use ends in `0xFF` (`KvFlash.CalmBy`), and in the second case no value that
is set ends so; values are shorter than `0xFF000000` bytes; a header, one index and a log of the maximal length fit
into a time-series sector (`TsDb.TsDatabase.Config`), log times are positive, and no power cut happens inside an
append; the magic word stands nowhere outside headers and complete records (`KvWalk.NoPhantom`, which every append and
every status write keeps). A single program or erase is taken to succeed or not to happen.

## Model

| member | source | states |
|---|---|---|
| KvDb.KvDatabase.SetKv | FlashDB/src/fdb_kvdb.c:1307-1339 | the map gets the new value exactly if the call succeeds; room is made first only if there is none, and then the record goes to the place the allocator grants, or SAVED_FULL if there still is none and the map is as before; the old record ends DELETED in a sector marked dirty and nothing else changes; every flash content on the way holds old or new value of the key and all other values; on all of them but the one between PRE_DELETE and dirty mark a collection could get at every pending record |
| KvDb.KvDatabase.DelByName | FlashDB/src/fdb_kvdb.c:1287-1305 | the key leaves the map, its record ends DELETED in a sector marked dirty and nothing else changes; an unknown key gives KV_NAME_ERR and changes no byte; every content on the way is recoverable, with every pending record in a dirty sector |
| KvDb.KvDatabase.GetKv | FlashDB/src/fdb_kvdb.c:620-642 | the length of the value in the map and as many of its bytes as fit; nothing for an unknown key; the map does not change |
| KvRun.Run | FlashDB/src/fdb_kvdb.c:1307-1339 | any run of sets, deletes and reads gives the answers of a map and leaves the fold of the operations over it |
| KvRun.RunCutReboot | FlashDB/src/fdb_kvdb.c:1642-1675 | any run, one more operation cut anywhere, and reboots leave the map with or without that operation, if the free space of the content stays known and no key is stranded there |
| KvDb.KvDatabase.FindKv | FlashDB/src/fdb_kvdb.c:583-605 | with the cache a lookup finds a live record of the name exactly if there is one, and leaves the cache in step with the flash: a hit raises its entry, a record that only the scan finds gets one |
| KvDb.KvDatabase.FindKvNoCache | FlashDB/src/fdb_kvdb.c:557-581 | the scan finds the live record of a name exactly if there is one |
| KvFlash.FullNameNeverFound | FlashDB/src/fdb_kvdb.c:401-404 | what a scan compares with never equals a name of 64 bytes, whatever name was written |
| KvFlash.NameFoundExact | FlashDB/src/fdb_kvdb.c:401-404 | a scan finds a name if and only if it does not fill the name buffer |
| KvDb.KvDatabase.DelKv | FlashDB/src/fdb_kvdb.c:938-999 | the record is withdrawn or dropped by one program, then its sector marked dirty if it is not yet; the cache entry is removed only for a delete in one go; every step is recoverable |
| KvDb.KvDatabase.WriteKvStatus | FlashDB/src/fdb_kvdb.c:962-967 | one program: only the status of the record changes, and no live record of the key is left behind PRE_DELETE |
| KvDb.KvDatabase.MarkSectorDirty | FlashDB/src/fdb_kvdb.c:984-995 | only a clean sector is marked, and the sector table follows |
| KvDb.KvDatabase.ReplaceKv | FlashDB/src/fdb_kvdb.c:1316-1335 | with room found the set cannot be refused: the new record lies at the granted place, the old one is DELETED in a dirty sector, nothing else changes; all contents on the way hold the old or the new value and keep an EMPTY sector in reserve, and all but one have their pending records in dirty sectors |
| KvDb.KvDatabase.Replace | FlashDB/src/fdb_kvdb.c:1320-1335 | after PRE_DELETE, new record, DELETED exactly one live record of the key is left, nothing is pending, and at most the granted sector was opened |
| KvDb.KvDatabase.CreateKvBlob | FlashDB/src/fdb_kvdb.c:1196-1277 | KV_NAME_ERR and no change for a long name, else exactly one complete record is added at the granted place and the cache leads to it |
| KvDb.KvDatabase.WriteRecord | FlashDB/src/fdb_kvdb.c:1242-1266 | status, header, name, value, status: five programs, each one NOR flash can do, the content after each, and each recoverable; name cache and sector table are right at the end |
| KvDb.KvDatabase.Begin | FlashDB/src/fdb_kvdb.c:753-760 | a cut after the first program leaves a record without a header, at a free address behind every complete record of the sector |
| KvDb.KvDatabase.Fill | FlashDB/src/fdb_kvdb.c:1242-1261 | a further program of a record under way changes nothing a lookup sees |
| KvDb.KvDatabase.Commit | FlashDB/src/fdb_kvdb.c:1262-1266 | the record becomes the only live one of its key by one program |
| KvDb.KvDatabase.UpdateSecStatus | FlashDB/src/fdb_kvdb.c:827-859 | for a place that the allocator granted the sector never gets FULL; the sector table follows |
| KvDb.KvDatabase.ReadSector | FlashDB/src/fdb_kvdb.c:410-500 | through the table a sector is known with the status, dirty mark and remaining space it has on the flash |
| KvDb.KvDatabase.Statistics | FlashDB/src/fdb_kvdb.c:883-894 | the number of EMPTY sectors, and whether any sector is in use, read through the sector table |
| KvDb.KvDatabase.FindRoom | FlashDB/src/fdb_kvdb.c:896-911 | read through the sector table: the first sector in walk order with the given status that has room behind its free address for the record and more than the threshold and no dirty mark that forbids it; none only if no such sector exists |
| KvDb.KvDatabase.AllocKv | FlashDB/src/fdb_kvdb.c:913-936 | the first sector in use that can take the record; if there is none, the first EMPTY one unless it is the last reserve and no collection asks; and when a collection is requested |
| KvAlloc.FirstFitComplete | FlashDB/src/fdb_kvdb.c:861-881 | the walk misses no sector that fits, wherever it starts |
| KvAlloc.FirstFitFirst | FlashDB/src/fdb_kvdb.c:861-911 | every sector of the same status that comes earlier in the walk lacks room or has a dirty mark that forbids it |
| KvAlloc.ChoiceExact | FlashDB/src/fdb_kvdb.c:913-936 | the allocator answers with a sector if and only if that is the first one of its kind, in use before EMPTY, stated without the walk |
| KvAlloc.ChooseExact | FlashDB/src/fdb_kvdb.c:913-936 | an allocation succeeds if and only if a sector in use has room, or an EMPTY one that is not the last reserve |
| KvAlloc.RoomForMove | FlashDB/src/fdb_kvdb.c:1108-1139 | during a collection every move finds room, and once a sector has been opened for it no second one is |
| KvDb.KvDatabase.NewKv | FlashDB/src/fdb_kvdb.c:1067-1087 | the place found after at most one collection; it collects only if there was no room and no more than the reserve is EMPTY, and then just the dirty sectors that a record of this size needs; the map does not change |
| KvDb.KvDatabase.MoveKv | FlashDB/src/fdb_kvdb.c:1004-1065 | the record ends up live elsewhere, or dropped if recovery finds it live already, or pending exactly if there is no room; every step is recoverable and the cache follows |
| KvDb.KvDatabase.MoveTo | FlashDB/src/fdb_kvdb.c:1016-1062 | what a move with a granted place does, with the exact new content |
| KvDb.KvDatabase.CopyRecord | FlashDB/src/fdb_kvdb.c:1029-1048 | the copy becomes the only live record of its key, by one program for each piece of 32 bytes between the two of its status; the content after each |
| KvChange.CopiedPrefix | FlashDB/src/fdb_kvdb.c:1033-1048 | what is on the flash between two pieces is the header and exactly that much of name and value, complete only at the end |
| KvDb.KvDatabase.AddedCache | FlashDB/src/fdb_kvdb.c:1050-1055 | after a copy the sector table equals a fresh traversal again |
| KvDb.KvDatabase.Withdraw | FlashDB/src/fdb_kvdb.c:1011-1014 | the record is pending, its key has no live record, and the cache is right but for that name |
| KvDb.KvDatabase.PlaceCopy | FlashDB/src/fdb_kvdb.c:1031-1056 | while the old record stays pending the copy is made and the cache leads to it |
| KvDb.KvDatabase.FinishMove | FlashDB/src/fdb_kvdb.c:1061-1062 | dropping the old record keeps the key, since its copy is live |
| KvEffects.MoveFrame | FlashDB/src/fdb_kvdb.c:1004-1065 | a move leaves every other record alone and adds none but live ones of its key |
| KvEffects.MoveStored | FlashDB/src/fdb_kvdb.c:1004-1065 | a move, with or without room, loses no key |
| KvEffects.DoomedMove | FlashDB/src/fdb_kvdb.c:1016-1027 | a pending record that no sector can take stays where it is, byte for byte |
| KvDb.KvDatabase.FormatSector | FlashDB/src/fdb_kvdb.c:767-825 | erase, then header: exactly the keys are lost that no other sector stores; the sector leaves the table |
| KvDb.KvDatabase.MarkGc | FlashDB/src/fdb_kvdb.c:1116-1117 | the mark of a collection under way changes nothing else |
| KvDb.KvDatabase.MoveAll | FlashDB/src/fdb_kvdb.c:1118-1128 | all kept records of the sector have been moved unless one found no room; with a sector in reserve each does; if none finds room nothing changes |
| KvDb.KvDatabase.DoGc | FlashDB/src/fdb_kvdb.c:1108-1139 | the sector ends formatted, other dirty sectors are untouched, and the next walk begins behind it; exactly the keys are lost that nothing stores any more; none with an EMPTY sector in reserve or with room for all in another sector; if that is the only clean one and nothing else keeps those keys, none if and only if it has room for all; every content on the way is recoverable |
| KvDb.KvDatabase.GcCollectByFreeSize | FlashDB/src/fdb_kvdb.c:1141-1157 | nothing at all with more than the reserve EMPTY; else the dirty sectors in walk order up to the one that frees enough are clean, all later ones as they were, and the next walk begins behind the last one; for the keys lost the same as for one sector, where only the first dirty sector of the walk needs room; asked for the size of the partition it leaves no sector dirty, and it leaves an EMPTY one if any was dirty |
| KvCollect.TakenExact | FlashDB/src/fdb_kvdb.c:1130-1135 | the sectors that the walk has passed when it stops are exactly those to take: the dirty ones before which the walk frees nothing or less than was asked for |
| KvCollect.StandingEnd | FlashDB/src/fdb_kvdb.c:1130-1135 | so where the running total stops the walk, those are clean, the other dirty ones as they were, and the next walk begins behind the last one taken |
| KvEffects.ReserveRoom | FlashDB/src/fdb_kvdb.c:1016-1016 | the invariant of a collection grants a place to the next record of the sector |
| KvEffects.ReserveMove | FlashDB/src/fdb_kvdb.c:1108-1139 | a move keeps that invariant: at most one EMPTY sector is opened for what the sector holds |
| KvDb.KvDatabase.FindOldest | FlashDB/src/fdb_kvdb.c:1784-1793 | the sector in use that follows an EMPTY one, else the first, if the sector table agrees with the flash; over the zeros of a cold start always the first one |
| KvRecovery.OldestUnique | FlashDB/src/fdb_kvdb.c:1558-1573 | where the scan reads what the flash holds, the flash determines the oldest sector |
| KvDb.KvDatabase.CheckSectorHeaders | FlashDB/src/fdb_kvdb.c:1575-1591 | exactly the sectors without a header are formatted; a database that may not be formatted is left alone, and the count is zero exactly if all headers are there |
| KvDb.KvDatabase.SetDefault | FlashDB/src/fdb_kvdb.c:1398-1442 | every sector is formatted and exactly what was stored is lost; no name is left in the cache |
| KvDb.KvDatabase.SettleSectors | FlashDB/src/fdb_kvdb.c:354-364 | exactly the first slots that hold no header are given up |
| KvDb.KvDatabase.ResetCache | FlashDB/src/fdb_kvdb.c:1795-1804 | a load starts with no name and no sector in the tables |
| KvDb.KvDatabase.ResumeGc | FlashDB/src/fdb_kvdb.c:1593-1605 | a collection cut by a power failure is finished by collecting every dirty sector; without one, or with more than the reserve EMPTY, nothing changes; no key is lost with an EMPTY sector left or with room for what the first dirty sector holds, and with one place only exactly then; there is an EMPTY sector afterwards, or there was no collection to resume |
| KvDb.KvDatabase.RecoverKv | FlashDB/src/fdb_kvdb.c:1607-1635 | one record of the recovery walk: a pending one is moved, one cut short is marked and ends the walk, one without room ends it and requests a collection, and a live one gets its entry in the name table |
| KvDb.KvDatabase.GiveUp | FlashDB/src/fdb_kvdb.c:1621-1626 | a record cut while it was written is marked ERR_HDR and nothing else changes |
| KvDb.KvDatabase.RecoverPass | FlashDB/src/fdb_kvdb.c:1665-1666 | one walk, with the exact relation between the contents before and after |
| KvDb.KvDatabase.RecoverKeeping | FlashDB/src/fdb_kvdb.c:1665-1666 | a walk never takes the last EMPTY sector |
| KvDb.KvDatabase.Prepare | FlashDB/src/fdb_kvdb.c:1776-1806 | the content before the walks is the old one with missing headers written and first slots given up; the walks begin with the first sector on a cold start |
| KvDb.KvDatabase.Retry | FlashDB/src/fdb_kvdb.c:1664-1670 | one retry is enough if every pending record lies in a dirty sector, none is needed if the only one finds room; with as many retries as pending records the walk ends if and only if it is not stuck; no key is lost |
| KvDb.KvDatabase.Load | FlashDB/src/fdb_kvdb.c:1642-1675 | exactly the keys are lost that no record stores any more; none while an EMPTY sector is in reserve or the first dirty sector finds room, and with one place for it exactly then; how the walk ended; the retries end if and only if the walk does not get stuck, and with one pending record and nothing dirty that is a condition on the content; the next boot has nothing to lose |
| KvRecovery.PassExact | FlashDB/src/fdb_kvdb.c:1607-1635 | after a pass exactly the pending records that the walk did not reach are left, and a key reads exactly if it did before or one of its pending records was reached |
| KvRecovery.OnePassSuffices | FlashDB/src/fdb_kvdb.c:1621-1626 | one pass leaves nothing pending if and only if no record lacked room and none that was cut comes before a pending one |
| KvRecovery.StuckPass | FlashDB/src/fdb_kvdb.c:1612-1620 | a pass over a stuck flash changes nothing |
| KvRecovery.StuckOrLess | FlashDB/src/fdb_kvdb.c:1612-1620 | with nothing dirty, a pass that asks for another one resolved a pending record, or the flash is stuck |
| KvRecovery.OneStuck | FlashDB/src/fdb_kvdb.c:1612-1620 | with one pending record it is stuck |
| KvBoot.StarvedFew | FlashDB/src/fdb_kvdb.c:926-932 | a pending record is refused only if no EMPTY sector is left but the reserve |
| KvRecovery.PassStored | FlashDB/src/fdb_kvdb.c:1607-1635 | a pass loses no key |
| KvRecovery.CutBeforeDirtyMarkSticks | FlashDB/src/fdb_kvdb.c:962-987 | the cut between PRE_DELETE and dirty mark gets the database stuck if and only if the old record finds no room, only the reserve is EMPTY and no sector is dirty |
| KvBoot.PassRoomy | FlashDB/src/fdb_kvdb.c:1612-1620 | if the only pending record finds room, no pass asks for another one, however many cut records come first |
| KvBoot.BootFacts | FlashDB/src/fdb_kvdb.c:1649-1657 | what a boot does before its walks gains and loses no pending, cut or stored record |
| KvSpace.SpaciousMove | FlashDB/src/fdb_kvdb.c:1004-1065 | with room in one clean sector for all that is left to move, the next move is granted, wherever it goes, and leaves room for the rest |
| KvSpace.FillingMove | FlashDB/src/fdb_kvdb.c:1004-1065 | with one clean sector as the only place a granted move takes up exactly its bytes, and a refused one leaves a record that is the last to keep its key |
| KvSpace.RoomsEnd | FlashDB/src/fdb_kvdb.c:1108-1139 | so formatting the sector loses a key if and only if the only place had not enough room for all it kept |
| KvGuard.GuardBegin | FlashDB/src/fdb_kvdb.c:753-760 | only the first byte of a record behind others can leave something uncounted, and then that byte alone |
| KvGuard.GuardFill | FlashDB/src/fdb_kvdb.c:760-763 | with the header all is counted again |
| KvGuard.GuardOpen | FlashDB/src/fdb_kvdb.c:832-838 | opening the last EMPTY sector for a collection leaves a collection to resume |
| KvGuard.SpareFrom | FlashDB/src/fdb_kvdb.c:1593-1605 | from any content that a boot can find or make an EMPTY sector of, every later content of any run is one |
| KvPowerCut.RebootUntilClean | FlashDB/src/fdb_kvdb.c:1642-1675 | from any content a cut can leave, booting until no cut record remains gives a database in which every key reads as before or as after the operation and exactly the lost keys are missing: none with an EMPTY sector left or room for the first dirty sector, and with one place for it exactly then; it ends if every pending record lies in a dirty sector or the only one finds room, with one pending record and nothing dirty exactly if the load is not stuck, and in general unless the walk gets stuck |
| KvPowerCut.CutAnywhere | FlashDB/src/fdb_kvdb.c:1307-1339 | every content from the one before the operation on is left by some cut |
| KvPowerCut.CutAndReboot | FlashDB/src/fdb_kvdb.c:1307-1339 | a set or delete cut after any step and rebooted leaves the old map or the new one if the free space of the content stays known, as it does but for the one content right after the first byte of a record, and if no key is stranded; with room at once a sector is always left in reserve; after every step but one the reboots are sure to end, and after that one exactly if the load is not stuck |
| KvPowerCut.CutLoadAndReboot | FlashDB/src/fdb_kvdb.c:1642-1675 | a load that is itself cut after any step and rebooted: every key still reads as before or as after, if neither content strands a key |
| KvPowerCut.SetCutOnePass | FlashDB/src/fdb_kvdb.c:1607-1635 | after a cut set one pass brings the old value back if and only if the old record comes before the cut one |
| KvWitness.CollectUntilCut | FlashDB/src/fdb_kvdb.c:1108-1139 | the steps of a collection from a readable flash to a content that has used up the reserve |
| KvWitness.ResumedGcLoses | FlashDB/src/fdb_kvdb.c:1124-1129 | a load of that content loses a key for good |
| KvWitness.LoadCanHang | FlashDB/src/fdb_kvdb.c:1664-1670 | a concrete set whose cut leaves a content that the load never gets past |
| KvWitness.LoadHangs | FlashDB/src/fdb_kvdb.c:1664-1670 | however often the load repeats its walk there, it does not end |
| KvWitness.ColdStartHangs | FlashDB/src/fdb_kvdb.c:1784-1800 | a content with which the load of a cold start never ends, and would end if the sector table were reset before the scan for the oldest sector |
| KvWitness.CutAfterMove | FlashDB/src/fdb_kvdb.c:1108-1139 | the steps of a collection from a readable flash to a content with two dirty sectors and no EMPTY one |
| KvWitness.OtherSectorFirst | FlashDB/src/fdb_kvdb.c:1593-1605 | a boot of that content loses a key for good, since it collects the other sector first; going on with the one under collection would lose nothing |
| KvFlash.KeepsPreDelete | FlashDB/src/fdb_kvdb.c:960-964 | PRE_DELETE loses nothing that was promised |
| KvFlash.KeepsCommit | FlashDB/src/fdb_kvdb.c:1262-1266 | WRITE on a complete record keeps at most one live record for each key |
| KvFlash.KeepsDrop | FlashDB/src/fdb_kvdb.c:965-967 | DELETED is safe if the key is stored elsewhere or need not stay |
| KvFlash.KeepsErase | FlashDB/src/fdb_kvdb.c:774-774 | an erase loses exactly the keys that only that sector still stored |
| KvFlash.ApartExact | FlashDB/src/fdb_kvdb.c:473-484 | records and the free address do not overlap exactly if each complete record was taken by its sector |
| KvFlash.BareByteBefore | FlashDB/src/fdb_kvdb.c:473-484 | behind a lone status byte a record stays apart from the next if and only if its last byte is not `0xFF` |
| KvFlash.SetSettles | FlashDB/src/fdb_kvdb.c:1307-1339 | with the new record live and nothing pending the flash reads as the map with the new value |
| KvFlash.DeleteSettles | FlashDB/src/fdb_kvdb.c:1287-1305 | with no record of the key kept the flash reads as the map without it |
| KvFlash.OldOrNew | FlashDB/src/fdb_kvdb.c:1307-1339 | with nothing pending every key reads as before or as after, and no key that both maps have is missing |
| KvFlash.ReadsUnique | FlashDB/src/fdb_kvdb.c:557-572 | a content reads as one map only, so answers depend neither on the oldest sector nor on sector order |
| KvDevice.StepStatus | FlashDB/src/fdb_utils.c:145-169 | a later status is a step NOR flash can do, and the content stays well-formed |
| KvDevice.StepFill | FlashDB/src/fdb_kvdb.c:753-765 | so is a field of a record that was still erased |
| KvDevice.StepErase | porting/fal_flash_mem_blk.c:97-113 | so is the erase of a sector |
| KvCache.UpdateKvCache | FlashDB/src/fdb_kvdb.c:201-240 | the entry of the name keeps its activity and leads to the record; else the first free entry, else the first of the least active ones, gets the greatest activity; entries passed over age by one; or the first entry with the name's CRC is gone |
| KvCache.GetKvFromCache | FlashDB/src/fdb_kvdb.c:245-268 | the first entry with the CRC whose record begins with the name, raised by the size of the table up to the limit; a miss means that no entry matches and leaves the table alone |
| KvCache.GoodNamesExact | FlashDB/src/fdb_kvdb.c:248-255 | the table never answers with the record of another name if and only if no name in use is the beginning of another one with the same 16-bit CRC |
| KvCache.ConfusedNames | FlashDB/src/fdb_kvdb.c:248-255 | such names exist: `co` and `co19` |
| KvCache.CacheFollows | FlashDB/src/fdb_kvdb.c:201-268 | the cache stays right over every change of the flash that keeps live records where they are |
| KvCache.CacheMapped | FlashDB/src/fdb_kvdb.c:201-240 | mapping a name makes its entry right and no other wrong |
| KvCache.CacheRemoved | FlashDB/src/fdb_kvdb.c:226-230 | removing the entry of a name leaves no stale entry for it |
| KvSectorCache.ReadSectorInfo | FlashDB/src/fdb_kvdb.c:410-500 | cached or not, status, free address and remaining space are those of a fresh walk, what has been read is in the table from then on if it has a place, and the cache stays coherent |
| KvSectorCache.Traverse | FlashDB/src/fdb_kvdb.c:449-486 | the walk with the check for the erased tail finds free address and remaining space |
| KvSectorCache.GetSector | FlashDB/src/fdb_kvdb.c:171-182 | the entry of a sector, if there is one |
| KvSectorCache.PutSector | FlashDB/src/fdb_kvdb.c:145-166 | the facts take the place of those known of the sector, else the last free place, else none; no sector gets two entries, entries of other sectors stay |
| KvSectorCache.ForgetSector | FlashDB/src/fdb_kvdb.c:145-166 | the entry of an erased sector goes, nothing else changes |
| KvSectorCache.UpdateEmptyAddr | FlashDB/src/fdb_kvdb.c:184-191 | the free address and the remaining space of that sector's entry |
| KvSectorCache.UpdateStore | FlashDB/src/fdb_kvdb.c:193-199 | the store status of that sector's entry |
| KvSectorCache.UpdateDirty | FlashDB/src/fdb_kvdb.c:988-995 | the dirty mark of that sector's entry |
| KvSectorCache.AppendedCoherent | FlashDB/src/fdb_kvdb.c:1249-1253 | with the free address put into the table on the way, a written record leaves the table equal to a fresh traversal, free address included |
| KvSectorCache.AppendedExact | FlashDB/src/fdb_kvdb.c:1249-1253 | the cached free address is the one a fresh traversal finds if and only if the sector takes the record |
| KvSectorCache.OpenedCoherent | FlashDB/src/fdb_kvdb.c:832-838 | so does opening a sector |
| KvSectorCache.StatusCoherent | FlashDB/src/fdb_kvdb.c:938-967 | so does a new record status, with no update at all |
| KvSectorCache.MarkedCoherent | FlashDB/src/fdb_kvdb.c:984-995 | so does the dirty mark; the mark of a collection is not cached |
| KvSectorCache.FormattedCoherent | FlashDB/src/fdb_kvdb.c:815-821 | so does formatting a sector |
| KvIterate.KvIterator.constructor | FlashDB/src/fdb_kvdb.c:1850-1862 | everything is still to come, all totals are zero |
| KvIterate.KvIterator.Iterate | FlashDB/src/fdb_kvdb.c:1872-1908 | the next live record and its sizes, or the end exactly if none is left, read through the sector table |
| KvIterate.IterationExact | FlashDB/src/fdb_kvdb.c:526-555 | a whole iteration lists every live record exactly once, in walk order from the oldest sector on, and nothing else |
| KvIterate.Drain | FlashDB/src/fdb_kvdb.c:1872-1908 | calling it to the end lists each key of the map once with its value, in walk order; count and byte totals match |
| Crc.CalcCrc32 | FlashDB/src/fdb_utils.c:75-87 | the table loop computes the folded checksum, with the register inverted before and after |
| Crc.Residue | FlashDB/src/fdb_utils.c:75-87 | any bytes followed by their own checksum have the checksum `0x2144df1c`, from any start value on |
| Crc.CheckValue | FlashDB/src/fdb_utils.c:75-87 | the nine digits `123456789` have the checksum `0xcbf43926` |
| Crc.TableIsEightRounds | FlashDB/src/fdb_utils.c:19-64 | each of the 256 constants is eight rounds of the shift register of section 8 of RFC 1952 |
| Crc.StepIsEightRounds | FlashDB/src/fdb_utils.c:82-84 | a table step is eight such rounds of the whole register |
| Crc.Piecewise | FlashDB/src/fdb_utils.c:66-74 | accumulating over pieces gives the checksum of the whole |
| Crc.Rounds8Linear | FlashDB/src/fdb_utils.c:82-84 | eight rounds are linear over exclusive or |
| Crc.Rounds8Injective | FlashDB/src/fdb_utils.c:82-84 | eight rounds lose no information |
| Crc.FoldInjective | FlashDB/src/fdb_utils.c:82-84 | different registers stay different over any further bytes |
| Crc.BurstChangesCrc | FlashDB/src/fdb_utils.c:75-87 | buffers that differ only within four consecutive bytes never have the same checksum |
| Status.SetStatus | FlashDB/src/fdb_utils.c:89-122 | the table of a status, the byte to program, and no byte behind the table touched |
| Status.GetStatus | FlashDB/src/fdb_utils.c:124-143 | the number of bits up to the last cleared one |
| Status.StatusReadsBack | FlashDB/src/fdb_utils.c:89-143 | a status reads back if and only if it is zero or no multiple of eight |
| Status.ReadsAsMaximum | FlashDB/src/fdb_utils.c:145-178 | on NOR flash a field of at most eight statuses reads as the greatest written since its erase |
| Status.OverwriteIsProgram | porting/fal_flash_mem_blk.c:79-95 | a device that overwrites behaves like NOR flash if and only if the status does not fall |
| FlashScan.ContinueFfAddr | FlashDB/src/fdb_utils.c:183-208 | where the erased tail begins, independent of the 32-byte buffer |
| FlashScan.TailUnique | FlashDB/src/fdb_utils.c:183-208 | that place is unique |
| FlashScan.FindNextKvAddr | FlashDB/src/fdb_kvdb.c:274-304 | the first address from the start on whose header carries the magic word within the scanned range, or none; and none without a read at the cached free address |
| LittleEndian.Le32Back | FlashDB/src/fdb_kvdb.c:112-125 | a header word is read as the number that was written |
| Crc.WordBack | FlashDB/src/fdb_kvdb.c:112-125 | a stored checksum is read as it was written |
| KvCodec.FlashWrite | FlashDB/src/fdb_utils.c:297-318 | a program clears bits; on erased bytes it stores the data |
| KvCodec.CrcPieces | FlashDB/src/fdb_kvdb.c:1227-1241 | the checksum computed field by field is that of the covered bytes |
| KvCodec.CreateRecord | FlashDB/src/fdb_kvdb.c:1226-1266 | erased space is turned into exactly the image of the live record, all other bytes stay |
| KvCodec.HeaderFields | FlashDB/src/fdb_kvdb.c:112-125 | status, magic word, length and checksum of a record lie at bytes 0, 4, 8 and 12 |
| KvCodec.CoveredFields | FlashDB/src/fdb_kvdb.c:112-125 | behind them, from byte 16 on and all under the checksum, name length, value length, name and value |
| KvCodec.CopyRecord | FlashDB/src/fdb_kvdb.c:1029-1048 | the copy has the bytes of the record behind its status, with a fresh status, through a 32-byte buffer |
| KvCodec.CopyIsRecord | FlashDB/src/fdb_kvdb.c:1029-1048 | the copy of a pending record is the image of the same record, live |
| KvCodec.CrcOfBody | FlashDB/src/fdb_kvdb.c:371-382 | the checksum over 32-byte chunks is the checksum of the whole body |
| KvCodec.ReadKv | FlashDB/src/fdb_kvdb.c:342-408 | fields and checksum verdict of a record with a possible length; else the header error, programmed unless it already was |
| KvCodec.RoundTrip | FlashDB/src/fdb_kvdb.c:342-408 | what was written for any name and value that fit is read back with status, lengths, name, value and a good checksum, and its length passes the check exactly if the database is as large as the record |
| KvCodec.DamageDetected | FlashDB/src/fdb_kvdb.c:383-387 | damage within four consecutive bytes of lengths, name or value never passes the check |
| KvWalk.NextKvAddr | FlashDB/src/fdb_kvdb.c:306-340 | behind a complete or cut record the walk goes to the next one with a header, or ends; the cached free address never changes that |
| KvWalk.Traverse | FlashDB/src/fdb_kvdb.c:449-486 | the traversal visits exactly the records of the sector in order, up to a damaged one if there is any, and takes the erased tail behind them for free |
| KvWalk.Visit | FlashDB/src/fdb_kvdb.c:526-555 | the walk of an iterator comes to every record with a header, damaged or not, with or without a cached free address |
| KvWalk.InReach | FlashDB/src/fdb_kvdb.c:327-327 | the room that the allocator leaves keeps every record within the range of the search |
| KvWalk.FreeSpaceExact | FlashDB/src/fdb_kvdb.c:473-484 | the free address is the end of the records if and only if no bare status byte was passed over or the last byte is not `0xFF` |
| KvFreeSpace.BeginKeepsContent | FlashDB/src/fdb_kvdb.c:753-760 | a cut after the first byte of a record leaves a walkable sector whose free address lies behind that byte |
| KvFreeSpace.NextRecordLands | FlashDB/src/fdb_kvdb.c:473-484 | the first byte of the next record leaves the last one intact if and only if every status byte was counted or the last one ends programmed |
| KvFreeSpace.BareByteCostsRecord | FlashDB/src/fdb_kvdb.c:449-486 | record, cut, reboot, record, reboot: the second record survives the next one if and only if it does not end in `0xFF` |
| KvFreeSpace.FreeIsTail | FlashDB/src/fdb_kvdb.c:473-484 | the free address computed from the records is the one that the traversal of the bytes finds |
| KvWalk.FreshContent | FlashDB/src/fdb_kvdb.c:767-825 | a formatted sector is walkable |
| KvWalk.AppendKeepsContent | FlashDB/src/fdb_kvdb.c:1196-1277 | adding a record keeps the sector walkable, whatever bytes its value holds |
| KvWalk.StatusKeepsContent | FlashDB/src/fdb_kvdb.c:938-967 | so does a new status of a complete record |
| TsDb.TsDatabase.constructor | FlashDB/src/fdb_tsdb.c:804-817 | a formatted database is valid and has no logs |
| TsDb.TsDatabase.Append | FlashDB/src/fdb_tsdb.c:382-423 | WRITE_ERR, SAVED_FULL or success exactly when each is due; a sector in use is closed if and only if one more index and the data do not fit between its indexes and its data; on success the old sequence, without exactly the oldest sector's logs if the ring wraps, and the new log; otherwise no log changes; with rollover off all logs stay if and only if no new sector is needed, one is free, or the partition ends |
| TsDb.TsDatabase.NeedsNewExact | FlashDB/src/fdb_tsdb.c:326-326 | what the RAM copy says of the room left is what the layout on the flash says |
| TsDb.RolloverOffDropsLogs | FlashDB/src/fdb_tsdb.c:344-364 | a run in which an append with rollover off gives up logs |
| TsDb.TsDatabase.SetRollover | FlashDB/src/fdb_tsdb.c:873-877 | the switch changes no log |
| TsDb.TsDatabase.AppendTo | FlashDB/src/fdb_tsdb.c:370-422 | with room in the current sector exactly the new log is added and the RAM copy follows |
| TsDb.TsDatabase.WriteTsl | FlashDB/src/fdb_tsdb.c:300-319 | index slot and data land on erased bytes |
| TsDb.TsDatabase.CloseSector | FlashDB/src/fdb_tsdb.c:326-343 | the end info names the last log of the sector |
| TsDb.TsDatabase.NextSector | FlashDB/src/fdb_tsdb.c:326-364 | the current sector is closed with its indexes as they were, the next one is empty and current; logs go only if the ring was full, and then exactly those of the oldest sector |
| TsDb.TsDatabase.GiveUp | FlashDB/src/fdb_tsdb.c:355-364 | the oldest sector is erased and the next one becomes the oldest |
| TsDb.TsDatabase.ReadSectorInfo | FlashDB/src/fdb_tsdb.c:196-259 | header fields with the end info that is there, and with a traversal the end of indexes and data, also for a sector that is full to the last byte |
| TsFlash.LayoutDisjoint | FlashDB/src/fdb_tsdb.c:300-319 | the data of any two logs and the index area do not overlap |
| TsFlash.EarlierLogKept | FlashDB/src/fdb_tsdb.c:300-319 | an earlier log of the sector reads back unchanged after an append |
| TsFlash.LogsAppended | FlashDB/src/fdb_tsdb.c:300-319 | the logs of the sector are the old ones and the new one |
| TsFlash.InvAppended | FlashDB/src/fdb_tsdb.c:414-420 | the layout of the sector is kept, with its lower end at the new data |
| TsRing.AllSorted | FlashDB/src/fdb_tsdb.c:395-400 | the ring read from the oldest sector on is strictly increasing in time |
| TsRing.RingDrop | FlashDB/src/fdb_tsdb.c:355-364 | giving up the oldest sector removes exactly its logs from the front |
| TsRing.RingOpen | FlashDB/src/fdb_tsdb.c:370-377 | a log in a fresh sector comes last |
| TsRing.RingExtend | FlashDB/src/fdb_tsdb.c:402-420 | a log in the current sector comes last |
| TsRing.SelectExact | FlashDB/src/fdb_tsdb.c:615-693 | the reference filter holds exactly the logs in range, once each and in time order |
| TsDb.TsDatabase.ReadTsl | FlashDB/src/fdb_tsdb.c:112-129 | the log of a written slot; behind the last one unused if erased, else what the bytes decode to |
| TsDb.TsDatabase.SearchStart | FlashDB/src/fdb_tsdb.c:578-604 | forward the first log not before the start; back the last one not behind it, or the slot behind all logs exactly if that one reads as not too late |
| TsDb.TsDatabase.SectorForIter | FlashDB/src/fdb_tsdb.c:651-659 | times and last index of a sector with logs, current or full |
| TsDb.TsDatabase.ForwardSector | FlashDB/src/fdb_tsdb.c:665-684 | the callbacks for one sector of a forward query, and that an exit there is final |
| TsDb.TsDatabase.IterForward | FlashDB/src/fdb_tsdb.c:615-693 | a query with `from <= to` delivers the filtered log sequence, up to where the callback stops it |
| TsDb.TsDatabase.BackwardSector | FlashDB/src/fdb_tsdb.c:665-684 | the callbacks for one sector of a query back in time, including a misread slot |
| TsDb.TsDatabase.IterBackward | FlashDB/src/fdb_tsdb.c:615-693 | the exact outcome of a query with `from > to` |
| TsQuery.FedExact | FlashDB/src/fdb_tsdb.c:592-600 | that outcome is the filtered sequence in reverse if and only if no sector on the way is misread where it matters |
| TsDb.TsDatabase.BackwardExact | FlashDB/src/fdb_tsdb.c:592-600 | the same for a database |
| TsDb.TsDatabase.GapsSuffice | FlashDB/src/fdb_tsdb.c:592-600 | one erased byte between indexes and data of each sector is enough for every query |
| TsQuery.PhantomShows | FlashDB/src/fdb_tsdb.c:592-600 | a misread slot in range always makes the answer differ |
| TsDb.ExactFitMisses | FlashDB/src/fdb_tsdb.c:592-600 | a log appended to an empty database fills its sector: a query back in time misses it if the first byte of its data is `0x7F`, and finds it if it is `0xFF` |
| TsDb.TsDatabase.IterByTime | FlashDB/src/fdb_tsdb.c:615-693 | both directions, and the right answer back in time where nothing is misread |
| TsDb.TsDatabase.QueryCount | FlashDB/src/fdb_tsdb.c:695-729 | the size of the set of logs with the status among those the query delivers |
| TsDb.TsDatabase.CheckSectorHeaders | FlashDB/src/fdb_tsdb.c:768-794 | the headers alone give the current sector unless all are full, the number of empty sectors and the last of them |
| TsDb.TsDatabase.LocateSectors | FlashDB/src/fdb_tsdb.c:957-974 | current and oldest sector are those of the running database, unless all sectors are full |
| TsDb.TsDatabase.Restart | FlashDB/src/fdb_tsdb.c:920-1004 | the current sector is found if and only if the database was not closed for being full; then the RAM copy, the last time and the oldest sector are rebuilt as they were, also for a sector that is full to the last byte |

## Left out

- KvDb.KvDatabase.SetKv: assumes that the name is among `names`, of which none has exactly 64 bytes and none is the beginning of another one with the same 16-bit CRC; other names are where the code itself fails.
- KvDb.KvDatabase.SetKv: with a status byte left alone in some sector, values that end in `0xFF` are excluded; the set itself would still work, but a later one could destroy it.
- KvDb.KvDatabase.SetKv: a collection inside a set may open the last EMPTY sector for a moment, so for the contents of such a run no reserve is promised, only that a boot can make one (`KvGuard.Spare`).
- KvDb.KvDatabase.CreateKvBlob: a name of exactly 64 bytes, and the path that allocates for itself, which only default values take, are not modelled.
- KvDb.KvDatabase.FindKv: a cached name is compared with the bytes of the record's name and value, not with bytes behind the record; these could decide only for a name that another one with the same 16-bit CRC begins, which is excluded.
- KvDb.KvDatabase.FindOldest: the sector table holds zeros, as in static memory, or what the database itself has left in it; other content of an object that nobody has initialized is not covered.
- KvPowerCut.CutAndReboot: nothing is said of reboots from a content that is not `Calm`; what can happen there to a later set is in `KvFreeSpace.BareByteCostsRecord`.
- KvSpace.RoomsEnd: with several places, or with keys that other records keep, too, only the sufficient half is stated; which records then find room depends on the order in which they come.
- KvDb.KvDatabase.Load: the retry loop has no bound in the code; `fuel` bounds it, and `done` says that it ended by itself.
- KvDb.KvDatabase.Load: checks the headers as a database that may be formatted; for the other kind `CheckSectorHeaders` says when the load gives up.
- KvDb.KvDatabase.SettleSectors: giving up a first slot without a header happens in the code whenever a walk reads it; here it is done once, before the walks of a load.
- KvDb.KvDatabase.SetDefault: without default values; automatic updates are not modelled.
- KvCodec.ReadKv: a length that passes the check but points behind the end of the flash is not covered; the code then sums up whatever its buffer held.
- TsDb.TsDatabase.Append: sector sizes and times are unbounded integers; addresses are offsets in a sector.
- TsDb.TsDatabase.Restart: a database cut inside an append is not covered, nor what the code does with the address that it never set.
- TsDb.TsDatabase.IterBackward: the bytes behind a sector are a parameter, since they belong to the next one; where the data of a misread index would lie is not looked at.
- The callback of a query sees the calls so far and decides whether to stop; it does not change the database.
- `fdb_tsl_iter` and `fdb_tsl_iter_reverse` visit all logs with the same loops; `fdb_tsl_set_status` changes one status byte. They would add only easier members.
- The kernel module, the character device, MTD and FAL lookup, file mode, locks, logging and the control commands: plumbing without a hard property.
- Flash driver errors: the code has no recovery for them. A program is atomic here; a half-programmed byte is not modelled.
- Combined sectors, big-endian mode and write granularities other than one bit: unfinished or disabled in the configuration.
- No bound on the number of erases of a sector: collection skips clean sectors, so the code gives none.
