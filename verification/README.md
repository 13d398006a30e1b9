# pyCTR save decoder, modelled in Dafny

pyCTR reads a PlayStation memory-card image of Crash Team Racing. It finds every save block on
the card by the 128-byte save-icon signature and decodes each block:

- the stored checksum and a recomputed one, and the validity flag that compares them;
- eighteen track leaderboards, each made of twelve 24-byte records;
- four profile slots.

This project models that decoder over byte sequences and proves what it computes.

| module | file | models |
|---|---|---|
| `Base` | base.dfy | `Result`/`Option`, clamping and Python-style slices |
| `Layout` | layout.dfy | the layout constants, the character and track codes, the signature |
| `Bits` | bits.dfy | Python's `>>`, `&`, `\|` and `^` on non-negative integers; a left shift by one is written as doubling |
| `Crc16` | crc16.dfy | CRC-16/XMODEM, the reference for the checksum |
| `Checksum` | checksum.dfy | `Save.check`, both as a function and statement by statement |
| `Records` | records.dfy | `decode_name`, `CHARACTER(x)`, `Record`, `SaveSlot`, plus encoders for round trips |
| `Ranking` | ranking.dfy | `sorted(..., key=ticks)` as a stable insertion sort |
| `Tracks` | tracks.dfy | `Track.update` |
| `SaveBlock` | saveblock.dfy | `Save.__init__` and `Save.update` |
| `MemoryCard` | memcard.dfy | `CTR.__init__` and `CTR.update`: the signature scan and the list of saves |

Errors become values, and a decoding step that raises in Python returns `Err` here:

- `IndexOutOfRange` stands for Python's `IndexError` on a short buffer;
- `UnknownCharacter(x)` stands for the `ValueError` of `CHARACTER(x)`.

Three facts about the code shape the model:

- **The checksum's inner loop runs eight times per byte.** The counter update
  `d = d + 65535 & 65535` counts 7, 6, …, 0 and then wraps to 65535, which ends the loop after
  eight passes (see `Checksum.CounterStep`). Every byte is therefore fed bit by bit, and the
  result is CRC-16/XMODEM (see `Checksum.CheckIsXmodem`).
- **The stored checksum bytes lie inside the checked window.** They are bytes 6142–6143, inside
  the window 384..6143. The code zeroes them in its private copy before reading them, so they
  always count as zero.
- **A signature fewer than 128 bytes into the card gives a short window.** The code slices
  `memcard[start:end]` with a negative `start`, which Python counts from the end of the card.
  `MemoryCard.Window` models that slice exactly. The window is then always shorter than a
  block, so `Save.check` fails with `IndexError`, which is an `Err` here.

A refresh of the card can run with either of two versions of `Save.update` (the
`MemoryCard.Rule` parameter): `AsWritten`, the code's, which appends the block's slots to the
slots already held, and `Corrected`, which replaces them (see Findings). Opening a card holds
no saves, so the two versions agree there.

## Model

| member | source | states |
|---|---|---|
| Layout.LayoutFits | pyctr.py:6-35 | the signature `SAVE_SIG` is SIG_LEN bytes long; the profile slots and the leaderboards lie below the stored checksum; twelve records fit in a track's data; the checked bytes run from 384 to the end of the 0x1800-byte block. The four slots are `range(4)` at pyctr.py:143, and 384, 5760 and 6142 are the literals of pyctr.py:128 and 161-168 |
| Checksum.CounterStep | pyctr.py:177 | the update `d + 65535 & 65535` takes 7 down to 0 one step at a time and then gives 65535, which ends the inner loop |
| Checksum.PolyIsOr | pyctr.py:164-166 | the divisor built as `65536 \| 4129` is 0x11021 |
| Checksum.PassIsBitStep | pyctr.py:170-176 | one pass of the inner loop shifts the register left, brings in one bit, and subtracts the divisor exactly when bit 16 appears |
| Checksum.FeedByte | pyctr.py:163-177 | the inner loop, written with pyCTR's operators, ends and leaves the register advanced by all eight bits of the byte, most significant first, staying below 2^16 |
| Checksum.OutputBytes | pyctr.py:178-180 | the two bytes `a >> 8` and `a & 255` are the register written high byte first |
| Checksum.CheckLoop | pyctr.py:158-180 | the whole routine fails (IndexError) exactly when the buffer is shorter than a block; otherwise it returns the checksum of the block |
| Checksum.CheckIsXmodem | pyctr.py:158-180 | the checksum is CRC-16/XMODEM of bytes 384 to 6141, written big-endian: the two zeroed stored bytes add nothing |
| Checksum.CheckDetectsByteChange | pyctr.py:161-177 | two blocks that differ in one byte between 384 and 6141 have different checksums |
| Checksum.CheckReadsCheckedBytes | pyctr.py:159-168 | blocks that agree on bytes 384 to 6141 have the same checksum, whatever their stored checksum bytes and every other byte |
| Records.DecodeName | pyctr.py:182-184 | the decoded name has no NUL, is no longer than the input, and keeps every other byte value exactly as often as the input has it |
| Records.DecodeNameAppend | pyctr.py:182-184 | removing NULs distributes over concatenation, so the other bytes keep their order |
| Records.DecodeNameFixed | pyctr.py:182-184 | a name decodes to itself if and only if it holds no NUL |
| Records.LittleEndianOfBytes | pyctr.py:262 | reading back k little-endian bytes written from n gives n, for n below 256^k |
| Records.BytesOfLittleEndian | pyctr.py:262 | writing out the value of k bytes as k little-endian bytes gives the same bytes |
| Records.DecodeCharacter | pyctr.py:40-58 | a code names a character if and only if it is below 16; any other code is reported as an unknown character carrying that code |
| Records.DecodeRecord | pyctr.py:260-265 | a record decodes exactly when its byte 22 exists and is a character code; a buffer without byte 22 raises IndexError; the ticks are the little-endian bytes 0–3 (below 2^32), the name is bytes 4–11 without NULs, and the character is byte 22 |
| Records.DecodeEncodeRecord | pyctr.py:260-265 | for any storable record, encoding it as 24 bytes and decoding them gives it back |
| Records.DecodeSaveSlot | pyctr.py:207-210 | a slot decodes exactly when its byte 19 exists and is a character code; the name is bytes 0–7 without NULs, and the character is byte 19 |
| Records.DecodeEncodeSaveSlot | pyctr.py:207-210 | for any name of at most eight bytes without NULs, encoding a slot as 80 bytes and decoding them gives it back |
| Ranking.InsertSorted | pyctr.py:235 | inserting into a list sorted by ticks keeps it sorted |
| Ranking.SortByTicksSpec | pyctr.py:235-238 | the sort orders by ticks, is a permutation of its input, and keeps records with equal ticks in their input order, as Python's stable `sorted` does |
| Tracks.DecodeRecords | pyctr.py:227-232 | the twelve records decode exactly when each does; the result holds each record at its index; on failure, the error is that of the first record that fails |
| Tracks.DecodeTrack | pyctr.py:226-241 | a track decodes exactly when all twelve records do; the best laps are records 0 and 6, and each table has five entries |
| Tracks.DecodeTrackTables | pyctr.py:234-241 | the time-trial table is records 1–5, and the relic table is records 7–11, each sorted stably by ticks: same records, increasing time, ties in stored order |
| SaveBlock.DecodeTracksSpec | pyctr.py:132-141 | the tracks decode exactly when each track's 0x124-byte window at 0x2D0 + i * 0x124 decodes; each track holds its own window's decoding; on failure, the error is that of the first failing track |
| SaveBlock.TrackMap | pyctr.py:132-141 | the track map has exactly one entry for each of the eighteen track codes, and entry i is the i-th decoded track |
| SaveBlock.SlotAt | pyctr.py:143-149 | a slot whose byte 19 is 255 is unused (absent); otherwise the slot is decoded from its 80-byte window at 0x19C + i * 0x50 |
| SaveBlock.DecodeSlots | pyctr.py:143-150 | the four slots decode exactly when each does, each from its own window, and the first failure is reported |
| SaveBlock.Decode | pyctr.py:126-152 | a block decodes exactly when it is a full block and every track and slot decodes; the stored checksum is bytes 6142–6143 and the recomputed one is CRC-16/XMODEM of bytes 384–6141; all eighteen tracks are present, and there are four slots, each from its own window |
| SaveBlock.DecodeFirstError | pyctr.py:132-150 | a full block that fails to decode reports the error of its first failing track, or, when every track decodes, of its first failing slot |
| SaveBlock.UpdateAppendingSlots | pyctr.py:126-152 | as written: the update succeeds exactly when the block decodes; the save then holds the block's stored and recomputed checksums, is valid exactly when they are equal, holds the block's tracks, and the four new slots come after every slot the save already held |
| SaveBlock.Update | pyctr.py:126-152 | corrected: the update succeeds exactly when the block decodes; the save then holds the block's stored checksum (bytes 6142–6143), its recomputed checksum, its tracks and exactly its four slots; it is valid if and only if bytes 6142–6143 are CRC-16/XMODEM of bytes 384–6141, high byte first |
| SaveBlock.New | pyctr.py:121-124 | a new save is a blank one updated once; here the as-written and the corrected update agree |
| SaveBlock.AppendingDiffersOnlyInSlots | pyctr.py:127-152 | the as-written and corrected updates agree on everything but the slots, where the as-written one keeps the old slots in front |
| SaveBlock.SecondUpdateDoublesSlots | pyctr.py:121-152 | as written, a save created from a block and then updated from the same block has eight slots: the block's four, twice |
| SaveBlock.UpdateIgnoresState | pyctr.py:126-152 | corrected: the update's result does not depend on the save it starts from |
| SaveBlock.UpdateIdempotent | pyctr.py:126-152 | corrected: updating twice from the same block is the same as updating once |
| SaveBlock.DecodeReadsBelowChecksum | pyctr.py:126-152 | two full blocks that agree below offset 6142 decode to the same tracks and slots, and either both decode or neither does |
| SaveBlock.SealedIsValid | pyctr.py:128-130 | a block whose bytes 6142–6143 are overwritten with its own checksum updates to a valid save with unchanged tracks and slots |
| SaveBlock.CorruptionMakesInvalid | pyctr.py:128-130 | changing one byte between 384 and 6141 of a valid block gives a block that, if it decodes, is invalid |
| MemoryCard.Find | pyctr.py:95 | `find` returns the first position at or after `from` where the whole signature lies, and returns nothing when there is no such position |
| MemoryCard.MatchesFromSound | pyctr.py:95-108 | every position the scan visits holds the signature |
| MemoryCard.MatchesFromComplete | pyctr.py:95-108 | every position at or after the start of the scan that holds the signature is visited, overlapping ones included, because the search resumes one byte after a match |
| MemoryCard.MatchesFromIncreasing | pyctr.py:95-108 | the visited positions strictly increase, and none lies before the start of the scan |
| MemoryCard.MatchesSpec | pyctr.py:95-108 | a position is visited if and only if the signature lies there, and the positions are visited in increasing order |
| MemoryCard.Window | pyctr.py:98-100 | for a signature at 128 or later, the window is the 0x1800 bytes from 128 bytes before it, cut short at the end of the card; for an earlier signature, the negative start makes the window shorter than a block |
| MemoryCard.WindowHoldsSignature | pyctr.py:98-100 | a full window around a signature holds the signature at offsets 128 to 255 |
| MemoryCard.ScannedShape | pyctr.py:101-108 | after a successful scan the list is as long as the longer of the old list and the list of matches; entry k is the block at the k-th match; older entries past the matches are kept |
| MemoryCard.ScannedOk | pyctr.py:101-108 | the scan succeeds if and only if every visited block decodes |
| MemoryCard.ScannedFirstError | pyctr.py:101-108 | a failing scan reports the error of the first visited block that fails to decode |
| MemoryCard.Scan | pyctr.py:90-110 | the loop of `CTR.update`, with its own `find`/resume control flow, computes the rescan of the card; with the `AsWritten` rule this is the program's own loop, `Save.update` appending slots |
| MemoryCard.RescanNeverDrops | pyctr.py:101-108 | a rescan never shortens the list of saves, and it keeps the saves beyond the last match unchanged |
| MemoryCard.OpenReadsEachBlock | pyctr.py:85-110 | opening a card succeeds exactly when every block found decodes; it yields one save per signature, in card order, each a new save of its window |
| MemoryCard.RescanAppendsSlots | pyctr.py:90-110 | as written: after a successful rescan, held save k holds its old slots followed by the four slots of the k-th block found |
| MemoryCard.RefreshedTwiceDoublesSlots | pyctr.py:85-150 | as written: a card opened and then refreshed holds, in every save, the four slots of its block twice over |
| MemoryCard.RescanIsOpen | pyctr.py:90-110 | corrected: a rescan succeeds exactly when opening the card afresh does; it yields the freshly opened saves followed by the stale saves beyond them |
| MemoryCard.RescanIdempotent | pyctr.py:90-110 | corrected: rescanning the same card twice is the same as rescanning it once |
| MemoryCard.OpenedBlocksLieInside | pyctr.py:95-100 | if a card opens, every signature on it has a whole block around it: at least 128 bytes before it and the full 0x1800 bytes inside the card |

## Left out

- Reading the card file (`open`/`read`): the card's bytes are a parameter of `Scan`, `Rescan` and `Open`.
- UTF-8 decoding in `decode_name`: names stay byte sequences with NULs removed, so a name that is not valid UTF-8 is not reported as an error.
- `RecordTime`, `to_ms`, `ctr_format` and `TICK`: these are floating-point display code. Records keep the raw tick count.
- The enum names of `CHARACTER` and `TRACK`: characters and tracks are their integer codes.
- Partial state when Python raises in the middle of an update: the model returns `Err` and no save.
- `__getitem__`, the read-only properties, and the list/tuple conversions: these do not affect the values.
- Identity of the `Track` objects that `Save.update` updates in place, and of the `Save` objects in `CTR._saves` that `CTR.update` updates in place: the model compares by value and puts a refreshed save in place of the held one (`MemoryCard.Place`). Every track is rewritten on each update either way.
- SaveBlock.Update: replaces the slots, whereas the code appends them (see Findings). `SaveBlock.UpdateAppendingSlots` models the code as written.
- SaveBlock.UpdateIdempotent: holds for the corrected update only; as written, a second update doubles the slots (`SaveBlock.SecondUpdateDoublesSlots`).
- SaveBlock.UpdateIgnoresState: holds for the corrected update only; as written, the slots held come first in the result.
- MemoryCard.RescanIsOpen: holds for the `Corrected` rule only; as written, each refreshed save keeps its old slots in front (`MemoryCard.RescanAppendsSlots`).
- MemoryCard.RescanIdempotent: holds for the `Corrected` rule only; as written, every rescan adds four more slots to each save it refreshes (`MemoryCard.RefreshedTwiceDoublesSlots`).

## Findings

| source | as written | input that shows it | evidently intended | confidence | as-written member | corrected member |
|---|---|---|---|---|---|---|
| pyctr.py:127-150 | `Save.update` starts from the slots it already holds and appends four more, so a refresh of the card (`CTR.update`, which updates existing saves) leaves every save with 8, 12, … slots | a card with one decodable block, opened and then refreshed once: the save reports eight slots, the block's four twice | each update replaces the slots with the block's four, the way `Save.__init__` leaves them (`save_slots` always has four entries) | not executed | MemoryCard.RefreshedTwiceDoublesSlots | MemoryCard.RescanIdempotent |
