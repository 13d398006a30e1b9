/** `Save.update`: one save block decoded into its stored and recomputed checksums, the
    validity flag, the eighteen track leaderboards and the four profile slots. */
module SaveBlock {
  import opened Base
  import opened Layout
  import opened Checksum
  import opened Crc16
  import opened Records
  import opened Tracks

  datatype Save = Save(
    checksum: seq<byte>,
    calcChecksum: seq<byte>,
    valid: bool,
    tracks: map<TrackId, Track>,
    saveSlots: seq<Option<SaveSlot>>)

  /** The state `Save.__init__` starts from: no tracks, no slots. The checksum fields are
      set by the first update. */
  const Blank := Save([], [], false, map[], [])

  /** `save_data[start:end]` for track `i`. */
  function TrackWindow(data: seq<byte>, i: nat): (r: seq<byte>) {
    Slice(data, LEADERBOARD_OFFSET + i * TRACK_DATA_LEN, LEADERBOARD_OFFSET + (i + 1) * TRACK_DATA_LEN)
  }

  function TrackAt(data: seq<byte>, i: nat): (r: Result<Track>) {
    DecodeTrack(TrackWindow(data, i))
  }

  /** Tracks 0 to n - 1 in order, stopping at the first that fails. */
  function DecodeTracks(data: seq<byte>, n: nat): (r: Result<seq<Track>>) {
    if n == 0 then Ok([])
    else
      var init :- DecodeTracks(data, n - 1);
      var last :- TrackAt(data, n - 1);
      Ok(init + [last])
  }

  /** The tracks decode exactly when each does; the result lists them in order, and a failure
      is that of the first track that fails. */
  lemma {:induction false} DecodeTracksSpec(data: seq<byte>, n: nat)
    ensures DecodeTracks(data, n).Ok? <==> forall i | 0 <= i < n :: TrackAt(data, i).Ok?
    ensures DecodeTracks(data, n).Ok? ==> |DecodeTracks(data, n).value| == n
    ensures DecodeTracks(data, n).Ok? ==>
      forall i | 0 <= i < n :: TrackAt(data, i) == Ok(DecodeTracks(data, n).value[i])
    ensures DecodeTracks(data, n).Err? ==> exists i | 0 <= i < n ::
      TrackAt(data, i) == Err(DecodeTracks(data, n).error)
      && forall j | 0 <= j < i :: TrackAt(data, j).Ok?
  {
    hide TrackAt;
    if n > 0 {
      DecodeTracksSpec(data, n - 1);
    }
  }

  /** The track table keyed by TRACK code. */
  function TrackMap(tracks: seq<Track>): (m: map<TrackId, Track>)
    requires |tracks| == TRACK_COUNT
    ensures forall i: TrackId :: i in m && m[i] == tracks[i]
  {
    map i: TrackId | true :: tracks[i]
  }

  /** Offset of profile slot `i` in the block. */
  function SlotStart(i: nat): (r: nat) {
    PROFILE_OFFSET + i * PROFILE_LEN
  }

  /** Profile slot `i`: unused (None) when its byte 19 is 255, otherwise decoded. */
  function SlotAt(data: seq<byte>, i: nat): (r: Result<Option<SaveSlot>>)
    ensures SlotStart(i) + SLOT_CHARACTER >= |data| ==> r == Err(IndexOutOfRange)
    ensures SlotStart(i) + SLOT_CHARACTER < |data| && data[SlotStart(i) + SLOT_CHARACTER] == UNUSED_SLOT
      ==> r == Ok(None)
    ensures SlotStart(i) + SLOT_CHARACTER < |data| && data[SlotStart(i) + SLOT_CHARACTER] != UNUSED_SLOT
      ==> var d := DecodeSaveSlot(Slice(data, SlotStart(i), SlotStart(i) + PROFILE_LEN));
        (r.Ok? <==> d.Ok?) && (r.Ok? ==> r.value == Some(d.value))
  {
    var start := SlotStart(i);
    if start + SLOT_CHARACTER >= |data| then Err(IndexOutOfRange)
    else if data[start + SLOT_CHARACTER] != UNUSED_SLOT then
      var slot :- DecodeSaveSlot(Slice(data, start, start + PROFILE_LEN));
      Ok(Some(slot))
    else Ok(None)
  }

  /** Slots 0 to n - 1 in order, stopping at the first that fails. */
  function DecodeSlots(data: seq<byte>, n: nat): (r: Result<seq<Option<SaveSlot>>>)
    ensures r.Ok? <==> forall i | 0 <= i < n :: SlotAt(data, i).Ok?
    ensures r.Ok? ==> |r.value| == n
    ensures r.Ok? ==> forall i | 0 <= i < n :: SlotAt(data, i) == Ok(r.value[i])
    ensures r.Err? ==> exists i | 0 <= i < n ::
      SlotAt(data, i) == Err(r.error) && forall j | 0 <= j < i :: SlotAt(data, j).Ok?
  {
    if n == 0 then Ok([])
    else
      var init :- DecodeSlots(data, n - 1);
      var last :- SlotAt(data, n - 1);
      Ok(init + [last])
  }

  /** Everything `Save.update` computes from the block, in the program's order: the checksum
      (whose IndexError on a short block comes first), then the tracks, then the slots. */
  datatype Decoded = Decoded(
    checksum: seq<byte>, calcChecksum: seq<byte>,
    tracks: map<TrackId, Track>, slots: seq<Option<SaveSlot>>)

  /** A block decodes exactly when it is a full block and every track and every slot decodes.
      The stored checksum is bytes 6142-6143, the recomputed one is the CRC of bytes 384-6141,
      and each track and slot is read from its own window. */
  function Decode(data: seq<byte>): (r: Result<Decoded>)
    ensures r.Ok? <==> (|data| >= SAVE_LEN
      && (forall i | 0 <= i < TRACK_COUNT :: TrackAt(data, i).Ok?)
      && (forall i | 0 <= i < PROFILE_COUNT :: SlotAt(data, i).Ok?))
    ensures |data| < SAVE_LEN ==> r == Err(IndexOutOfRange)
    ensures r.Ok? ==> r.value.checksum == data[CHECKSUM_OFFSET..SAVE_LEN]
    ensures r.Ok? ==> r.value.calcChecksum == BigEndian(Xmodem(data[CHECKED_START..CHECKSUM_OFFSET]))
    ensures r.Ok? ==> forall i: TrackId :: i in r.value.tracks && TrackAt(data, i) == Ok(r.value.tracks[i])
    ensures r.Ok? ==> |r.value.slots| == PROFILE_COUNT
    ensures r.Ok? ==> forall i | 0 <= i < PROFILE_COUNT :: SlotAt(data, i) == Ok(r.value.slots[i])
  {
    if |data| < SAVE_LEN then Err(IndexOutOfRange)
    else
      DecodeTracksSpec(data, TRACK_COUNT);
      var tracks :- DecodeTracks(data, TRACK_COUNT);
      var slots :- DecodeSlots(data, PROFILE_COUNT);
      CheckIsXmodem(data);
      Ok(Decoded(Slice(data, CHECKSUM_OFFSET, SAVE_LEN), Check(data), TrackMap(tracks), slots))
  }

  /** A full block that fails to decode fails with the error of its first failing track or,
      when every track decodes, of its first failing slot: the tracks are read first. */
  lemma DecodeFirstError(data: seq<byte>)
    requires |data| >= SAVE_LEN && Decode(data).Err?
    ensures Decode(data).error == if DecodeTracks(data, TRACK_COUNT).Err?
      then DecodeTracks(data, TRACK_COUNT).error else DecodeSlots(data, PROFILE_COUNT).error
    ensures (exists i | 0 <= i < TRACK_COUNT ::
        TrackAt(data, i) == Err(Decode(data).error) && forall j | 0 <= j < i :: TrackAt(data, j).Ok?)
      || ((forall i | 0 <= i < TRACK_COUNT :: TrackAt(data, i).Ok?)
        && exists i | 0 <= i < PROFILE_COUNT ::
          SlotAt(data, i) == Err(Decode(data).error) && forall j | 0 <= j < i :: SlotAt(data, j).Ok?)
  {
    DecodeTracksSpec(data, TRACK_COUNT);
  }

  /** `Save.update` as written: the four slots read are appended to the slots already held,
      so every update lengthens the slot sequence by four. */
  function UpdateAppendingSlots(s: Save, data: seq<byte>): (r: Result<Save>)
    ensures r.Ok? <==> Decode(data).Ok?
    ensures r.Ok? ==> |r.value.saveSlots| == |s.saveSlots| + PROFILE_COUNT
    ensures r.Ok? ==> r.value.saveSlots[..|s.saveSlots|] == s.saveSlots
    ensures r.Ok? ==> r.value.saveSlots[|s.saveSlots|..] == Decode(data).value.slots
    ensures r.Ok? ==> r.value.tracks == Decode(data).value.tracks
    ensures r.Ok? ==> r.value.checksum == Decode(data).value.checksum
    ensures r.Ok? ==> r.value.calcChecksum == Decode(data).value.calcChecksum
    ensures r.Ok? ==> (r.value.valid <==> r.value.checksum == r.value.calcChecksum)
  {
    var d :- Decode(data);
    TracksReplaced(s.tracks, d.tracks);
    Ok(Save(d.checksum, d.calcChecksum, d.checksum == d.calcChecksum, s.tracks + d.tracks,
            s.saveSlots + d.slots))
  }

  /** `Save.update` with the slots replaced rather than appended, as `Save.__init__` leaves
      them: the save then reflects the block alone. It is valid exactly when the stored bytes
      6142-6143 are the CRC of bytes 384-6141, high byte first. */
  function Update(s: Save, data: seq<byte>): (r: Result<Save>)
    ensures r.Ok? <==> Decode(data).Ok?
    ensures r.Ok? ==> r.value.saveSlots == Decode(data).value.slots
    ensures r.Ok? ==> r.value.tracks == Decode(data).value.tracks
    ensures r.Ok? ==> r.value.checksum == Decode(data).value.checksum
    ensures r.Ok? ==> r.value.calcChecksum == Decode(data).value.calcChecksum
    ensures r.Ok? ==> (r.value.valid <==> r.value.checksum == r.value.calcChecksum)
    ensures r.Ok? ==> (r.value.valid <==>
      data[CHECKSUM_OFFSET..SAVE_LEN] == BigEndian(Xmodem(data[CHECKED_START..CHECKSUM_OFFSET])))
  {
    var d :- Decode(data);
    TracksReplaced(s.tracks, d.tracks);
    Ok(Save(d.checksum, d.calcChecksum, d.checksum == d.calcChecksum, s.tracks + d.tracks,
            d.slots))
  }

  /** Every track of a decoded block is updated, so the tracks held before are all overwritten. */
  lemma TracksReplaced(held: map<TrackId, Track>, read: map<TrackId, Track>)
    requires forall i: TrackId :: i in read
    ensures held + read == read
  {
    assert (held + read).Keys == read.Keys;
  }

  /** `Save(save_data)`: a blank save updated once. Both versions of the update agree here. */
  function New(data: seq<byte>): (r: Result<Save>)
    ensures r == UpdateAppendingSlots(Blank, data)
  {
    Update(Blank, data)
  }

  /** The two versions of the update differ only in the slots: the as-written one keeps the
      slots held before in front of the block's four. */
  lemma AppendingDiffersOnlyInSlots(s: Save, data: seq<byte>)
    requires Update(s, data).Ok?
    ensures UpdateAppendingSlots(s, data)
      == Ok(Update(s, data).value.(saveSlots := s.saveSlots + Update(s, data).value.saveSlots))
  {
  }

  /** The as-written update, repeated on the same block, doubles the slots: a save created
      from a block and refreshed from it once reports eight profile slots, the four of the
      block twice over. */
  lemma SecondUpdateDoublesSlots(data: seq<byte>)
    requires New(data).Ok?
    ensures UpdateAppendingSlots(New(data).value, data).Ok?
    ensures |UpdateAppendingSlots(New(data).value, data).value.saveSlots| == 2 * PROFILE_COUNT
    ensures UpdateAppendingSlots(New(data).value, data).value.saveSlots
      == Decode(data).value.slots + Decode(data).value.slots
  {
  }

  /** The corrected update forgets the save it starts from: the result depends on the block
      alone. */
  lemma UpdateIgnoresState(s1: Save, s2: Save, data: seq<byte>)
    ensures Update(s1, data) == Update(s2, data)
  {
  }

  /** Refreshing a save from the block it was read from changes nothing. */
  lemma UpdateIdempotent(s: Save, data: seq<byte>)
    requires Update(s, data).Ok?
    ensures Update(Update(s, data).value, data) == Update(s, data)
  {
    UpdateIgnoresState(Update(s, data).value, s, data);
  }

  /** A track or slot window lies in front of the stored checksum, so blocks that agree there
      decode it alike. */
  lemma TrackAtBelowChecksum(d1: seq<byte>, d2: seq<byte>, i: nat)
    requires |d1| >= SAVE_LEN && |d2| >= SAVE_LEN && d1[..CHECKSUM_OFFSET] == d2[..CHECKSUM_OFFSET]
    requires i < TRACK_COUNT
    ensures TrackAt(d1, i) == TrackAt(d2, i)
  {
    var lo, hi := LEADERBOARD_OFFSET + i * TRACK_DATA_LEN, LEADERBOARD_OFFSET + (i + 1) * TRACK_DATA_LEN;
    LayoutFits();
    SliceInside(d1, lo, hi);
    SliceInside(d2, lo, hi);
    assert d1[lo..hi] == d1[..CHECKSUM_OFFSET][lo..hi];
    assert d2[lo..hi] == d2[..CHECKSUM_OFFSET][lo..hi];
    assert TrackWindow(d1, i) == TrackWindow(d2, i);
    hide DecodeTrack;
  }

  lemma SlotAtBelowChecksum(d1: seq<byte>, d2: seq<byte>, i: nat)
    requires |d1| >= SAVE_LEN && |d2| >= SAVE_LEN && d1[..CHECKSUM_OFFSET] == d2[..CHECKSUM_OFFSET]
    requires i < PROFILE_COUNT
    ensures SlotAt(d1, i) == SlotAt(d2, i)
  {
    var lo, hi := SlotStart(i), SlotStart(i) + PROFILE_LEN;
    LayoutFits();
    SliceInside(d1, lo, hi);
    SliceInside(d2, lo, hi);
    assert d1[lo..hi] == d1[..CHECKSUM_OFFSET][lo..hi];
    assert d2[lo..hi] == d2[..CHECKSUM_OFFSET][lo..hi];
    assert d1[lo + SLOT_CHARACTER] == d1[..CHECKSUM_OFFSET][lo + SLOT_CHARACTER];
    assert d2[lo + SLOT_CHARACTER] == d2[..CHECKSUM_OFFSET][lo + SLOT_CHARACTER];
    assert Slice(d1, lo, hi) == Slice(d2, lo, hi);
    hide DecodeSaveSlot;
  }

  /** The decoder reads nothing from the stored checksum onwards except the checksum itself:
      two full blocks that agree on their first 6142 bytes decode to the same tracks, slots and
      recomputed checksum, or both fail. */
  lemma DecodeReadsBelowChecksum(d1: seq<byte>, d2: seq<byte>)
    requires |d1| >= SAVE_LEN && |d2| >= SAVE_LEN && d1[..CHECKSUM_OFFSET] == d2[..CHECKSUM_OFFSET]
    ensures Decode(d1).Ok? <==> Decode(d2).Ok?
    ensures Decode(d1).Ok? ==> Decode(d1).value.tracks == Decode(d2).value.tracks
    ensures Decode(d1).Ok? ==> Decode(d1).value.slots == Decode(d2).value.slots
    ensures Decode(d1).Ok? ==> Decode(d1).value.calcChecksum == Decode(d2).value.calcChecksum
  {
    DecodesBelowChecksum(d1, d2);
    TracksBelowChecksum(d1, d2);
    SlotsBelowChecksum(d1, d2);
    assert d1[CHECKED_START..CHECKSUM_OFFSET] == d2[CHECKED_START..CHECKSUM_OFFSET] by {
      assert d1[CHECKED_START..CHECKSUM_OFFSET] == d1[..CHECKSUM_OFFSET][CHECKED_START..];
      assert d2[CHECKED_START..CHECKSUM_OFFSET] == d2[..CHECKSUM_OFFSET][CHECKED_START..];
    }
    hide *;
    if Decode(d1).Ok? {
      SameTracks(d1, d2, Decode(d1).value.tracks, Decode(d2).value.tracks);
      SameSlots(d1, d2, Decode(d1).value.slots, Decode(d2).value.slots);
    }
  }

  lemma SameTracks(d1: seq<byte>, d2: seq<byte>, m1: map<TrackId, Track>, m2: map<TrackId, Track>)
    requires forall i | 0 <= i < TRACK_COUNT :: TrackAt(d1, i) == TrackAt(d2, i)
    requires forall i: TrackId :: i in m1 && TrackAt(d1, i) == Ok(m1[i])
    requires forall i: TrackId :: i in m2 && TrackAt(d2, i) == Ok(m2[i])
    ensures m1 == m2
  {
    hide *;
    assert m1.Keys == m2.Keys;
  }

  lemma SameSlots(d1: seq<byte>, d2: seq<byte>, u1: seq<Option<SaveSlot>>, u2: seq<Option<SaveSlot>>)
    requires forall i | 0 <= i < PROFILE_COUNT :: SlotAt(d1, i) == SlotAt(d2, i)
    requires |u1| == |u2| == PROFILE_COUNT
    requires forall i | 0 <= i < PROFILE_COUNT :: SlotAt(d1, i) == Ok(u1[i])
    requires forall i | 0 <= i < PROFILE_COUNT :: SlotAt(d2, i) == Ok(u2[i])
    ensures u1 == u2
  {
    hide *;
    assert forall i | 0 <= i < |u1| :: u1[i] == u2[i];
  }

  lemma DecodesBelowChecksum(d1: seq<byte>, d2: seq<byte>)
    requires |d1| >= SAVE_LEN && |d2| >= SAVE_LEN && d1[..CHECKSUM_OFFSET] == d2[..CHECKSUM_OFFSET]
    ensures Decode(d1).Ok? <==> Decode(d2).Ok?
  {
    TracksBelowChecksum(d1, d2);
    SlotsBelowChecksum(d1, d2);
    hide *;
  }

  lemma TracksBelowChecksum(d1: seq<byte>, d2: seq<byte>)
    requires |d1| >= SAVE_LEN && |d2| >= SAVE_LEN && d1[..CHECKSUM_OFFSET] == d2[..CHECKSUM_OFFSET]
    ensures forall i | 0 <= i < TRACK_COUNT :: TrackAt(d1, i) == TrackAt(d2, i)
  {
    hide *;
    forall i | 0 <= i < TRACK_COUNT {
      TrackAtBelowChecksum(d1, d2, i);
    }
  }

  lemma SlotsBelowChecksum(d1: seq<byte>, d2: seq<byte>)
    requires |d1| >= SAVE_LEN && |d2| >= SAVE_LEN && d1[..CHECKSUM_OFFSET] == d2[..CHECKSUM_OFFSET]
    ensures forall i | 0 <= i < PROFILE_COUNT :: SlotAt(d1, i) == SlotAt(d2, i)
  {
    hide *;
    forall i | 0 <= i < PROFILE_COUNT {
      SlotAtBelowChecksum(d1, d2, i);
    }
  }

  /** A block with its checksum written in: bytes 6142-6143 replaced by the CRC of the bytes
      in front of them. */
  function Seal(data: seq<byte>): (r: seq<byte>)
    requires |data| >= SAVE_LEN
    ensures |r| == |data|
    ensures r[..CHECKSUM_OFFSET] == data[..CHECKSUM_OFFSET] && r[SAVE_LEN..] == data[SAVE_LEN..]
  {
    data[..CHECKSUM_OFFSET] + Check(data) + data[SAVE_LEN..]
  }

  /** A sealed block that decodes is valid, and sealing changes nothing else the save holds. */
  lemma SealedIsValid(s: Save, data: seq<byte>)
    requires |data| >= SAVE_LEN && Decode(data).Ok?
    ensures Update(s, Seal(data)).Ok? && Update(s, Seal(data)).value.valid
    ensures Update(s, Seal(data)).value.tracks == Update(s, data).value.tracks
    ensures Update(s, Seal(data)).value.saveSlots == Update(s, data).value.saveSlots
  {
    var sealed := Seal(data);
    DecodeReadsBelowChecksum(data, sealed);
    CheckIsXmodem(data);
    assert sealed[CHECKSUM_OFFSET..SAVE_LEN] == Check(data);
  }

  /** On a valid block, changing any one byte the checksum covers leaves a block that is either
      rejected or flagged invalid. */
  lemma CorruptionMakesInvalid(s: Save, data: seq<byte>, p: nat, y: byte)
    requires Update(s, data).Ok? && Update(s, data).value.valid
    requires CHECKED_START <= p < CHECKSUM_OFFSET && y != data[p]
    ensures Update(s, data[p := y]).Ok? ==> !Update(s, data[p := y]).value.valid
  {
    CheckIsXmodem(data);
    CheckIsXmodem(data[p := y]);
    SealBroken(data, p, y);
  }

  /** A block whose stored checksum matches no longer matches once a covered byte changes. */
  lemma SealBroken(data: seq<byte>, p: nat, y: byte)
    requires |data| >= SAVE_LEN && data[CHECKSUM_OFFSET..SAVE_LEN] == Check(data)
    requires CHECKED_START <= p < CHECKSUM_OFFSET && y != data[p]
    ensures data[p := y][CHECKSUM_OFFSET..SAVE_LEN] != Check(data[p := y])
  {
    var bad := data[p := y];
    CheckDetectsByteChange(data, bad, p);
    assert bad[CHECKSUM_OFFSET..SAVE_LEN] == data[CHECKSUM_OFFSET..SAVE_LEN];
  }
}
