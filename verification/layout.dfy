/** The fixed byte layout of a Crash Team Racing save block inside a memory-card image. */
module Layout {
  import opened Base

  /** Length of the save-icon signature that marks a save block. */
  const SIG_LEN: nat := 0x80
  /** Bytes per save block; the block starts SIG_LEN bytes before its signature. */
  const SAVE_LEN: nat := 0x1800

  const LEADERBOARD_OFFSET: nat := 0x2D0
  const TRACK_COUNT: nat := 18
  const TRACK_DATA_LEN: nat := 0x124
  const LEADERBOARD_LEN: nat := TRACK_DATA_LEN * TRACK_COUNT

  const RECORD_COUNT: nat := 12
  const RECORD_LEN: nat := 0x18

  const PROFILE_OFFSET: nat := 0x19C
  const PROFILE_LEN: nat := 0x50
  const PROFILE_COUNT: nat := 4
  /** Offset, within a profile slot, of the character byte; the value 255 there marks the
      slot unused. */
  const SLOT_CHARACTER: nat := 19
  const UNUSED_SLOT: byte := 255

  /** Offset of the character byte within a record. */
  const RECORD_CHARACTER: nat := 22

  /** The stored checksum occupies bytes 6142 and 6143 of a save block. */
  const CHECKSUM_OFFSET: nat := 6142
  /** The checksum register is fed the 5760 bytes starting at offset 384. */
  const CHECKED_START: nat := 384
  const CHECKED_LEN: nat := 5760

  /** Number of members of the CHARACTER and TRACK enumerations; their codes are 0..15 and 0..17. */
  const CHARACTER_COUNT: nat := 16

  /** A CHARACTER code (Crash = 0 … Oxide = 15). */
  type Character = c: nat | c < CHARACTER_COUNT

  /** A TRACK code (Dingo Canyon = 0 … Turbo Track = 17). */
  type TrackId = t: nat | t < TRACK_COUNT

  /** The save-icon bitmap and title text that every save block carries at its offset SIG_LEN. */
  const SAVE_SIG: seq<byte> := [
    0x53, 0x43, 0x11, 0x01, 0x82, 0x62, 0x82, 0x73, 0x82, 0x71,
    0x81, 0x46, 0x82, 0x72, 0x82, 0x81, 0x82, 0x96, 0x82, 0x85,
    0x82, 0x84, 0x81, 0x40, 0x82, 0x66, 0x82, 0x81, 0x82, 0x8D,
    0x82, 0x85, 0x82, 0x93, 0x81, 0x40, 0x82, 0x81, 0x82, 0x8E,
    0x82, 0x84, 0x81, 0x40, 0x82, 0x72, 0x82, 0x83, 0x82, 0x8F,
    0x82, 0x92, 0x82, 0x85, 0x82, 0x93, 0x81, 0x40, 0x81, 0x40,
    0x81, 0x40, 0x81, 0x40, 0x81, 0x40, 0x81, 0x40, 0x00, 0x00,
    0x00, 0x00, 0x00, 0x00, 0x00, 0x00, 0x00, 0x00, 0x00, 0x00,
    0x00, 0x00, 0x00, 0x00, 0x00, 0x00, 0x00, 0x00, 0x00, 0x00,
    0x00, 0x00, 0x00, 0x00, 0x00, 0x00, 0xA0, 0xFC, 0xB2, 0x84,
    0x6C, 0x88, 0x59, 0x89, 0x22, 0x84, 0xDF, 0xFB, 0xAD, 0xAD,
    0x25, 0x85, 0x9D, 0xCE, 0x18, 0xBE, 0xA0, 0xE8, 0xF1, 0x9C,
    0xF8, 0xE2, 0x61, 0xBC, 0x96, 0xB5, 0x81, 0xC8]

  /** Every byte the decoder reads lies in the block, and all of them except the checksum
      bytes lie below CHECKSUM_OFFSET; the signature is exactly SIG_LEN bytes long. */
  lemma LayoutFits()
    ensures |SAVE_SIG| == SIG_LEN
    ensures PROFILE_OFFSET + PROFILE_COUNT * PROFILE_LEN <= CHECKSUM_OFFSET
    ensures LEADERBOARD_OFFSET + LEADERBOARD_LEN <= CHECKSUM_OFFSET
    ensures RECORD_COUNT * RECORD_LEN <= TRACK_DATA_LEN
    ensures CHECKED_START + CHECKED_LEN == SAVE_LEN == CHECKSUM_OFFSET + 2
  {
  }
}
