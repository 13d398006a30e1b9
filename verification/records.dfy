/** The fields the program decodes from a save block: little-endian tick counts, NUL-padded
    names, character codes, and the two record shapes built from them (`Record` and
    `SaveSlot`). Names are kept as bytes; the program's UTF-8 decoding is not modelled. */
module Records {
  import opened Base
  import opened Layout

  /** `Save.decode_name`: the name bytes with every NUL removed, wherever it occurs. */
  function DecodeName(s: seq<byte>): (r: seq<byte>)
    ensures 0 !in r
    ensures |r| <= |s|
    ensures forall b | b != 0 :: multiset(r)[b] == multiset(s)[b]
  {
    if s == [] then []
    else
      var rest := DecodeName(s[1..]);
      assert s == [s[0]] + s[1..];
      if s[0] == 0 then rest else [s[0]] + rest
  }

  /** Removing NULs commutes with concatenation, so it keeps the order of the other bytes. */
  lemma {:induction false} DecodeNameAppend(s: seq<byte>, t: seq<byte>)
    ensures DecodeName(s + t) == DecodeName(s) + DecodeName(t)
  {
    if s != [] {
      assert (s + t)[1..] == s[1..] + t;
      DecodeNameAppend(s[1..], t);
    } else {
      assert s + t == t;
    }
  }

  /** A name without NULs decodes to itself, and only such a name does. */
  lemma {:induction false} DecodeNameFixed(s: seq<byte>)
    ensures DecodeName(s) == s <==> 0 !in s
  {
    if s != [] {
      DecodeNameFixed(s[1..]);
    }
  }

  /** `int.from_bytes(bs, byteorder='little')`: the first byte is the least significant. */
  function LittleEndian(bs: seq<byte>): (n: nat)
  {
    if bs == [] then 0 else bs[0] + 256 * LittleEndian(bs[1..])
  }

  function Pow256(k: nat): (r: nat)
    ensures r >= 1
  {
    if k == 0 then 1 else 256 * Pow256(k - 1)
  }

  /** The k bytes of n, least significant first: the inverse of LittleEndian. */
  function ToLittleEndian(n: nat, k: nat): (bs: seq<byte>)
    ensures |bs| == k
  {
    if k == 0 then [] else [n % 256] + ToLittleEndian(n / 256, k - 1)
  }

  /** k bytes encode exactly the numbers below 256^k. */
  lemma {:induction false} LittleEndianBound(bs: seq<byte>)
    ensures LittleEndian(bs) < Pow256(|bs|)
  {
    if bs != [] {
      LittleEndianBound(bs[1..]);
    }
  }

  /** Decoding the bytes of a number gives the number back. */
  lemma {:induction false} LittleEndianOfBytes(n: nat, k: nat)
    requires n < Pow256(k)
    ensures LittleEndian(ToLittleEndian(n, k)) == n
  {
    if k > 0 {
      LittleEndianOfBytes(n / 256, k - 1);
      assert ToLittleEndian(n, k)[1..] == ToLittleEndian(n / 256, k - 1);
    }
  }

  /** Encoding a decoded number gives the bytes back. */
  lemma {:induction false} BytesOfLittleEndian(bs: seq<byte>)
    ensures ToLittleEndian(LittleEndian(bs), |bs|) == bs
  {
    if bs != [] {
      BytesOfLittleEndian(bs[1..]);
      var n := LittleEndian(bs);
      assert n % 256 == bs[0] && n / 256 == LittleEndian(bs[1..]);
    }
  }

  /** `CHARACTER(x)`: a code names a character exactly when it is below 16; any other value
      raises ValueError. */
  function DecodeCharacter(x: byte): (r: Result<Character>)
    ensures r.Ok? <==> x < CHARACTER_COUNT
    ensures r.Ok? ==> r.value == x
    ensures r.Err? ==> r.error == UnknownCharacter(x)
  {
    if x < CHARACTER_COUNT then Ok(x) else Err(UnknownCharacter(x))
  }

  /** One leaderboard entry: the time in ticks, the driver's name and character. */
  datatype Record = Record(ticks: nat, name: seq<byte>, character: Character)

  /** `Record(record_data)`: ticks from bytes 0–3, the name from bytes 4–11, the character
      from byte 22. Slices past the end are short, as in Python, but byte 22 must exist. */
  function DecodeRecord(data: seq<byte>): (r: Result<Record>)
    ensures r.Ok? <==> |data| > RECORD_CHARACTER && data[RECORD_CHARACTER] < CHARACTER_COUNT
    ensures |data| <= RECORD_CHARACTER ==> r == Err(IndexOutOfRange)
    ensures r.Ok? ==> r.value.character == data[RECORD_CHARACTER]
    ensures r.Ok? ==> r.value.name == DecodeName(Slice(data, 4, 12))
    ensures r.Ok? ==> r.value.ticks == LittleEndian(Slice(data, 0, 4)) < Pow256(4)
  {
    if |data| <= RECORD_CHARACTER then Err(IndexOutOfRange)
    else
      var ticks := LittleEndian(Slice(data, 0, 4));
      var name := DecodeName(Slice(data, 4, 12));
      LittleEndianBound(Slice(data, 0, 4));
      var character :- DecodeCharacter(data[RECORD_CHARACTER]);
      Ok(Record(ticks, name, character))
  }

  /** One profile: the player's name and character. */
  datatype SaveSlot = SaveSlot(name: seq<byte>, character: Character)

  /** `SaveSlot(save_data)`: the name from bytes 0–7, the character from byte 19. */
  function DecodeSaveSlot(data: seq<byte>): (r: Result<SaveSlot>)
    ensures r.Ok? <==> |data| > SLOT_CHARACTER && data[SLOT_CHARACTER] < CHARACTER_COUNT
    ensures |data| <= SLOT_CHARACTER ==> r == Err(IndexOutOfRange)
    ensures r.Ok? ==> r.value.character == data[SLOT_CHARACTER]
    ensures r.Ok? ==> r.value.name == DecodeName(Slice(data, 0, 8))
  {
    if |data| <= SLOT_CHARACTER then Err(IndexOutOfRange)
    else
      var name := DecodeName(Slice(data, 0, 8));
      var character :- DecodeCharacter(data[SLOT_CHARACTER]);
      Ok(SaveSlot(name, character))
  }

  /** `n` zero bytes. */
  function Zeros(n: nat): (z: seq<byte>)
    ensures |z| == n && forall i | 0 <= i < n :: z[i] == 0
  {
    seq(n, _ => 0)
  }

  /** A name as stored: its bytes, NUL-padded to `width`. */
  function PadName(name: seq<byte>, width: nat): (bs: seq<byte>)
    requires |name| <= width
    ensures |bs| == width
  {
    name + Zeros(width - |name|)
  }

  /** Padding is undone by decoding, for any name without NULs. */
  lemma PadNameDecodes(name: seq<byte>, width: nat)
    requires |name| <= width && 0 !in name
    ensures DecodeName(PadName(name, width)) == name
  {
    DecodeNameAppend(name, Zeros(width - |name|));
    DecodeNameFixed(name);
    ZerosDecodeEmpty(width - |name|);
  }

  lemma {:induction false} ZerosDecodeEmpty(n: nat)
    ensures DecodeName(Zeros(n)) == []
  {
    if n > 0 {
      assert Zeros(n)[1..] == Zeros(n - 1);
      ZerosDecodeEmpty(n - 1);
    }
  }

  /** A record that the game could have written: a 32-bit tick count and a name of at most
      eight bytes without NULs. */
  predicate Storable(r: Record) {
    r.ticks < Pow256(4) && |r.name| <= 8 && 0 !in r.name
  }

  /** The 24 bytes of a record entry: ticks, padded name, ten bytes the decoder ignores, the
      character, and one more ignored byte. */
  function EncodeRecord(r: Record): (bs: seq<byte>)
    requires Storable(r)
    ensures |bs| == RECORD_LEN
  {
    ToLittleEndian(r.ticks, 4) + PadName(r.name, 8) + Zeros(10) + [r.character as byte] + [0]
  }

  /** Decoding an encoded record gives it back. */
  lemma DecodeEncodeRecord(r: Record)
    requires Storable(r)
    ensures DecodeRecord(EncodeRecord(r)) == Ok(r)
  {
    var bs := EncodeRecord(r);
    assert Slice(bs, 0, 4) == ToLittleEndian(r.ticks, 4);
    assert Slice(bs, 4, 12) == PadName(r.name, 8);
    LittleEndianOfBytes(r.ticks, 4);
    PadNameDecodes(r.name, 8);
  }

  /** The 80 bytes of a used profile slot: padded name, eleven ignored bytes, the character
      and sixty more ignored bytes. */
  function EncodeSaveSlot(s: SaveSlot): (bs: seq<byte>)
    requires |s.name| <= 8 && 0 !in s.name
    ensures |bs| == PROFILE_LEN
  {
    PadName(s.name, 8) + Zeros(11) + [s.character as byte] + Zeros(60)
  }

  /** Decoding an encoded profile slot gives it back. */
  lemma DecodeEncodeSaveSlot(s: SaveSlot)
    requires |s.name| <= 8 && 0 !in s.name
    ensures DecodeSaveSlot(EncodeSaveSlot(s)) == Ok(s)
  {
    var bs := EncodeSaveSlot(s);
    assert Slice(bs, 0, 8) == PadName(s.name, 8);
    PadNameDecodes(s.name, 8);
  }
}
