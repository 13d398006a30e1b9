/** `Track.update`: the twelve 24-byte records of one track's leaderboard. Records 0 and 6 are
    the best laps of time trial and relic race; records 1–5 and 7–11 are the two top-five
    tables, each sorted by time. */
module Tracks {
  import opened Base
  import opened Layout
  import opened Records
  import opened Ranking

  datatype Track = Track(trialBestLap: Record, trials: seq<Record>,
                         relicBestLap: Record, relics: seq<Record>)

  /** Record `i` of a track's data, `track_data[i * RECORD_LEN:(i + 1) * RECORD_LEN]`. */
  function RecordAt(data: seq<byte>, i: nat): (r: Result<Record>) {
    DecodeRecord(Slice(data, i * RECORD_LEN, i * RECORD_LEN + RECORD_LEN))
  }

  /** Records 0 to n - 1 in stored order; decoding stops at the first record that fails,
      as the program's loop does. */
  function DecodeRecords(data: seq<byte>, n: nat): (r: Result<seq<Record>>)
    ensures r.Ok? <==> forall i | 0 <= i < n :: RecordAt(data, i).Ok?
    ensures r.Ok? ==> |r.value| == n
    ensures r.Ok? ==> forall i | 0 <= i < n :: r.value[i] == RecordAt(data, i).value
    ensures r.Err? ==> exists i | 0 <= i < n ::
      RecordAt(data, i) == Err(r.error) && forall j | 0 <= j < i :: RecordAt(data, j).Ok?
  {
    if n == 0 then Ok([])
    else
      var init :- DecodeRecords(data, n - 1);
      var last :- RecordAt(data, n - 1);
      Ok(init + [last])
  }

  /** A track decoded from its 0x124 bytes. */
  function DecodeTrack(data: seq<byte>): (r: Result<Track>)
    ensures r.Ok? <==> forall i | 0 <= i < RECORD_COUNT :: RecordAt(data, i).Ok?
    ensures r.Ok? ==> r.value.trialBestLap == RecordAt(data, 0).value
    ensures r.Ok? ==> r.value.relicBestLap == RecordAt(data, 6).value
    ensures r.Ok? ==> |r.value.trials| == 5 && |r.value.relics| == 5
  {
    var records :- DecodeRecords(data, RECORD_COUNT);
    Ok(Track(records[0], SortByTicks(records[1..6]), records[6], SortByTicks(records[7..12])))
  }

  /** The five records `first` .. `first + 4`, in their stored order. */
  function Table(data: seq<byte>, first: nat): (t: seq<Record>)
    requires forall i | first <= i < first + 5 :: RecordAt(data, i).Ok?
    ensures |t| == 5
  {
    seq(5, k requires 0 <= k < 5 => RecordAt(data, first + k).value)
  }

  /** Each top-five table is the stored records 1–5, respectively 7–11, sorted by time: the
      same records, in increasing time, and records with equal times in stored order. */
  lemma DecodeTrackTables(data: seq<byte>)
    requires DecodeTrack(data).Ok?
    ensures var t := DecodeTrack(data).value;
      && Sorted(t.trials) && multiset(t.trials) == multiset(Table(data, 1))
      && (forall ticks :: WithTicks(t.trials, ticks) == WithTicks(Table(data, 1), ticks))
      && Sorted(t.relics) && multiset(t.relics) == multiset(Table(data, 7))
      && (forall ticks :: WithTicks(t.relics, ticks) == WithTicks(Table(data, 7), ticks))
  {
    var records := DecodeRecords(data, RECORD_COUNT).value;
    assert DecodeTrack(data).value.trials == SortByTicks(records[1..6]);
    assert DecodeTrack(data).value.relics == SortByTicks(records[7..12]);
    TableIsSlice(data, records, 1);
    TableIsSlice(data, records, 7);
    hide *;
    SortByTicksSpec(Table(data, 1));
    SortByTicksSpec(Table(data, 7));
  }

  lemma TableIsSlice(data: seq<byte>, records: seq<Record>, first: nat)
    requires first + 5 <= |records|
    requires forall i | 0 <= i < |records| :: RecordAt(data, i).Ok? && records[i] == RecordAt(data, i).value
    ensures records[first..first + 5] == Table(data, first)
  {
    var t := Table(data, first);
    forall k | 0 <= k < 5
      ensures records[first..first + 5][k] == t[k]
    {
      assert records[first..first + 5][k] == records[first + k];
    }
  }
}
