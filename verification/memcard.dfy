/** `CTR.update`: the scan of a memory-card image for save blocks. Every occurrence of the save
    signature, overlapping ones included, marks a block that starts SIG_LEN bytes before it; the
    k-th block found refreshes the k-th save already held, or becomes a new save. */
module MemoryCard {
  import opened Base
  import opened Layout
  import opened SaveBlock

  /** The signature occurs at offset `p` of the image. */
  predicate SignatureAt(mem: seq<byte>, p: nat) {
    p + SIG_LEN <= |mem| && mem[p..p + SIG_LEN] == SAVE_SIG
  }

  /** `memcard.find(SAVE_SIG, from)`: the first occurrence at or after `from`; None is the
      program's -1. */
  function Find(mem: seq<byte>, from: nat): (r: Option<nat>)
    decreases |mem| - from
    ensures r.Some? ==> from <= r.value && SignatureAt(mem, r.value)
    ensures r.Some? ==> forall q | from <= q < r.value :: !SignatureAt(mem, q)
    ensures r.None? ==> forall q | from <= q :: !SignatureAt(mem, q)
  {
    if from + SIG_LEN > |mem| then None
    else if mem[from..from + SIG_LEN] == SAVE_SIG then Some(from)
    else Find(mem, from + 1)
  }

  /** The positions the scan visits from `from` on, each search resuming one byte after the
      previous hit. */
  function MatchesFrom(mem: seq<byte>, from: nat): (r: seq<nat>)
    decreases |mem| - from
  {
    match Find(mem, from)
    case None => []
    case Some(p) => [p] + MatchesFrom(mem, p + 1)
  }

  /** Every position visited from `from` on is an occurrence of the signature. */
  lemma {:induction false} MatchesFromSound(mem: seq<byte>, from: nat)
    decreases |mem| - from
    ensures forall k | 0 <= k < |MatchesFrom(mem, from)| :: SignatureAt(mem, MatchesFrom(mem, from)[k])
  {
    hide SignatureAt, Find;
    var ps := MatchesFrom(mem, from);
    match Find(mem, from)
    case None =>
      assert ps == [];
    case Some(p) =>
      var rest := MatchesFrom(mem, p + 1);
      assert ps == [p] + rest;
      SignatureFits(mem, p);
      MatchesFromSound(mem, p + 1);
      hide *;
      forall k | 0 <= k < |ps|
        ensures SignatureAt(mem, ps[k])
      {
        if k > 0 {
          assert ps[k] == rest[k - 1];
        }
      }
  }

  /** Every occurrence at or after `from` is visited, overlapping ones included. */
  lemma {:induction false} MatchesFromComplete(mem: seq<byte>, from: nat)
    decreases |mem| - from
    ensures forall q | from <= q && SignatureAt(mem, q) :: q in MatchesFrom(mem, from)
  {
    hide SignatureAt, Find;
    var ps := MatchesFrom(mem, from);
    match Find(mem, from)
    case None =>
    case Some(p) =>
      var rest := MatchesFrom(mem, p + 1);
      assert ps == [p] + rest;
      SignatureFits(mem, p);
      MatchesFromComplete(mem, p + 1);
      hide *;
      forall q | from <= q && SignatureAt(mem, q)
        ensures q in ps
      {
        if q != p {
          assert q in rest;
        }
      }
  }

  /** The positions visited from `from` on lie at or after it and increase strictly. */
  lemma {:induction false} MatchesFromIncreasing(mem: seq<byte>, from: nat)
    decreases |mem| - from
    ensures forall k | 0 <= k < |MatchesFrom(mem, from)| :: from <= MatchesFrom(mem, from)[k]
    ensures forall j, k | 0 <= j < k < |MatchesFrom(mem, from)| ::
      MatchesFrom(mem, from)[j] < MatchesFrom(mem, from)[k]
  {
    hide SignatureAt, Find;
    var ps := MatchesFrom(mem, from);
    match Find(mem, from)
    case None =>
      assert ps == [];
    case Some(p) =>
      var rest := MatchesFrom(mem, p + 1);
      assert ps == [p] + rest;
      SignatureFits(mem, p);
      MatchesFromIncreasing(mem, p + 1);
      hide *;
      forall k | 0 <= k < |ps|
        ensures from <= ps[k]
      {
        if k > 0 {
          assert ps[k] == rest[k - 1];
        }
      }
      forall j, k | 0 <= j < k < |ps|
        ensures ps[j] < ps[k]
      {
        assert ps[k] == rest[k - 1];
        if j > 0 {
          assert ps[j] == rest[j - 1];
        }
      }
  }

  lemma SignatureFits(mem: seq<byte>, p: nat)
    requires SignatureAt(mem, p)
    ensures p + SIG_LEN <= |mem|
  {
  }

  /** The positions still to visit when the last search returned `pos`. */
  function Pending(mem: seq<byte>, pos: Option<nat>): (r: seq<nat>) {
    match pos
    case None => []
    case Some(p) => [p] + MatchesFrom(mem, p + 1)
  }

  /** Every signature position of the image, in the order the scan visits them. */
  function Matches(mem: seq<byte>): (r: seq<nat>) {
    MatchesFrom(mem, 0)
  }

  /** The scan visits exactly the signature positions, each once, in increasing order. */
  lemma MatchesSpec(mem: seq<byte>)
    ensures forall p: nat :: p in Matches(mem) <==> SignatureAt(mem, p)
    ensures forall j, k | 0 <= j < k < |Matches(mem)| :: Matches(mem)[j] < Matches(mem)[k]
  {
    MatchesFromSound(mem, 0);
    MatchesFromComplete(mem, 0);
    MatchesFromIncreasing(mem, 0);
  }

  /** `memcard[start:start + SAVE_LEN]` with `start = p - SIG_LEN`: the block whose signature is
      at `p`. A signature fewer than SIG_LEN bytes into the image gives a negative start, which
      Python counts back from the end; the slice is then too short to be a block. */
  function Window(mem: seq<byte>, p: nat): (w: seq<byte>)
    ensures p >= SIG_LEN ==> w == Slice(mem, p - SIG_LEN, p - SIG_LEN + SAVE_LEN)
    ensures p < SIG_LEN ==> |w| < SAVE_LEN
  {
    PySlice(mem, p - SIG_LEN, p - SIG_LEN + SAVE_LEN)
  }

  /** A block found whole inside the image is SAVE_LEN bytes long and carries the signature at
      offset SIG_LEN. */
  lemma WindowHoldsSignature(mem: seq<byte>, p: nat)
    requires SignatureAt(mem, p) && SIG_LEN <= p && p - SIG_LEN + SAVE_LEN <= |mem|
    ensures |Window(mem, p)| == SAVE_LEN
    ensures Window(mem, p)[SIG_LEN..2 * SIG_LEN] == SAVE_SIG
  {
    var w := Window(mem, p);
    SliceInside(mem, p - SIG_LEN, p - SIG_LEN + SAVE_LEN);
    assert w[SIG_LEN..2 * SIG_LEN] == mem[p..p + SIG_LEN];
  }

  /** Which `Save.update` refreshes a held save: the program's, which appends the block's
      slots to the slots held, or the corrected one, which replaces them. */
  datatype Rule = AsWritten | Corrected

  /** One block's effect on a save: the held save updated from it, or a new save. */
  function SaveFrom(rule: Rule, held: Option<Save>, saveData: seq<byte>): (r: Result<Save>) {
    match held
    case Some(save) => if rule == AsWritten then UpdateAppendingSlots(save, saveData) else Update(save, saveData)
    case None => New(saveData)
  }

  /** The save held at index k, if any. */
  function Held(saves: seq<Save>, k: nat): (r: Option<Save>) {
    if k < |saves| then Some(saves[k]) else None
  }

  /** What the scan makes of the k-th block found, at `p`, given the saves held before the
      scan: the k-th save updated from it, or a new save when there is no k-th save. */
  function Refresh(rule: Rule, saves: seq<Save>, mem: seq<byte>, k: nat, p: nat): (r: Result<Save>) {
    SaveFrom(rule, Held(saves, k), Window(mem, p))
  }

  /** The list after the k-th block's save is put in: in place of the k-th save held, or
      appended when there is none, which puts it at index k when the list is k long. */
  function Place(held: seq<Save>, k: nat, save: Save): (r: seq<Save>)
    ensures |r| == if k < |held| then |held| else |held| + 1
    ensures k <= |held| ==> r[k] == save
    ensures forall i | 0 <= i < |held| && i != k :: r[i] == held[i]
  {
    if k < |held| then held[k := save] else held + [save]
  }

  /** The saves held after the scan has visited `ps`, in the program's order: each block
      updates the save at its index in the list built so far, or is appended to it. */
  function Scanned(rule: Rule, saves: seq<Save>, mem: seq<byte>, ps: seq<nat>): (r: Result<seq<Save>>)
    decreases |ps|
  {
    if ps == [] then Ok(saves)
    else
      var held :- Scanned(rule, saves, mem, ps[..|ps| - 1]);
      var k := |ps| - 1;
      var save :- SaveFrom(rule, Held(held, k), Window(mem, ps[k]));
      Ok(Place(held, k, save))
  }

  /** A scan that succeeds never drops a save: it holds the k-th block's refresh at index k
      and, past the blocks found, the saves held before. */
  lemma {:induction false} ScannedShape(rule: Rule, saves: seq<Save>, mem: seq<byte>, ps: seq<nat>)
    requires Scanned(rule, saves, mem, ps).Ok?
    ensures |Scanned(rule, saves, mem, ps).value| == Max(|saves|, |ps|)
    ensures forall k | 0 <= k < |ps| :: Refresh(rule, saves, mem, k, ps[k]) == Ok(Scanned(rule, saves, mem, ps).value[k])
    ensures forall k | |ps| <= k < |saves| :: Scanned(rule, saves, mem, ps).value[k] == saves[k]
  {
    if ps != [] {
      var init, k := ps[..|ps| - 1], |ps| - 1;
      var prev := Scanned(rule, saves, mem, init);
      var step := Refresh(rule, saves, mem, k, ps[k]);
      assert step == SaveFrom(rule, Held(saves, k), Window(mem, ps[k]));
      hide SaveFrom, Window, Refresh, SignatureAt;
      ScannedShape(rule, saves, mem, init);
      assert Held(prev.value, k) == Held(saves, k);
      assert Scanned(rule, saves, mem, ps) == Ok(Place(prev.value, k, step.value));
      hide *;
      forall i | 0 <= i < k
        ensures Refresh(rule, saves, mem, i, ps[i]) == Ok(Scanned(rule, saves, mem, ps).value[i])
      {
        assert ps[i] == init[i];
      }
    }
  }

  /** The scan succeeds exactly when every block it visits decodes. */
  lemma ScannedOk(rule: Rule, saves: seq<Save>, mem: seq<byte>, ps: seq<nat>)
    ensures Scanned(rule, saves, mem, ps).Ok? <==> forall k | 0 <= k < |ps| :: Refresh(rule, saves, mem, k, ps[k]).Ok?
  {
    if Scanned(rule, saves, mem, ps).Ok? {
      ScannedShape(rule, saves, mem, ps);
    } else {
      ScannedFirstError(rule, saves, mem, ps);
    }
  }

  /** A scan that fails fails with the error of the first block that does not decode. */
  lemma {:induction false} ScannedFirstError(rule: Rule, saves: seq<Save>, mem: seq<byte>, ps: seq<nat>)
    requires Scanned(rule, saves, mem, ps).Err?
    ensures exists k | 0 <= k < |ps| ::
      Refresh(rule, saves, mem, k, ps[k]) == Err(Scanned(rule, saves, mem, ps).error)
      && forall j | 0 <= j < k :: Refresh(rule, saves, mem, j, ps[j]).Ok?
  {
    var init, k := ps[..|ps| - 1], |ps| - 1;
    var prev := Scanned(rule, saves, mem, init);
    var step := Refresh(rule, saves, mem, k, ps[k]);
    assert step == SaveFrom(rule, Held(saves, k), Window(mem, ps[k]));
    hide SaveFrom, Window, Refresh, SignatureAt;
    if prev.Ok? {
      ScannedShape(rule, saves, mem, init);
      assert Held(prev.value, k) == Held(saves, k);
      assert Scanned(rule, saves, mem, ps) == Err(step.error);
      hide *;
      forall i | 0 <= i < k
        ensures Refresh(rule, saves, mem, i, ps[i]).Ok?
      {
        assert ps[i] == init[i];
      }
    } else {
      assert Scanned(rule, saves, mem, ps) == prev;
      ScannedFirstError(rule, saves, mem, init);
      hide *;
      var j :| 0 <= j < |init| && Refresh(rule, saves, mem, j, init[j]) == Err(prev.error)
        && forall i | 0 <= i < j :: Refresh(rule, saves, mem, i, init[i]).Ok?;
      assert ps[j] == init[j];
      forall i | 0 <= i < j
        ensures Refresh(rule, saves, mem, i, ps[i]).Ok?
      {
        assert ps[i] == init[i];
      }
    }
  }

  /** Once the scan has failed, visiting more blocks does not change the error. */
  lemma {:induction false} ScannedErrPersists(rule: Rule, saves: seq<Save>, mem: seq<byte>, ps: seq<nat>, qs: seq<nat>)
    requires Scanned(rule, saves, mem, ps).Err?
    ensures Scanned(rule, saves, mem, ps + qs) == Scanned(rule, saves, mem, ps)
  {
    hide SaveFrom, Window, SignatureAt;
    if qs != [] {
      var init := qs[..|qs| - 1];
      ScannedErrPersists(rule, saves, mem, ps, init);
      assert ps + qs != [];
      assert (ps + qs)[..|ps + qs| - 1] == ps + init;
    } else {
      assert ps + qs == ps;
    }
  }

  /** `CTR.update` on the saves held: a scan of the whole image, each held save refreshed by
      `rule`. */
  function Rescan(rule: Rule, saves: seq<Save>, mem: seq<byte>): (r: Result<seq<Save>>) {
    Scanned(rule, saves, mem, Matches(mem))
  }

  /** `CTR(filename)`: a scan with no saves held, so every block makes a new save and the rule
      never comes into play. */
  function Open(mem: seq<byte>): (r: Result<seq<Save>>) {
    Rescan(AsWritten, [], mem)
  }

  /** The next search resumes the pending positions one byte after the last hit. */
  lemma PendingNext(mem: seq<byte>, from: nat)
    ensures Pending(mem, Find(mem, from)) == MatchesFrom(mem, from)
  {
  }

  lemma PendingSome(mem: seq<byte>, p: nat)
    ensures Pending(mem, Some(p)) == [p] + MatchesFrom(mem, p + 1)
  {
  }

  lemma PendingNone(mem: seq<byte>)
    ensures Pending(mem, None) == []
  {
  }

  lemma RescanScansMatches(rule: Rule, saves: seq<Save>, mem: seq<byte>)
    ensures Rescan(rule, saves, mem) == Scanned(rule, saves, mem, Matches(mem))
    ensures Matches(mem) == MatchesFrom(mem, 0)
  {
  }

  lemma ScannedNothing(rule: Rule, saves: seq<Save>, mem: seq<byte>)
    ensures Scanned(rule, saves, mem, []) == Ok(saves)
  {
  }

  /** One pass of the loop: visiting the next position extends the scan by that block's save,
      and a block that fails ends the whole scan with its error. */
  lemma ScanStep(rule: Rule, saves: seq<Save>, mem: seq<byte>, found: seq<nat>, p: nat, held: seq<Save>)
    requires Scanned(rule, saves, mem, found) == Ok(held)
    requires found + ([p] + MatchesFrom(mem, p + 1)) == Matches(mem)
    ensures SaveFrom(rule, Held(held, |found|), Window(mem, p)).Ok? ==>
      (Scanned(rule, saves, mem, found + [p]) == Ok(Place(held, |found|, SaveFrom(rule, Held(held, |found|), Window(mem, p)).value)))
    ensures SaveFrom(rule, Held(held, |found|), Window(mem, p)).Err? ==>
      Rescan(rule, saves, mem) == Err(SaveFrom(rule, Held(held, |found|), Window(mem, p)).error)
  {
    hide SaveFrom, Window, SignatureAt, Find;
    var step := SaveFrom(rule, Held(held, |found|), Window(mem, p));
    assert (found + [p])[..|found|] == found;
    assert Scanned(rule, saves, mem, found + [p])
      == if step.Err? then Err(step.error) else Ok(Place(held, |found|, step.value));
    if step.Err? {
      ScannedErrPersists(rule, saves, mem, found + [p], MatchesFrom(mem, p + 1));
      assert found + [p] + MatchesFrom(mem, p + 1) == Matches(mem);
    }
  }

  /** The loop of `CTR.update`, search by search: the result is the scan of every signature
      position of the image. With `AsWritten` this is the program's own loop. */
  method Scan(rule: Rule, saves: seq<Save>, mem: seq<byte>) returns (r: Result<seq<Save>>)
    ensures r == Rescan(rule, saves, mem)
  {
    ScannedNothing(rule, saves, mem);
    RescanScansMatches(rule, saves, mem);
    hide SignatureAt, SaveFrom, Window, Scanned, MatchesFrom, Find, Pending, Rescan, Matches;
    hide Held, Place, Update, UpdateAppendingSlots, New, Decode;
    var held := saves;
    var searchPos := Find(mem, 0);
    var saveIndex := 0;
    ghost var found: seq<nat> := [];
    PendingNext(mem, 0);
    while searchPos.Some?
      invariant found + Pending(mem, searchPos) == Matches(mem)
      invariant saveIndex == |found|
      invariant Scanned(rule, saves, mem, found) == Ok(held)
      decreases |Matches(mem)| - saveIndex
    {
      var p := searchPos.value;
      PendingSome(mem, p);
      PendingNext(mem, p + 1);
      ScanStep(rule, saves, mem, found, p, held);
      var saveData := Window(mem, p);
      var save :- SaveFrom(rule, Held(held, saveIndex), saveData);
      held := Place(held, saveIndex, save);
      found := found + [p];
      searchPos := Find(mem, p + 1);
      saveIndex := saveIndex + 1;
    }
    PendingNone(mem);
    assert found == Matches(mem);
    r := Ok(held);
  }

  /** A rescan never drops a save: it holds one save per block found and, past those, the
      saves held before. */
  lemma RescanNeverDrops(rule: Rule, saves: seq<Save>, mem: seq<byte>)
    requires Rescan(rule, saves, mem).Ok?
    ensures |Rescan(rule, saves, mem).value| == Max(|saves|, |Matches(mem)|)
    ensures forall k | |Matches(mem)| <= k < |saves| :: Rescan(rule, saves, mem).value[k] == saves[k]
  {
    ScannedShape(rule, saves, mem, Matches(mem));
  }

  /** Opening an image gives one save per signature, each the save `Save(save_data)` reads from
      the block at that signature. */
  lemma OpenReadsEachBlock(mem: seq<byte>)
    ensures Open(mem).Ok? <==> forall k | 0 <= k < |Matches(mem)| :: New(Window(mem, Matches(mem)[k])).Ok?
    ensures Open(mem).Ok? ==> |Open(mem).value| == |Matches(mem)|
    ensures Open(mem).Ok? ==> forall k | 0 <= k < |Matches(mem)| ::
      New(Window(mem, Matches(mem)[k])) == Ok(Open(mem).value[k])
  {
    var ps := Matches(mem);
    ScannedOk(AsWritten, [], mem, ps);
    if Open(mem).Ok? {
      ScannedShape(AsWritten, [], mem, ps);
    }
    assert forall k | 0 <= k < |ps| :: Refresh(AsWritten, [], mem, k, ps[k]) == New(Window(mem, ps[k]));
  }

  /** As written, a rescan puts the block's slots after the slots the refreshed save already
      held. */
  lemma RescanAppendsSlots(saves: seq<Save>, mem: seq<byte>, k: nat)
    requires Rescan(AsWritten, saves, mem).Ok?
    requires k < |saves| && k < |Matches(mem)|
    ensures Decode(Window(mem, Matches(mem)[k])).Ok?
    ensures k < |Rescan(AsWritten, saves, mem).value|
      && Rescan(AsWritten, saves, mem).value[k].saveSlots
         == saves[k].saveSlots + Decode(Window(mem, Matches(mem)[k])).value.slots
  {
    var ps := Matches(mem);
    var w := Window(mem, ps[k]);
    assert Refresh(AsWritten, saves, mem, k, ps[k]) == UpdateAppendingSlots(saves[k], w);
    RescanNeverDrops(AsWritten, saves, mem);
    RescanScansMatches(AsWritten, saves, mem);
    hide *;
    ScannedShape(AsWritten, saves, mem, ps);
    var slots := UpdateAppendingSlots(saves[k], w).value.saveSlots;
    assert slots == slots[..|saves[k].saveSlots|] + slots[|saves[k].saveSlots|..];
  }

  /** As written, a card opened and then refreshed once holds each block's profile slots twice
      over: eight slots per save instead of four. */
  lemma RefreshedTwiceDoublesSlots(mem: seq<byte>, k: nat)
    requires Open(mem).Ok? && k < |Matches(mem)|
    ensures Rescan(AsWritten, Open(mem).value, mem).Ok?
    ensures Decode(Window(mem, Matches(mem)[k])).Ok?
    ensures var slots := Decode(Window(mem, Matches(mem)[k])).value.slots;
      |slots| == PROFILE_COUNT
      && k < |Rescan(AsWritten, Open(mem).value, mem).value|
      && Rescan(AsWritten, Open(mem).value, mem).value[k].saveSlots == slots + slots
  {
    var ps := Matches(mem);
    var first := Open(mem).value;
    OpenReadsEachBlock(mem);
    forall j | 0 <= j < |ps|
      ensures Refresh(AsWritten, first, mem, j, ps[j]).Ok?
    {
      assert Refresh(AsWritten, first, mem, j, ps[j])
        == UpdateAppendingSlots(first[j], Window(mem, ps[j]));
    }
    ScannedOk(AsWritten, first, mem, ps);
    RescanAppendsSlots(first, mem, k);
    var w := Window(mem, ps[k]);
    assert New(w) == Ok(first[k]);
    assert first[k].saveSlots == first[k].saveSlots[|Blank.saveSlots|..];
  }

  /** With the corrected update a held save keeps nothing of its own: refreshing it from a
      block gives the save a fresh read of the block would. */
  lemma SaveFromIgnoresHeld(held: Option<Save>, saveData: seq<byte>)
    ensures SaveFrom(Corrected, held, saveData) == New(saveData)
  {
    if held.Some? {
      UpdateIgnoresState(held.value, Blank, saveData);
    }
  }

  lemma RefreshIgnoresHeld(saves: seq<Save>, mem: seq<byte>, ps: seq<nat>)
    ensures forall k | 0 <= k < |ps| ::
      Refresh(Corrected, saves, mem, k, ps[k]) == Refresh(AsWritten, [], mem, k, ps[k])
  {
    forall k | 0 <= k < |ps|
      ensures Refresh(Corrected, saves, mem, k, ps[k]) == Refresh(AsWritten, [], mem, k, ps[k])
    {
      SaveFromIgnoresHeld(Held(saves, k), Window(mem, ps[k]));
    }
  }

  /** A list that agrees with `front` on its first n places and with `back` after them. */
  lemma Spliced<T>(r: seq<T>, front: seq<T>, back: seq<T>, n: nat)
    requires |front| == n && |r| == Max(|back|, n)
    requires forall k | 0 <= k < n :: r[k] == front[k]
    requires forall k | n <= k < |back| :: r[k] == back[k]
    ensures r == front + back[Min(|back|, n)..]
  {
    var tail := back[Min(|back|, n)..];
    forall k | 0 <= k < |r|
      ensures r[k] == (front + tail)[k]
    {
      if k >= n {
        assert tail[k - n] == back[k];
      }
    }
  }

  /** With the corrected update, a rescan gives what opening the image afresh gives, followed
      by the held saves beyond the blocks found: the saves already held do not influence the
      ones refreshed. */
  lemma RescanIsOpen(saves: seq<Save>, mem: seq<byte>)
    ensures Rescan(Corrected, saves, mem).Ok? <==> Open(mem).Ok?
    ensures Rescan(Corrected, saves, mem).Ok? ==>
      Rescan(Corrected, saves, mem).value == Open(mem).value + saves[Min(|saves|, |Matches(mem)|)..]
  {
    var ps := Matches(mem);
    RefreshIgnoresHeld(saves, mem, ps);
    ScannedOk(Corrected, saves, mem, ps);
    ScannedOk(AsWritten, [], mem, ps);
    if Rescan(Corrected, saves, mem).Ok? {
      ScannedShape(Corrected, saves, mem, ps);
      ScannedShape(AsWritten, [], mem, ps);
      hide *;
      Spliced(Rescan(Corrected, saves, mem).value, Open(mem).value, saves, |ps|);
    }
  }

  /** With the corrected update, refreshing the saves a second time from the same image
      changes nothing. */
  lemma RescanIdempotent(saves: seq<Save>, mem: seq<byte>)
    requires Rescan(Corrected, saves, mem).Ok?
    ensures Rescan(Corrected, Rescan(Corrected, saves, mem).value, mem) == Rescan(Corrected, saves, mem)
  {
    var r := Rescan(Corrected, saves, mem).value;
    var m := |Matches(mem)|;
    RescanIsOpen(saves, mem);
    RescanIsOpen(r, mem);
    RescanNeverDrops(Corrected, saves, mem);
    OpenReadsEachBlock(mem);
    assert r[Min(|r|, m)..] == saves[Min(|saves|, m)..];
  }

  /** Every block of an image that opens lies whole inside it, SAVE_LEN bytes starting SIG_LEN
      before its signature, which sits at offset SIG_LEN of the block. A signature in the first
      SIG_LEN bytes or too close to the end makes the open fail. */
  lemma OpenedBlocksLieInside(mem: seq<byte>, p: nat)
    requires Open(mem).Ok? && SignatureAt(mem, p)
    ensures SIG_LEN <= p && p - SIG_LEN + SAVE_LEN <= |mem|
    ensures Window(mem, p)[SIG_LEN..2 * SIG_LEN] == SAVE_SIG
  {
    var ps := Matches(mem);
    MatchesSpec(mem);
    var k :| 0 <= k < |ps| && ps[k] == p;
    OpenReadsEachBlock(mem);
    assert New(Window(mem, p)).Ok?;
    assert |Window(mem, p)| >= SAVE_LEN;
    WindowHoldsSignature(mem, p);
  }
}
