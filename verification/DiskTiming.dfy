/** How long the simulated disk takes for a request (machine/disk.cc): seek, rotation, transfer and
    the track buffer. Sector k of a track passes the head in the time slots j with j = k modulo 32. */
module DiskTiming {
  import opened Common
  import opened SectorDisk

  const ROTATION_TIME := 500
  const SEEK_TIME := 500

  predicate IsSector(s: int) { 0 <= s < NUM_SECTORS }

  function Seek(lastSector: nat, newSector: nat): nat {
    Abs(newSector / SECTORS_PER_TRACK - lastSector / SECTORS_PER_TRACK) * SEEK_TIME
  }

  /** `TimeToSeek`'s second result: the time from the end of the seek to the next slot. */
  function Rotation(lastSector: nat, newSector: nat, now: nat): nat {
    var over := (now + Seek(lastSector, newSector)) % ROTATION_TIME;
    if over > 0 then ROTATION_TIME - over else 0
  }

  function ModuloDiff(to: nat, from: nat): nat {
    (to % SECTORS_PER_TRACK - from % SECTORS_PER_TRACK + SECTORS_PER_TRACK) % SECTORS_PER_TRACK
  }

  /** Where the head stands after seeking: the start of a slot. */
  function TimeAfter(lastSector: nat, newSector: nat, now: nat): (t: nat)
    ensures t % ROTATION_TIME == 0
    ensures now + Seek(lastSector, newSector) <= t < now + Seek(lastSector, newSector) + ROTATION_TIME
  {
    now + Seek(lastSector, newSector) + Rotation(lastSector, newSector, now)
  }

  predicate TrackBufferHit(lastSector: nat, bufferInit: nat, newSector: nat, now: nat, writing: bool)
    requires bufferInit <= now
  {
    && !writing && Seek(lastSector, newSector) == 0
    && (TimeAfter(lastSector, newSector, now) - bufferInit) / ROTATION_TIME
       > ModuloDiff(newSector, bufferInit / ROTATION_TIME)
  }

  function MissLatency(lastSector: nat, newSector: nat, now: nat): nat {
    Seek(lastSector, newSector) + Rotation(lastSector, newSector, now)
    + ModuloDiff(newSector, TimeAfter(lastSector, newSector, now) / ROTATION_TIME) * ROTATION_TIME + ROTATION_TIME
  }

  function ComputeLatency(lastSector: nat, bufferInit: nat, newSector: nat, now: nat, writing: bool): nat
    requires bufferInit <= now
  {
    if TrackBufferHit(lastSector, bufferInit, newSector, now, writing) then ROTATION_TIME
    else MissLatency(lastSector, newSector, now)
  }

  /** In slot `j`, sector `s` passes the head. */
  predicate Passes(j: nat, s: nat) { j % SECTORS_PER_TRACK == s % SECTORS_PER_TRACK }

  /** `ModuloDiff` is the number of slots until the sector next passes. */
  lemma NextPass(s: nat, j: nat, i: nat)
    ensures ModuloDiff(s, j) < SECTORS_PER_TRACK && Passes(j + ModuloDiff(s, j), s)
    ensures j <= i && Passes(i, s) ==> j + ModuloDiff(s, j) <= i
  {
    var d := ModuloDiff(s, j);
    assert (j + d) % SECTORS_PER_TRACK == s % SECTORS_PER_TRACK;
  }

  lemma LatencyBounds(lastSector: nat, bufferInit: nat, newSector: nat, now: nat, writing: bool)
    requires IsSector(lastSector) && IsSector(newSector) && bufferInit <= now
    ensures ROTATION_TIME <= ComputeLatency(lastSector, bufferInit, newSector, now, writing) <= 31999
  {
  }

  lemma WorstCase()
    ensures ComputeLatency(0, 0, NUM_SECTORS - 1, 1, false) == 31999
  {
    assert Rotation(0, NUM_SECTORS - 1, 1) == 499;
    assert ModuloDiff(NUM_SECTORS - 1, 32) == 31;
  }

  lemma SlotStart(t: nat)
    requires t % ROTATION_TIME == 0
    ensures t == ROTATION_TIME * (t / ROTATION_TIME)
  {
  }

  lemma SlotNumber(k: nat)
    ensures ROTATION_TIME * k / ROTATION_TIME == k && ROTATION_TIME * k % ROTATION_TIME == 0
  {
  }

  lemma Remainder(x: nat, q: nat, r: nat)
    requires x == SECTORS_PER_TRACK * q + r && r < SECTORS_PER_TRACK
    ensures x % SECTORS_PER_TRACK == r
  {
  }

  lemma Successor(x: nat)
    ensures (x + 1) % SECTORS_PER_TRACK
         == if x % SECTORS_PER_TRACK + 1 < SECTORS_PER_TRACK then x % SECTORS_PER_TRACK + 1 else 0
  {
    var q, r := x / SECTORS_PER_TRACK, x % SECTORS_PER_TRACK;
    if r + 1 < SECTORS_PER_TRACK {
      Remainder(x + 1, q, r + 1);
    } else {
      Remainder(x + 1, q + 1, 0);
    }
  }

  lemma NextSlot(i: nat, s: nat)
    requires Passes(i, s)
    ensures Passes(i + 1, s + 1)
  {
    Successor(i);
    Successor(s);
  }

  /** A request that misses the track buffer ends exactly when the sector has finished passing the head,
      in the first slot that starts after the seek. */
  lemma MissEndsWithSector(lastSector: nat, newSector: nat, now: nat, i: nat)
    ensures var end := now + MissLatency(lastSector, newSector, now);
            && end % ROTATION_TIME == 0 && end / ROTATION_TIME % SECTORS_PER_TRACK == (newSector + 1) % SECTORS_PER_TRACK
            && (i * ROTATION_TIME >= now + Seek(lastSector, newSector) && Passes(i, newSector) ==>
                  end <= (i + 1) * ROTATION_TIME)
  {
    hide Seek, Rotation, ModuloDiff, Passes;
    var after := TimeAfter(lastSector, newSector, now);
    var j := after / ROTATION_TIME;
    var d := ModuloDiff(newSector, j);
    SlotStart(after);
    NextPass(newSector, j, i);
    assert now + MissLatency(lastSector, newSector, now) == ROTATION_TIME * (j + d + 1);
    SlotNumber(j + d + 1);
    NextSlot(j + d, newSector);
    SamePass(j + d + 1, newSector + 1);
  }

  lemma SamePass(i: nat, s: nat)
    requires Passes(i, s)
    ensures i % SECTORS_PER_TRACK == s % SECTORS_PER_TRACK
  {
  }

  /** The track buffer serves a read of the current track exactly if, between the start of the
      buffering and the end of the current slot, the sector passes the head completely. */
  lemma HitMeansBuffered(lastSector: nat, bufferInit: nat, newSector: nat, now: nat)
    requires bufferInit <= now && bufferInit % ROTATION_TIME == 0 && Seek(lastSector, newSector) == 0
    ensures TrackBufferHit(lastSector, bufferInit, newSector, now, false) <==>
            exists j: nat :: Passes(j, newSector) && bufferInit <= j * ROTATION_TIME
                             && (j + 1) * ROTATION_TIME <= TimeAfter(lastSector, newSector, now)
  {
    var from, after := bufferInit / ROTATION_TIME, TimeAfter(lastSector, newSector, now);
    var d := ModuloDiff(newSector, from);
    NextPass(newSector, from, 0);
    if TrackBufferHit(lastSector, bufferInit, newSector, now, false) {
      assert Passes(from + d, newSector);
    }
    if j: nat :| Passes(j, newSector) && bufferInit <= j * ROTATION_TIME && (j + 1) * ROTATION_TIME <= after {
      NextPass(newSector, from, j);
    }
  }

  /** A hit takes one slot; that is never slower than the same request without the track buffer, and
      never done before the sector has passed. */
  lemma HitIsNotSlower(lastSector: nat, bufferInit: nat, newSector: nat, now: nat)
    requires bufferInit <= now && TrackBufferHit(lastSector, bufferInit, newSector, now, false)
    ensures ComputeLatency(lastSector, bufferInit, newSector, now, false) == ROTATION_TIME
    ensures ROTATION_TIME <= MissLatency(lastSector, newSector, now)
    ensures now + ROTATION_TIME > TimeAfter(lastSector, newSector, now)
  {
  }

  // ---------- When a request is done, without the formulas ----------

  predicate SameTrack(s: nat, t: nat) { s / SECTORS_PER_TRACK == t / SECTORS_PER_TRACK }

  /** Since the buffering started the sector has passed completely, counting the slot under way at `now`. */
  ghost predicate Buffered(sector: nat, bufferInit: nat, now: nat) {
    exists j: nat :: Passes(j, sector) && bufferInit <= ROTATION_TIME * j && ROTATION_TIME * (j + 1) < now + ROTATION_TIME
  }

  /** The end of the sector's first pass that starts at time `from` or later. */
  ghost predicate EndsFirstPass(end: nat, sector: nat, from: nat) {
    exists i: nat ::
      && Passes(i, sector) && from <= ROTATION_TIME * i && end == ROTATION_TIME * (i + 1)
      && forall k: nat :: Passes(k, sector) && from <= ROTATION_TIME * k ==> i <= k
  }

  /** The time at which the head has reached the sector's track. */
  function Arrival(lastSector: nat, sector: nat, now: nat): nat {
    now + SEEK_TIME * Abs(sector / SECTORS_PER_TRACK - lastSector / SECTORS_PER_TRACK)
  }

  lemma MissEndsFirstPass(lastSector: nat, sector: nat, now: nat)
    ensures EndsFirstPass(now + MissLatency(lastSector, sector, now), sector, Arrival(lastSector, sector, now))
  {
    hide Rotation, ModuloDiff, Passes;
    var from := Arrival(lastSector, sector, now);
    var after := TimeAfter(lastSector, sector, now);
    var j := after / ROTATION_TIME;
    var i := j + ModuloDiff(sector, j);
    SlotStart(after);
    NextPass(sector, j, 0);
    assert now + MissLatency(lastSector, sector, now) == ROTATION_TIME * (i + 1);
    assert from <= ROTATION_TIME * i;
    forall k: nat | Passes(k, sector) && from <= ROTATION_TIME * k
      ensures i <= k
    {
      assert after < ROTATION_TIME * (k + 1);
      NextPass(sector, j, k);
    }
  }

  lemma HitIffBuffered(lastSector: nat, bufferInit: nat, sector: nat, now: nat)
    requires bufferInit <= now && bufferInit % ROTATION_TIME == 0 && SameTrack(lastSector, sector)
    ensures TrackBufferHit(lastSector, bufferInit, sector, now, false) <==> Buffered(sector, bufferInit, now)
  {
    hide Rotation, ModuloDiff, Passes, TrackBufferHit;
    var after := TimeAfter(lastSector, sector, now);
    HitMeansBuffered(lastSector, bufferInit, sector, now);
    SlotStart(after);
    if TrackBufferHit(lastSector, bufferInit, sector, now, false) {
      var j: nat :| Passes(j, sector) && bufferInit <= j * ROTATION_TIME && (j + 1) * ROTATION_TIME <= after;
      assert ROTATION_TIME * (j + 1) < now + ROTATION_TIME;
    }
    if Buffered(sector, bufferInit, now) {
      var j: nat :| Passes(j, sector) && bufferInit <= ROTATION_TIME * j && ROTATION_TIME * (j + 1) < now + ROTATION_TIME;
      assert (j + 1) * ROTATION_TIME <= after;
      assert bufferInit <= j * ROTATION_TIME;
    }
  }

  /** A read of a buffered sector of the current track takes one slot. Every other request, and every
      write, ends with the sector's first pass after the seek. */
  lemma WhenDone(lastSector: nat, bufferInit: nat, sector: nat, now: nat, writing: bool)
    requires bufferInit <= now && bufferInit % ROTATION_TIME == 0
    ensures var ticks := ComputeLatency(lastSector, bufferInit, sector, now, writing);
            if !writing && SameTrack(lastSector, sector) && Buffered(sector, bufferInit, now) then ticks == ROTATION_TIME
            else EndsFirstPass(now + ticks, sector, Arrival(lastSector, sector, now))
  {
    hide Rotation, ModuloDiff, MissLatency, EndsFirstPass, Buffered;
    MissEndsFirstPass(lastSector, sector, now);
    if SameTrack(lastSector, sector) {
      HitIffBuffered(lastSector, bufferInit, sector, now);
    }
  }

  class Disk {
    var active: bool
    var lastSector: int
    var bufferInit: int
    ghost var doneAt: nat    // when the last request completes

    /** The track buffer starts filling at a slot boundary, before the request that moved the head is done. */
    ghost predicate Valid()
      reads this
    {
      IsSector(lastSector) && 0 <= bufferInit <= doneAt && bufferInit % ROTATION_TIME == 0
    }

    constructor ()
      ensures Valid() && !active && lastSector == 0 && bufferInit == 0 && doneAt == 0
    {
      active, lastSector, bufferInit, doneAt := false, 0, 0, 0;
    }

    method UpdateLast(newSector: nat, now: nat)
      requires Valid() && IsSector(newSector)
      modifies `lastSector, `bufferInit
      ensures lastSector == newSector
      ensures bufferInit == if Seek(old(lastSector), newSector) != 0
                            then TimeAfter(old(lastSector), newSector, now) else old(bufferInit)
    {
      if Seek(lastSector, newSector) != 0 {
        bufferInit := now + Seek(lastSector, newSector) + Rotation(lastSector, newSector, now);
      }
      lastSector := newSector;
    }

    /** `ReadRequest` and `WriteRequest`, but for the transfer itself; the interrupt is due after `ticks`.
        The clock never stands before the completion of the previous request. */
    method Request(newSector: nat, writing: bool, now: nat) returns (ticks: nat)
      requires Valid() && IsSector(newSector) && !active && doneAt <= now
      modifies this
      ensures Valid() && active && lastSector == newSector && doneAt == now + ticks
      ensures ticks == old(ComputeLatency(lastSector, bufferInit, newSector, now, writing)) > 0
      ensures if !writing && old(SameTrack(lastSector, newSector)) && old(Buffered(newSector, bufferInit, now))
              then ticks == ROTATION_TIME
              else EndsFirstPass(now + ticks, newSector, old(Arrival(lastSector, newSector, now)))
      ensures old(SameTrack(lastSector, newSector)) ==> bufferInit == old(bufferInit)
      ensures !old(SameTrack(lastSector, newSector)) ==>
                var arrival := old(Arrival(lastSector, newSector, now));
                bufferInit % ROTATION_TIME == 0 && arrival <= bufferInit < arrival + ROTATION_TIME
    {
      hide EndsFirstPass, Buffered, Rotation;
      WhenDone(lastSector, bufferInit, newSector, now, writing);
      ticks := ComputeLatency(lastSector, bufferInit, newSector, now, writing);
      LatencyBounds(lastSector, bufferInit, newSector, now, writing);
      active := true;
      UpdateLast(newSector, now);
      doneAt := now + ticks;
    }

    method CallBack(now: nat)
      requires Valid() && active && doneAt <= now
      modifies `active
      ensures Valid() && !active
    {
      active := false;
    }
  }
}
