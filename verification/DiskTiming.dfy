/**
 How long a disk request takes (machine/disk.cc).  The reference is the turning disk itself: during
 ticks 500*j to 500*(j+1) the head passes the sector at offset j modulo 32 of whatever track it is on.
 */
module DiskTiming {
  const ROTATION_TIME: int := 500
  const SEEK_TIME: int := 500
  const SECTORS_PER_TRACK: int := 32
  const NUM_SECTORS: int := 1024

  /** Turn `j` of the disk passes the whole of `sector` between the two times. */
  predicate Sweeps(sector: int, j: int, from: int, to: int) {
    from <= ROTATION_TIME * j && ROTATION_TIME * (j + 1) <= to && j % SECTORS_PER_TRACK == sector % SECTORS_PER_TRACK
  }

  /** Some turn passes the whole of the sector between the two times. */
  ghost predicate Swept(sector: int, from: int, to: int) { exists j :: Sweeps(sector, j, from, to) }

  function Abs(x: int): int { if x < 0 then -x else x }

  function SeekTicks(lastSector: int, newSector: int): int {
    Abs(newSector / SECTORS_PER_TRACK - lastSector / SECTORS_PER_TRACK) * SEEK_TIME
  }

  /** A seek takes 500 ticks for each track it crosses, whichever way: sector 32*t+o is on track t. */
  lemma SeekDistance(t1: int, o1: int, t2: int, o2: int)
    requires 0 <= o1 < 32 && 0 <= o2 < 32
    ensures SeekTicks(32 * t1 + o1, 32 * t2 + o2) == if t2 >= t1 then 500 * (t2 - t1) else 500 * (t1 - t2)
  {
    assert (32 * t1 + o1) / SECTORS_PER_TRACK == t1 && (32 * t2 + o2) / SECTORS_PER_TRACK == t2;
  }

  /** Ticks from a moment to the next sector boundary. */
  function Rotation(time: int): (r: int)
    ensures 0 <= r < ROTATION_TIME && (time + r) % ROTATION_TIME == 0
  {
    var over := time % ROTATION_TIME;
    if over > 0 then ROTATION_TIME - over else 0
  }

  function ModuloDiff(to: int, from: int): int {
    (to % SECTORS_PER_TRACK - from % SECTORS_PER_TRACK + SECTORS_PER_TRACK) % SECTORS_PER_TRACK
  }

  /** `ModuloDiff` is how many turns until the head next comes to a sector. */
  lemma NextTurn(to: int, from: int, j: int)
    ensures 0 <= ModuloDiff(to, from) < SECTORS_PER_TRACK
    ensures (from + ModuloDiff(to, from)) % SECTORS_PER_TRACK == to % SECTORS_PER_TRACK
    ensures j >= from && j % SECTORS_PER_TRACK == to % SECTORS_PER_TRACK ==> j >= from + ModuloDiff(to, from)
  {
    var p, q, a, b := j / SECTORS_PER_TRACK, from / SECTORS_PER_TRACK, from % SECTORS_PER_TRACK, to % SECTORS_PER_TRACK;
    var d := if a <= b then b - a else b - a + SECTORS_PER_TRACK;
    assert ModuloDiff(to, from) == d;
    assert from == SECTORS_PER_TRACK * q + a && j == SECTORS_PER_TRACK * p + j % SECTORS_PER_TRACK;
    assert from + d == SECTORS_PER_TRACK * (if a <= b then q else q + 1) + b;
    if p < q {
      assert j < from;
    }
  }

  predicate BufferHit(now: int, lastSector: int, bufferInit: int, newSector: int, writing: bool) {
    !writing && SeekTicks(lastSector, newSector) == 0
    && (now + Rotation(now) - bufferInit) / ROTATION_TIME > ModuloDiff(newSector, bufferInit / ROTATION_TIME)
  }

  function Latency(now: int, lastSector: int, bufferInit: int, newSector: int, writing: bool): int {
    var seek := SeekTicks(lastSector, newSector);
    var rotation := Rotation(now + seek);
    if BufferHit(now, lastSector, bufferInit, newSector, writing) then ROTATION_TIME
    else
      var head := (now + seek + rotation) / ROTATION_TIME;
      seek + rotation + ModuloDiff(newSector, head) * ROTATION_TIME + ROTATION_TIME
  }

  /** Without the buffer, a request is done exactly when the head has first passed the whole sector after the seek. */
  lemma EarliestSweep(now: int, lastSector: int, bufferInit: int, newSector: int, writing: bool, done: int)
    requires now >= 0 && 0 <= lastSector < NUM_SECTORS && 0 <= newSector < NUM_SECTORS
    requires !BufferHit(now, lastSector, bufferInit, newSector, writing)
    ensures Swept(newSector, now + SeekTicks(lastSector, newSector), done)
            <==> now + Latency(now, lastSector, bufferInit, newSector, writing) <= done
  {
    var start := now + SeekTicks(lastSector, newSector);
    var first := (start + Rotation(start)) / ROTATION_TIME;
    var turn := first + ModuloDiff(newSector, first);
    NextTurn(newSector, first, first);
    hide ModuloDiff;
    assert now + Latency(now, lastSector, bufferInit, newSector, writing) == ROTATION_TIME * (turn + 1);
    if ROTATION_TIME * (turn + 1) <= done {
      assert Sweeps(newSector, turn, start, done);
    }
    if j :| Sweeps(newSector, j, start, done) {
      NextTurn(newSector, first, j);
      assert j >= first;
    }
  }

  /**
   The buffer test succeeds for a read of the same track exactly when the sector has passed since the buffer
   was started.
   */
  lemma BufferHoldsSector(now: int, lastSector: int, bufferInit: int, newSector: int)
    requires 0 <= bufferInit && bufferInit % ROTATION_TIME == 0 && now >= 0
    requires lastSector / SECTORS_PER_TRACK == newSector / SECTORS_PER_TRACK
    ensures BufferHit(now, lastSector, bufferInit, newSector, false)
            <==> Swept(newSector, bufferInit, now + Rotation(now))
  {
    var end := now + Rotation(now);
    var a, b := end / ROTATION_TIME, bufferInit / ROTATION_TIME;
    var turn := b + ModuloDiff(newSector, b);
    NextTurn(newSector, b, b);
    hide ModuloDiff;
    assert (end - bufferInit) / ROTATION_TIME == a - b;
    if a - b > turn - b {
      assert Sweeps(newSector, turn, bufferInit, end);
    }
    if j :| Sweeps(newSector, j, bufferInit, end) {
      NextTurn(newSector, b, j);
    }
  }

  /** Every request takes between 500 and 31999 ticks, and both ends occur. */
  lemma LatencyBounds(now: int, lastSector: int, bufferInit: int, newSector: int, writing: bool)
    requires now >= 0 && 0 <= lastSector < NUM_SECTORS && 0 <= newSector < NUM_SECTORS
    ensures 500 <= Latency(now, lastSector, bufferInit, newSector, writing) <= 31999
  {
    var seek := SeekTicks(lastSector, newSector);
    NextTurn(newSector, (now + seek + Rotation(now + seek)) / ROTATION_TIME, 0);
    hide ModuloDiff;
  }

  ghost predicate RightLatency(now: int, lastSector: int, bufferInit: int, newSector: int, writing: bool, ticks: int) {
    var start := now + SeekTicks(lastSector, newSector);
    if !writing && start == now && Swept(newSector, bufferInit, now + Rotation(now)) then ticks == ROTATION_TIME
    else Swept(newSector, start, now + ticks) && forall t :: t < now + ticks ==> !Swept(newSector, start, t)
  }

  /** The whole meaning of a latency, whatever the state the disk can be in. */
  lemma LatencyMeaning(now: int, lastSector: int, bufferInit: int, newSector: int, writing: bool)
    requires now >= 0 && 0 <= lastSector < NUM_SECTORS && 0 <= newSector < NUM_SECTORS
    requires 0 <= bufferInit && bufferInit % ROTATION_TIME == 0
    ensures RightLatency(now, lastSector, bufferInit, newSector, writing,
              Latency(now, lastSector, bufferInit, newSector, writing))
    ensures now + SeekTicks(lastSector, newSector) + Rotation(now + SeekTicks(lastSector, newSector))
            <= now + Latency(now, lastSector, bufferInit, newSector, writing)
  {
    LatencyBounds(now, lastSector, bufferInit, newSector, writing);
    var start := now + SeekTicks(lastSector, newSector);
    var ticks := Latency(now, lastSector, bufferInit, newSector, writing);
    if !writing && start == now {
      BufferHoldsSector(now, lastSector, bufferInit, newSector);
    }
    if !BufferHit(now, lastSector, bufferInit, newSector, writing) {
      forall t
        ensures Swept(newSector, start, t) <==> now + ticks <= t
      {
        EarliestSweep(now, lastSector, bufferInit, newSector, writing, t);
      }
      NextTurn(newSector, (start + Rotation(start)) / ROTATION_TIME, 0);
    }
  }

  lemma BoundsReached()
    ensures Latency(0, 0, 0, 0, true) == 500 && Latency(1, 0, 0, 1023, true) == 31999
  {
  }

  // ---- the device ----

  /**
   The disk's registers; `idleFrom` is when the latest request completes, `onTrackSince` when the head reached
   its track.
   */
  class Disk {
    var active: bool
    var lastSector: int
    var bufferInit: int
    ghost var idleFrom: int
    ghost var onTrackSince: int

    /** The buffer was started at the first sector boundary after the head came to its present track. */
    ghost predicate Valid()
      reads this
    {
      && 0 <= lastSector < NUM_SECTORS && 0 <= onTrackSince
      && bufferInit == onTrackSince + Rotation(onTrackSince) <= idleFrom
    }

    constructor ()
      ensures Valid() && !active && idleFrom == 0 && onTrackSince == 0 && lastSector == 0
    {
      active, lastSector, bufferInit := false, 0, 0;
      idleFrom, onTrackSince := 0, 0;
    }

    method TimeToSeek(newSector: int, now: int) returns (seek: int, rotation: int)
      requires Valid() && 0 <= newSector < NUM_SECTORS && now >= 0
      ensures seek == SeekTicks(lastSector, newSector) && rotation == Rotation(now + seek)
    {
      var newTrack, oldTrack := newSector / SECTORS_PER_TRACK, lastSector / SECTORS_PER_TRACK;
      seek := Abs(newTrack - oldTrack) * SEEK_TIME;
      var over := (now + seek) % ROTATION_TIME;
      rotation := 0;
      if over > 0 {
        rotation := ROTATION_TIME - over;
      }
    }

    method ComputeLatency(newSector: int, writing: bool, now: int) returns (ticks: int)
      requires Valid() && 0 <= newSector < NUM_SECTORS && now >= 0
      ensures ticks == Latency(now, lastSector, bufferInit, newSector, writing)
    {
      var seek, rotation := TimeToSeek(newSector, now);
      var timeAfter := now + seek + rotation;
      if !writing && seek == 0
        && (timeAfter - bufferInit) / ROTATION_TIME > ModuloDiff(newSector, bufferInit / ROTATION_TIME) {
        return ROTATION_TIME;
      }
      rotation := rotation + ModuloDiff(newSector, timeAfter / ROTATION_TIME) * ROTATION_TIME;
      ticks := seek + rotation + ROTATION_TIME;
    }

    method UpdateLast(newSector: int, now: int)
      requires Valid() && 0 <= newSector < NUM_SECTORS && 0 <= now && idleFrom <= now
      modifies this`lastSector, this`bufferInit, this`onTrackSince
      ensures lastSector == newSector
      ensures var seek := SeekTicks(old(lastSector), newSector);
              onTrackSince == if seek == 0 then old(onTrackSince) else now + seek
      ensures bufferInit == onTrackSince + Rotation(onTrackSince)
    {
      var seek, rotate := TimeToSeek(newSector, now);
      if seek != 0 {
        bufferInit := now + seek + rotate;
        onTrackSince := now + seek;
      }
      lastSector := newSector;
    }

    /**
     One request.  On every run of requests, a read of the present track whose sector has passed since the buffer
     was started takes one transfer time; any other request ends at the first complete pass of its sector
     after the seek.
     */
    method Request(newSector: int, writing: bool, now: int) returns (ticks: int)
      requires Valid() && !active && idleFrom <= now && 0 <= now && 0 <= newSector < NUM_SECTORS
      modifies this
      ensures Valid() && active && lastSector == newSector && idleFrom == now + ticks && 500 <= ticks <= 31999
      ensures RightLatency(now, old(lastSector), old(bufferInit), newSector, writing, ticks)
    {
      ticks := ComputeLatency(newSector, writing, now);
      LatencyBounds(now, lastSector, bufferInit, newSector, writing);
      LatencyMeaning(now, lastSector, bufferInit, newSector, writing);
      UpdateLast(newSector, now);
      active := true;
      idleFrom := now + ticks;
    }

    /** The completion interrupt, never early. */
    method CallBack(now: int)
      requires Valid() && active && idleFrom <= now
      modifies this`active
      ensures Valid() && !active
    {
      active := false;
    }
  }
}
