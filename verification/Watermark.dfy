/**
 One shard's tick on its buffer: window expiry, the disk report, then the
 watermark rung, which sacrifices the oldest segments but never past the floor.
 */
module Watermark {
  import opened DiskLadder
  import B = Buffer

  /** The Set-wide disk total. */
  class DiskTotal {
    var bytes: int

    constructor ()
      ensures bytes == 0
    {
      bytes := 0;
    }
  }

  /** One map is the other, restricted. */
  ghost predicate PartOf<T(!new)>(part: map<nat, T>, whole: map<nat, T>) {
    forall g :: g in part ==> g in whole && part[g] == whole[g]
  }

  class Ladder {
    const buf: B.Buffer
    const all: DiskTotal
    const limit: int
    const windowFloor: int
    var lastDiskBytes: int
    var cause: Cause

    constructor (buf: B.Buffer, all: DiskTotal, limit: int, windowFloor: int)
      ensures this.buf == buf && this.all == all && this.limit == limit && this.windowFloor == windowFloor
      ensures lastDiskBytes == 0 && cause == FloorClear
    {
      this.buf, this.all, this.limit, this.windowFloor := buf, all, limit, windowFloor;
      lastDiskBytes, cause := 0, FloorClear;
    }

    /** Publish the change in this shard's disk use since its last report. */
    method ReportDisk()
      requires buf.Valid()
      modifies this`lastDiskBytes, all
      ensures lastDiskBytes == buf.Disk()
      ensures all.bytes - lastDiskBytes == old(all.bytes - lastDiskBytes)
    {
      hide B.Buffer.Valid;
      var cur := buf.DiskBytes();
      all.bytes := all.bytes + (cur - lastDiskBytes);
      lastDiskBytes := cur;
    }

    /**
     Sacrifice oldest segments while the total is above the watermark. Whatever is
     deleted was stamped before the floor, and the cause says why the loop stopped.
     */
    method WatermarkRung(now: int, removable: nat -> bool) returns (ghost n: nat)
      requires buf.Valid() && lastDiskBytes == buf.Disk()
      modifies this`lastDiskBytes, this`cause, all, buf`readers, buf`metas, buf`finalizedBytes, buf`minGen, buf`segs, buf`oldest
      ensures buf.Valid() && lastDiskBytes == buf.Disk()
      ensures all.bytes - lastDiskBytes == old(all.bytes - lastDiskBytes)
      ensures B.Drops(old(buf.LiveLog()), buf.LiveLog(), n, now - windowFloor, old(buf.TimesCover()))
      ensures old(buf.TimesCover()) ==> buf.TimesCover()
      ensures cause.FloorClear? <==> all.bytes <= limit
      ensures cause.FloorProtected? ==> buf.oldest in buf.metas && buf.metas[buf.oldest].tMax >= now - windowFloor
      ensures cause.NothingReclaimable? ==> buf.oldest >= buf.w.gen || !removable(buf.oldest)
      ensures old(buf.oldest) <= buf.oldest && B.ExpiredRun(old(buf.metas), old(buf.oldest), buf.oldest, now - windowFloor, removable)
      ensures old(all.bytes) <= limit ==> n == 0 && buf.oldest == old(buf.oldest) && all.bytes == old(all.bytes)
      ensures buf.oldest > old(buf.oldest) ==> buf.oldest - 1 in old(buf.readers) && all.bytes + |old(buf.readers)[buf.oldest - 1]| > limit
    {
      hide B.Buffer.Valid, B.Buffer.TimesCover, B.Buffer.LiveLog, B.Drops, B.Buffer.Disk;
      n := 0;
      B.DropsNone(buf.LiveLog(), now - windowFloor, buf.TimesCover());
      cause := FloorClear;
      while all.bytes > limit && cause.FloorClear?
        invariant buf.Valid() && lastDiskBytes == buf.Disk()
        invariant all.bytes - lastDiskBytes == old(all.bytes - lastDiskBytes)
        invariant B.Drops(old(buf.LiveLog()), buf.LiveLog(), n, now - windowFloor, old(buf.TimesCover()))
        invariant old(buf.TimesCover()) ==> buf.TimesCover()
        invariant !cause.FloorClear? ==> all.bytes > limit
        invariant cause.FloorProtected? ==> buf.oldest in buf.metas && buf.metas[buf.oldest].tMax >= now - windowFloor
        invariant cause.NothingReclaimable? ==> buf.oldest >= buf.w.gen || !removable(buf.oldest)
        invariant old(buf.oldest) <= buf.oldest && B.ExpiredRun(old(buf.metas), old(buf.oldest), buf.oldest, now - windowFloor, removable)
        invariant PartOf(buf.metas, old(buf.metas)) && PartOf(buf.readers, old(buf.readers))
        invariant old(all.bytes) <= limit ==> n == 0 && buf.oldest == old(buf.oldest) && all.bytes == old(all.bytes)
        invariant buf.oldest > old(buf.oldest) ==> buf.oldest - 1 in old(buf.readers) && all.bytes + |old(buf.readers)[buf.oldest - 1]| > limit
        decreases cause.FloorClear?, buf.w.gen - buf.oldest
      {
        ghost var mid, still := buf.LiveLog(), buf.TimesCover();
        ghost var k := SacrificeOldest(now - windowFloor, removable);
        B.DropsMore(old(buf.LiveLog()), mid, buf.LiveLog(), n, k, now - windowFloor, old(buf.TimesCover()), still);
        n := n + k;
      }
    }

    /** One turn of the rung: delete the oldest segment, or say why not. */
    method SacrificeOldest(floorCutoff: int, removable: nat -> bool) returns (ghost k: nat)
      requires buf.Valid() && lastDiskBytes == buf.Disk() && cause.FloorClear?
      modifies this`lastDiskBytes, this`cause, all, buf`readers, buf`metas, buf`finalizedBytes, buf`minGen, buf`segs, buf`oldest
      ensures buf.Valid() && lastDiskBytes == buf.Disk()
      ensures all.bytes - lastDiskBytes == old(all.bytes - lastDiskBytes)
      ensures B.Drops(old(buf.LiveLog()), buf.LiveLog(), k, floorCutoff, old(buf.TimesCover()))
      ensures old(buf.TimesCover()) ==> buf.TimesCover()
      ensures !cause.FloorClear? ==> all.bytes == old(all.bytes) && buf.oldest == old(buf.oldest) && buf.metas == old(buf.metas) && buf.readers == old(buf.readers)
      ensures cause.FloorClear? ==> old(buf.oldest) < buf.w.gen && buf.oldest == old(buf.oldest) + 1
      ensures cause.FloorClear? ==> old(buf.oldest) in old(buf.metas) && buf.metas == old(buf.metas) - {old(buf.oldest)}
                                    && old(buf.metas)[old(buf.oldest)].tMax < floorCutoff && removable(old(buf.oldest))
      ensures cause.FloorClear? ==> old(buf.oldest) in old(buf.readers) && buf.readers == old(buf.readers) - {old(buf.oldest)}
                                    && all.bytes == old(all.bytes) - |old(buf.readers)[old(buf.oldest)]|
      ensures cause.FloorProtected? ==> buf.oldest in buf.metas && buf.metas[buf.oldest].tMax >= floorCutoff
      ensures cause.NothingReclaimable? ==> buf.oldest >= buf.w.gen || !removable(buf.oldest)
    {
      hide B.Buffer.Valid, B.Buffer.TimesCover, B.Buffer.LiveLog, B.AllBefore;
      k := 0;
      B.NoneBefore(buf.LiveLog()[..0], floorCutoff);
      var tMax, found := buf.OldestFinalizedTMax();
      if !found {
        cause := NothingReclaimable;
        return;
      }
      if tMax >= floorCutoff {
        cause := FloorProtected;
        return;
      }
      var freed, removed;
      freed, removed, k := buf.ExpireOldest(removable);
      if !removed {
        cause := NothingReclaimable;
        return;
      }
      all.bytes := all.bytes - freed;
      lastDiskBytes := lastDiskBytes - freed;
      if old(buf.TimesCover()) {
        B.AllBeforeWeaken(old(buf.LiveLog())[..k], tMax + 1, floorCutoff);
      }
    }

    /**
     The storage half of a tick. Expiry deletes nothing stamped within the window,
     the rung nothing within the floor, and afterwards this shard's report is exact.
     */
    method Tick(now: int, removable: nat -> bool, arenaCap: nat) returns (ghost n: nat)
      requires buf.Valid() && windowFloor <= buf.window
      modifies this, all, buf, buf.idx
      ensures buf.Valid() && lastDiskBytes == buf.Disk()
      ensures all.bytes - lastDiskBytes == old(all.bytes - lastDiskBytes)
      ensures B.Drops(old(buf.LiveLog()), buf.LiveLog(), n, now - windowFloor, old(buf.TimesCover()))
      ensures old(buf.TimesCover()) ==> buf.TimesCover()
      ensures cause.FloorClear? <==> all.bytes <= limit
      ensures buf.oldest >= B.FirstStaying(old(buf.metas), old(buf.oldest), old(buf.w.gen), now - buf.window, removable)
    {
      hide B.Buffer.Valid, B.Buffer.TimesCover, B.Buffer.LiveLog, B.Buffer.Disk, B.Drops, B.FirstStaying, B.ExpiredRun, B.Stays;
      ghost var log, covered := buf.LiveLog(), buf.TimesCover();
      ghost var a := ExpireWindow(now, removable, arenaCap);
      ghost var mid, still := buf.LiveLog(), buf.TimesCover();
      ghost var b := WatermarkRung(now, removable);
      B.DropsMore(log, mid, buf.LiveLog(), a, b, now - windowFloor, covered, still);
      n := a + b;
    }

    method ExpireWindow(now: int, removable: nat -> bool, arenaCap: nat) returns (ghost n: nat)
      requires buf.Valid() && windowFloor <= buf.window
      modifies this`lastDiskBytes, all, buf, buf.idx
      ensures buf.Valid() && lastDiskBytes == buf.Disk()
      ensures all.bytes - lastDiskBytes == old(all.bytes - lastDiskBytes)
      ensures B.Drops(old(buf.LiveLog()), buf.LiveLog(), n, now - windowFloor, old(buf.TimesCover()))
      ensures old(buf.TimesCover()) ==> buf.TimesCover()
      ensures buf.oldest == B.FirstStaying(old(buf.metas), old(buf.oldest), old(buf.w.gen), now - buf.window, removable)
    {
      hide B.Buffer.Valid, B.Buffer.TimesCover, B.Buffer.LiveLog, B.Buffer.Disk, B.AllBefore, B.ExpiredRun, B.FirstStaying;
      var freed;
      freed, n := buf.Expire(now, removable, arenaCap);
      B.FirstStayingIs(old(buf.metas), old(buf.oldest), buf.oldest, old(buf.w.gen), now - buf.window, removable);
      if old(buf.TimesCover()) {
        B.AllBeforeWeaken(old(buf.LiveLog())[..n], now - buf.window, now - windowFloor);
      }
      ReportDisk();
    }
  }
}
