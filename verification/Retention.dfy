/**
 Retention over the life of the store: fragments stamped within the window
 outlast appends, rolls, ticks and restarts, as long as the clock does not go back.
 */
module Retention {
  import opened Types
  import opened Bytes
  import opened Segment
  import opened BufferLog
  import opened ShardModel
  import B = Buffer
  import SW = SegmentWriter
  import Recovery

  /** No fragment is stamped after `clock`. */
  ghost predicate StampsBy(fs: seq<Frag>, clock: int) {
    forall i :: 0 <= i < |fs| ==> fs[i].stamp <= clock
  }

  /** Every fragment of `fs` stamped at or after `cutoff` is in `kept`, in order. */
  ghost predicate Keeps(fs: seq<Frag>, kept: seq<Frag>, cutoff: int) {
    exists n :: 0 <= n <= |fs| && kept == fs[n..] && B.AllBefore(fs[..n], cutoff)
  }

  /** What `Keeps` says of one fragment. */
  lemma KeptFragment(fs: seq<Frag>, kept: seq<Frag>, cutoff: int, i: nat)
    requires Keeps(fs, kept, cutoff) && i < |fs| && fs[i].stamp >= cutoff
    ensures fs[i] in kept
  {
    var n :| 0 <= n <= |fs| && kept == fs[n..] && B.AllBefore(fs[..n], cutoff);
    forall k | 0 <= k < n
      ensures fs[k].stamp < cutoff
    {
      assert fs[..n][k] == fs[k];
    }
    assert kept[i - n] == fs[i];
  }

  /** The worker's append: the stamp is clamped first, so no stamp is ever ahead of a clock that does not go back. */
  method AppendClamped(b: B.Buffer, id: TraceId, frag: seq<byte>, at: int, now: int, ghost before: int) returns (ok: bool)
    requires b.Valid() && SW.IsInt64(at) && SW.IsInt64(now) && before <= now
    requires StampsBy(b.LiveLog(), before)
    modifies b, b.idx, b.w
    ensures b.Valid() && StampsBy(b.LiveLog(), now)
    ensures b.LiveLog() == if ok then old(b.LiveLog()) + [Frag(Rec(id, frag), Clamp(at, now))] else old(b.LiveLog())
    ensures old(b.TimesCover()) ==> b.TimesCover()
  {
    hide B.Buffer.Valid, B.Buffer.LiveLog, B.Buffer.TimesCover;
    var stamp := if at > now then now else at;
    ok := b.Append(id, frag, stamp);
  }

  /** Expiry drops nothing stamped within the window. */
  method ExpireKeeps(b: B.Buffer, now: int, removable: nat -> bool, arenaCap: nat)
    requires b.Valid() && b.TimesCover()
    modifies b, b.idx
    ensures b.Valid() && b.TimesCover() && Keeps(old(b.LiveLog()), b.LiveLog(), now - b.window)
  {
    hide B.Buffer.Valid, B.Buffer.LiveLog, B.Buffer.TimesCover, B.AllBefore;
    var freed;
    ghost var n;
    freed, n := b.Expire(now, removable, arenaCap);
  }

  /**
   Retention does delete. When removals succeed, two expiries at the same time
   leave nothing in front of the first segment that ends within the window: a
   finalized segment at the front ends within it, and without one the active
   segment is empty, ends within it, or cannot be finalized. If nothing ends
   within the window, nothing is left.
   */
  method ExpireTwice(b: B.Buffer, now: int, arenaCap: nat)
    requires b.Valid()
    modifies b, b.idx
    ensures b.Valid() && b.oldest <= b.w.gen
    ensures b.oldest < b.w.gen ==> b.oldest in b.metas && b.metas[b.oldest].tMax >= now - b.window
    ensures b.oldest == b.w.gen && b.w.size > 0 ==> b.w.tMax >= now - b.window || b.w.tMin < 0 || b.w.tMax < 0
    ensures (forall g :: g in old(b.metas) ==> old(b.metas)[g].tMax < now - b.window)
            && (old(b.w.size) == 0 || (old(b.w.tMax) < now - b.window && old(b.w.tMin) >= 0 && old(b.w.tMax) >= 0))
            ==> b.LiveLog() == []
  {
    hide B.Buffer.Valid, B.Buffer.LiveLog, B.Buffer.TimesCover, B.AllBefore, FileSum;
    var any := (_: nat) => true;
    var first, second;
    ghost var n, k;
    first, n := b.Expire(now, any, arenaCap);
    second, k := b.Expire(now, any, arenaCap);
    b.AllRecorded();
    if b.oldest == b.w.gen && b.w.size == 0 {
      b.EmptyMeansNothingRetained();
    }
  }

  /**
   Restart and then expire: every fragment that survived the restart and is
   stamped at or after `now` minus the buffer's window is still there, in order.
   */
  method RestartThenExpire(b: B.Buffer, hash: (TraceId, nat) -> nat, gens: seq<nat>, cut: nat, reopened: int,
                           now: int, removable: nat -> bool, arenaCap: nat)
      returns (r: B.Buffer, ghost survivors: seq<Frag>)
    requires b.Valid() && b.TimesCover() && b.window > 0 && SW.IsInt64(reopened)
    requires Recovery.Lists(gens, b.oldest, b.w.gen)
    requires cut <= b.w.size && ReadFooter(b.crc, b.w.bytes[..cut]).None?
    requires StampsBy(b.LiveLog(), reopened)
    ensures survivors <= b.LiveLog() && (cut == b.w.size ==> survivors == b.LiveLog())
    ensures r.Valid() && r.TimesCover() && r.window == b.window
    ensures Keeps(survivors, r.LiveLog(), now - b.window)
  {
    hide B.Buffer.Valid, B.Buffer.LiveLog, B.Buffer.TimesCover, Recovery.Lists, ReadFooter, Fitting, Keeps;
    ActiveStamps(b, reopened);
    hide StampsBy;
    var o := Recovery.Restart(b, hash, gens, cut, reopened);
    r := o.value;
    survivors := r.LiveLog();
    ExpireKeeps(r, now, removable, arenaCap);
  }

  lemma ActiveStamps(b: B.Buffer, clock: int)
    requires b.Valid() && StampsBy(b.LiveLog(), clock)
    ensures forall i :: 0 <= i < |b.w.frags| ==> b.w.frags[i].stamp <= clock
  {
    hide B.Buffer.Valid, B.Buffer.LiveLog;
    ActiveIsLive(b);
  }

  /** The active segment's fragments are the last of the retained list. */
  lemma ActiveIsLive(b: B.Buffer)
    requires b.Valid()
    ensures forall i :: 0 <= i < |b.w.frags| ==> b.w.frags[i] in b.LiveLog()
  {
    hide B.Rep, LiveFrom;
    OldestFirst(b);
    LastSegment(b.segs, b.oldest, b.w.gen);
  }

  lemma OldestFirst(b: B.Buffer)
    requires b.Valid()
    ensures b.oldest <= b.w.gen
  {
  }

  lemma {:induction false} LastSegment(segs: Segs, g: nat, hi: nat)
    requires g <= hi
    ensures forall i :: 0 <= i < |Seg(segs, hi)| ==> Seg(segs, hi)[i] in LiveFrom(segs, g, hi)
    decreases hi - g
  {
    if g == hi {
      LiveOfOne(segs, hi, 0);
    } else {
      LastSegment(segs, g + 1, hi);
    }
  }
}
