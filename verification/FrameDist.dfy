/**
 The frame allocator (src/kernel/memory/frame_dist.c:19-85): a list threaded through the free frames
 themselves. Frames go by their number, the address divided by 4096. The last frame of the list is
 never handed out.
 */
module FrameDist {
  import opened Marks
  import opened SetFacts

  class Frames {
    const start: nat                  // the first frame of the free memory
    const end: nat                    // the first one behind it
    var link: map<nat, nat>           // the first word of every free frame: the next free frame, or 0
    var mem_ptr: nat
    var mem_usage: nat
    var mem_total: nat
    ghost var free: seq<nat>

    ghost predicate Valid()
      reads this
    {
      && 0 < start && free != [] && mem_ptr == free[0] && mem_usage + |free| == mem_total == end - start
      && Threaded(link, free)
      && forall i :: 0 <= i < |free| ==> start <= free[i] < end
    }

    /** init_frames */
    constructor (first: nat, n: nat)
      requires n > 0 && first > 0
      ensures Valid() && start == first && end == first + n && mem_usage == 0
      ensures |free| == n && forall i :: 0 <= i < n ==> free[i] == first + i
    {
      start, end := first, first + n;
      mem_ptr, mem_usage, mem_total := first, 0, n;
      free := seq(n, i requires 0 <= i < n => first + i);
      var words: map<nat, nat> := map[];
      var curptr := first;
      while curptr + 1 < first + n
        invariant first <= curptr < first + n
        invariant forall a :: first <= a < curptr ==> a in words && words[a] == a + 1
      {
        words := words[curptr := curptr + 1];
        curptr := curptr + 1;
      }
      link := words[curptr := 0];
    }

    /** get_remaining_frames: one more than can be had. */
    method GetRemaining() returns (n: nat)
      requires Valid()
      ensures n == |free|
    {
      n := mem_total - mem_usage;
    }

    /** get_frame: the first free frame, unless it is the last one left. */
    method GetFrame() returns (frame: nat)
      requires Valid()
      modifies this`mem_ptr, this`mem_usage, this`free
      ensures Valid()
      ensures frame == 0 <==> |old(free)| == 1
      ensures frame == 0 ==> free == old(free) && mem_usage == old(mem_usage)
      ensures frame != 0 ==> frame == old(free)[0] && free == old(free)[1..] && mem_usage == old(mem_usage) + 1
      ensures frame != 0 ==> start <= frame < end && frame in old(free) && frame !in free
    {
      LastIsMarked(link, free);
      if link[mem_ptr] == 0 {
        return 0;
      }
      mem_usage := mem_usage + 1;
      frame := mem_ptr;
      mem_ptr := link[frame];
      TailThreaded(link, free);
      free := free[1..];
    }

    /**
     release_frame. A frame outside the memory is ignored - but the frame just behind the end passes the
     test and joins the list, and so does a frame that is free already.
     */
    method ReleaseFrame(frame: nat)
      requires Valid()
      modifies this
      ensures Valid() <==> frame != end && frame !in old(free)
      ensures if start <= frame <= end
        then free == [frame] + old(free) && mem_ptr == frame && mem_usage == OneLess(old(mem_usage))
        else free == old(free) && mem_usage == old(mem_usage)
    {
      if frame < start || frame > end {
        return;
      }
      SomeInUse(start, end, free, frame);
      mem_usage := OneLess(mem_usage);
      var temp := mem_ptr;
      mem_ptr := frame;
      HeadThreaded(link, free, frame);
      link := link[frame := temp];
      free := [frame] + free;
    }
  }

  /** Every free frame holds the number of the next one. */
  ghost predicate Threaded(link: map<nat, nat>, free: seq<nat>) {
    && (forall i {:trigger free[i]} :: 0 <= i < |free| ==>
        free[i] > 0 && free[i] in link && link[free[i]] == if i + 1 < |free| then free[i + 1] else 0)
    && forall i, j {:trigger Pair(i, j)} :: Pair(i, j) && 0 <= i < j < |free| ==> free[i] != free[j]
  }

  lemma LastIsMarked(link: map<nat, nat>, free: seq<nat>)
    requires free != [] && Threaded(link, free)
    ensures free[0] in link && (link[free[0]] == 0 <==> |free| == 1) && (|free| > 1 ==> link[free[0]] == free[1])
  {
    if |free| > 1 {
      assert free[1] > 0;
    }
  }

  lemma TailThreaded(link: map<nat, nat>, free: seq<nat>)
    requires free != [] && Threaded(link, free)
    ensures Threaded(link, free[1..]) && free[0] !in free[1..]
  {
    forall i, j | 0 <= i < j < |free| - 1 ensures free[1..][i] != free[1..][j] {
      assert Pair(i + 1, j + 1);
    }
    forall j | 0 <= j < |free| - 1 ensures free[1..][j] != free[0] {
      assert Pair(0, j + 1);
    }
  }

  lemma HeadThreaded(link: map<nat, nat>, free: seq<nat>, frame: nat)
    requires free != [] && Threaded(link, free) && frame > 0
    ensures Threaded(link[frame := free[0]], [frame] + free) <==> frame !in free
  {
    var u := [frame] + free;
    if j: nat :| j < |free| && free[j] == frame {
      assert Pair(0, j + 1) && u[0] == u[j + 1];
    } else {
      forall i, j | 0 <= i < j < |u| ensures u[i] != u[j] {
        assert Pair(i - 1, j - 1) && u[j] == free[j - 1];
      }
    }
  }

  /** The decrement of an unsigned long. */
  function OneLess(n: nat): nat {
    if n == 0 then 0xFFFF_FFFF_FFFF_FFFF else n - 1
  }

  /** When a frame of the memory is not free, not all of them are. */
  lemma SomeInUse(start: nat, end: nat, free: seq<nat>, frame: nat)
    requires NoDup(free) && forall i :: 0 <= i < |free| ==> start <= free[i] < end
    ensures start <= frame < end && frame !in free ==> |free| < end - start
  {
    if start <= frame < end && frame !in free {
      assert ToSet(free) + {frame} <= Interval(start, end);
      SetSize(free);
      SubsetSize(ToSet(free) + {frame}, Interval(start, end));
    }
  }

  ghost function Interval(start: nat, end: nat): (r: set<nat>)
    requires start <= end
    ensures |r| == end - start && forall f :: f in r <==> start <= f < end
    decreases end
  {
    if start == end then {} else Interval(start, end - 1) + {end - 1}
  }
}
