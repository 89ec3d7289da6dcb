/** The process table: a list of all tasks, and hash lists to find them by pid. */
module TaskTable {
  import opened Errors
  import opened Sequences

  datatype Phase = Sleeping | Runnable | Running | Zombie

  const BUCKETS := 1024

  /** The top ten bits of the 32-bit product with the golden-ratio constant. */
  function PidHash(pid: nat): (h: nat)
    ensures h < BUCKETS
  {
    pid * 0x61C88647 % 0x1_0000_0000 / 0x40_0000
  }

  /** The buckets of some pids. */
  lemma HashValues()
    ensures BUCKETS == 1 + 1023 && PidHash(0) == 0 && PidHash(1) == 391 && PidHash(2) == 782 && PidHash(3) == 149
  {
  }

  /** Searching the whole list, the way that needs no table. */
  function LinearFind(procs: seq<nat>, pid: int): Option<nat> {
    if procs == [] then None else if procs[0] == pid then Some(procs[0]) else LinearFind(procs[1..], pid)
  }

  lemma {:induction false} LinearFinds(procs: seq<nat>, pid: int)
    ensures LinearFind(procs, pid) == if pid >= 0 && pid in procs then Some(pid) else None
  {
    if procs != [] {
      LinearFinds(procs[1..], pid);
    }
  }

  class Table {
    var buckets: seq<seq<nat>>
    var procs: seq<nat>
    var count: nat

    /** Every listed task is in the bucket of its pid and in no other, and the count is right. */
    ghost predicate Valid()
      reads this
    {
      && |buckets| == BUCKETS && NoRepeat(procs) && count == |procs|
      && (forall b :: 0 <= b < BUCKETS ==> NoRepeat(buckets[b]))
      && forall b, x :: 0 <= b < BUCKETS ==> (x in buckets[b] <==> x in procs && PidHash(x) == b)
    }

    /** A task that is not listed is in no bucket. */
    lemma Gone(pid: nat)
      requires Valid() && pid !in procs
      ensures |buckets| == BUCKETS && forall b :: 0 <= b < BUCKETS ==> pid !in buckets[b]
    {
    }

    constructor ()
      ensures Valid() && procs == []
    {
      buckets, procs, count := seq(BUCKETS, _ => []), [], 0;
    }

    method Add(pid: nat)
      requires Valid() && pid !in procs
      modifies this
      ensures Valid() && procs == [pid] + old(procs)
    {
      hide PidHash;
      var h := PidHash(pid);
      buckets := buckets[h := [pid] + buckets[h]];
      procs := [pid] + procs;
      count := count + 1;
    }

    method Remove(pid: nat)
      requires Valid() && pid in procs
      modifies this
      ensures Valid() && procs == Without(old(procs), pid) && forall x :: x in procs <==> x in old(procs) && x != pid
    {
      hide PidHash;
      var h := PidHash(pid);
      WithoutOne(buckets[h], pid);
      WithoutOne(procs, pid);
      WithoutLength(procs, pid);
      buckets := buckets[h := Without(buckets[h], pid)];
      procs := Without(procs, pid);
      count := count - 1;
    }

    /** For positive pids the hash list finds what a search of the whole list would. */
    method Find(pid: int) returns (r: Option<nat>)
      requires Valid()
      ensures r == if pid <= 0 then None else LinearFind(procs, pid)
    {
      hide PidHash;
      LinearFinds(procs, pid);
      if pid <= 0 {
        return None;
      }
      var list := buckets[PidHash(pid)];
      for i := 0 to |list|
        invariant pid !in list[..i]
      {
        if list[i] == pid {
          assert pid in list;
          return Some(list[i]);
        }
      }
      assert list[..|list|] == list;
      return None;
    }
  }
}
