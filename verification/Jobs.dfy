/** The list of background jobs in the shell, and what is done with it: jobs are added at its end,
    removed by process group, suspended, and resumed by number. */
module Jobs {
  import opened Bytes
  import Parser

  const RUNNING := 0
  const SUSPENDED := 1

  /** What a node of the list says about its job. */
  datatype Record = Record(pgid: int, status: int, text: seq<byte>, verbose: bool)

  // ---- the list as a sequence ----

  /** The sequence without the first job of this process group. */
  function WithoutFirst(c: seq<Record>, pgid: int): seq<Record> {
    if c == [] then [] else if c[0].pgid == pgid then c[1..] else [c[0]] + WithoutFirst(c[1..], pgid)
  }

  function WithFirstSuspended(c: seq<Record>, pgid: int): seq<Record> {
    if c == [] then []
    else if c[0].pgid == pgid then [c[0].(status := SUSPENDED, verbose := true)] + c[1..]
    else [c[0]] + WithFirstSuspended(c[1..], pgid)
  }

  /** Every job of the process group is running. */
  function WithAllRunning(c: seq<Record>, pgid: int): (r: seq<Record>)
    ensures |r| == |c|
    ensures forall k :: 0 <= k < |c| ==> r[k] == if c[k].pgid == pgid then c[k].(status := RUNNING) else c[k]
  {
    if c == [] then []
    else [if c[0].pgid == pgid then c[0].(status := RUNNING) else c[0]] + WithAllRunning(c[1..], pgid)
  }

  /** Whether k is the place of the first job of the group. */
  predicate FirstAt(c: seq<Record>, pgid: int, k: nat) {
    k < |c| && c[k].pgid == pgid && forall j :: 0 <= j < k ==> c[j].pgid != pgid
  }

  predicate NoneOf(c: seq<Record>, pgid: int) {
    forall k :: 0 <= k < |c| ==> c[k].pgid != pgid
  }

  /** Whether k is the place of the first foreground job of the group. */
  ghost predicate FirstForeground(jobs: seq<Parser.Job>, pgid: int, k: nat)
    reads jobs`pgid
  {
    k < |jobs| && jobs[k].pgid == pgid && forall j :: 0 <= j < k ==> jobs[j].pgid != pgid
  }

  /** Trimming takes the first match out, leaves everything else in order, and does nothing when
      there is none. */
  lemma {:induction false} WithoutFirstIs(c: seq<Record>, pgid: int, k: nat)
    ensures FirstAt(c, pgid, k) ==> WithoutFirst(c, pgid) == c[..k] + c[k + 1..]
    ensures NoneOf(c, pgid) ==> WithoutFirst(c, pgid) == c
  {
    if c != [] && c[0].pgid != pgid {
      WithoutFirstIs(c[1..], pgid, if k > 0 then k - 1 else 0);
      assert c == [c[0]] + c[1..];
      if FirstAt(c, pgid, k) {
        assert FirstAt(c[1..], pgid, k - 1);
        assert c[..k] == [c[0]] + c[1..][..k - 1];
        assert c[k + 1..] == c[1..][k..];
      }
    }
  }

  lemma {:induction false} WithFirstSuspendedIs(c: seq<Record>, pgid: int, k: nat)
    ensures FirstAt(c, pgid, k) ==> WithFirstSuspended(c, pgid) == c[k := c[k].(status := SUSPENDED, verbose := true)]
    ensures NoneOf(c, pgid) ==> WithFirstSuspended(c, pgid) == c
  {
    if c != [] && c[0].pgid != pgid {
      WithFirstSuspendedIs(c[1..], pgid, if k > 0 then k - 1 else 0);
      assert c == [c[0]] + c[1..];
      if FirstAt(c, pgid, k) {
        assert FirstAt(c[1..], pgid, k - 1);
      }
    }
  }

  /** A job that was added under a new process group and has ended leaves the list as it was. */
  lemma AddedThenTrimmed(c: seq<Record>, r: Record)
    requires forall j :: 0 <= j < |c| ==> c[j].pgid != r.pgid
    ensures WithoutFirst(c + [r], r.pgid) == c
  {
    assert FirstAt(c + [r], r.pgid, |c|);
    WithoutFirstIs(c + [r], r.pgid, |c|);
  }

  lemma RunningIs(c: seq<Record>, pgid: int, r: seq<Record>)
    requires |r| == |c| && forall k :: 0 <= k < |c| ==> r[k] == if c[k].pgid == pgid then c[k].(status := RUNNING) else c[k]
    ensures r == WithAllRunning(c, pgid)
  {
  }

  // ---- the list in memory ----

  class BackgroundJob {
    var next: BackgroundJob?
    var pgid: int
    var status: int
    var text: seq<byte>
    var verbose: bool

    constructor (pgid: int, status: int, text: seq<byte>)
      ensures next == null && Here() == Record(pgid, status, text, true)
    {
      this.pgid, this.status, this.text, verbose, next := pgid, status, text, true, null;
    }

    function Here(): Record
      reads this
    {
      Record(pgid, status, text, verbose)
    }
  }

  /** `all_background_jobs`, and the signals that have been sent. */
  class JobList {
    var head: BackgroundJob?
    var sent: seq<int>
    ghost var nodes: seq<BackgroundJob>

    ghost function NodeAt(i: nat): BackgroundJob?
      reads this`nodes
    {
      if i < |nodes| then nodes[i] else null
    }

    ghost predicate Linked(i: nat)
      requires i < |nodes|
      reads this`nodes, nodes`next
    {
      nodes[i].next == NodeAt(i + 1)
    }

    /** The nodes are linked in this order and are all different. */
    ghost predicate Valid()
      reads this`head, this`nodes, nodes`next
    {
      && head == NodeAt(0)
      && (forall i {:trigger Linked(i)} :: 0 <= i < |nodes| ==> Linked(i))
      && (forall i, j :: 0 <= i < j < |nodes| ==> nodes[i] != nodes[j])
    }

    ghost function Contents(): (r: seq<Record>)
      reads this, nodes
      ensures |r| == |nodes| && forall i :: 0 <= i < |r| ==> r[i] == nodes[i].Here()
    {
      seq(|nodes|, i requires 0 <= i < |nodes| reads this, nodes => nodes[i].Here())
    }

    constructor ()
      ensures Valid() && Contents() == [] && sent == []
    {
      head, sent, nodes := null, [], [];
    }

    /** `put_job_in_background` for a new job: the two-pointer loop finds the tail. */
    method PutInBackground(pgid: int, status: int, text: seq<byte>)
      requires Valid()
      modifies this`head, this`nodes, nodes
      ensures Valid() && Contents() == old(Contents()) + [Record(pgid, status, text, true)]
      ensures |nodes| == |old(nodes)| + 1 && nodes[..|old(nodes)|] == old(nodes) && fresh(nodes[|old(nodes)|])
    {
      var copy := new BackgroundJob(pgid, status, text);
      if head == null {
        head, nodes := copy, [copy];
      } else {
        var cur, next := head, head.next;
        ghost var i := 0;
        while next != null
          invariant 0 <= i < |nodes| && cur == nodes[i] && (next == cur || next == cur.next)
          decreases 2 * (|nodes| - i) + (if next == cur then 1 else 0)
        {
          assert Linked(i);
          var temp := next;
          if next != cur {
            i := i + 1;
          }
          next := cur.next;
          cur := temp;
        }
        assert Linked(i);
        ghost var was := nodes;
        forall j | 0 <= j < |was| - 1 ensures was[j].next == was[j + 1] {
          assert Linked(j);
        }
        cur.next := copy;
        nodes := nodes + [copy];
        forall j | 0 <= j < |nodes| ensures Linked(j) {
          assert j < |was| - 1 ==> was[j].next == was[j + 1];
        }
      }
    }

    /** Node k is taken out of the list: its predecessor, or the head, now leads past it. */
    method Unlink(ghost k: nat, prev: BackgroundJob?)
      requires Valid() && k < |nodes| && head != null && prev == (if k == 0 then null else nodes[k - 1])
      modifies this`head, this`nodes, nodes`next
      ensures Valid() && nodes == old(nodes)[..k] + old(nodes)[k + 1..]
      ensures Contents() == old(Contents())[..k] + old(Contents())[k + 1..]
    {
      ghost var was := nodes;
      assert Linked(k);
      if prev == null {
        head := head.next;
      } else {
        assert Linked(k - 1);
        assert forall j :: 0 <= j < |was| && j != k - 1 ==> was[j] != prev;
        prev.next := prev.next.next;
      }
      assert forall j {:trigger was[j]} :: 0 <= j < |was| && j != k - 1 ==> was[j].next == old(was[j].next);
      nodes := was[..k] + was[k + 1..];
      forall j | 0 <= j < |nodes| ensures Linked(j) {
        ghost var i := if j < k then j else j + 1;
        assert old(Linked(i));
      }
    }

    /** `trim_background_process_list` */
    method Trim(pgid: int)
      requires Valid()
      modifies this`head, this`nodes, nodes`next
      ensures Valid() && Contents() == WithoutFirst(old(Contents()), pgid)
    {
      hide WithoutFirst;
      var cur: BackgroundJob?, prev: BackgroundJob? := head, null;
      ghost var k := 0;
      while cur != null
        invariant 0 <= k <= |nodes| && cur == NodeAt(k)
        invariant prev == if k == 0 then null else nodes[k - 1]
        invariant forall j :: 0 <= j < k ==> nodes[j].pgid != pgid
        decreases |nodes| - k
      {
        if cur.pgid == pgid {
          assert FirstAt(Contents(), pgid, k);
          WithoutFirstIs(Contents(), pgid, k);
          Unlink(k, prev);
          return;
        }
        assert Linked(k);
        prev, cur, k := cur, cur.next, k + 1;
      }
      WithoutFirstIs(Contents(), pgid, 0);
    }

    /** The search of `job_suspend_helper` among background jobs. */
    method SuspendBackground(pgid: int) returns (found: bool)
      requires Valid()
      modifies nodes
      ensures Valid() && Contents() == WithFirstSuspended(old(Contents()), pgid)
      ensures found <==> !NoneOf(old(Contents()), pgid)
    {
      hide WithFirstSuspended;
      var cur := head;
      ghost var k := 0;
      while cur != null
        invariant 0 <= k <= |nodes| && cur == NodeAt(k)
        invariant forall j :: 0 <= j < k ==> nodes[j].pgid != pgid
        decreases |nodes| - k
      {
        if cur.pgid == pgid {
          assert FirstAt(Contents(), pgid, k);
          WithFirstSuspendedIs(Contents(), pgid, k);
          assert old(Contents())[k].pgid == pgid;
          cur.status, cur.verbose := SUSPENDED, true;
          assert Contents() == old(Contents())[k := old(Contents())[k].(status := SUSPENDED, verbose := true)];
          return true;
        }
        assert Linked(k);
        cur, k := cur.next, k + 1;
      }
      WithFirstSuspendedIs(Contents(), pgid, 0);
      return false;
    }

    /** `job_suspend_helper`: the first background job of the group is suspended and will be reported;
        only if there is none, the first foreground job of the group is marked. */
    method Suspend(pgid: int, foreground: Parser.Job?, ghost jobs: seq<Parser.Job>)
      requires Valid() && Parser.IsList(foreground, jobs)
      modifies nodes, jobs`suspend
      ensures Valid() && Contents() == WithFirstSuspended(old(Contents()), pgid)
      ensures forall k {:trigger jobs[k]} :: 0 <= k < |jobs| ==>
                jobs[k].suspend == (old(jobs[k].suspend) || (NoneOf(old(Contents()), pgid) && FirstForeground(jobs, pgid, k)))
    {
      hide WithFirstSuspended;
      var found := SuspendBackground(pgid);
      if found {
        return;
      }
      var cur := foreground;
      ghost var k := 0;
      while cur != null
        invariant 0 <= k <= |jobs| && cur == Parser.At(jobs, k)
        invariant forall j :: 0 <= j < k ==> jobs[j].pgid != pgid
        decreases |jobs| - k
      {
        if cur.pgid == pgid {
          cur.suspend := true;
          return;
        }
        assert Parser.LinkedAt(jobs, k);
        cur, k := cur.next, k + 1;
      }
    }

    /** `background_built_in_helper`: one signal to the group, and its jobs are running. */
    method Continue(job: BackgroundJob)
      requires Valid() && job in nodes
      modifies this`sent, nodes`status
      ensures Valid() && sent == old(sent) + [-old(job.pgid)] && nodes == old(nodes)
      ensures Contents() == WithAllRunning(old(Contents()), old(job.pgid))
    {
      hide WithAllRunning;
      var pgid := job.pgid;
      sent := sent + [-pgid];
      var cur := head;
      ghost var k := 0;
      while cur != null
        invariant 0 <= k <= |nodes| && cur == NodeAt(k) && sent == old(sent) + [-pgid]
        invariant forall j :: 0 <= j < |nodes| ==>
                    nodes[j].Here() == if j < k && nodes[j].pgid == pgid then old(nodes[j].Here()).(status := RUNNING) else old(nodes[j].Here())
        decreases |nodes| - k
      {
        if cur.pgid == pgid {
          cur.status := RUNNING;
        }
        assert Linked(k);
        cur, k := cur.next, k + 1;
      }
      RunningIs(old(Contents()), pgid, Contents());
    }

    /** `bg %n`: the loop stays at the node it has resumed for one turn, but counts on, so that it never
        resumes another; the message comes exactly when there is no job n. */
    method ResumeNumber(number: int) returns (message: bool)
      requires Valid()
      modifies this`sent, nodes`status
      ensures Valid() && nodes == old(nodes)
      ensures message <==> !(1 <= number <= |old(Contents())|)
      ensures message ==> sent == old(sent) && Contents() == old(Contents())
      ensures !message ==>
                var pgid := old(Contents())[number - 1].pgid;
                sent == old(sent) + [-pgid] && Contents() == WithAllRunning(old(Contents()), pgid)
    {
      hide WithAllRunning;
      var count := 0;
      var cur := head;
      ghost var k := 0;
      while cur != null
        invariant Valid() && nodes == old(nodes) && 0 <= k <= |nodes| && cur == NodeAt(k)
        invariant count == if 1 <= number <= count then k + 1 else k
        invariant 1 <= number <= count ==>
                    && number <= |nodes|
                    && sent == old(sent) + [-old(nodes[number - 1].pgid)]
                    && Contents() == WithAllRunning(old(Contents()), old(nodes[number - 1].pgid))
        invariant !(1 <= number <= count) ==> sent == old(sent) && Contents() == old(Contents())
        decreases |nodes| - k, if 1 <= number <= count then 0 else 1
      {
        count := count + 1;
        if count == number {
          Continue(cur);
        } else {
          assert Linked(k);
          cur, k := cur.next, k + 1;
        }
      }
      message := count < number || number <= 0;
    }

    /** `bg` without a number resumes the last job. */
    method ResumeLast() returns (message: bool)
      requires Valid()
      modifies this`sent, nodes`status
      ensures Valid() && nodes == old(nodes)
      ensures message <==> old(Contents()) == []
      ensures message ==> sent == old(sent) && Contents() == old(Contents())
      ensures !message ==>
                var c := old(Contents());
                sent == old(sent) + [-c[|c| - 1].pgid] && Contents() == WithAllRunning(c, c[|c| - 1].pgid)
    {
      hide WithAllRunning;
      var cur := head;
      if cur == null {
        return true;
      }
      ghost var k := 0;
      while cur.next != null
        invariant 0 <= k < |nodes| && cur == nodes[k]
        decreases |nodes| - k
      {
        assert Linked(k);
        cur, k := cur.next, k + 1;
      }
      Continue(cur);
      return false;
    }
  }
}
