/** Fork, exit, waitpid and the reaping of orphans in kernel/process/process.c, under
    every cooperative schedule: no wakeup is lost, no zombie runs, and every exit status
    is handed out at most once. */
module WaitExit {
  import opened Common
  import opened ProcTable

  /** Where a process goes on when it runs: in its program, or in the loop of waitpid. */
  datatype Control = Program | InWait(pid: int)

  /** An end of a process: which one, and the status it exited with. */
  datatype Death = Death(who: nat, status: int)

  /** procs[] and current_proc; then, as bookkeeping, where each process is, a number no
      two processes ever share, the deaths so far, and those reported or thrown away. */
  datatype System = System(procs: seq<Process>, current: nat, control: seq<Control>,
                           who: seq<nat>, born: nat, deaths: set<Death>, reaped: seq<Death>)

  /** j is a child that process i looks at in waitpid(pid). */
  predicate Matches(s: System, i: nat, pid: int, j: nat)
    requires i < |s.procs| && j < |s.procs|
  {
    ChildOf(s.procs[j], s.procs[i].pid, pid)
  }

  /** A process asleep in waitpid has a matching child, and none of them is a zombie. */
  ghost predicate NoLostWakeup(s: System, i: nat)
    requires i < |s.procs| && i < |s.control|
  {
    s.procs[i].state == Blocked && s.control[i].InWait? ==>
      && (exists j :: 0 <= j < |s.procs| && Matches(s, i, s.control[i].pid, j))
      && (forall j | 0 <= j < |s.procs| && Matches(s, i, s.control[i].pid, j) :: s.procs[j].state != Zombie)
  }

  /** The process in slot i is the only one with its number; a zombie's death is on record
      and not yet reported. */
  ghost predicate Accounted(s: System, i: nat)
    requires i < |s.procs| && i < |s.who|
  {
    s.procs[i].state != Unused ==>
      && s.procs[i].pid == i + 1 && s.who[i] < s.born
      && (s.procs[i].state == Zombie ==> Death(s.who[i], s.procs[i].exitStatus) in s.deaths)
      && (s.procs[i].state != Zombie ==> forall d | d in s.deaths :: d.who != s.who[i])
      && (forall k | 0 <= k < |s.reaped| :: s.reaped[k].who != s.who[i])
  }

  ghost predicate DeathsOk(s: System) {
    && (forall d | d in s.deaths :: d.who < s.born)
    && (forall d, e | d in s.deaths && e in s.deaths && d.who == e.who :: d == e)
    && (forall k | 0 <= k < |s.reaped| :: s.reaped[k] in s.deaths)
    && (forall k, l | 0 <= k < l < |s.reaped| :: s.reaped[k].who != s.reaped[l].who)
  }

  ghost predicate WhoApart(s: System)
    requires |s.who| == |s.procs|
  {
    forall i, j | 0 <= i < |s.procs| && 0 <= j < |s.procs| && i != j
                  && s.procs[i].state != Unused && s.procs[j].state != Unused ::
      s.who[i] != s.who[j]
  }

  /** The idle process, in slot 0, can always run; the current process is running. */
  ghost predicate Inv(s: System) {
    && |s.procs| == PROC_MAX && |s.control| == PROC_MAX && |s.who| == PROC_MAX && s.current < PROC_MAX
    && s.procs[0].state == Runnable && s.control[0] == Program && s.procs[s.current].state == Runnable
    && (forall i | 0 <= i < PROC_MAX :: NoLostWakeup(s, i) && Accounted(s, i))
    && WhoApart(s) && DeathsOk(s)
  }

  // ---------------------------------------------------------------------
  // The steps.

  /** A new process in free slot c. */
  function Born(s: System, c: nat, p: Process): System
    requires c < |s.procs| && c < |s.control| && c < |s.who|
  {
    s.(procs := s.procs[c := p], control := s.control[c := Program], who := s.who[c := s.born], born := s.born + 1)
  }

  /** Process i changes its state. */
  function Becomes(s: System, i: nat, state: State, control: Control): System
    requires i < |s.procs| && i < |s.control|
  {
    s.(procs := s.procs[i := s.procs[i].(state := state)], control := s.control[i := control])
  }

  /** The current process is a zombie. */
  function Dies(s: System, status: int): System
    requires s.current < |s.procs| && s.current < |s.who|
  {
    s.(procs := s.procs[s.current := s.procs[s.current].(state := Zombie, exitStatus := status)],
       deaths := s.deaths + {Death(s.who[s.current], status)})
  }

  /** Zombie z is reaped: its slot is free and its status used up. */
  function Reaped(s: System, z: nat): System
    requires z < |s.procs| && z < |s.who|
  {
    s.(procs := s.procs[z := UNUSED], reaped := s.reaped + [Death(s.who[z], s.procs[z].exitStatus)])
  }

  lemma BornKeeps(s: System, c: nat, p: Process)
    requires Inv(s) && c < PROC_MAX && s.procs[c].state == Unused && p.state == Runnable && p.pid == c + 1
    ensures Inv(Born(s, c, p))
  {
    var t := Born(s, c, p);
    forall i | 0 <= i < PROC_MAX ensures Accounted(t, i) && (i != c ==> t.who[i] == s.who[i]) {
      assert Accounted(s, i);
    }
    forall i | 0 <= i < PROC_MAX && i != c && t.procs[i].state != Unused ensures t.who[i] < t.who[c] {
      assert Accounted(s, i);
    }
    forall i | 0 <= i < PROC_MAX ensures NoLostWakeup(t, i) {
      assert NoLostWakeup(s, i);
      if i != c && s.procs[i].state == Blocked && s.control[i].InWait? {
        var j :| 0 <= j < PROC_MAX && Matches(s, i, s.control[i].pid, j);
        assert Matches(t, i, t.control[i].pid, j);
        forall k | 0 <= k < PROC_MAX && Matches(t, i, t.control[i].pid, k) ensures t.procs[k].state != Zombie {
          if k != c { assert Matches(s, i, s.control[i].pid, k); }
        }
      }
    }
  }

  /** A process that is not reaped, dead or about to wait may become runnable or block
      outside waitpid; so may any sleeper wake for no reason. */
  lemma BecomesKeeps(s: System, i: nat, state: State, control: Control)
    requires Inv(s) && 0 < i < PROC_MAX && s.procs[i].state in {Runnable, Blocked} && state in {Runnable, Blocked}
    requires state == Blocked && control.InWait? ==>
               && (exists j :: 0 <= j < PROC_MAX && Matches(s, i, control.pid, j))
               && (forall j | 0 <= j < PROC_MAX && Matches(s, i, control.pid, j) :: s.procs[j].state != Zombie)
    ensures i != s.current || state == Runnable ==> Inv(Becomes(s, i, state, control))
    ensures forall n | 0 <= n < PROC_MAX && n != i && s.procs[n].state == Runnable ::
              Inv(Becomes(s, i, state, control).(current := n))
  {
    var t := Becomes(s, i, state, control);
    forall k | 0 <= k < PROC_MAX ensures NoLostWakeup(t, k) && Accounted(t, k) {
      assert NoLostWakeup(s, k) && Accounted(s, k);
      forall pid: int, j | 0 <= j < PROC_MAX ensures Matches(t, k, pid, j) == Matches(s, k, pid, j) {}
    }
    forall n | 0 <= n < PROC_MAX && n != i && s.procs[n].state == Runnable ensures Inv(t.(current := n)) {
      CurrentChanges(t, n);
    }
  }

  lemma CurrentChanges(t: System, n: nat)
    requires |t.procs| == PROC_MAX && |t.control| == PROC_MAX && |t.who| == PROC_MAX && n < PROC_MAX
    requires t.procs[0].state == Runnable && t.control[0] == Program && t.procs[n].state == Runnable
    requires (forall i | 0 <= i < PROC_MAX :: NoLostWakeup(t, i) && Accounted(t, i)) && WhoApart(t) && DeathsOk(t)
    ensures Inv(t.(current := n))
  {
    var u := t.(current := n);
    forall i | 0 <= i < PROC_MAX ensures NoLostWakeup(u, i) && Accounted(u, i) {
      assert NoLostWakeup(t, i) && Accounted(t, i);
      forall pid: int, j | 0 <= j < PROC_MAX ensures Matches(u, i, pid, j) == Matches(t, i, pid, j) {}
    }
  }

  /** Death and the waking of a parent asleep in waitpid go together: in between the
      parent would sleep with a zombie child. */
  lemma DiesKeeps(s: System, status: int, parent: nat, next: nat)
    requires Inv(s) && s.current != 0 && next < PROC_MAX && next != s.current && s.procs[next].state == Runnable
    requires parent <= PROC_MAX
    requires parent < PROC_MAX ==> s.procs[parent].state != Unused
                                   && s.procs[parent].pid == s.procs[s.current].parentPid
    requires parent == PROC_MAX ==> forall i | 0 <= i < PROC_MAX ::
                                      s.procs[i].state == Unused || s.procs[i].pid != s.procs[s.current].parentPid
    ensures var t := Dies(s, status);
            var u := if parent < PROC_MAX && t.procs[parent].state == Blocked
                     then Becomes(t, parent, Runnable, t.control[parent]) else t;
            Inv(u.(current := next))
  {
    hide NoLostWakeup;
    var c := s.current;
    var t := Dies(s, status);
    var u := if parent < PROC_MAX && t.procs[parent].state == Blocked
             then Becomes(t, parent, Runnable, t.control[parent]) else t;
    assert Accounted(s, c);
    forall i | 0 <= i < PROC_MAX ensures Accounted(u, i) {
      assert Accounted(s, i);
    }
    forall i | 0 <= i < PROC_MAX ensures NoLostWakeup(u, i) {
      DeathSeen(s, t, u, status, parent, i);
    }
    forall d | d in u.deaths ensures d.who < u.born && (d.who == s.who[c] ==> d == Death(s.who[c], status)) {}
    CurrentChanges(u, next);
  }

  lemma DeathSeen(s: System, t: System, u: System, status: int, parent: nat, i: nat)
    requires Inv(s) && t == Dies(s, status) && i < PROC_MAX && parent <= PROC_MAX
    requires u == if parent < PROC_MAX && t.procs[parent].state == Blocked
                  then Becomes(t, parent, Runnable, t.control[parent]) else t
    requires parent < PROC_MAX ==> s.procs[parent].state != Unused
                                   && s.procs[parent].pid == s.procs[s.current].parentPid
    requires parent == PROC_MAX ==> forall i | 0 <= i < PROC_MAX ::
                                      s.procs[i].state == Unused || s.procs[i].pid != s.procs[s.current].parentPid
    ensures NoLostWakeup(u, i)
  {
    var c := s.current;
    assert NoLostWakeup(s, i);
    if u.procs[i].state == Blocked && u.control[i].InWait? {
      assert i != c && i != parent && s.procs[i] == u.procs[i] && s.control[i] == u.control[i];
      assert Accounted(s, i) && (parent < PROC_MAX ==> Accounted(s, parent));
      var j :| 0 <= j < PROC_MAX && Matches(s, i, s.control[i].pid, j);
      assert Matches(u, i, u.control[i].pid, j);
      forall k | 0 <= k < PROC_MAX && Matches(u, i, u.control[i].pid, k) ensures u.procs[k].state != Zombie {
        assert Matches(s, i, s.control[i].pid, k);
      }
    }
  }

  /** Only a process's own parent, or the idle process for an orphan, reaps it, so nobody
      asleep in waitpid loses a child. */
  lemma ReapedKeeps(s: System, z: nat)
    requires Inv(s) && z < PROC_MAX && s.procs[z].state == Zombie
    requires s.procs[z].parentPid == 0 || s.procs[z].parentPid == s.procs[s.current].pid
    ensures Inv(Reaped(s, z))
    ensures Death(s.who[z], s.procs[z].exitStatus) in s.deaths && Death(s.who[z], s.procs[z].exitStatus) !in s.reaped
  {
    var t := Reaped(s, z);
    assert Accounted(s, z);
    assert z != s.current;
    forall i | 0 <= i < PROC_MAX ensures Accounted(t, i) {
      assert Accounted(s, i);
    }
    forall i | 0 <= i < PROC_MAX ensures NoLostWakeup(t, i) {
      assert NoLostWakeup(s, i) && Accounted(s, i) && Accounted(s, s.current);
      if t.procs[i].state == Blocked && t.control[i].InWait? {
        var j :| 0 <= j < PROC_MAX && Matches(s, i, s.control[i].pid, j);
        assert j != z;
        assert Matches(t, i, t.control[i].pid, j);
        forall k | 0 <= k < PROC_MAX && Matches(t, i, t.control[i].pid, k) ensures t.procs[k].state != Zombie {
          assert Matches(s, i, s.control[i].pid, k);
        }
      }
    }
  }

  /** Process p has this pid and sleeps. */
  predicate Awaits(p: Process, pid: nat) { p.state == Blocked && p.pid == pid }

  /** How a call of waitpid stands: a child was reaped, there is no such child, WNOHANG
      found no zombie, or the caller sleeps. */
  datatype WaitResult = Got(pid: nat, status: int) | NoChild | NotYet | Asleep

  class Processes {
    var procs: seq<Process>
    var current: nat
    var control: seq<Control>
    ghost var who: seq<nat>
    ghost var born: nat
    ghost var deaths: set<Death>
    ghost var reaped: seq<Death>

    ghost function Now(): System
      reads this
    {
      System(procs, current, control, who, born, deaths, reaped)
    }

    ghost predicate Valid()
      reads this
    {
      Inv(Now())
    }

    /** The idle process alone. */
    constructor ()
      ensures Valid()
    {
      procs := seq(PROC_MAX, _ => UNUSED)[0 := IDLE];
      current := 0;
      control := seq(PROC_MAX, _ => Program);
      who, born, deaths, reaped := seq(PROC_MAX, _ => 0), 1, {}, [];
    }

    lemma Sizes()
      requires Valid()
      ensures |procs| == PROC_MAX && |control| == PROC_MAX && |who| == PROC_MAX && current < PROC_MAX
      ensures procs[0].state == Runnable && control[0] == Program && procs[current].state == Runnable
    {}

    /** proc_fork, create_process or create_user_process: a new process with this parent,
        0 for none. The result is its pid, or -1; fits says whether there is memory for it. */
    method Start(parentPid: nat, isUser: bool, fits: bool) returns (pid: int)
      requires Valid() && (parentPid == 0 || (current < |procs| && parentPid == procs[current].pid))
      modifies this`procs, this`control, this`who, this`born
      ensures Valid()
      ensures pid == -1 <==> !fits || forall i | 0 <= i < |old(procs)| :: old(procs)[i].state != Unused
      ensures pid == -1 ==> procs == old(procs)
      ensures pid != -1 ==> 1 <= pid <= PROC_MAX && |old(procs)| == PROC_MAX && old(procs)[pid - 1].state == Unused
      ensures pid != -1 ==> procs == old(procs)[pid - 1 := procs[pid - 1]] && procs[pid - 1].parentPid == parentPid
                            && procs[pid - 1].state == Runnable && procs[pid - 1].pid == pid
    {
      hide Inv;
      Sizes();
      var c := AllocProcessSlot(procs);
      if c == PROC_MAX {
        return -1;
      }
      if !fits {
        return -1;
      }
      var p := UNUSED.(state := Runnable, pid := c + 1, parentPid := parentPid, isUser := isUser);
      BornKeeps(Now(), c, p);
      ghost var s := Now();
      procs, control := procs[c := p], control[c := Program];
      who, born := who[c := born], born + 1;
      assert Now() == Born(s, c, p);
      return c + 1;
    }

    /** Pids tell slots apart. */
    lemma OnlyParent(s: System, pid: nat, parent: nat)
      requires Inv(s) && parent <= PROC_MAX
      requires if parent < PROC_MAX then s.procs[parent].state != Unused && s.procs[parent].pid == pid
               else forall j | 0 <= j < PROC_MAX :: s.procs[j].state == Unused || s.procs[j].pid != pid
      ensures forall j | 0 <= j < PROC_MAX :: Awaits(s.procs[j], pid) <==> j == parent && s.procs[j].state == Blocked
    {
      forall j | 0 <= j < PROC_MAX && s.procs[j].state != Unused
        ensures s.procs[j].pid == j + 1
      {
        assert Accounted(s, j);
      }
    }

    /** proc_exit, up to the yield from which it never comes back: a parent that sleeps
        may run again. */
    method Exit(status: int, next: nat)
      requires Valid() && current != 0 && next < |procs| && next != current && procs[next].state == Runnable
      modifies this`procs, this`current, this`deaths, this`control
      ensures Valid() && current == next && |who| == PROC_MAX && |procs| == PROC_MAX && old(current) < PROC_MAX
      ensures procs[old(current)] == old(procs)[old(current)].(state := Zombie, exitStatus := status)
      ensures forall i | 0 <= i < PROC_MAX && i != old(current) :: procs[i] ==
                if Awaits(old(procs)[i], old(procs)[old(current)].parentPid) then old(procs)[i].(state := Runnable)
                else old(procs)[i]
      ensures deaths == old(deaths) + {Death(who[old(current)], status)}
    {
      hide Inv;
      Sizes();
      ghost var s := Now();
      var parent := FindByPid(procs, procs[current].parentPid);
      OnlyParent(s, procs[current].parentPid, parent);
      DiesKeeps(s, status, parent, next);
      procs := procs[current := procs[current].(state := Zombie, exitStatus := status)];
      deaths := deaths + {Death(who[current], status)};
      assert Now() == Dies(s, status);
      if parent < PROC_MAX && procs[parent].state == Blocked {
        procs := procs[parent := procs[parent].(state := Runnable)];
        control := control[parent := control[parent]];
      }
      current := next;
    }

    /** One pass of the loop of proc_waitpid by the current process: it reaps, gives up,
        or goes to sleep while next runs. A status handed out is the one the child exited
        with, and was never handed out before. */
    method WaitPass(pid: int, nohang: bool, next: nat) returns (r: WaitResult)
      requires Valid() && current != 0 && next < |procs| && next != current && procs[next].state == Runnable
      modifies this`procs, this`current, this`control, this`reaped
      ensures Valid() && old(current) < |control| && old(current) < |procs| && |procs| == |old(procs)| == |who|
      ensures r.Got? ==> exists z :: 0 <= z < |who| && Matches(old(Now()), old(current), pid, z)
                                      && old(procs)[z].state == Zombie
                                      && r == Got(old(procs)[z].pid, old(procs)[z].exitStatus)
                                      && Death(who[z], r.status) in deaths && Death(who[z], r.status) !in old(reaped)
                                      && reaped == old(reaped) + [Death(who[z], r.status)]
                                      && procs == old(procs)[z := UNUSED]
      ensures !r.Got? ==> reaped == old(reaped)
      ensures r.NoChild? || r.NotYet? ==> procs == old(procs)
      ensures r.Asleep? ==> procs == old(procs)[old(current) := old(procs)[old(current)].(state := Blocked)]
      ensures r.NotYet? || r.Asleep? ==>
                forall j | 0 <= j < |old(procs)| && Matches(old(Now()), old(current), pid, j) ::
                old(procs)[j].state != Zombie
      ensures r.NoChild? <==> forall j | 0 <= j < |old(procs)| :: !Matches(old(Now()), old(current), pid, j)
      ensures r.Asleep? ==> current == next && control[old(current)] == InWait(pid)
      ensures !r.Asleep? ==> current == old(current) && control[current] == Program
      ensures r.NotYet? ==> nohang
    {
      hide Inv;
      Sizes();
      BecomesKeeps(Now(), current, Runnable, Program);
      ghost var s := Becomes(Now(), current, Runnable, Program);
      control := control[current := Program];
      assert Now() == s;
      var hasChild, z := ScanChildren(procs, current, pid);
      assert forall j | 0 <= j < PROC_MAX :: Matches(s, current, pid, j) == ChildOf(procs[j], procs[current].pid, pid);
      if z < PROC_MAX {
        r := Got(procs[z].pid, procs[z].exitStatus);
        assert s.procs == old(procs) && Matches(old(Now()), old(current), pid, z);
        ReapSlot(z);
        return;
      }
      assert s.procs == old(procs);
      assert forall j | 0 <= j < PROC_MAX :: Matches(old(Now()), old(current), pid, j) == Matches(s, current, pid, j);
      if !hasChild {
        return NoChild;
      }
      if nohang {
        return NotYet;
      }
      Block(InWait(pid), next);
      return Asleep;
    }

    /** The current process blocks and next runs. */
    method Block(where: Control, next: nat)
      requires Valid() && current != 0 && next < |procs| && next != current && procs[next].state == Runnable
      requires where.InWait? ==>
                 && (exists j :: 0 <= j < |procs| && Matches(Now(), current, where.pid, j))
                 && (forall j | 0 <= j < |procs| && Matches(Now(), current, where.pid, j) :: procs[j].state != Zombie)
      modifies this`procs, this`current, this`control
      ensures Valid() && current == next && |procs| == |old(procs)| && old(current) < |procs|
              && old(current) < |control|
      ensures procs == old(procs)[old(current) := old(procs)[old(current)].(state := Blocked)]
              && control[old(current)] == where
    {
      hide Inv;
      Sizes();
      ghost var s := Now();
      BecomesKeeps(s, current, Blocked, where);
      procs := procs[current := procs[current].(state := Blocked)];
      control := control[current := where];
      current := next;
    }

    /** proc_vm_release and mark_process_unused on a zombie. */
    method ReapSlot(z: nat)
      requires Valid() && z < |procs| && procs[z].state == Zombie
      requires procs[z].parentPid == 0 || (current < |procs| && procs[z].parentPid == procs[current].pid)
      modifies this`procs, this`reaped
      ensures Valid() && z < |who| && procs == old(procs)[z := UNUSED]
      ensures Death(who[z], old(procs)[z].exitStatus) in deaths
              && Death(who[z], old(procs)[z].exitStatus) !in old(reaped)
      ensures reaped == old(reaped) + [Death(who[z], old(procs)[z].exitStatus)]
    {
      hide Inv;
      Sizes();
      ghost var s := Now();
      ReapedKeeps(s, z);
      reaped := reaped + [Death(who[z], procs[z].exitStatus)];
      procs := procs[z := UNUSED];
      assert Now() == Reaped(s, z);
    }

    /** proc_reap_orphan_zombies: exactly the user zombies without a parent go. */
    method ReapOrphans()
      requires Valid()
      modifies this`procs, this`reaped
      ensures Valid() && |procs| == PROC_MAX == |old(procs)|
      ensures forall i | 0 <= i < PROC_MAX :: procs[i] == if IsOrphan(old(procs), i) then UNUSED else old(procs)[i]
    {
      hide Inv, IsOrphan;
      Sizes();
      ghost var table := procs;
      var i := 0;
      while i < PROC_MAX
        invariant 0 <= i <= PROC_MAX && Valid() && |procs| == PROC_MAX
        invariant forall j | 0 <= j < PROC_MAX :: procs[j] == if j < i && IsOrphan(table, j) then UNUSED else table[j]
      {
        OrphanSame(procs, table, i);
        if IsOrphan(procs, i) {
          OrphanFacts(procs, i);
          ReapSlot(i);
        }
        i := i + 1;
      }
    }

    /** yield to a runnable process. */
    method Yield(next: nat)
      requires Valid() && next < |procs| && procs[next].state == Runnable
      modifies this`current
      ensures Valid() && current == next
    {
      hide NoLostWakeup, Accounted, WhoApart, DeathsOk;
      ghost var s := Now();
      CurrentChanges(s, next);
      current := next;
    }

    /** waitq_wake_all, for one sleeper: it may come at any time, needed or not. */
    method Wake(i: nat)
      requires Valid() && i < |procs| && procs[i].state == Blocked
      modifies this`procs, this`control
      ensures Valid() && procs == old(procs)[i := old(procs)[i].(state := Runnable)] && control == old(control)
    {
      hide Inv;
      Sizes();
      ghost var s := Now();
      BecomesKeeps(s, i, Runnable, control[i]);
      procs := procs[i := procs[i].(state := Runnable)];
      control := control[i := control[i]];
      assert Now() == Becomes(s, i, Runnable, s.control[i]);
    }
  }

  lemma OrphanFacts(procs: seq<Process>, i: nat)
    requires i < |procs| && IsOrphan(procs, i)
    ensures procs[i].state == Zombie && procs[i].parentPid == 0
  {}

  /** What the running process does next, and who runs if it gives the processor up; or a
      wakeup from an interrupt. */
  datatype Turn =
    | Forks(fits: bool) | Spawns(isUser: bool, fits: bool) | Exits(status: int, next: nat)
    | Waits(pid: int, nohang: bool, next: nat) | Sleeps(next: nat) | Yields(next: nat) | Wakes(i: nat) | Reaps

  /** Over every schedule: a process asleep in waitpid has a matching child and no zombie
      among them, the running process is no zombie, and no death is reported twice. A
      turn that is not possible does nothing. */
  method Run(t: Processes, turns: seq<Turn>)
    requires t.Valid()
    modifies t
    ensures t.Valid() && |t.procs| == PROC_MAX && |t.control| == PROC_MAX && t.current < PROC_MAX
    ensures forall i | 0 <= i < PROC_MAX :: NoLostWakeup(t.Now(), i)
    ensures t.procs[t.current].state != Zombie
    ensures forall k, l | 0 <= k < l < |t.reaped| :: t.reaped[k].who != t.reaped[l].who
    ensures forall k | 0 <= k < |t.reaped| :: t.reaped[k] in t.deaths
  {
    hide Accounted, WhoApart, NoLostWakeup;
    var i := 0;
    while i < |turns|
      invariant 0 <= i <= |turns| && t.Valid()
    {
      Take(t, turns[i]);
      i := i + 1;
    }
  }

  method Take(t: Processes, turn: Turn)
    requires t.Valid()
    modifies t
    ensures t.Valid()
  {
    hide Inv;
    t.Sizes();
    var me := t.current;
    // A process that was woken inside waitpid goes round its loop before anything else.
    var turn' := if t.control[me].InWait? && !turn.Wakes? then
                   Waits(t.control[me].pid, false,
                         if turn.Exits? || turn.Waits? || turn.Sleeps? || turn.Yields? then turn.next else 0)
                 else turn;
    match turn'
    case Forks(fits) => var pid := t.Start(t.procs[me].pid, true, fits);
    case Spawns(isUser, fits) => var pid := t.Start(0, isUser, fits);
    case Exits(status, next) => if CanGiveUp(t, next) { t.Exit(status, next); }
    case Waits(pid, nohang, next) => if CanGiveUp(t, next) { var r := t.WaitPass(pid, nohang, next); }
    case Sleeps(next) => if CanGiveUp(t, next) { t.Block(Program, next); }
    case Yields(next) => if next < PROC_MAX && t.procs[next].state == Runnable { t.Yield(next); }
    case Wakes(i) => if i < PROC_MAX && t.procs[i].state == Blocked { t.Wake(i); }
    case Reaps => if me == 0 { t.ReapOrphans(); }
  }

  /** The idle process never exits or sleeps, so there is always somebody to go on with. */
  predicate CanGiveUp(t: Processes, next: nat)
    reads t
    requires |t.procs| == PROC_MAX
  {
    t.current != 0 && next < PROC_MAX && next != t.current && t.procs[next].state == Runnable
  }
}
