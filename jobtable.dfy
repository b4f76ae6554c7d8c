/**
 * The job list as tsh.c keeps it: the global array `jobs` of MAXJOBS
 * slots, the global counter `nextjid`, the `verbose` flag set by `-v`, and
 * standard output, which the routines append their messages to.  Each
 * routine of tsh.c, lines 282-427, is a method here that works on the
 * array in place, loop for loop, and is proved to do what the function of
 * the same routine in module Jobs says.
 */
module JobTable {
  import opened Options
  import opened Limits
  import opened Format
  import opened Jobs

  class JobTable {
    var jobs: array<Job>
    var nextjid: int
    var verbose: bool
    var out: string

    ghost predicate Valid()
      reads this, jobs
    {
      jobs.Length == MaxJobs && Consistent(Table(jobs[..], nextjid))
    }

    /** The job list as a value. */
    function State(): Table
      reads this, jobs
    {
      Table(jobs[..], nextjid)
    }

    /** The shell's start: a zero-filled global array (every slot empty) and `nextjid` = 1. */
    constructor (verbose: bool)
      ensures Valid() && fresh(jobs)
      ensures State() == Table(EmptySlots(MaxJobs), 1)
      ensures this.verbose == verbose && out == []
    {
      jobs := new Job[MaxJobs](_ => Cleared);
      nextjid := 1;
      this.verbose := verbose;
      out := [];
      new;
      assert jobs[..] == EmptySlots(MaxJobs);
    }

    /** clearjob: empties slot `i` and touches no other. */
    method ClearJob(i: nat)
      requires Valid() && i < jobs.Length
      modifies jobs
      ensures Valid()
      ensures jobs[..] == old(jobs[..])[i := Cleared]
    {
      jobs[i] := jobs[i].(pid := 0);
      jobs[i] := jobs[i].(jid := 0);
      jobs[i] := jobs[i].(state := Undef);
      jobs[i] := jobs[i].(cmdline := []);
    }

    /** initjobs: empties every slot; `nextjid` is left as it was. */
    method InitJobs()
      requires Valid()
      modifies jobs
      ensures Valid()
      ensures jobs[..] == EmptySlots(MaxJobs)
    {
      for i := 0 to MaxJobs
        invariant Valid()
        invariant forall k :: 0 <= k < i ==> jobs[k] == Cleared
      {
        ClearJob(i);
      }
      assert jobs[..] == EmptySlots(MaxJobs);
    }

    /** maxjid: a running maximum over the slots, starting from 0. */
    method MaxJid() returns (max: int)
      requires Valid()
      ensures max == Jobs.MaxJid(jobs[..])
    {
      max := 0;
      for i := 0 to MaxJobs
        invariant max == Jobs.MaxJid(jobs[..i])
      {
        assert jobs[..i + 1][..i] == jobs[..i];
        if jobs[i].jid > max {
          max := jobs[i].jid;
        }
      }
      assert jobs[..MaxJobs] == jobs[..];
    }

    /** addjob: fills the first empty slot, or reports a full list. */
    method AddJob(pid: int, state: int, cmdline: string) returns (ok: bool)
      requires Valid()
      requires |cmdline| < MaxLine
      modifies jobs, this`nextjid, this`out
      ensures Valid()
      ensures (State(), ok) == Add(old(State()), pid, state, cmdline)
      ensures out == old(out) + AddMessage(old(State()), pid, cmdline, verbose)
    {
      if pid < 1 {
        return false;
      }
      for i := 0 to MaxJobs
        invariant forall k :: 0 <= k < i ==> jobs[k].pid != 0
      {
        if jobs[i].pid == 0 {
          FillSlot(i, pid, state, cmdline);
          return true;
        }
      }
      AddMessageCases(State(), pid, cmdline, verbose);
      out := out + TooManyJobs;
      return false;
    }

    /** The body of addjob's loop for the first empty slot `i`. */
    method FillSlot(i: nat, pid: int, state: int, cmdline: string)
      requires Valid() && i < jobs.Length && pid >= 1 && jobs[i].pid == 0
      requires forall k :: 0 <= k < i ==> jobs[k].pid != 0
      modifies jobs, this`nextjid, this`out
      ensures Valid()
      ensures (State(), true) == Add(old(State()), pid, state, cmdline)
      ensures out == old(out) + AddMessage(old(State()), pid, cmdline, verbose)
    {
      ghost var t0 := State();
      var job := jobs[i];
      job := job.(pid := pid);
      job := job.(state := state);
      job := job.(jid := nextjid);
      nextjid := nextjid + 1;
      if nextjid > MaxJobs {
        nextjid := 1;
      }
      job := job.(cmdline := cmdline);
      jobs[i] := job;
      assert job == Job(pid, t0.nextjid, state, cmdline);
      assert jobs[..] == t0.slots[i := job];
      AddAt(t0, pid, state, cmdline, i);
      AddKeepsConsistent(t0, pid, state, cmdline);
      AddMessageCases(t0, pid, cmdline, verbose);
      if verbose {
        out := out + AddedLine(job.jid, job.pid, job.cmdline);
      }
    }

    /** deletejob: clears the first slot holding `pid` and recomputes `nextjid`. */
    method DeleteJob(pid: int) returns (ok: bool)
      requires Valid()
      modifies jobs, this`nextjid
      ensures Valid()
      ensures (State(), ok) == Delete(old(State()), pid)
    {
      if pid < 1 {
        return false;
      }
      ghost var t0 := State();
      for i := 0 to MaxJobs
        invariant State() == t0
        invariant forall k :: 0 <= k < i ==> jobs[k].pid != pid
      {
        if jobs[i].pid == pid {
          ClearJob(i);
          var max := MaxJid();
          nextjid := max + 1;
          ghost var w := t0.slots[i := Cleared];
          assert State() == Table(w, Jobs.MaxJid(w) + 1);
          DeleteAt(t0, pid, i, w);
          DeleteKeepsConsistent(t0, pid);
          return true;
        }
      }
      return false;
    }

    /** fgpid: the pid of the first slot in state FG, 0 if there is none. */
    method FgPid() returns (pid: int)
      requires Valid()
      ensures pid == Jobs.FgPid(jobs[..])
    {
      for i := 0 to MaxJobs
        invariant forall k :: 0 <= k < i ==> jobs[k].state != Foreground
      {
        if jobs[i].state == Foreground {
          FirstWithIs(jobs[..], StateField, Foreground, i);
          return jobs[i].pid;
        }
      }
      return 0;
    }

    /** getjobpid: the slot of the first job with this pid (None for NULL). */
    method GetJobPid(pid: int) returns (slot: Option<nat>)
      requires Valid()
      ensures slot == JobWithPid(jobs[..], pid)
    {
      if pid < 1 {
        return None;
      }
      for i := 0 to MaxJobs
        invariant forall k :: 0 <= k < i ==> jobs[k].pid != pid
      {
        if jobs[i].pid == pid {
          FirstWithIs(jobs[..], PidField, pid, i);
          return Some(i);
        }
      }
      return None;
    }

    /** getjobjid: the slot of the first job with this jid (None for NULL). */
    method GetJobJid(jid: int) returns (slot: Option<nat>)
      requires Valid()
      ensures slot == JobWithJid(jobs[..], jid)
    {
      if jid < 1 {
        return None;
      }
      for i := 0 to MaxJobs
        invariant forall k :: 0 <= k < i ==> jobs[k].jid != jid
      {
        if jobs[i].jid == jid {
          FirstWithIs(jobs[..], JidField, jid, i);
          return Some(i);
        }
      }
      return None;
    }

    /** pid2jid: the jid of the first job with this pid, 0 if there is none. */
    method Pid2Jid(pid: int) returns (jid: int)
      requires Valid()
      ensures jid == Jobs.Pid2Jid(jobs[..], pid)
    {
      if pid < 1 {
        return 0;
      }
      for i := 0 to MaxJobs
        invariant forall k :: 0 <= k < i ==> jobs[k].pid != pid
      {
        if jobs[i].pid == pid {
          FirstWithIs(jobs[..], PidField, pid, i);
          return jobs[i].jid;
        }
      }
      return 0;
    }

    /** listjobs: prints the line of every occupied slot, in slot order. */
    method ListJobs()
      requires Valid()
      modifies this`out
      ensures out == old(out) + Listing(jobs[..])
    {
      for i := 0 to MaxJobs
        invariant out == old(out) + ListingUpTo(jobs[..], i, JobLine)
      {
        if jobs[i].pid != 0 {
          PrintSlot(i);
          AppendAssoc(old(out), ListingUpTo(jobs[..], i, JobLine), JobLine(i, jobs[i]));
        } else {
          assert ListingUpTo(jobs[..], i + 1, JobLine) == ListingUpTo(jobs[..], i, JobLine) + [];
        }
      }
    }

    /** The body of listjobs' loop for an occupied slot: three printf calls. */
    method PrintSlot(i: nat)
      requires Valid() && i < jobs.Length
      modifies this`out
      ensures out == old(out) + JobLine(i, jobs[i])
    {
      ghost var head, tag, cmd := LineHead(jobs[i]), StateLabel(i, jobs[i].state), jobs[i].cmdline;
      out := out + LineHead(jobs[i]);
      if jobs[i].state == Background {
        out := out + "Running ";
      } else if jobs[i].state == Foreground {
        out := out + "Foreground ";
      } else if jobs[i].state == Stopped {
        out := out + "Stopped ";
      } else {
        out := out + ("listjobs: Internal error: job[" + Decimal(i) + "].state=" + Decimal(jobs[i].state) + " ");
      }
      assert out == old(out) + head + tag;
      out := out + jobs[i].cmdline;
      AppendAssoc(old(out), head, tag);
      AppendAssoc(old(out), head + tag, cmd);
    }
  }
}
